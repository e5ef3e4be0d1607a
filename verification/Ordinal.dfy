/** Ordinal string order: compare code units from the left, a proper prefix first. */
module Ordinal {

  predicate Less(a: string, b: string) {
    if b == [] then false
    else if a == [] then true
    else a[0] < b[0] || (a[0] == b[0] && Less(a[1..], b[1..]))
  }

  /** a comes before b at place i: up to it they agree, and there a ends or has the
      smaller code unit. */
  ghost predicate BeforeAt(a: string, b: string, i: nat) {
    i <= |a| && i < |b| && a[..i] == b[..i] && (i == |a| || a[i] < b[i])
  }

  lemma {:induction false} LessMeaning(a: string, b: string)
    ensures Less(a, b) <==> exists i :: BeforeAt(a, b, i)
  {
    if b != [] {
      if a == [] {
        assert BeforeAt(a, b, 0);
      } else if a[0] != b[0] {
        assert a[0] < b[0] ==> BeforeAt(a, b, 0);
        forall i: nat | BeforeAt(a, b, i) ensures a[0] < b[0] {
          assert i > 0 ==> a[..i][0] == b[..i][0];
        }
      } else {
        LessMeaning(a[1..], b[1..]);
        forall i: nat ensures i > 0 ==> (BeforeAt(a, b, i) <==> BeforeAt(a[1..], b[1..], i - 1)) {
          BeforeAtTail(a, b, i);
        }
        if i: nat :| BeforeAt(a[1..], b[1..], i) {
          assert BeforeAt(a, b, i + 1);
        }
      }
    }
  }

  lemma BeforeAtTail(a: string, b: string, i: nat)
    requires a != [] && b != [] && a[0] == b[0]
    ensures !BeforeAt(a, b, 0)
    ensures i > 0 ==> (BeforeAt(a, b, i) <==> BeforeAt(a[1..], b[1..], i - 1))
  {
    if 0 < i <= |a| && i < |b| {
      assert a[..i] == [a[0]] + a[1..][..i - 1] && b[..i] == [b[0]] + b[1..][..i - 1];
      assert a[..i][1..] == a[1..][..i - 1] && b[..i][1..] == b[1..][..i - 1];
    }
  }

  lemma {:induction false} Irreflexive(a: string)
    ensures !Less(a, a)
  {
    if a != [] {
      Irreflexive(a[1..]);
    }
  }

  lemma {:induction false} Transitive(a: string, b: string, c: string)
    requires Less(a, b) && Less(b, c)
    ensures Less(a, c)
  {
    if a != [] && a[0] == b[0] == c[0] {
      Transitive(a[1..], b[1..], c[1..]);
    }
  }

  lemma {:induction false} Total(a: string, b: string)
    ensures a == b || Less(a, b) || Less(b, a)
  {
    if a != [] && b != [] && a[0] == b[0] {
      Total(a[1..], b[1..]);
      assert a == [a[0]] + a[1..] && b == [b[0]] + b[1..];
    }
  }

  lemma Asymmetric(a: string, b: string)
    requires Less(a, b)
    ensures a != b && !Less(b, a)
  {
    Irreflexive(a);
    if Less(b, a) {
      Transitive(a, b, a);
    }
  }

  ghost predicate StrictlySorted(keys: seq<string>) {
    forall i, j :: 0 <= i < j < |keys| ==> Less(keys[i], keys[j])
  }

  lemma SortedDistinct(keys: seq<string>)
    requires StrictlySorted(keys)
    ensures forall i, j :: 0 <= i < j < |keys| ==> keys[i] != keys[j]
  {
    forall i, j | 0 <= i < j < |keys| ensures keys[i] != keys[j] {
      Irreflexive(keys[i]);
    }
  }
}
