/** collection/slices/wslice.go: parallel slices of objects and weights sorted
    together, heaviest first, and the stable sort that acts on them through Less
    and Swap only. */
module WeightedSlices {
  import opened Connectivity

  /** Position k comes before position l in the stable descending order. */
  predicate Before(w: seq<real>, k: nat, l: nat) {
    k < |w| && l < |w| && (w[k] > w[l] || (w[k] == w[l] && k < l))
  }

  /** perm lists the original positions in the stable descending order of w.  There
      is only one such list: Before is a strict total order on positions. */
  ghost predicate StableOrder(w: seq<real>, perm: seq<nat>) {
    && |perm| == |w|
    && (forall i :: 0 <= i < |perm| ==> perm[i] < |w|)
    && (forall i, j :: 0 <= i < j < |perm| ==> Before(w, perm[i], perm[j]))
  }

  ghost predicate Arranged<T>(was: seq<T>, now: seq<T>, perm: seq<nat>) {
    |now| == |was| == |perm| && forall i :: 0 <= i < |perm| ==> perm[i] < |was| && now[i] == was[perm[i]]
  }

  /** Nothing is lost: every position occurs in the order. */
  lemma Covers(w: seq<real>, perm: seq<nat>, k: nat)
    requires StableOrder(w, perm) && k < |w|
    ensures k in perm
  {
    var used := Used(w, perm, |perm|);
    if k !in perm {
      assert used <= Below(|w|) - {k};
      Smaller(used, Below(|w|) - {k});
    }
  }

  lemma {:induction false} Used(w: seq<real>, perm: seq<nat>, n: nat) returns (used: set<nat>)
    requires StableOrder(w, perm) && n <= |perm|
    ensures |used| == n && forall x :: x in used <==> x in perm[..n]
  {
    if n == 0 {
      used := {};
    } else {
      used := Used(w, perm, n - 1);
      assert perm[..n] == perm[..n - 1] + [perm[n - 1]];
      forall i | 0 <= i < n - 1 ensures perm[i] != perm[n - 1] {
        assert Before(w, perm[i], perm[n - 1]);
      }
      used := used + {perm[n - 1]};
    }
  }

  lemma NotEarlier(w: seq<real>, p: seq<nat>, q: seq<nat>, i: nat)
    requires StableOrder(w, p) && StableOrder(w, q) && i < |w|
    requires forall k :: 0 <= k < i ==> q[k] == p[k]
    ensures !Before(w, p[i], q[i])
  {
    Covers(w, q, p[i]);
  }

  /** The stable order is unique, so a stable sort is a function of its input. */
  lemma {:induction false} UniqueOrder(w: seq<real>, p: seq<nat>, q: seq<nat>, n: nat)
    requires StableOrder(w, p) && StableOrder(w, q) && n <= |w|
    ensures forall k :: 0 <= k < n ==> q[k] == p[k]
  {
    if n > 0 {
      UniqueOrder(w, p, q, n - 1);
      NotEarlier(w, p, q, n - 1);
      NotEarlier(w, q, p, n - 1);
    }
  }

  class WeightedSlice<O> {
    var objects: array<O>
    var weights: array<real>

    ghost predicate Valid()
      reads this
    {
      objects.Length == weights.Length && objects as object != weights
    }

    /** Shares the two slices with the caller. */
    constructor (objects: array<O>, weights: array<real>)
      requires objects.Length == weights.Length && objects as object != weights
      ensures Valid() && this.objects == objects && this.weights == weights
    {
      this.objects, this.weights := objects, weights;
    }

    predicate Less(i: nat, j: nat)
      requires i < weights.Length && j < weights.Length
      reads this, weights
    {
      weights[i] > weights[j]
    }

    method Swap(i: nat, j: nat)
      requires Valid() && i < objects.Length && j < objects.Length
      modifies objects, weights
      ensures objects[..] == old(objects[..][i := objects[j]][j := objects[i]])
      ensures weights[..] == old(weights[..][i := weights[j]][j := weights[i]])
    {
      weights[i], weights[j] := weights[j], weights[i];
      objects[i], objects[j] := objects[j], objects[i];
    }

    method Append(item: O, weight: real)
      requires Valid()
      modifies this
      ensures Valid() && fresh(objects) && fresh(weights)
      ensures objects[..] == old(objects[..]) + [item]
      ensures weights[..] == old(weights[..]) + [weight]
    {
      var n := objects.Length;
      var os, ws := objects[..] + [item], weights[..] + [weight];
      objects := new O[n + 1](i requires 0 <= i < |os| => os[i]);
      weights := new real[n + 1](i requires 0 <= i < |ws| => ws[i]);
      assert objects[..] == os && weights[..] == ws;
    }

    /** sort.Stable on this slice: insertion by adjacent swaps. */
    method SortStable() returns (ghost perm: seq<nat>)
      requires Valid()
      modifies objects, weights
      ensures StableOrder(old(weights[..]), perm)
      ensures Arranged(old(objects[..]), objects[..], perm)
      ensures Arranged(old(weights[..]), weights[..], perm)
    {
      var n := objects.Length;
      ghost var os, ws := objects[..], weights[..];
      perm := seq(n, i => i);
      for i := 0 to n
        invariant Both(os, ws, objects[..], weights[..], perm)
        invariant SortedUpTo(ws, perm, i)
      {
        perm := SinkDown(i, os, ws, perm);
      }
    }

    /** One round of insertion: the object at i sinks below every lighter one. */
    method SinkDown(i: nat, ghost os: seq<O>, ghost ws: seq<real>, ghost was: seq<nat>)
      returns (ghost perm: seq<nat>)
      requires Valid() && i < objects.Length
      requires Both(os, ws, objects[..], weights[..], was) && SortedUpTo(ws, was, i)
      modifies objects, weights
      ensures Both(os, ws, objects[..], weights[..], perm) && SortedUpTo(ws, perm, i + 1)
    {
      var j: nat := i;
      perm := was;
      while j > 0 && Less(j, j - 1)
        invariant Both(os, ws, objects[..], weights[..], perm)
        invariant j <= i && Sinking(ws, perm, i, j)
      {
        BothSwap(os, ws, objects[..], weights[..], perm, i, j);
        Swap(j, j - 1);
        perm := perm[j := perm[j - 1]][j - 1 := perm[j]];
        j := j - 1;
      }
    }
  }

  ghost predicate Both<T>(os: seq<T>, ws: seq<real>, objects: seq<T>, weights: seq<real>, perm: seq<nat>) {
    Arranged(os, objects, perm) && Arranged(ws, weights, perm)
  }

  lemma BothSwap<T>(os: seq<T>, ws: seq<real>, objects: seq<T>, weights: seq<real>, perm: seq<nat>, i: nat, j: nat)
    requires Both(os, ws, objects, weights, perm) && Sinking(ws, perm, i, j) && j > 0 && weights[j] > weights[j - 1]
    ensures var perm' := perm[j := perm[j - 1]][j - 1 := perm[j]];
            && Both(os, ws, objects[j := objects[j - 1]][j - 1 := objects[j]],
                    weights[j := weights[j - 1]][j - 1 := weights[j]], perm')
            && Sinking(ws, perm', i, j - 1)
  {
  }

  /** The first i entries are the first i positions, in order. */
  ghost predicate SortedUpTo(w: seq<real>, perm: seq<nat>, i: nat) {
    && |perm| == |w| && i <= |w|
    && (forall k :: 0 <= k < i ==> perm[k] < i)
    && (forall k :: i <= k < |w| ==> perm[k] == k)
    && (forall a, b :: 0 <= a < b < i ==> Before(w, perm[a], perm[b]))
  }

  /** Position i has sunk to entry j; all the others are in order, and it comes
      before those it has passed. */
  ghost predicate Sinking(w: seq<real>, perm: seq<nat>, i: nat, j: nat) {
    && |perm| == |w| && j <= i < |w| && perm[j] == i
    && (forall k :: 0 <= k <= i && k != j ==> perm[k] < i)
    && (forall k :: i < k < |w| ==> perm[k] == k)
    && (forall a, b :: 0 <= a < b <= i && a != j && b != j ==> Before(w, perm[a], perm[b]))
    && (forall b :: j < b <= i ==> Before(w, i, perm[b]))
  }

}
