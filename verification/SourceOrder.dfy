/** Sorting by a list of preferred providers, and the first record that has a value:
    the list operations behind merge in actor-resolver/resolver.py. */
module SourceOrder {
  import opened Options

  /** A field of a record: missing or None, a string, or a number. */
  datatype Value = Missing | Text(text: string) | Number(n: int)

  /** The fields merge copies, and the date of birth. */
  datatype Field = DebutDate | DebutTitle | AppearancePeriod | BloodType | CupSize | Measurements
                 | Nationality | Height | Hobby | Skill | Summary | Sign | Birthday

  datatype Detail = Detail(provider: string, id: string, name: string, homepage: string,
                           aliases: seq<string>, images: seq<string>, tags: seq<string>,
                           fields: map<Field, Value>)
  {
    function Get(field: Field): Value {
      if field in fields then fields[field] else Missing
    }
  }

  predicate Filled(v: Value) {
    v != Missing && v != Text("") && v != Number(0)
  }

  // ---- the sort ----

  /** The place of a provider in a list, or the list's length. */
  function Index(order: seq<string>, provider: string): nat {
    if order == [] || order[0] == provider then 0 else 1 + Index(order[1..], provider)
  }

  /** sorted: insertion behind the records of equal rank. */
  function Sorted(order: seq<string>, s: seq<Detail>): seq<Detail> {
    if s == [] then [] else Insert(order, Sorted(order, s[..|s| - 1]), s[|s| - 1])
  }

  function Insert(order: seq<string>, s: seq<Detail>, x: Detail): seq<Detail> {
    if s == [] || Index(order, s[|s| - 1].provider) <= Index(order, x.provider) then s + [x]
    else Insert(order, s[..|s| - 1], x) + [s[|s| - 1]]
  }

  function Rank(order: seq<string>, d: Detail): nat {
    Index(order, d.provider)
  }

  ghost predicate UpTo(order: seq<string>, s: seq<Detail>, bound: nat) {
    forall x :: x in s ==> Rank(order, x) <= bound
  }

  ghost predicate Ascending(order: seq<string>, s: seq<Detail>) {
    s != [] ==> Ascending(order, s[..|s| - 1]) && UpTo(order, s[..|s| - 1], Rank(order, s[|s| - 1]))
  }

  lemma Bag(s: seq<Detail>)
    requires s != []
    ensures multiset(s) == multiset(s[..|s| - 1]) + multiset{s[|s| - 1]}
  {
    assert s == s[..|s| - 1] + [s[|s| - 1]];
  }

  lemma SameMembers(s: seq<Detail>, t: seq<Detail>, x: Detail)
    requires multiset(s) == multiset(t)
    ensures x in s <==> x in t
  {
    assert x in s <==> x in multiset(s);
  }

  lemma {:induction false} InsertKeeps(order: seq<string>, s: seq<Detail>, x: Detail)
    ensures multiset(Insert(order, s, x)) == multiset(s) + multiset{x}
  {
    if s != [] && Rank(order, s[|s| - 1]) > Rank(order, x) {
      InsertKeeps(order, s[..|s| - 1], x);
      Bag(s);
    }
  }

  lemma {:induction false} InsertAscends(order: seq<string>, s: seq<Detail>, x: Detail)
    requires Ascending(order, s)
    ensures Ascending(order, Insert(order, s, x))
  {
    if s != [] {
      var front, last := s[..|s| - 1], s[|s| - 1];
      if Rank(order, last) > Rank(order, x) {
        InsertAscends(order, front, x);
        InsertKeeps(order, front, x);
        var t := Insert(order, front, x);
        forall y | y in t ensures Rank(order, y) <= Rank(order, last) {
          assert y in multiset(t);
        }
      } else {
        assert s == front + [last];
      }
    }
  }

  lemma {:induction false} SortedMeaning(order: seq<string>, s: seq<Detail>)
    ensures multiset(Sorted(order, s)) == multiset(s)
    ensures Ascending(order, Sorted(order, s))
  {
    if s != [] {
      var front, last := s[..|s| - 1], s[|s| - 1];
      SortedMeaning(order, front);
      InsertKeeps(order, Sorted(order, front), last);
      InsertAscends(order, Sorted(order, front), last);
      Bag(s);
    }
  }

  /** The records of one rank, in order. */
  function AtRank(order: seq<string>, s: seq<Detail>, r: nat): seq<Detail> {
    if s == [] then []
    else AtRank(order, s[..|s| - 1], r) + if Rank(order, s[|s| - 1]) == r then [s[|s| - 1]] else []
  }

  lemma {:induction false} InsertStable(order: seq<string>, s: seq<Detail>, x: Detail, r: nat)
    ensures AtRank(order, Insert(order, s, x), r) == AtRank(order, s, r) + if Rank(order, x) == r then [x] else []
  {
    if s == [] || Rank(order, s[|s| - 1]) <= Rank(order, x) {
    } else {
      var front, last := s[..|s| - 1], s[|s| - 1];
      InsertStable(order, front, x, r);
    }
  }

  /** The sort is stable: records of one rank keep their order of arrival. */
  lemma {:induction false} SortStable(order: seq<string>, s: seq<Detail>, r: nat)
    ensures AtRank(order, Sorted(order, s), r) == AtRank(order, s, r)
  {
    if s != [] {
      var front, last := s[..|s| - 1], s[|s| - 1];
      SortStable(order, front, r);
      InsertStable(order, Sorted(order, front), last, r);
    }
  }

  // ---- independence of arrival ----

  /** Records of equal rank are equal.  Distinct providers that are all in the source
      order are one case (DistinctSourcesTell). */
  ghost predicate RanksTell(order: seq<string>, s: seq<Detail>) {
    forall x, y :: x in s && y in s && Rank(order, x) == Rank(order, y) ==> x == y
  }

  lemma SameLast(order: seq<string>, a: seq<Detail>, b: seq<Detail>)
    requires multiset(a) == multiset(b) && Ascending(order, a) && Ascending(order, b) && RanksTell(order, a)
    requires a != [] && b != []
    ensures a[|a| - 1] == b[|b| - 1]
  {
    var x, y := a[|a| - 1], b[|b| - 1];
    SameMembers(a, b, x);
    SameMembers(a, b, y);
  }

  lemma Fronts(order: seq<string>, a: seq<Detail>, b: seq<Detail>)
    requires a != [] && b != [] && multiset(a) == multiset(b) && a[|a| - 1] == b[|b| - 1] && RanksTell(order, a)
    ensures multiset(a[..|a| - 1]) == multiset(b[..|b| - 1]) && RanksTell(order, a[..|a| - 1])
  {
    Bag(a);
    Bag(b);
    assert multiset(a[..|a| - 1]) == multiset(a) - multiset{a[|a| - 1]} == multiset(b[..|b| - 1]);
  }

  lemma {:induction false} OneAscent(order: seq<string>, a: seq<Detail>, b: seq<Detail>)
    requires multiset(a) == multiset(b) && Ascending(order, a) && Ascending(order, b) && RanksTell(order, a)
    ensures a == b
    decreases |a|
  {
    if a == [] || b == [] {
      assert |a| == |multiset(a)| == |multiset(b)| == |b|;
    } else {
      SameLast(order, a, b);
      Fronts(order, a, b);
      OneAscent(order, a[..|a| - 1], b[..|b| - 1]);
    }
  }

  lemma OneSort(order: seq<string>, s: seq<Detail>, t: seq<Detail>)
    requires RanksTell(order, s) && multiset(t) == multiset(s)
    ensures Sorted(order, t) == Sorted(order, s)
  {
    SortedMeaning(order, s);
    SortedMeaning(order, t);
    forall x | x in Sorted(order, s) ensures x in s {
      SameMembers(s, Sorted(order, s), x);
    }
    OneAscent(order, Sorted(order, s), Sorted(order, t));
  }

  lemma TiesKeepArrival(order: seq<string>, rest: seq<Detail>, x: Detail, y: Detail)
    requires Rank(order, x) == Rank(order, y)
    ensures var r := Rank(order, x);
            AtRank(order, Sorted(order, rest + [x, y]), r) == AtRank(order, rest, r) + [x, y]
  {
    var r, t := Rank(order, x), rest + [x, y];
    assert t == (rest + [x]) + [y];
    SortStable(order, t, r);
  }

  lemma TwoSorts(order: seq<string>, s: seq<Detail>, x: Detail, y: Detail) returns (t: seq<Detail>, u: seq<Detail>)
    requires x in s && y in s && Rank(order, x) == Rank(order, y) && x != y
    ensures multiset(t) == multiset(s) == multiset(u) && Sorted(order, t) != Sorted(order, u)
  {
    var rest := Without(s, x, y);
    TiesKeepArrival(order, rest, x, y);
    TiesKeepArrival(order, rest, y, x);
    t, u := rest + [x, y], rest + [y, x];
    var n := |AtRank(order, rest, Rank(order, x))|;
    assert AtRank(order, Sorted(order, t), Rank(order, x))[n] == x;
    assert AtRank(order, Sorted(order, u), Rank(order, x))[n] == y;
  }

  lemma Drop(s: seq<Detail>, x: Detail) returns (t: seq<Detail>)
    requires x in s
    ensures multiset(s) == multiset(t) + multiset{x}
  {
    var i :| 0 <= i < |s| && s[i] == x;
    assert s == s[..i] + [x] + s[i + 1..];
    t := s[..i] + s[i + 1..];
  }

  lemma Without(s: seq<Detail>, x: Detail, y: Detail) returns (rest: seq<Detail>)
    requires x in s && y in s && x != y
    ensures multiset(rest + [x, y]) == multiset(s) && multiset(rest + [y, x]) == multiset(s)
  {
    var t := Drop(s, x);
    assert y in multiset(s);
    rest := Drop(t, y);
    assert multiset([x, y]) == multiset{x, y} == multiset([y, x]);
  }

  /** Sorting forgets the order of arrival exactly when records of equal rank are
      equal. */
  lemma SortForgetsArrival(order: seq<string>, s: seq<Detail>)
    ensures RanksTell(order, s) <==>
            forall t :: multiset(t) == multiset(s) ==> Sorted(order, t) == Sorted(order, s)
  {
    if RanksTell(order, s) {
      forall t: seq<Detail> | multiset(t) == multiset(s) ensures Sorted(order, t) == Sorted(order, s) {
        OneSort(order, s, t);
      }
    } else {
      var x, y :| x in s && y in s && Rank(order, x) == Rank(order, y) && x != y;
      var t, u := TwoSorts(order, s, x, y);
    }
  }

  lemma {:induction false} IndexTells(order: seq<string>, p: string, q: string)
    ensures Index(order, p) < |order| && Index(order, p) == Index(order, q) ==> p == q
    ensures p in order ==> Index(order, p) < |order|
  {
    if order != [] {
      IndexTells(order[1..], p, q);
    }
  }

  /** A provider ranks by its first place in the list, one that is missing behind all. */
  lemma {:induction false} IndexMeaning(order: seq<string>, p: string)
    ensures Index(order, p) <= |order| && (Index(order, p) < |order| ==> order[Index(order, p)] == p)
    ensures forall j :: 0 <= j < Index(order, p) ==> order[j] != p
  {
    if order != [] && order[0] != p {
      IndexMeaning(order[1..], p);
      assert forall j :: 0 < j < |order| ==> order[j] == order[1..][j - 1];
    }
  }

  lemma DistinctSourcesTell(order: seq<string>, s: seq<Detail>)
    requires forall i :: 0 <= i < |s| ==> s[i].provider in order
    requires forall i, j :: 0 <= i < j < |s| ==> s[i].provider != s[j].provider
    ensures RanksTell(order, s)
  {
    forall x, y | x in s && y in s && Rank(order, x) == Rank(order, y) ensures x == y {
      IndexTells(order, x.provider, y.provider);
    }
  }

  // ---- the first record with a value ----

  /** first_date's reading of a field: the leading yyyy-mm-dd, unless the year is 0001. */
  function IsoDate(v: Value): string {
    if v.Text? && |v.text| >= 10 && IsDate(v.text) && v.text[..4] != "0001" then v.text[..10] else ""
  }

  predicate IsDate(s: string)
    requires |s| >= 10
  {
    forall i :: 0 <= i < 10 ==> if i == 4 || i == 7 then s[i] == '-' else '0' <= s[i] <= '9'
  }

  predicate Digits(s: string, n: nat) {
    |s| == n && forall i :: 0 <= i < n ==> '0' <= s[i] <= '9'
  }

  /** The text starts with a date of the form yyyy-mm-dd. */
  ghost predicate StartsWithDate(s: string, y: string, m: string, d: string, rest: string) {
    Digits(y, 4) && Digits(m, 2) && Digits(d, 2) && s == y + "-" + m + "-" + d + rest
  }

  /** A text that starts with a date reads as that date, but for the year 0001. */
  lemma DateRead(s: string, y: string, m: string, d: string, rest: string)
    requires StartsWithDate(s, y, m, d, rest)
    ensures IsoDate(Text(s)) == if y == "0001" then "" else y + "-" + m + "-" + d
  {
    assert s[..4] == y && s[..10] == y + "-" + m + "-" + d;
    assert s[4] == '-' && s[7] == '-';
    forall i | 0 <= i < 10 ensures if i == 4 || i == 7 then s[i] == '-' else '0' <= s[i] <= '9' {
      assert s[i] == if i < 4 then y[i] else if i == 4 then '-' else if i < 7 then m[i - 5]
                     else if i == 7 then '-' else d[i - 8];
    }
  }

  /** Nothing else reads as a date. */
  lemma OnlyDatesRead(v: Value) returns (y: string, m: string, d: string, rest: string)
    requires IsoDate(v) != ""
    ensures v.Text? && StartsWithDate(v.text, y, m, d, rest) && y != "0001"
  {
    var s := v.text;
    y, m, d, rest := s[..4], s[5..7], s[8..10], s[10..];
    assert s == y + "-" + m + "-" + d + rest;
  }

  /** What a reader looks for: any value of a field, or a date in it. */
  datatype Wanted = Any(field: Field) | Date(field: Field)

  function Read(w: Wanted, d: Detail): Value {
    if w.Any? then d.Get(w.field) else Text(IsoDate(d.Get(w.field)))
  }

  predicate Has(w: Wanted, d: Detail) {
    Filled(Read(w, d))
  }

  /** first and first_date: the first record that has a value. */
  function First(w: Wanted, s: seq<Detail>): Option<Detail> {
    if s == [] then None else if Has(w, s[0]) then Some(s[0]) else First(w, s[1..])
  }

  /** s[i] is the preferred source: of the records that have a value it has the least
      rank, and within that rank it arrived first. */
  ghost predicate Preferred(order: seq<string>, w: Wanted, s: seq<Detail>, i: nat) {
    && i < |s| && Has(w, s[i])
    && forall j :: 0 <= j < |s| && Has(w, s[j]) ==>
         Rank(order, s[i]) < Rank(order, s[j]) || (Rank(order, s[i]) == Rank(order, s[j]) && i <= j)
  }

  lemma {:induction false} FirstSnoc(w: Wanted, s: seq<Detail>, x: Detail)
    ensures First(w, s + [x]) == if First(w, s).Some? then First(w, s) else if Has(w, x) then Some(x) else None
    ensures First(w, s).Some? ==> First(w, s).value in s && Has(w, First(w, s).value)
  {
    if s == [] {
      assert [x][1..] == [];
    } else {
      assert (s + [x])[1..] == s[1..] + [x];
      FirstSnoc(w, s[1..], x);
    }
  }

  /** The better of the record found so far and one more. */
  function Better(order: seq<string>, w: Wanted, f: Option<Detail>, x: Detail): Option<Detail> {
    if Has(w, x) && (f.None? || Rank(order, x) < Rank(order, f.value)) then Some(x) else f
  }

  lemma {:induction false} FirstOfInsert(order: seq<string>, w: Wanted, s: seq<Detail>, x: Detail)
    requires Ascending(order, s)
    ensures First(w, Insert(order, s, x)) == Better(order, w, First(w, s), x)
    decreases |s|
  {
    FirstSnoc(w, s, x);
    if s != [] {
      var front, last := s[..|s| - 1], s[|s| - 1];
      assert s == front + [last];
      FirstSnoc(w, front, last);
      if Rank(order, last) > Rank(order, x) {
        FirstOfInsert(order, w, front, x);
        FirstSnoc(w, Insert(order, front, x), last);
      }
    }
  }

  ghost predicate Nobody(w: Wanted, s: seq<Detail>) {
    forall j :: 0 <= j < |s| ==> !Has(w, s[j])
  }

  /** f is the preferred source, or None when no record has a value. */
  ghost predicate Finds(order: seq<string>, w: Wanted, s: seq<Detail>, f: Option<Detail>) {
    if f.Some? then exists i: nat :: Preferred(order, w, s, i) && f.value == s[i] else Nobody(w, s)
  }

  lemma FindsSnoc(order: seq<string>, w: Wanted, s: seq<Detail>, x: Detail, f: Option<Detail>)
    requires Finds(order, w, s, f)
    ensures Finds(order, w, s + [x], Better(order, w, f, x))
  {
    var t := s + [x];
    if f.Some? {
      var i: nat :| Preferred(order, w, s, i) && f.value == s[i];
      PreferredSnoc(order, w, s, x, i);
    } else if Has(w, x) {
      assert t[|s|] == x;
      assert Preferred(order, w, t, |s|);
    }
  }

  lemma PreferredSnoc(order: seq<string>, w: Wanted, s: seq<Detail>, x: Detail, i: nat)
    requires Preferred(order, w, s, i)
    ensures if Has(w, x) && Rank(order, x) < Rank(order, s[i]) then Preferred(order, w, s + [x], |s|)
            else Preferred(order, w, s + [x], i)
  {
  }

  lemma FirstOfNextSort(order: seq<string>, w: Wanted, s: seq<Detail>)
    requires s != []
    ensures First(w, Sorted(order, s)) == Better(order, w, First(w, Sorted(order, s[..|s| - 1])), s[|s| - 1])
  {
    SortedMeaning(order, s[..|s| - 1]);
    FirstOfInsert(order, w, Sorted(order, s[..|s| - 1]), s[|s| - 1]);
  }

  /** The first value in the sorted list comes from the preferred source, and there is
      none only when no record has one. */
  lemma {:induction false} FirstIsPreferred(order: seq<string>, w: Wanted, s: seq<Detail>)
    ensures Finds(order, w, s, First(w, Sorted(order, s)))
  {
    if s != [] {
      var front, x := s[..|s| - 1], s[|s| - 1];
      FirstIsPreferred(order, w, front);
      FirstOfNextSort(order, w, s);
      FindsSnoc(order, w, front, x, First(w, Sorted(order, front)));
      assert s == front + [x];
    }
  }
}
