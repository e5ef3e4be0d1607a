/** collection/sets/orderedset.go: a set keyed by a hash that keeps the position of
    the first value added under a key and the value of the last. */
module OrderedSets {

  /** The insertion-ordered map underneath: keys in order of first insertion. */
  datatype Ordered<K, V> = Ordered(order: seq<K>, m: map<K, V>)

  ghost predicate WellKeyed<K, V>(o: Ordered<K, V>) {
    && (forall k :: k in o.m ==> k in o.order)
    && (forall i :: 0 <= i < |o.order| ==> o.order[i] in o.m)
    && (forall i, j :: 0 <= i < j < |o.order| ==> o.order[i] != o.order[j])
  }

  function Set<K(==), V>(o: Ordered<K, V>, k: K, v: V): Ordered<K, V>
  {
    Ordered(if k in o.m then o.order else o.order + [k], o.m[k := v])
  }

  /** Where a key stands in the order, the number of keys when absent. */
  function IndexOf<K(==)>(order: seq<K>, k: K): (i: nat)
    ensures i <= |order| && (i < |order| <==> k in order) && (i < |order| ==> order[i] == k)
  {
    if order == [] then 0 else if order[0] == k then 0 else 1 + IndexOf(order[1..], k)
  }

  function Delete<K(==), V>(o: Ordered<K, V>, k: K): Ordered<K, V>
  {
    var i := IndexOf(o.order, k);
    Ordered(if i < |o.order| then o.order[..i] + o.order[i + 1..] else o.order, o.m - {k})
  }

  function AddAll<K(==), V>(h: V -> K, o: Ordered<K, V>, items: seq<V>): Ordered<K, V>
  {
    if items == [] then o
    else Set(AddAll(h, o, items[..|items| - 1]), h(items[|items| - 1]), items[|items| - 1])
  }

  function DelAll<K(==), V>(h: V -> K, o: Ordered<K, V>, items: seq<V>): Ordered<K, V>
  {
    if items == [] then o
    else Delete(DelAll(h, o, items[..|items| - 1]), h(items[|items| - 1]))
  }

  lemma DeleteWellKeyed<K, V>(o: Ordered<K, V>, k: K)
    requires WellKeyed(o)
    ensures WellKeyed(Delete(o, k)) && k !in Delete(o, k).order
  {
    var i := IndexOf(o.order, k);
    if i < |o.order| {
      var rest := o.order[..i] + o.order[i + 1..];
      RemoveAt(o.order, rest, i);
      forall x | x in o.m - {k} ensures x in rest {
        assert x in o.order;
      }
      forall j | 0 <= j < |rest| ensures rest[j] in o.m - {k} {
        assert rest[j] == o.order[if j < i then j else j + 1];
      }
    }
  }

  lemma RemoveAt<K>(order: seq<K>, rest: seq<K>, i: nat)
    requires i < |order| && rest == order[..i] + order[i + 1..]
    requires forall a, b :: 0 <= a < b < |order| ==> order[a] != order[b]
    ensures forall a, b :: 0 <= a < b < |rest| ==> rest[a] != rest[b]
    ensures order[i] !in rest
    ensures forall j :: 0 <= j < |order| && j != i ==> order[j] in rest
  {
    forall j | 0 <= j < |order| && j != i ensures order[j] in rest {
      assert rest[if j < i then j else j - 1] == order[j];
    }
  }

  lemma {:induction false} AddAllWellKeyed<K, V>(h: V -> K, o: Ordered<K, V>, items: seq<V>)
    requires WellKeyed(o)
    ensures WellKeyed(AddAll(h, o, items))
  {
    if items != [] {
      AddAllWellKeyed(h, o, items[..|items| - 1]);
    }
  }

  lemma {:induction false} DelAllWellKeyed<K, V>(h: V -> K, o: Ordered<K, V>, items: seq<V>)
    requires WellKeyed(o)
    ensures WellKeyed(DelAll(h, o, items))
  {
    if items != [] {
      DelAllWellKeyed(h, o, items[..|items| - 1]);
      DeleteWellKeyed(DelAll(h, o, items[..|items| - 1]), h(items[|items| - 1]));
    }
  }

  function Values<K, V>(o: Ordered<K, V>): (r: seq<V>)
    requires forall k :: k in o.order ==> k in o.m
    ensures |r| == |o.order| && forall i :: 0 <= i < |r| ==> r[i] == o.m[o.order[i]]
  {
    seq(|o.order|, i requires 0 <= i < |o.order| => o.m[o.order[i]])
  }

  class OrderedSet<K(==), V> {
    const h: V -> K
    var order: seq<K>
    var m: map<K, V>

    ghost function Contents(): Ordered<K, V>
      reads this
    {
      Ordered(order, m)
    }

    ghost predicate Valid()
      reads this
    {
      WellKeyed(Contents())
    }

    constructor (hash: V -> K)
      ensures Valid() && h == hash && Contents() == Ordered([], map[])
    {
      h, order, m := hash, [], map[];
    }

    method Add(items: seq<V>)
      requires Valid()
      modifies this
      ensures Valid() && Contents() == AddAll(h, old(Contents()), items)
    {
      for i := 0 to |items|
        invariant Contents() == AddAll(h, old(Contents()), items[..i])
      {
        assert items[..i + 1][..i] == items[..i];
        var k := h(items[i]);
        if k !in m {
          order := order + [k];
        }
        m := m[k := items[i]];
      }
      assert items[..|items|] == items;
      AddAllWellKeyed(h, old(Contents()), items);
    }

    method Del(items: seq<V>)
      requires Valid()
      modifies this
      ensures Valid() && Contents() == DelAll(h, old(Contents()), items)
      // the keys of the items go, the others keep their values and their order
      ensures forall k :: k in m <==> k in old(m) && k !in KeysOf(h, items)
      ensures forall k :: k in m ==> m[k] == old(m)[k]
      ensures order == Remaining(old(order), KeysOf(h, items))
    {
      ghost var before := Contents();
      for i := 0 to |items|
        invariant Contents() == DelAll(h, before, items[..i])
      {
        assert items[..i + 1][..i] == items[..i];
        var k := h(items[i]);
        ghost var now := Contents();
        var at := IndexOf(order, k);
        if at < |order| {
          order := order[..at] + order[at + 1..];
        }
        m := m - {k};
        assert Contents() == Delete(now, k);
      }
      assert items[..|items|] == items;
      DelAllWellKeyed(h, before, items);
      DelMeaning(h, before, items);
    }

    method AsSlice() returns (r: seq<V>)
      requires Valid()
      ensures r == Values(Contents())
    {
      r := [];
      for i := 0 to |order|
        invariant r == Values(Contents())[..i]
      {
        r := r + [m[order[i]]];
      }
    }
  }

  // ---- what a sequence of deletions leaves ----

  function KeysOf<K(==), V>(h: V -> K, items: seq<V>): set<K> {
    set i | 0 <= i < |items| :: h(items[i])
  }

  /** The keys that are not gone, in the same order. */
  function Remaining<K(==)>(order: seq<K>, gone: set<K>): seq<K> {
    if order == [] then []
    else Remaining(order[..|order| - 1], gone)
         + if order[|order| - 1] in gone then [] else [order[|order| - 1]]
  }

  lemma {:induction false} NothingGone<K>(order: seq<K>, gone: set<K>)
    requires forall i :: 0 <= i < |order| ==> order[i] !in gone
    ensures Remaining(order, gone) == order
  {
    if order != [] {
      NothingGone(order[..|order| - 1], gone);
      assert order == order[..|order| - 1] + [order[|order| - 1]];
    }
  }

  lemma {:induction false} RemainingTwice<K>(order: seq<K>, gone: set<K>, more: set<K>)
    ensures Remaining(Remaining(order, gone), more) == Remaining(order, gone + more)
  {
    if order != [] {
      var front, last := order[..|order| - 1], order[|order| - 1];
      RemainingTwice(front, gone, more);
      if last in gone {
        assert Remaining(order, gone) == Remaining(front, gone);
      } else {
      }
    }
  }

  lemma {:induction false} OneGone<K>(order: seq<K>, i: nat)
    requires i < |order| && forall j :: 0 <= j < |order| && j != i ==> order[j] != order[i]
    ensures Remaining(order, {order[i]}) == order[..i] + order[i + 1..]
  {
    var front, last, k := order[..|order| - 1], order[|order| - 1], order[i];
    if i == |order| - 1 {
      NothingGone(front, {k});
    } else {
      OneGone(front, i);
      assert front[..i] == order[..i] && front[i + 1..] + [last] == order[i + 1..];
    }
  }

  lemma DeleteRemaining<K, V>(o: Ordered<K, V>, k: K)
    requires WellKeyed(o)
    ensures Delete(o, k).order == Remaining(o.order, {k})
  {
    var i := IndexOf(o.order, k);
    if i == |o.order| {
      NothingGone(o.order, {k});
    } else {
      OneGone(o.order, i);
    }
  }

  /** A key remains exactly when it was stored and no item has it, with its value, and
      the others keep their order. */
  lemma {:induction false} DelMeaning<K, V>(h: V -> K, o: Ordered<K, V>, items: seq<V>)
    requires WellKeyed(o)
    ensures var d := DelAll(h, o, items);
            && (forall k :: k in d.m <==> k in o.m && k !in KeysOf(h, items))
            && (forall k :: k in d.m ==> d.m[k] == o.m[k])
            && d.order == Remaining(o.order, KeysOf(h, items))
  {
    if items == [] {
      NothingGone(o.order, KeysOf(h, items));
    } else {
      var front, last := items[..|items| - 1], items[|items| - 1];
      DelMeaning(h, o, front);
      DelAllWellKeyed(h, o, front);
      DeleteRemaining(DelAll(h, o, front), h(last));
      RemainingTwice(o.order, KeysOf(h, front), {h(last)});
      KeysSnoc(h, items);
    }
  }

  lemma KeysSnoc<K, V>(h: V -> K, items: seq<V>)
    requires items != []
    ensures KeysOf(h, items) == KeysOf(h, items[..|items| - 1]) + {h(items[|items| - 1])}
  {
    var front := items[..|items| - 1];
    forall k ensures k in KeysOf(h, items) <==> k in KeysOf(h, front) || k == h(items[|items| - 1]) {
      if k in KeysOf(h, front) {
        var i :| 0 <= i < |front| && h(front[i]) == k;
        assert items[i] == front[i];
      }
      if k in KeysOf(h, items) {
        var i :| 0 <= i < |items| && h(items[i]) == k;
        assert i < |front| ==> front[i] == items[i];
      }
    }
  }

  // ---- what a sequence of additions leaves ----

  function Keyed<K(==), V>(h: V -> K, items: seq<V>): Ordered<K, V> {
    AddAll(h, Ordered([], map[]), items)
  }

  /** The keys are those of the items, and each maps to the last item with that key. */
  lemma {:induction false} KeyedMeaning<K, V>(h: V -> K, items: seq<V>, k: K)
    ensures k in Keyed(h, items).m <==> exists i :: 0 <= i < |items| && h(items[i]) == k
    ensures k in Keyed(h, items).m ==>
              exists i :: 0 <= i < |items| && h(items[i]) == k && Keyed(h, items).m[k] == items[i]
                          && forall j :: i < j < |items| ==> h(items[j]) != k
  {
    if items != [] {
      var n := |items| - 1;
      KeyedMeaning(h, items[..n], k);
      if h(items[n]) == k {
        assert Keyed(h, items).m[k] == items[n];
      } else if k in Keyed(h, items).m {
        var i :| 0 <= i < n && h(items[..n][i]) == k && Keyed(h, items[..n]).m[k] == items[..n][i]
                 && forall j :: i < j < n ==> h(items[..n][j]) != k;
        assert items[i] == items[..n][i];
        forall j | i < j < |items| ensures h(items[j]) != k {
          if j < n { assert items[j] == items[..n][j]; }
        }
      }
    }
  }

  /** First insertion decides the order: a key stands before another exactly when
      an item with it comes before every item with the other. */
  lemma {:induction false} OrderMeaning<K, V>(h: V -> K, items: seq<V>, a: nat, b: nat)
    requires a < b < |Keyed(h, items).order|
    ensures var o := Keyed(h, items).order;
            exists i :: 0 <= i < |items| && h(items[i]) == o[a] && forall j :: 0 <= j <= i ==> h(items[j]) != o[b]
  {
    var n := |items| - 1;
    var front := items[..n];
    var o, p := Keyed(h, items).order, Keyed(h, front).order;
    assert o == p || o == p + [h(items[n])];
    if b < |p| {
      OrderMeaning(h, front, a, b);
      var i :| 0 <= i < n && h(front[i]) == p[a] && forall j :: 0 <= j <= i ==> h(front[j]) != p[b];
      assert forall j :: 0 <= j <= i ==> items[j] == front[j];
    } else {
      KeyedMeaning(h, front, p[a]);
      KeyedMeaning(h, front, o[b]);
      AddAllWellKeyed(h, Ordered([], map[]), front);
      assert p[a] in Keyed(h, front).m;
      var i :| 0 <= i < n && h(front[i]) == p[a];
      assert forall j :: 0 <= j <= i ==> items[j] == front[j];
    }
  }

  lemma KeyedSnoc<K, V>(h: V -> K, items: seq<V>, v: V)
    ensures Keyed(h, items + [v]).m == Keyed(h, items).m[h(v) := v]
  {
    assert (items + [v])[..|items|] == items;
  }

  lemma Overwrite<K, V>(a: map<K, V>, b: map<K, V>, k: K, v: V)
    ensures (a + b)[k := v] == a + b[k := v]
  {
  }

  /** Additions split: the map of a concatenation is the first map overwritten. */
  lemma {:induction false} KeyedConcat<K, V>(h: V -> K, a: seq<V>, b: seq<V>)
    ensures Keyed(h, a + b).m == Keyed(h, a).m + Keyed(h, b).m
  {
    if b == [] {
      assert a + b == a;
    } else {
      var front, v := b[..|b| - 1], b[|b| - 1];
      KeyedConcat(h, a, front);
      KeyedSnoc(h, a + front, v);
      KeyedSnoc(h, front, v);
      Overwrite(Keyed(h, a).m, Keyed(h, front).m, h(v), v);
      assert a + b == (a + front) + [v] && b == front + [v];
    }
  }
}
