/** The order in which Go lists the groups of a map is not fixed: what the dominant
    position of an image's clusters owes to it. */
module Listings {
  import opened Clustering
  import opened Connectivity
  import opened FaceCrop

  /** Ascending lists with the same members are the same list. */
  lemma {:induction false} AscendingUnique(a: seq<nat>, b: seq<nat>)
    requires Increasing(a) && Increasing(b) && forall i :: i in a <==> i in b
    ensures a == b
  {
    if a == [] {
      assert forall k :: 0 <= k < |b| ==> b[k] in a;
    } else {
      assert a[0] in b && b != [] && b[0] in a;
      assert a[0] == b[0];
      var s, t := a[1..], b[1..];
      forall i ensures i in s <==> i in t {
        TailMembers(a, i);
        TailMembers(b, i);
      }
      AscendingUnique(s, t);
      assert a == [a[0]] + s && b == [b[0]] + t;
    }
  }

  lemma TailMembers(a: seq<nat>, i: nat)
    requires Increasing(a) && a != []
    ensures Increasing(a[1..]) && (i in a[1..] <==> i in a && i != a[0])
  {
    if i in a && i != a[0] {
      var k :| 0 <= k < |a| && a[k] == i;
      assert a[1..][k - 1] == i;
    }
  }

  /** Every group of one listing is a group of any other. */
  lemma SameGroup<T>(items: seq<T>, edges: Edges, groups: seq<Group<T>>, at: seq<seq<nat>>,
                     groups': seq<Group<T>>, at': seq<seq<nat>>, g: nat) returns (g': nat)
    requires Grouped(items, edges, groups, at) && Grouped(items, edges, groups', at') && g < |groups|
    ensures g' < |groups'| && at'[g'] == at[g] && groups'[g'] == groups[g]
  {
    assert Holds(items, groups[g], at[g]);
    var i := at[g][0];
    assert i in at[g] && Placed(at', i);
    g' :| 0 <= g' < |at'| && i in at'[g'];
    assert Holds(items, groups'[g'], at'[g']);
    SubGroup(items, edges, groups, at, groups', at', g, g', i);
    SubGroup(items, edges, groups', at', groups, at, g', g, i);
    AscendingUnique(at[g], at'[g']);
    assert groups'[g'].items == groups[g].items;
  }

  lemma SubGroup<T>(items: seq<T>, edges: Edges, groups: seq<Group<T>>, at: seq<seq<nat>>,
                    groups': seq<Group<T>>, at': seq<seq<nat>>, g: nat, g': nat, i: nat)
    requires Grouped(items, edges, groups, at) && Grouped(items, edges, groups', at')
    requires g < |at| && g' < |at'| && i in at[g] && i in at'[g']
    ensures forall j :: j in at[g] ==> j in at'[g']
  {
    forall j | j in at[g] ensures j in at'[g'] {
      assert Connected(|items|, edges, i, j);
      assert Holds(items, groups[g], at[g]);
      assert Placed(at', j);
      var h :| 0 <= h < |at'| && j in at'[h];
    }
  }

  /** The position a group gives: no group without weight gives one. */
  function Position(group: Group<AxisVector>): real {
    if GroupWeight(group) > 0.0 then AxisAverage(group.items) else 0.0
  }

  /** Every group as heavy as the best gives the same position; in particular when the
      best is the only one of its weight. */
  ghost predicate Decided(groups: seq<Group<AxisVector>>, best: nat)
    requires best < |groups|
  {
    forall g :: 0 <= g < |groups| && GroupWeight(groups[g]) == GroupWeight(groups[best]) ==>
      Position(groups[g]) == Position(groups[best])
  }

  lemma OnePosition(vecs: seq<AxisVector>, edges: Edges, groups: seq<Group<AxisVector>>, at: seq<seq<nat>>, best: nat,
                    groups': seq<Group<AxisVector>>, at': seq<seq<nat>>, best': nat)
    requires Grouped(vecs, edges, groups, at) && Heaviest(groups, best) && Decided(groups, best)
    requires Grouped(vecs, edges, groups', at') && Heaviest(groups', best')
    ensures Position(groups'[best']) == Position(groups[best])
  {
    var g := SameGroup(vecs, edges, groups', at', groups, at, best');
    var g' := SameGroup(vecs, edges, groups, at, groups', at', best);
  }

  function Swapped<T>(s: seq<T>, g: nat): (r: seq<T>)
    requires g < |s|
    ensures |r| == |s| && forall k :: 0 <= k < |s| ==> r[k] == s[if k == 0 then g else if k == g then 0 else k]
  {
    s[0 := s[g]][g := s[0]]
  }

  lemma SwappedGrouped<T>(items: seq<T>, edges: Edges, groups: seq<Group<T>>, at: seq<seq<nat>>, g: nat)
    requires Grouped(items, edges, groups, at) && g < |groups|
    ensures Grouped(items, edges, Swapped(groups, g), Swapped(at, g))
  {
    var groups', at' := Swapped(groups, g), Swapped(at, g);
    forall i: nat | i < |items| ensures Placed(at', i) {
      assert Placed(at, i);
      var k :| 0 <= k < |at| && i in at[k];
      assert at'[if k == 0 then g else if k == g then 0 else k] == at[k];
    }
  }

  /** The exact condition: every listing of the clusters gives the same position if and
      only if the heaviest clusters all do. */
  lemma ListingIrrelevantExactly(vecs: seq<AxisVector>, edges: Edges, groups: seq<Group<AxisVector>>,
                                 at: seq<seq<nat>>, best: nat)
    requires Grouped(vecs, edges, groups, at) && Heaviest(groups, best)
    ensures Decided(groups, best) <==>
            forall groups', at', best' :: Grouped(vecs, edges, groups', at') && Heaviest(groups', best') ==>
              Position(groups'[best']) == Position(groups[best])
  {
    if Decided(groups, best) {
      forall groups', at', best' | Grouped(vecs, edges, groups', at') && Heaviest(groups', best')
        ensures Position(groups'[best']) == Position(groups[best])
      {
        OnePosition(vecs, edges, groups, at, best, groups', at', best');
      }
    } else {
      var g :| 0 <= g < |groups| && GroupWeight(groups[g]) == GroupWeight(groups[best])
               && Position(groups[g]) != Position(groups[best]);
      SwappedGrouped(vecs, edges, groups, at, g);
      assert Heaviest(Swapped(groups, g), 0);
    }
  }

  /** One face on the left and one as heavy on the right: the position is that of
      whichever is listed first. */
  lemma TieIsUndecided() returns (vecs: seq<AxisVector>, groups: seq<Group<AxisVector>>, at: seq<seq<nat>>)
    ensures Grouped(vecs, Near(vecs, DistanceTo, TOLERANCE), groups, at) && |groups| == 2
    ensures Heaviest(groups, 0) && Position(groups[0]) == 0.1
    ensures Heaviest(Swapped(groups, 1), 0) && Position(Swapped(groups, 1)[0]) == 0.9
    ensures Grouped(vecs, Near(vecs, DistanceTo, TOLERANCE), Swapped(groups, 1), Swapped(at, 1))
  {
    var l: AxisVector, r: AxisVector := WeightedVector([0.1], 1.0), WeightedVector([0.9], 1.0);
    vecs, groups, at := [l, r], [Group([l]), Group([r])], [[0], [1]];
    assert DistanceTo(l, r) > TOLERANCE;
    assert Near(vecs, DistanceTo, TOLERANCE) == {};
    NothingConnected(2, 0, 1);
    assert Placed(at, 0) by { assert 0 in at[0]; }
    assert Placed(at, 1) by { assert 1 in at[1]; }
    Reflexive(2, {}, 0);
    Reflexive(2, {}, 1);
    assert Holds(vecs, groups[0], at[0]) && Holds(vecs, groups[1], at[1]);
    assert Grouped(vecs, {}, groups, at);
    SwappedGrouped(vecs, {}, groups, at, 1);
    Alone(l);
    Alone(r);
  }

  lemma NothingConnected(n: nat, x: nat, y: nat)
    requires x < n && y < n && x != y
    ensures !Connected(n, {}, x, y) && !Connected(n, {}, y, x)
  {
    NoEdges(n, seq(n, i => i));
  }

  /** A group of one face gives that face's position. */
  lemma Alone(v: AxisVector)
    ensures GroupWeight(Group([v])) == v.weight
    ensures v.weight == 1.0 ==> Position(Group([v])) == v.vector[0]
  {
    var items := [v];
    assert Total(items, WeightOf(Itself), 0) == 0.0;
    assert Total(items, WeightOf(Itself), 1) == Total(items, WeightOf(Itself), 0) + WeightOf(Itself)(items[0]);
    assert SumAt(items, Itself, 0, 0) == 0.0;
    assert SumAt(items, Itself, 0, 1) == 0.0 + Coord(Itself(items[0]), 0) * Itself(items[0]).weight;
  }
}
