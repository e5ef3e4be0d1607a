/** Proximity grouping, common/cluster/group.go: groups are the connected
    components of the graph that links items within a threshold. */
module Clustering {
  import opened Connectivity
  import UnionFind

  datatype Group<T> = Group(items: seq<T>)

  /** The pairs the two nested loops unite once they have reached (i, j). */
  ghost function NearUpTo<T>(items: seq<T>, dist: (T, T) -> real, threshold: real, i: nat, j: nat): Edges {
    set a: nat, b: nat | a < b < |items| && (a < i || (a == i && b < j)) && dist(items[a], items[b]) <= threshold
      :: (a, b)
  }

  /** The proximity graph: pairs of positions whose items are within the threshold. */
  ghost function Near<T>(items: seq<T>, dist: (T, T) -> real, threshold: real): Edges {
    set a: nat, b: nat | a < b < |items| && dist(items[a], items[b]) <= threshold :: (a, b)
  }

  function Pick<T>(items: seq<T>, at: seq<nat>): (r: seq<T>)
    requires forall k :: 0 <= k < |at| ==> at[k] < |items|
    ensures |r| == |at| && forall k :: 0 <= k < |at| ==> r[k] == items[at[k]]
  {
    seq(|at|, k requires 0 <= k < |at| => items[at[k]])
  }

  ghost predicate Increasing(at: seq<nat>) {
    forall k, l :: 0 <= k < l < |at| ==> at[k] < at[l]
  }

  /** The group holds the items at the given positions, at least one, in input order. */
  ghost predicate Holds<T>(items: seq<T>, group: Group<T>, at: seq<nat>) {
    && |at| > 0 && Increasing(at)
    && (forall k :: 0 <= k < |at| ==> at[k] < |items|)
    && group.items == Pick(items, at)
  }

  ghost predicate Placed(at: seq<seq<nat>>, i: nat) {
    exists g :: 0 <= g < |at| && i in at[g]
  }

  /** Group g holds the items at positions at[g]: every position is in some group,
      and two positions share a group exactly when the edges connect them (so the
      groups are disjoint, too). */
  ghost predicate Grouped<T>(items: seq<T>, edges: Edges, groups: seq<Group<T>>, at: seq<seq<nat>>) {
    && |groups| == |at|
    && (forall g :: 0 <= g < |at| ==> Holds(items, groups[g], at[g]))
    && (forall i: nat :: i < |items| ==> Placed(at, i))
    && (forall g, h, i, j {:trigger i in at[g], j in at[h]} ::
          0 <= g < |at| && 0 <= h < |at| && i in at[g] && j in at[h] ==>
            (g == h <==> Connected(|items|, edges, i, j)))
  }

  ghost predicate IsGrouping<T>(items: seq<T>, edges: Edges, groups: seq<Group<T>>) {
    exists at :: Grouped(items, edges, groups, at)
  }

  /** The positions below n whose representative is r, in order. */
  ghost function PositionsOf(rep: seq<nat>, r: nat, n: nat): (s: seq<nat>)
    requires n <= |rep|
    ensures Increasing(s)
    ensures forall k :: 0 <= k < |s| ==> s[k] < n
    ensures forall i :: i in s <==> 0 <= i < n && rep[i] == r
  {
    if n == 0 then []
    else if rep[n - 1] == r then PositionsOf(rep, r, n - 1) + [n - 1]
    else PositionsOf(rep, r, n - 1)
  }

  method GroupByDistance<T>(items: seq<T>, dist: (T, T) -> real, threshold: real)
    returns (groups: seq<Group<T>>, ghost at: seq<seq<nat>>)
    ensures Grouped(items, Near(items, dist, threshold), groups, at)
    ensures IsGrouping(items, Near(items, dist, threshold), groups)
  {
    var uf := UniteNear(items, dist, threshold);
    ghost var edges, rep := uf.edges, uf.rep;
    var groupMap := Bucket(items, uf);

    groups, at := [], [];
    ghost var roots: seq<nat> := [];
    var keys := groupMap.Keys;
    while keys != {}
      invariant Listed(items, rep, groupMap.Keys, keys, roots, groups, at)
    {
      var key :| key in keys;
      assert Holds(items, Group(groupMap[key]), PositionsOf(rep, key, |rep|));
      groups := groups + [Group(groupMap[key])];
      at := at + [PositionsOf(rep, key, |rep|)];
      roots := roots + [key];
      keys := keys - {key};
    }
    GroupedByRoot(items, edges, rep, roots, groups, at);
  }

  ghost predicate Collected<T>(items: seq<T>, rep: seq<nat>, root: nat, group: Group<T>, at: seq<nat>) {
    at == PositionsOf(rep, root, |rep|) && Holds(items, group, at)
  }

  /** The map's buckets are listed in any order; keys are those still to come. */
  ghost predicate Listed<T>(items: seq<T>, rep: seq<nat>, all: set<nat>, keys: set<nat>,
                            roots: seq<nat>, groups: seq<Group<T>>, at: seq<seq<nat>>) {
    && |groups| == |at| == |roots|
    && keys <= all && (forall r :: r in all ==> (r in keys <==> r !in roots))
    && (forall g :: 0 <= g < |roots| ==> Collected(items, rep, roots[g], groups[g], at[g]))
    && (forall g, h :: 0 <= g < h < |roots| ==> roots[g] != roots[h])
  }

  /** The nested loops: afterwards the structure holds the proximity graph. */
  method UniteNear<T>(items: seq<T>, dist: (T, T) -> real, threshold: real) returns (uf: UnionFind.QuickUnion)
    ensures fresh(uf) && fresh(uf.root) && uf.Valid() && uf.root.Length == |items|
    ensures uf.edges == Near(items, dist, threshold)
  {
    var n := |items|;
    uf := new UnionFind.QuickUnion(n);
    for i := 0 to n
      invariant uf.Valid() && fresh(uf) && fresh(uf.root) && uf.root.Length == n
      invariant uf.edges == NearUpTo(items, dist, threshold, i, 0)
    {
      assert NearUpTo(items, dist, threshold, i, i + 1) == NearUpTo(items, dist, threshold, i, 0);
      for j := i + 1 to n
        invariant uf.Valid() && fresh(uf) && fresh(uf.root) && uf.root.Length == n
        invariant uf.edges == NearUpTo(items, dist, threshold, i, j)
      {
        if dist(items[i], items[j]) <= threshold {
          uf.Union(i, j);
          assert NearUpTo(items, dist, threshold, i, j + 1) == NearUpTo(items, dist, threshold, i, j) + {(i, j)};
        } else {
          assert NearUpTo(items, dist, threshold, i, j + 1) == NearUpTo(items, dist, threshold, i, j);
        }
      }
      assert NearUpTo(items, dist, threshold, i + 1, 0) == NearUpTo(items, dist, threshold, i, n);
    }
    assert NearUpTo(items, dist, threshold, n, 0) == Near(items, dist, threshold);
  }

  /** The bucketing loop: each item goes to the bucket of its representative. */
  method Bucket<T>(items: seq<T>, uf: UnionFind.QuickUnion) returns (groupMap: map<nat, seq<T>>)
    requires uf.Valid() && uf.root.Length == |items|
    ensures Bucketed(items, uf.rep, groupMap, |items|)
  {
    groupMap := map[];
    for i := 0 to |items|
      invariant Bucketed(items, uf.rep, groupMap, i)
    {
      var root, _ := uf.Find(i);
      BucketStep(items, uf.rep, groupMap, i);
      groupMap := groupMap[root := (if root in groupMap then groupMap[root] else []) + [items[i]]];
    }
  }

  /** After the first i items: a bucket for each representative met, holding its items. */
  ghost predicate Bucketed<T>(items: seq<T>, rep: seq<nat>, groupMap: map<nat, seq<T>>, i: nat) {
    && i <= |items| == |rep|
    && (forall x :: 0 <= x < i ==> rep[x] in groupMap)
    && (forall r {:trigger groupMap[r]} :: r in groupMap ==> Holds(items, Group(groupMap[r]), PositionsOf(rep, r, i)))
  }

  lemma BucketStep<T>(items: seq<T>, rep: seq<nat>, groupMap: map<nat, seq<T>>, i: nat)
    requires Bucketed(items, rep, groupMap, i) && i < |items|
    ensures Bucketed(items, rep,
                     groupMap[rep[i] := (if rep[i] in groupMap then groupMap[rep[i]] else []) + [items[i]]], i + 1)
  {
    var root := rep[i];
    var bucket := if root in groupMap then groupMap[root] else [];
    var more := groupMap[root := bucket + [items[i]]];
    if root !in groupMap {
      NoneBefore(rep, root, i);
    }
    HoldsMore(items, rep, root, bucket, i);
    forall r | r in more ensures Holds(items, Group(more[r]), PositionsOf(rep, r, i + 1)) {
      if r != root {
        assert more[r] == groupMap[r] && PositionsOf(rep, r, i + 1) == PositionsOf(rep, r, i);
      }
    }
  }

  lemma NoneBefore(rep: seq<nat>, r: nat, n: nat)
    requires n <= |rep| && forall x :: 0 <= x < n ==> rep[x] != r
    ensures PositionsOf(rep, r, n) == []
  {
  }

  lemma HoldsMore<T>(items: seq<T>, rep: seq<nat>, root: nat, bucket: seq<T>, i: nat)
    requires i < |items| == |rep| && rep[i] == root
    requires (bucket == [] && PositionsOf(rep, root, i) == []) || Holds(items, Group(bucket), PositionsOf(rep, root, i))
    ensures Holds(items, Group(bucket + [items[i]]), PositionsOf(rep, root, i + 1))
  {
    assert Pick(items, PositionsOf(rep, root, i)) == bucket;
    assert Pick(items, PositionsOf(rep, root, i + 1)) == bucket + [items[i]];
  }

  lemma GroupedByRoot<T>(items: seq<T>, edges: Edges, rep: seq<nat>, roots: seq<nat>,
                         groups: seq<Group<T>>, at: seq<seq<nat>>)
    requires Represents(|items|, edges, rep) && |groups| == |at| == |roots|
    requires forall x :: 0 <= x < |items| ==> rep[x] in roots
    requires forall g, h :: 0 <= g < h < |roots| ==> roots[g] != roots[h]
    requires forall g :: 0 <= g < |roots| ==> Collected(items, rep, roots[g], groups[g], at[g])
    ensures Grouped(items, edges, groups, at)
  {
    forall i: nat | i < |items| ensures Placed(at, i) {
      var g :| 0 <= g < |roots| && roots[g] == rep[i];
      assert Collected(items, rep, roots[g], groups[g], at[g]) && i in at[g];
    }
    forall g, h, i, j | 0 <= g < |at| && 0 <= h < |at| && i in at[g] && j in at[h]
      ensures g == h <==> Connected(|items|, edges, i, j)
    {
      assert Collected(items, rep, roots[g], groups[g], at[g]) && Collected(items, rep, roots[h], groups[h], at[h]);
      assert Connected(|items|, edges, i, j) <==> rep[i] == rep[j];
    }
  }

  /** The chain reading of a group, for a symmetric distance: two positions share
      a group exactly when a list of positions joins them in which every two
      neighbours are within the threshold. */
  ghost predicate StepsWithin<T>(items: seq<T>, dist: (T, T) -> real, threshold: real, path: seq<nat>) {
    && |path| > 0
    && (forall k :: 0 <= k < |path| ==> path[k] < |items|)
    && (forall k :: 0 <= k < |path| - 1 ==>
          path[k] == path[k + 1] || dist(items[path[k]], items[path[k + 1]]) <= threshold)
  }

  lemma SharedGroupIsChain<T(!new)>(items: seq<T>, dist: (T, T) -> real, threshold: real,
                                    groups: seq<Group<T>>, at: seq<seq<nat>>, i: nat, j: nat)
    requires Grouped(items, Near(items, dist, threshold), groups, at) && i < |items| && j < |items|
    requires forall a, b :: dist(a, b) == dist(b, a)
    ensures (exists g :: 0 <= g < |at| && i in at[g] && j in at[g])
       <==> (exists path :: StepsWithin(items, dist, threshold, path) && path[0] == i && path[|path| - 1] == j)
  {
    assert Placed(at, i) && Placed(at, j);
    if path :| StepsWithin(items, dist, threshold, path) && path[0] == i && path[|path| - 1] == j {
      StepsConnect(items, dist, threshold, path);
    }
  }

  lemma {:induction false} StepsConnect<T(!new)>(items: seq<T>, dist: (T, T) -> real, threshold: real, path: seq<nat>)
    requires StepsWithin(items, dist, threshold, path)
    requires forall a, b :: dist(a, b) == dist(b, a)
    ensures Connected(|items|, Near(items, dist, threshold), path[0], path[|path| - 1])
  {
    var n, edges := |items|, Near(items, dist, threshold);
    if |path| == 1 {
      Reflexive(n, edges, path[0]);
    } else {
      StepsConnect(items, dist, threshold, path[..|path| - 1]);
      var y, z := path[|path| - 2], path[|path| - 1];
      assert y == path[|path| - 2] && z == path[|path| - 2 + 1];
      if y != z {
        assert Linked(edges, y, z);
        Extend(n, edges, path[0], y, z);
      }
    }
  }

  // ---- positions on one axis ----

  /** DistanceTo of a one-dimensional position. */
  function AxisDistance(a: real, b: real): real {
    if a < b then b - a else a - b
  }

  /** A chain from a member at or below a cut to a member above it crosses the cut
      by an edge. */
  lemma {:induction false} Crossing(xs: seq<real>, tol: real, edges: Edges, path: seq<nat>, cut: real)
    returns (u: nat, v: nat)
    requires edges == Near(xs, AxisDistance, tol) && Chain(|xs|, edges, path)
    requires xs[path[0]] <= cut < xs[path[|path| - 1]]
    ensures u < |xs| && v < |xs| && xs[u] <= cut < xs[v] <= xs[u] + tol
    ensures Connected(|xs|, edges, path[0], u) && Connected(|xs|, edges, path[0], v)
  {
    var n := |xs|;
    var y, z := path[|path| - 2], path[|path| - 2 + 1];
    assert Linked(edges, y, z);
    var front := path[..|path| - 1];
    assert ChainFromTo(n, edges, front, path[0], y);
    if xs[y] <= cut {
      u, v := y, z;
      Extend(n, edges, path[0], y, z);
    } else {
      u, v := Crossing(xs, tol, edges, front, cut);
    }
  }

  /** No gaps inside a group: a member that is not the rightmost of its group has
      another member at most tol to its right. */
  lemma NoGaps(xs: seq<real>, tol: real, groups: seq<Group<real>>, at: seq<seq<nat>>, g: nat, i: nat, j: nat)
    requires Grouped(xs, Near(xs, AxisDistance, tol), groups, at)
    requires g < |at| && i in at[g] && j in at[g] && xs[i] < xs[j]
    ensures exists k :: k in at[g] && xs[i] < xs[k] <= xs[i] + tol
  {
    var n, edges := |xs|, Near(xs, AxisDistance, tol);
    assert Holds(xs, groups[g], at[g]) && Connected(n, edges, i, j);
    var path :| ChainFromTo(n, edges, path, i, j);
    var u, v := Crossing(xs, tol, edges, path, xs[i]);
    InGroup(xs, edges, groups, at, g, i, v);
  }

  lemma InGroup<T>(items: seq<T>, edges: Edges, groups: seq<Group<T>>, at: seq<seq<nat>>, g: nat, i: nat, v: nat)
    requires Grouped(items, edges, groups, at) && g < |at| && i in at[g] && v < |items|
    requires Connected(|items|, edges, i, v)
    ensures v in at[g]
  {
    assert Placed(at, v);
    var h :| 0 <= h < |at| && v in at[h];
  }

  /** A member of another group lies further than tol from the whole span of a group. */
  lemma OutsideSpan(xs: seq<real>, tol: real, groups: seq<Group<real>>, at: seq<seq<nat>>,
                    g: nat, h: nat, i: nat, j: nat, y: nat)
    requires Grouped(xs, Near(xs, AxisDistance, tol), groups, at) && tol >= 0.0
    requires g < |at| && h < |at| && g != h && i in at[g] && j in at[g] && y in at[h] && xs[i] <= xs[j]
    ensures xs[y] + tol < xs[i] || xs[j] + tol < xs[y]
  {
    var n, edges := |xs|, Near(xs, AxisDistance, tol);
    assert Holds(xs, groups[g], at[g]) && Holds(xs, groups[h], at[h]);
    Apart(xs, tol, groups, at, g, h, i, y);
    Apart(xs, tol, groups, at, g, h, j, y);
    if xs[i] <= xs[y] < xs[j] {
      assert Connected(n, edges, i, j);
      var path :| ChainFromTo(n, edges, path, i, j);
      var u, v := Crossing(xs, tol, edges, path, xs[y]);
      InGroup(xs, edges, groups, at, g, i, u);
      Apart(xs, tol, groups, at, g, h, u, y);
    }
  }

  lemma Apart(xs: seq<real>, tol: real, groups: seq<Group<real>>, at: seq<seq<nat>>, g: nat, h: nat, i: nat, y: nat)
    requires Grouped(xs, Near(xs, AxisDistance, tol), groups, at) && tol >= 0.0
    requires g < |at| && h < |at| && g != h && i in at[g] && y in at[h] && i < |xs| && y < |xs|
    ensures AxisDistance(xs[i], xs[y]) > tol
  {
    var n, edges := |xs|, Near(xs, AxisDistance, tol);
    if AxisDistance(xs[i], xs[y]) <= tol {
      Reflexive(n, edges, i);
      if i != y {
        assert Linked(edges, i, y);
        Extend(n, edges, i, i, y);
      }
    }
  }

  ghost predicate LeftOf(xs: seq<real>, tol: real, g: seq<nat>, h: seq<nat>) {
    forall i, j :: i in g && j in h ==> i < |xs| && j < |xs| && xs[i] + tol < xs[j]
  }

  /** The spans of two different groups are more than tol apart. */
  lemma SpansApart(xs: seq<real>, tol: real, groups: seq<Group<real>>, at: seq<seq<nat>>, g: nat, h: nat)
    requires Grouped(xs, Near(xs, AxisDistance, tol), groups, at) && tol >= 0.0
    requires g < |at| && h < |at| && g != h
    ensures LeftOf(xs, tol, at[g], at[h]) || LeftOf(xs, tol, at[h], at[g])
  {
    assert Holds(xs, groups[g], at[g]) && Holds(xs, groups[h], at[h]);
    var a, b := at[g][0], at[h][0];
    forall i, j | i in at[g] && j in at[h]
      ensures if xs[a] < xs[b] then xs[i] + tol < xs[j] else xs[j] + tol < xs[i]
    {
      OutsideSpan(xs, tol, groups, at, g, h, if xs[a] <= xs[i] then a else i, if xs[a] <= xs[i] then i else a, b);
      OutsideSpan(xs, tol, groups, at, h, g, if xs[b] <= xs[j] then b else j, if xs[b] <= xs[j] then j else b, i);
    }
  }
}
