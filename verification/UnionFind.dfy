/** The three disjoint-set structures of collection/unionfind/unionfind.go.  Each
    carries, as ghost state, the edges united so far; Valid() ties the stored
    arrays and the stored count to the equivalence relation those edges generate. */
module UnionFind {
  import opened Connectivity
  import opened Forest

  predicate InRange(n: nat, i: int) {
    0 <= i < n
  }

  /** What the two queries answer, whichever structure is asked. */
  ghost predicate Joined(n: nat, edges: Edges, p: int, q: int) {
    InRange(n, p) && InRange(n, q) && Connected(n, edges, p, q)
  }

  /** A call with an index out of range is ignored. */
  function AddCall(n: nat, edges: Edges, p: int, q: int): Edges {
    if InRange(n, p) && InRange(n, q) then edges + {(p, q)} else edges
  }

  function EdgesOf(n: nat, calls: seq<(int, int)>): Edges {
    if calls == [] then {}
    else AddCall(n, EdgesOf(n, calls[..|calls| - 1]), calls[|calls| - 1].0, calls[|calls| - 1].1)
  }

  /** The equivalence and the count after one more edge inside a class. */
  lemma Redundant(n: nat, edges: Edges, rep: seq<nat>, p: nat, q: nat)
    requires Represents(n, edges, rep) && p < n && q < n && rep[p] == rep[q]
    ensures Represents(n, edges + {(p, q)}, rep)
    ensures ClassCount(n, edges + {(p, q)}) == ClassCount(n, edges)
  {
    MergeRepresents(n, edges, rep, p, q, rep[p], rep[q]);
    assert Merge(rep, rep[p], rep[q]) == rep;
    InsideEdgeCount(n, edges, p, q);
  }

  class QuickFind {
    var count: int
    var id: array<nat>
    ghost var edges: Edges

    ghost predicate Valid()
      reads this, id
    {
      Represents(id.Length, edges, id[..]) && count == ClassCount(id.Length, edges)
    }

    constructor (n: nat)
      ensures Valid() && fresh(id) && id.Length == n && edges == {}
      ensures forall k :: 0 <= k < n ==> id[k] == k
    {
      var ids := new nat[n];
      for i := 0 to n
        invariant forall k :: 0 <= k < i ==> ids[k] == k
      {
        ids[i] := i;
      }
      NoEdges(n, ids[..]);
      NoEdgesCount(n);
      count, id, edges := n, ids, {};
    }

    method Find(p: int) returns (r: int, ok: bool)
      requires Valid()
      ensures ok == InRange(id.Length, p)
      ensures !ok ==> r == -1
      ensures ok ==> Joined(id.Length, edges, p, r)
      ensures ok ==> forall q :: InRange(id.Length, q) ==> (Connected(id.Length, edges, p, q) <==> id[q] == r)
    {
      if !(0 <= p < id.Length) {
        return -1, false;
      }
      return id[p], true;
    }

    method Union(p: int, q: int)
      requires Valid()
      modifies this, id
      ensures Valid() && id == old(id)
      ensures edges == AddCall(id.Length, old(edges), p, q)
      // p's component is renamed to q's label
      ensures id[..] == if InRange(id.Length, p) && InRange(id.Length, q)
                        then Merge(old(id[..]), old(id[p]), old(id[q])) else old(id[..])
    {
      if !(0 <= p < id.Length) || !(0 <= q < id.Length) {
        return;
      }
      var pid, qid := id[p], id[q];
      ghost var n, before := id.Length, id[..];
      if pid == qid {
        Redundant(n, edges, before, p, q);
        edges := edges + {(p, q)};
        return;
      }
      MergeRepresents(n, edges, before, p, q, pid, qid);
      JoiningEdgeCount(n, edges, before, p, q);
      for i := 0 to id.Length
        invariant id == old(id) && edges == old(edges) && count == old(count)
        invariant forall k :: 0 <= k < i ==> id[k] == Merge(before, pid, qid)[k]
        invariant forall k :: i <= k < n ==> id[k] == before[k]
      {
        if id[i] == pid {
          id[i] := qid;
        }
      }
      count := count - 1;
      edges := edges + {(p, q)};
      assert id[..] == Merge(before, pid, qid);
    }

    method IsConnected(p: int, q: int) returns (b: bool)
      requires Valid()
      ensures b == Joined(id.Length, edges, p, q)
    {
      if !(0 <= p < id.Length) || !(0 <= q < id.Length) {
        return false;
      }
      return id[p] == id[q];
    }

    method Count() returns (c: int)
      requires Valid()
      ensures c == ClassCount(id.Length, edges)
    {
      return count;
    }
  }

  class QuickUnion {
    var count: int
    var root: array<nat>
    ghost var edges: Edges
    ghost var rep: seq<nat>
    ghost var depth: seq<nat>

    ghost predicate Valid()
      reads this, root
    {
      && IsForest(root[..], rep, depth)
      && Represents(root.Length, edges, rep)
      && count == ClassCount(root.Length, edges)
    }

    constructor (n: nat)
      ensures Valid() && fresh(root) && root.Length == n && edges == {}
      ensures forall k :: 0 <= k < n ==> root[k] == k
    {
      var roots := new nat[n];
      for i := 0 to n
        invariant forall k :: 0 <= k < i ==> roots[k] == k
      {
        roots[i] := i;
      }
      NoEdges(n, roots[..]);
      NoEdgesCount(n);
      count, root, edges := n, roots, {};
      rep, depth := roots[..], seq(n, i => 0);
    }

    method Find(p: int) returns (r: int, ok: bool)
      requires Valid()
      ensures ok == InRange(root.Length, p)
      ensures !ok ==> r == -1
      ensures ok ==> Joined(root.Length, edges, p, r) && root[r] == r && r == rep[p]
    {
      if !(0 <= p < root.Length) {
        return -1, false;
      }
      var x: nat := p;
      while x != root[x]
        invariant x < root.Length && rep[x] == rep[p]
        decreases depth[x]
      {
        assert Placed(root[..], rep, depth, x);
        x := root[x];
      }
      assert Placed(root[..], rep, depth, x) && rep[x] == x;
      return x, true;
    }

    method Union(p: int, q: int)
      requires Valid()
      modifies this, root
      ensures Valid() && root == old(root)
      ensures edges == AddCall(root.Length, old(edges), p, q)
      // p's root goes below q's
      ensures root[..] == if InRange(root.Length, p) && InRange(root.Length, q) && old(rep[p] != rep[q])
                          then old(root[..])[old(rep[p]) := old(rep[q])] else old(root[..])
    {
      if !(0 <= p < root.Length) || !(0 <= q < root.Length) {
        return;
      }
      var proot, _ := Find(p);
      var qroot, _ := Find(q);
      ghost var n := root.Length;
      if proot == qroot {
        Redundant(n, edges, rep, p, q);
        edges := edges + {(p, q)};
        return;
      }
      LinkRoots(root[..], rep, depth, proot, qroot);
      MergeRepresents(n, edges, rep, p, q, proot, qroot);
      JoiningEdgeCount(n, edges, rep, p, q);
      root[proot] := qroot;
      count := count - 1;
      assert root[..] == old(root[..])[proot := qroot];
      edges := edges + {(p, q)};
      depth := Deepen(depth, rep, proot);
      rep := Merge(rep, proot, qroot);
    }

    method IsConnected(p: int, q: int) returns (b: bool)
      requires Valid()
      ensures b == Joined(root.Length, edges, p, q)
    {
      if !(0 <= p < root.Length) || !(0 <= q < root.Length) {
        return false;
      }
      var proot, _ := Find(p);
      var qroot, _ := Find(q);
      return proot == qroot;
    }

    method Count() returns (c: int)
      requires Valid()
      ensures c == ClassCount(root.Length, edges)
    {
      return count;
    }
  }

  /** Of two roots, the one that is hung below and the one it is hung on. */
  function Lighter(proot: nat, qroot: nat, size: seq<nat>): (r: (nat, nat))
    requires proot < |size| && qroot < |size|
    ensures r == (proot, qroot) || r == (qroot, proot)
    ensures size[r.0] <= size[r.1] && (size[proot] == size[qroot] ==> r.1 == proot)
  {
    if size[proot] < size[qroot] then (proot, qroot) else (qroot, proot)
  }

  class WeightedQuickUnion {
    var count: int
    var root: array<nat>
    var size: array<nat>
    ghost var edges: Edges
    ghost var rep: seq<nat>
    ghost var depth: seq<nat>

    ghost predicate Valid()
      reads this, root, size
    {
      && root != size && root.Length == size.Length
      && IsForest(root[..], rep, depth)
      && Balanced(rep, depth, size[..])
      && Represents(root.Length, edges, rep)
      && count == ClassCount(root.Length, edges)
    }

    constructor (n: nat)
      ensures Valid() && fresh(root) && fresh(size) && root.Length == n && edges == {}
      ensures forall k :: 0 <= k < n ==> root[k] == k && size[k] == 1
    {
      var roots := new nat[n];
      var sizes := new nat[n];
      for i := 0 to n
        invariant forall k :: 0 <= k < i ==> roots[k] == k && sizes[k] == 1
      {
        roots[i] := i;
        sizes[i] := 1;
      }
      NoEdges(n, roots[..]);
      NoEdgesCount(n);
      ghost var zero := seq(n, i => 0);
      Singletons(n, roots[..], zero, sizes[..]);
      count, root, size, edges := n, roots, sizes, {};
      rep, depth := roots[..], zero;
    }

    /** hops counts the parent links followed. */
    method Find(p: int) returns (r: int, ok: bool, ghost hops: nat)
      requires Valid()
      ensures ok == InRange(root.Length, p)
      ensures !ok ==> r == -1
      ensures ok ==> Joined(root.Length, edges, p, r) && root[r] == r && r == rep[p]
      ensures ok ==> Pow2(hops) <= size[r] <= root.Length
    {
      hops := 0;
      if !(0 <= p < root.Length) {
        return -1, false, 0;
      }
      var x: nat := p;
      while x != root[x]
        invariant x < root.Length && rep[x] == rep[p] && hops + depth[x] == depth[p]
        decreases depth[x]
      {
        assert Placed(root[..], rep, depth, x);
        x := root[x];
        hops := hops + 1;
      }
      assert Placed(root[..], rep, depth, x) && rep[x] == x;
      DepthIsLogarithmic(rep, depth, size[..], p);
      return x, true, hops;
    }

    method Union(p: int, q: int)
      requires Valid()
      modifies this, root, size
      ensures Valid() && root == old(root) && size == old(size)
      ensures edges == AddCall(root.Length, old(edges), p, q)
      // the smaller root goes below the larger one, q's below p's on a tie
      ensures if InRange(root.Length, p) && InRange(root.Length, q) && old(rep[p] != rep[q])
              then var (child, parent) := Lighter(old(rep[p]), old(rep[q]), old(size[..]));
                   && root[..] == old(root[..])[child := parent]
                   && size[..] == old(size[..])[parent := old(size[..])[parent] + old(size[..])[child]]
              else root[..] == old(root[..]) && size[..] == old(size[..])
    {
      if !(0 <= p < root.Length) || !(0 <= q < root.Length) {
        return;
      }
      var proot, _, _ := Find(p);
      var qroot, _, _ := Find(q);
      if proot == qroot {
        Redundant(root.Length, edges, rep, p, q);
        edges := edges + {(p, q)};
        return;
      }
      JoiningEdgeCount(root.Length, edges, rep, p, q);
      if size[proot] < size[qroot] {
        Link(p, q, proot, qroot);
      } else {
        Link(p, q, qroot, proot);
      }
      count := count - 1;
    }

    /** The two assignments of either branch of Union. */
    method Link(ghost p: nat, ghost q: nat, child: nat, parent: nat)
      requires Valid() && p < root.Length && q < root.Length && rep[p] != rep[q]
      requires (child == rep[p] && parent == rep[q]) || (child == rep[q] && parent == rep[p])
      requires size[child] <= size[parent]
      modifies this`edges, this`rep, this`depth, root, size
      ensures root[..] == old(root[..])[child := parent]
      ensures size[..] == old(size[..])[parent := old(size[parent] + size[child])]
      ensures edges == old(edges) + {(p, q)}
      ensures IsForest(root[..], rep, depth) && Balanced(rep, depth, size[..])
      ensures Represents(root.Length, edges, rep)
    {
      ghost var parents, sizes := root[..], size[..];
      assert Placed(parents, rep, depth, p) && Placed(parents, rep, depth, q);
      assert rep[child] == child && rep[parent] == parent;
      LinkRoots(parents, rep, depth, child, parent);
      LinkBySize(rep, depth, sizes, child, parent);
      MergeRepresents(root.Length, edges, rep, p, q, child, parent);
      root[child] := parent;
      size[parent] := size[parent] + size[child];
      assert root[..] == parents[child := parent];
      assert size[..] == sizes[parent := sizes[parent] + sizes[child]];
      edges := edges + {(p, q)};
      depth := Deepen(depth, rep, child);
      rep := Merge(rep, child, parent);
    }

    method IsConnected(p: int, q: int) returns (b: bool)
      requires Valid()
      ensures b == Joined(root.Length, edges, p, q)
    {
      if !(0 <= p < root.Length) || !(0 <= q < root.Length) {
        return false;
      }
      var proot, _, _ := Find(p);
      var qroot, _, _ := Find(q);
      return proot == qroot;
    }

    method Count() returns (c: int)
      requires Valid()
      ensures c == ClassCount(root.Length, edges)
    {
      return count;
    }

    /** Conservation over every reachable state: the root sizes sum to n. */
    lemma SizesSum()
      requires Valid()
      ensures RootSizes(rep, size[..], root.Length) == root.Length
    {
      RootSizesSum(rep, depth, size[..]);
    }
  }

  method DriveQuickFind(n: nat, calls: seq<(int, int)>, p: int, q: int) returns (answer: bool, count: int)
    ensures answer == Joined(n, EdgesOf(n, calls), p, q) && count == ClassCount(n, EdgesOf(n, calls))
  {
    var u := new QuickFind(n);
    for i := 0 to |calls|
      invariant u.Valid() && fresh(u) && fresh(u.id) && u.id.Length == n
      invariant u.edges == EdgesOf(n, calls[..i])
    {
      assert calls[..i + 1][..i] == calls[..i];
      u.Union(calls[i].0, calls[i].1);
    }
    assert calls[..|calls|] == calls;
    answer := u.IsConnected(p, q);
    count := u.Count();
  }

  method DriveQuickUnion(n: nat, calls: seq<(int, int)>, p: int, q: int) returns (answer: bool, count: int)
    ensures answer == Joined(n, EdgesOf(n, calls), p, q) && count == ClassCount(n, EdgesOf(n, calls))
  {
    var u := new QuickUnion(n);
    for i := 0 to |calls|
      invariant u.Valid() && fresh(u) && fresh(u.root) && u.root.Length == n
      invariant u.edges == EdgesOf(n, calls[..i])
    {
      assert calls[..i + 1][..i] == calls[..i];
      u.Union(calls[i].0, calls[i].1);
    }
    assert calls[..|calls|] == calls;
    answer := u.IsConnected(p, q);
    count := u.Count();
  }

  method DriveWeightedQuickUnion(n: nat, calls: seq<(int, int)>, p: int, q: int) returns (answer: bool, count: int)
    ensures answer == Joined(n, EdgesOf(n, calls), p, q) && count == ClassCount(n, EdgesOf(n, calls))
  {
    var u := new WeightedQuickUnion(n);
    for i := 0 to |calls|
      invariant u.Valid() && fresh(u) && fresh(u.root) && fresh(u.size) && u.root.Length == n
      invariant u.edges == EdgesOf(n, calls[..i])
    {
      assert calls[..i + 1][..i] == calls[..i];
      u.Union(calls[i].0, calls[i].1);
    }
    assert calls[..|calls|] == calls;
    answer := u.IsConnected(p, q);
    count := u.Count();
  }

  /** The same calls, valid or not, drive the three structures to the same
      observable state: the equivalence closure of the valid pairs united. */
  method DriveAll(n: nat, calls: seq<(int, int)>, p: int, q: int)
    returns (answers: seq<bool>, counts: seq<int>)
    ensures answers == seq(3, i => Joined(n, EdgesOf(n, calls), p, q))
    ensures counts == seq(3, i => ClassCount(n, EdgesOf(n, calls)))
  {
    var a1, a2 := DriveQuickFind(n, calls, p, q);
    var b1, b2 := DriveQuickUnion(n, calls, p, q);
    var c1, c2 := DriveWeightedQuickUnion(n, calls, p, q);
    return [a1, b1, c1], [a2, b2, c2];
  }
}
