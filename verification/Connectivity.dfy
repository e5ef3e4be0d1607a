/** The equivalence relation generated by a set of edges over the elements 0..n:
    the meaning the disjoint-set structures and the grouping code are proved
    against.  Two elements are connected when a chain of edges joins them. */
module Connectivity {

  type Edges = set<(nat, nat)>

  predicate Linked(edges: Edges, x: nat, y: nat) {
    (x, y) in edges || (y, x) in edges
  }

  ghost predicate Chain(n: nat, edges: Edges, path: seq<nat>) {
    && |path| > 0
    && (forall i :: 0 <= i < |path| ==> path[i] < n)
    && (forall i :: 0 <= i < |path| - 1 ==> Linked(edges, path[i], path[i + 1]))
  }

  ghost predicate ChainFromTo(n: nat, edges: Edges, path: seq<nat>, x: nat, y: nat) {
    Chain(n, edges, path) && path[0] == x && path[|path| - 1] == y
  }

  ghost predicate Connected(n: nat, edges: Edges, x: nat, y: nat) {
    exists path :: ChainFromTo(n, edges, path, x, y)
  }

  lemma Reflexive(n: nat, edges: Edges, x: nat)
    requires x < n
    ensures Connected(n, edges, x, x)
  {
    assert ChainFromTo(n, edges, [x], x, x);
  }

  lemma {:induction false} Symmetric(n: nat, edges: Edges, x: nat, y: nat)
    requires Connected(n, edges, x, y)
    ensures Connected(n, edges, y, x)
  {
    var path :| ChainFromTo(n, edges, path, x, y);
    var back := seq(|path|, i requires 0 <= i < |path| => path[|path| - 1 - i]);
    forall i | 0 <= i < |back| - 1 ensures Linked(edges, back[i], back[i + 1]) {
      assert Linked(edges, path[|path| - 2 - i], path[|path| - 2 - i + 1]);
    }
    assert ChainFromTo(n, edges, back, y, x);
  }

  lemma Transitive(n: nat, edges: Edges, x: nat, y: nat, z: nat)
    requires Connected(n, edges, x, y) && Connected(n, edges, y, z)
    ensures Connected(n, edges, x, z)
  {
    var p :| ChainFromTo(n, edges, p, x, y);
    var q :| ChainFromTo(n, edges, q, y, z);
    var path := p + q[1..];
    forall i | 0 <= i < |path| - 1 ensures Linked(edges, path[i], path[i + 1]) {
      if i >= |p| - 1 {
        assert path[i] == q[i - (|p| - 1)] && path[i + 1] == q[i - (|p| - 1) + 1];
      }
    }
    assert ChainFromTo(n, edges, path, x, z);
  }

  lemma Extend(n: nat, edges: Edges, x: nat, y: nat, z: nat)
    requires Connected(n, edges, x, y) && z < n && Linked(edges, y, z)
    ensures Connected(n, edges, x, z)
  {
    var p :| ChainFromTo(n, edges, p, x, y);
    assert ChainFromTo(n, edges, p + [z], x, z);
  }

  lemma Monotone(n: nat, edges: Edges, more: Edges, x: nat, y: nat)
    requires Connected(n, edges, x, y) && edges <= more
    ensures Connected(n, more, x, y)
  {
    var p :| ChainFromTo(n, edges, p, x, y);
    assert ChainFromTo(n, more, p, x, y);
  }

  /** Connectivity is the least relation that contains the edges and respects a
      labelling: a labelling constant along edges is constant along chains. */
  lemma {:induction false} SameTag(n: nat, edges: Edges, tag: seq<nat>, path: seq<nat>)
    requires |tag| == n && Chain(n, edges, path)
    requires forall x: nat, y: nat :: x < n && y < n && Linked(edges, x, y) ==> tag[x] == tag[y]
    ensures tag[path[0]] == tag[path[|path| - 1]]
  {
    if |path| > 1 {
      assert Linked(edges, path[0], path[1]);
      var rest := path[1..];
      forall i | 0 <= i < |rest| - 1 ensures Linked(edges, rest[i], rest[i + 1]) {
        assert rest[i] == path[i + 1] && rest[i + 1] == path[i + 1 + 1];
      }
      SameTag(n, edges, tag, rest);
    }
  }

  /** rep assigns every element a representative of its class. */
  ghost predicate Represents(n: nat, edges: Edges, rep: seq<nat>) {
    && |rep| == n
    && (forall x :: 0 <= x < n ==> rep[x] < n && rep[rep[x]] == rep[x])
    && (forall x, y {:trigger Connected(n, edges, x, y)} :: 0 <= x < n && 0 <= y < n ==>
          (rep[x] == rep[y] <==> Connected(n, edges, x, y)))
  }

  lemma NoEdges(n: nat, rep: seq<nat>)
    requires |rep| == n && forall x :: 0 <= x < n ==> rep[x] == x
    ensures Represents(n, {}, rep)
  {
    forall x, y | 0 <= x < n && 0 <= y < n
      ensures rep[x] == rep[y] <==> Connected(n, {}, x, y)
    {
      Reflexive(n, {}, x);
      if Connected(n, {}, x, y) {
        var p :| ChainFromTo(n, {}, p, x, y);
        SameTag(n, {}, rep, p);
      }
    }
  }

  /** Renames the class of one representative to another. */
  function Merge(rep: seq<nat>, from: nat, to: nat): (r: seq<nat>)
    ensures |r| == |rep|
    ensures forall x :: 0 <= x < |rep| ==> r[x] == if rep[x] == from then to else rep[x]
  {
    seq(|rep|, i requires 0 <= i < |rep| => if rep[i] == from then to else rep[i])
  }

  /** Joining the classes of the two ends of a new edge is exactly what the new
      edge does to connectivity, whichever representative survives. */
  lemma MergeRepresents(n: nat, edges: Edges, rep: seq<nat>, p: nat, q: nat, from: nat, to: nat)
    requires Represents(n, edges, rep) && p < n && q < n
    requires (from == rep[p] && to == rep[q]) || (from == rep[q] && to == rep[p])
    ensures Represents(n, edges + {(p, q)}, Merge(rep, from, to))
  {
    var more := edges + {(p, q)};
    var merged := Merge(rep, from, to);
    forall x: nat, y: nat | x < n && y < n && Linked(more, x, y) ensures merged[x] == merged[y] {
      if Linked(edges, x, y) {
        assert ChainFromTo(n, edges, [x, y], x, y);
        assert Connected(n, edges, x, y);
      }
    }
    assert Linked(more, p, q) && Linked(more, q, p);
    forall x, y | 0 <= x < n && 0 <= y < n
      ensures merged[x] == merged[y] <==> Connected(n, more, x, y)
    {
      if Connected(n, more, x, y) {
        var path :| ChainFromTo(n, more, path, x, y);
        SameTag(n, more, merged, path);
      }
      if merged[x] == merged[y] {
        if rep[x] == rep[y] {
          Monotone(n, edges, more, x, y);
        } else if rep[x] == rep[p] {
          Bridge(n, edges, x, p, q, y);
        } else {
          Bridge(n, edges, x, q, p, y);
        }
      }
    }
  }

  lemma Bridge(n: nat, edges: Edges, x: nat, p: nat, q: nat, y: nat)
    requires Connected(n, edges, x, p) && Connected(n, edges, q, y) && p < n && q < n
    ensures Connected(n, edges + {(p, q)}, x, y) && Connected(n, edges + {(q, p)}, x, y)
  {
    forall more: Edges | edges <= more && Linked(more, p, q) ensures Connected(n, more, x, y) {
      Monotone(n, edges, more, x, p);
      Extend(n, more, x, p, q);
      Monotone(n, edges, more, q, y);
      Transitive(n, more, x, q, y);
    }
  }

  // ---- counting classes ----

  /** An element leads its class when no smaller element is connected to it. */
  ghost predicate Leads(n: nat, edges: Edges, x: nat) {
    x < n && forall y :: 0 <= y < x ==> !Connected(n, edges, y, x)
  }

  ghost function Leaders(n: nat, edges: Edges): set<nat> {
    set x: nat | x < n && Leads(n, edges, x)
  }

  /** The number of equivalence classes: every class has exactly one leader. */
  ghost function ClassCount(n: nat, edges: Edges): nat {
    |Leaders(n, edges)|
  }

  lemma {:induction false} LeaderOf(n: nat, edges: Edges, x: nat) returns (l: nat)
    requires x < n
    ensures l <= x && Leads(n, edges, l) && Connected(n, edges, l, x)
    decreases x
  {
    Reflexive(n, edges, x);
    if Leads(n, edges, x) {
      l := x;
    } else {
      var y :| 0 <= y < x && Connected(n, edges, y, x);
      l := LeaderOf(n, edges, y);
      Transitive(n, edges, l, y, x);
    }
  }

  lemma OneLeader(n: nat, edges: Edges, x: nat, y: nat)
    requires Leads(n, edges, x) && Leads(n, edges, y) && Connected(n, edges, x, y)
    ensures x == y
  {
    Symmetric(n, edges, x, y);
  }

  lemma NoEdgesCount(n: nat)
    ensures ClassCount(n, {}) == n
  {
    var id := seq(n, i requires 0 <= i < n => i);
    NoEdges(n, id);
    forall x: nat | x < n ensures Leads(n, {}, x) {
      forall y | 0 <= y < x ensures !Connected(n, {}, y, x) {
        assert id[y] != id[x];
      }
    }
    assert Leaders(n, {}) == Below(n);
  }

  function Below(n: nat): (s: set<nat>)
    ensures forall x :: x in s <==> 0 <= x < n
    ensures |s| == n
  {
    if n == 0 then {} else Below(n - 1) + {n - 1}
  }

  lemma Smaller<T>(a: set<T>, b: set<T>)
    requires a <= b
    ensures |a| <= |b|
  {
    assert b == a + (b - a);
  }

  /** An edge inside a class changes nothing; an edge between two classes removes
      exactly one leader, the larger of the two. */
  lemma InsideEdgeCount(n: nat, edges: Edges, p: nat, q: nat)
    requires p < n && q < n && Connected(n, edges, p, q)
    ensures forall x: nat, y: nat :: x < n && y < n ==>
              (Connected(n, edges + {(p, q)}, x, y) <==> Connected(n, edges, x, y))
    ensures ClassCount(n, edges + {(p, q)}) == ClassCount(n, edges)
  {
    var more := edges + {(p, q)};
    forall x: nat, y: nat | x < n && y < n
      ensures Connected(n, more, x, y) <==> Connected(n, edges, x, y)
    {
      if Connected(n, edges, x, y) {
        Monotone(n, edges, more, x, y);
      }
      if Connected(n, more, x, y) {
        var path :| ChainFromTo(n, more, path, x, y);
        Shortcut(n, edges, p, q, path);
      }
    }
    assert forall x: nat :: x < n ==> (Leads(n, more, x) <==> Leads(n, edges, x));
    assert Leaders(n, more) == Leaders(n, edges);
  }

  lemma {:induction false} Shortcut(n: nat, edges: Edges, p: nat, q: nat, path: seq<nat>)
    requires p < n && q < n && Connected(n, edges, p, q) && Chain(n, edges + {(p, q)}, path)
    ensures Connected(n, edges, path[0], path[|path| - 1])
  {
    if |path| == 1 {
      Reflexive(n, edges, path[0]);
    } else {
      var front := path[..|path| - 1];
      Shortcut(n, edges, p, q, front);
      var y, z := path[|path| - 2], path[|path| - 1];
      assert Linked(edges + {(p, q)}, path[|path| - 2], path[|path| - 2 + 1]);
      if Linked(edges, y, z) {
        Extend(n, edges, path[0], y, z);
      } else {
        Symmetric(n, edges, p, q);
        Transitive(n, edges, path[0], y, z);
      }
    }
  }

  lemma JoiningEdgeCount(n: nat, edges: Edges, rep: seq<nat>, p: nat, q: nat)
    requires Represents(n, edges, rep) && p < n && q < n && !Connected(n, edges, p, q)
    ensures ClassCount(n, edges + {(p, q)}) == ClassCount(n, edges) - 1
  {
    var more := edges + {(p, q)};
    var lp := LeaderOf(n, edges, p);
    var lq := LeaderOf(n, edges, q);
    var merged := Merge(rep, rep[p], rep[q]);
    MergeRepresents(n, edges, rep, p, q, rep[p], rep[q]);
    assert rep[lp] == rep[p] && rep[lq] == rep[q] != rep[p];
    var low, high := if lp < lq then lp else lq, if lp < lq then lq else lp;
    assert low < high && merged[low] == merged[high];
    forall x: nat | x < n ensures Leads(n, more, x) <==> Leads(n, edges, x) && x != high {
      if Leads(n, more, x) {
        forall y | 0 <= y < x ensures !Connected(n, edges, y, x) {
          if Connected(n, edges, y, x) { Monotone(n, edges, more, y, x); }
        }
        assert Connected(n, more, low, high);
      } else if Leads(n, edges, x) {
        var y :| 0 <= y < x && Connected(n, more, y, x);
        assert !Connected(n, edges, y, x) && merged[y] == merged[x];
        assert {rep[x], rep[y]} == {rep[p], rep[q]};
        LeadsClass(n, edges, rep, x, if rep[x] == rep[p] then lp else lq);
        var other := if rep[y] == rep[p] then lp else lq;
        assert Connected(n, edges, y, other) && other <= y;
      }
    }
    assert Leaders(n, more) == Leaders(n, edges) - {high};
    assert high in Leaders(n, edges);
  }

  lemma LeadsClass(n: nat, edges: Edges, rep: seq<nat>, x: nat, l: nat)
    requires Represents(n, edges, rep) && Leads(n, edges, x) && Leads(n, edges, l) && rep[x] == rep[l]
    ensures x == l
  {
    OneLeader(n, edges, x, l);
  }
}
