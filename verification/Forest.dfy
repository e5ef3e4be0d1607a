/** Parent arrays as forests: what the linked disjoint-set structures store.
    rep names the root above an element and depth its distance to that root. */
module Forest {
  import opened Connectivity

  /** The entries of one element agree with those of its parent. */
  ghost predicate Placed(root: seq<nat>, rep: seq<nat>, depth: seq<nat>, x: nat) {
    && |root| == |rep| == |depth| && x < |root|
    && root[x] < |root| && rep[x] < |root| && root[rep[x]] == rep[x]
    && if root[x] == x then rep[x] == x && depth[x] == 0
       else rep[x] == rep[root[x]] && depth[x] == depth[root[x]] + 1
  }

  ghost predicate IsForest(root: seq<nat>, rep: seq<nat>, depth: seq<nat>) {
    && |root| == |rep| == |depth|
    && (forall x :: 0 <= x < |root| ==> Placed(root, rep, depth, x))
  }

  /** The element reached from x by following k parent links. */
  ghost function Climb(root: seq<nat>, x: nat, k: nat): nat
    decreases k
  {
    if k == 0 || x >= |root| then x else Climb(root, root[x], k - 1)
  }

  lemma {:induction false} ClimbDrops(root: seq<nat>, rep: seq<nat>, depth: seq<nat>, x: nat, k: nat)
    requires IsForest(root, rep, depth) && x < |root|
    ensures Climb(root, x, k) < |root| && rep[Climb(root, x, k)] == rep[x]
    ensures depth[Climb(root, x, k)] == if k <= depth[x] then depth[x] - k else 0
    decreases k
  {
    assert Placed(root, rep, depth, x);
    if k > 0 {
      ClimbDrops(root, rep, depth, root[x], k - 1);
    }
  }

  /** A forest has no cycle but the self-loops at its roots, and every element is
      exactly depth links below its representative. */
  lemma NoCycles(root: seq<nat>, rep: seq<nat>, depth: seq<nat>, x: nat, k: nat)
    requires IsForest(root, rep, depth) && x < |root|
    ensures Climb(root, x, depth[x]) == rep[x] && rep[x] < |root| && root[rep[x]] == rep[x]
    ensures k > 0 && Climb(root, x, k) == x ==> root[x] == x
  {
    ClimbDrops(root, rep, depth, x, k);
    ClimbDrops(root, rep, depth, x, depth[x]);
    assert Placed(root, rep, depth, x) && Placed(root, rep, depth, Climb(root, x, depth[x]));
  }

  ghost function Deepen(depth: seq<nat>, rep: seq<nat>, child: nat): (d: seq<nat>)
    requires |depth| == |rep|
    ensures |d| == |depth|
    ensures forall x :: 0 <= x < |d| ==> d[x] == if rep[x] == child then depth[x] + 1 else depth[x]
  {
    seq(|depth|, i requires 0 <= i < |depth| => if rep[i] == child then depth[i] + 1 else depth[i])
  }

  lemma LinkRoots(root: seq<nat>, rep: seq<nat>, depth: seq<nat>, child: nat, parent: nat)
    requires IsForest(root, rep, depth) && child < |root| && parent < |root| && child != parent
    requires root[child] == child && root[parent] == parent
    ensures IsForest(root[child := parent], Merge(rep, child, parent), Deepen(depth, rep, child))
  {
    assert Placed(root, rep, depth, child) && Placed(root, rep, depth, parent);
    var root', rep', depth' := root[child := parent], Merge(rep, child, parent), Deepen(depth, rep, child);
    forall x | 0 <= x < |root| ensures Placed(root', rep', depth', x)
    {
      assert Placed(root, rep, depth, x) && Placed(root, rep, depth, root[x]);
    }
  }

  // ---- component sizes ----

  ghost function Members(rep: seq<nat>, r: nat): set<nat> {
    set x: nat | x < |rep| && rep[x] == r
  }

  function Pow2(k: nat): (p: nat)
    ensures p > 0
  {
    if k == 0 then 1 else 2 * Pow2(k - 1)
  }

  ghost predicate Sized(rep: seq<nat>, size: seq<nat>, r: nat) {
    && |rep| == |size| && r < |rep|
    && (rep[r] == r ==> size[r] == |Members(rep, r)|)
  }

  ghost predicate Shallow(rep: seq<nat>, depth: seq<nat>, size: seq<nat>, x: nat) {
    && |rep| == |depth| == |size| && x < |rep|
    && rep[x] < |rep| && rep[rep[x]] == rep[x] && Pow2(depth[x]) <= size[rep[x]]
  }

  /** Each root's size is its exact member count, and a component of size s is at
      most log2(s) deep. */
  ghost predicate Balanced(rep: seq<nat>, depth: seq<nat>, size: seq<nat>) {
    && |rep| == |depth| == |size|
    && (forall r :: 0 <= r < |rep| ==> Sized(rep, size, r))
    && (forall x :: 0 <= x < |rep| ==> Shallow(rep, depth, size, x))
  }

  lemma Singletons(n: nat, rep: seq<nat>, depth: seq<nat>, size: seq<nat>)
    requires |rep| == |depth| == |size| == n
    requires forall x :: 0 <= x < n ==> rep[x] == x && depth[x] == 0 && size[x] == 1
    ensures Balanced(rep, depth, size)
  {
    forall r | 0 <= r < n ensures Sized(rep, size, r) && Shallow(rep, depth, size, r) {
      assert Members(rep, r) == {r};
    }
  }

  /** Hanging the root of the component that is not larger below the other keeps
      sizes exact and the depth logarithmic. */
  lemma LinkBySize(rep: seq<nat>, depth: seq<nat>, size: seq<nat>, child: nat, parent: nat)
    requires Balanced(rep, depth, size) && child < |rep| && parent < |rep| && child != parent
    requires rep[child] == child && rep[parent] == parent && size[child] <= size[parent]
    ensures Balanced(Merge(rep, child, parent), Deepen(depth, rep, child),
                     size[parent := size[parent] + size[child]])
  {
    var rep' := Merge(rep, child, parent);
    var size' := size[parent := size[parent] + size[child]];
    var depth' := Deepen(depth, rep, child);
    assert Sized(rep, size, parent) && Sized(rep, size, child);
    assert Members(rep', parent) == Members(rep, parent) + Members(rep, child);
    assert Members(rep, parent) !! Members(rep, child);
    forall r | 0 <= r < |rep| ensures Sized(rep', size', r) {
      assert Sized(rep, size, r);
      if rep'[r] == r && r != parent {
        assert Members(rep', r) == Members(rep, r);
      }
    }
    forall x | 0 <= x < |rep| ensures Shallow(rep', depth', size', x) {
      assert Shallow(rep, depth, size, x);
    }
  }

  /** The logarithmic bound: 2^depth never exceeds the number of elements. */
  lemma DepthIsLogarithmic(rep: seq<nat>, depth: seq<nat>, size: seq<nat>, x: nat)
    requires Balanced(rep, depth, size) && x < |rep|
    ensures rep[x] < |rep| && Pow2(depth[x]) <= size[rep[x]] <= |rep|
  {
    assert Shallow(rep, depth, size, x) && Sized(rep, size, rep[x]);
    assert Members(rep, rep[x]) <= Below(|rep|);
    Smaller(Members(rep, rep[x]), Below(|rep|));
  }

  /** Sum of the sizes stored at the roots among the first k elements. */
  function RootSizes(rep: seq<nat>, size: seq<nat>, k: nat): nat
    requires k <= |rep| == |size|
  {
    if k == 0 then 0 else RootSizes(rep, size, k - 1) + if rep[k - 1] == k - 1 then size[k - 1] else 0
  }

  ghost function MembersBelow(rep: seq<nat>, k: nat): set<nat> {
    set x: nat | x < |rep| && rep[x] < k
  }

  lemma {:induction false} RootSizesUpTo(rep: seq<nat>, depth: seq<nat>, size: seq<nat>, k: nat)
    requires Balanced(rep, depth, size) && k <= |rep|
    ensures RootSizes(rep, size, k) == |MembersBelow(rep, k)|
  {
    if k == 0 {
      assert MembersBelow(rep, 0) == {};
    } else {
      RootSizesUpTo(rep, depth, size, k - 1);
      assert MembersBelow(rep, k) == MembersBelow(rep, k - 1) + Members(rep, k - 1);
      assert Sized(rep, size, k - 1);
      if rep[k - 1] != k - 1 {
        forall x | 0 <= x < |rep| ensures rep[x] != k - 1 {
          assert Shallow(rep, depth, size, x);
        }
        assert Members(rep, k - 1) == {};
      }
    }
  }

  /** Conservation: the sizes of all the roots add up to the number of elements. */
  lemma RootSizesSum(rep: seq<nat>, depth: seq<nat>, size: seq<nat>)
    requires Balanced(rep, depth, size)
    ensures RootSizes(rep, size, |rep|) == |rep|
  {
    RootSizesUpTo(rep, depth, size, |rep|);
    forall x | 0 <= x < |rep| ensures rep[x] < |rep| {
      assert Shallow(rep, depth, size, x);
    }
    assert MembersBelow(rep, |rep|) == Below(|rep|);
  }
}
