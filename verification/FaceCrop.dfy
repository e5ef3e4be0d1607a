/** From detected faces to a crop: detector/compute.go, position/average.go,
    common/cluster/sort.go, imageutil/crop.go and the automatic branch of
    engine/image.go.  Floating-point numbers are reals; an image is its bounds. */
module FaceCrop {
  import opened Clustering
  import opened Connectivity
  import opened Options
  import opened WeightedSlices

  datatype WeightedVector = WeightedVector(vector: seq<real>, weight: real)

  /** The detector selects one axis, so its vectors have one coordinate. */
  type AxisVector = v: WeightedVector | |v.vector| == 1 && v.weight >= 0.0 witness WeightedVector([0.0], 0.0)

  function DistanceTo(a: AxisVector, b: AxisVector): real {
    AxisDistance(a.vector[0], b.vector[0])
  }

  // ---- weighted average, position/average.go ----

  function Coord(v: WeightedVector, d: nat): real {
    if d < |v.vector| then v.vector[d] else 0.0
  }

  function SumAt<T>(items: seq<T>, get: T -> WeightedVector, d: nat, n: nat): real
    requires n <= |items|
  {
    if n == 0 then 0.0
    else SumAt(items, get, d, n - 1) + Coord(get(items[n - 1]), d) * get(items[n - 1]).weight
  }

  function Total<T>(items: seq<T>, weight: T -> real, n: nat): real
    requires n <= |items|
  {
    if n == 0 then 0.0 else Total(items, weight, n - 1) + weight(items[n - 1])
  }

  function TotalOf<T>(items: seq<T>, weight: T -> real): real {
    Total(items, weight, |items|)
  }

  function WeightOf<T>(get: T -> WeightedVector): T -> real {
    x => get(x).weight
  }

  ghost predicate SameDimension<T>(items: seq<T>, get: T -> WeightedVector) {
    forall i :: 0 <= i < |items| ==> |get(items[i]).vector| == |get(items[0]).vector|
  }

  /** None stands for the panic on mixed dimensions.  No items, or no positive total
      weight, gives the vector without coordinates. */
  method WeightedAverageBy<T>(items: seq<T>, get: T -> WeightedVector) returns (r: Option<seq<real>>)
    ensures r.Some? <==> SameDimension(items, get)
    ensures r.Some? ==>
              var total := TotalOf(items, WeightOf(get));
              if items == [] || total <= 0.0 then r.value == []
              else |r.value| == |get(items[0]).vector|
                   && forall d :: 0 <= d < |r.value| ==> r.value[d] == SumAt(items, get, d, |items|) / total
  {
    if |items| == 0 {
      return Some([]);
    }
    var dim := |get(items[0]).vector|;
    var sum := new real[dim](_ => 0.0);
    var totalWeight := 0.0;
    for k := 0 to |items|
      invariant forall i :: 0 <= i < k ==> |get(items[i]).vector| == dim
      invariant totalWeight == Total(items, WeightOf(get), k)
      invariant Sums(items, get, k, sum[..])
    {
      var wv := get(items[k]);
      if |wv.vector| != dim {
        return None;
      }
      ghost var before := sum[..];
      AddTo(sum, wv);
      totalWeight := totalWeight + wv.weight;
    }
    if totalWeight <= 0.0 {
      return Some([]);
    }
    DivideBy(sum, totalWeight);
    return Some(sum[..]);
  }

  /** sum holds the weighted sums of the first n items, coordinate by coordinate. */
  ghost predicate Sums<T>(items: seq<T>, get: T -> WeightedVector, n: nat, sum: seq<real>)
    requires n <= |items|
  {
    forall d :: 0 <= d < |sum| ==> sum[d] == SumAt(items, get, d, n)
  }

  /** The inner loop over the coordinates of one item. */
  method AddTo(sum: array<real>, wv: WeightedVector)
    requires |wv.vector| == sum.Length
    modifies sum
    ensures forall d :: 0 <= d < sum.Length ==> sum[d] == old(sum[d]) + wv.vector[d] * wv.weight
  {
    for i := 0 to sum.Length
      invariant forall d :: 0 <= d < i ==> sum[d] == old(sum[d]) + wv.vector[d] * wv.weight
      invariant forall d :: i <= d < sum.Length ==> sum[d] == old(sum[d])
    {
      sum[i] := sum[i] + wv.vector[i] * wv.weight;
    }
  }

  /** The last loop: every coordinate is divided in place. */
  method DivideBy(sum: array<real>, total: real)
    requires total > 0.0
    modifies sum
    ensures forall d :: 0 <= d < sum.Length ==> sum[d] == old(sum[d]) / total
  {
    for i := 0 to sum.Length
      invariant forall d :: 0 <= d < i ==> sum[d] == old(sum[d]) / total
      invariant forall d :: i <= d < sum.Length ==> sum[d] == old(sum[d])
    {
      sum[i] := sum[i] / total;
    }
  }

  function Itself(v: AxisVector): WeightedVector { v }

  lemma Scaled(lo: real, x: real, hi: real, w: real)
    requires lo <= x <= hi && w >= 0.0
    ensures lo * w <= x * w <= hi * w
  {
  }

  lemma {:induction false} SumInSpan(items: seq<AxisVector>, lo: real, hi: real, n: nat)
    requires n <= |items| && forall i :: 0 <= i < |items| ==> lo <= items[i].vector[0] <= hi
    ensures var w := Total(items, WeightOf(Itself), n);
            lo * w <= SumAt(items, Itself, 0, n) <= hi * w && w >= 0.0
  {
    if n > 0 {
      SumInSpan(items, lo, hi, n - 1);
      Scaled(lo, items[n - 1].vector[0], hi, items[n - 1].weight);
    }
  }

  lemma QuotientInSpan(lo: real, s: real, hi: real, w: real)
    requires w > 0.0 && lo * w <= s <= hi * w
    ensures lo <= s / w <= hi
  {
    assert (s / w) * w == s;
  }

  ghost predicate Lowest(items: seq<AxisVector>, a: nat) {
    a < |items| && forall i :: 0 <= i < |items| ==> items[a].vector[0] <= items[i].vector[0]
  }

  ghost predicate Highest(items: seq<AxisVector>, b: nat) {
    b < |items| && forall i :: 0 <= i < |items| ==> items[i].vector[0] <= items[b].vector[0]
  }

  lemma {:induction false} Extremes(items: seq<AxisVector>) returns (a: nat, b: nat)
    requires items != []
    ensures Lowest(items, a) && Highest(items, b)
  {
    if |items| == 1 {
      a, b := 0, 0;
    } else {
      var front := items[..|items| - 1];
      a, b := Extremes(front);
      forall i | 0 <= i < |front| ensures front[a].vector[0] <= items[i].vector[0] <= front[b].vector[0] {
        assert front[i] == items[i];
      }
      if items[|front|].vector[0] < items[a].vector[0] { a := |front|; }
      if items[|front|].vector[0] > items[b].vector[0] { b := |front|; }
    }
  }

  /** The weighted average of a group lies between two of its members. */
  lemma AverageInSpan(items: seq<AxisVector>) returns (a: nat, b: nat)
    requires TotalOf(items, WeightOf(Itself)) > 0.0
    ensures a < |items| && b < |items|
    ensures items[a].vector[0]
         <= SumAt(items, Itself, 0, |items|) / TotalOf(items, WeightOf(Itself))
         <= items[b].vector[0]
  {
    a, b := Extremes(items);
    SumInSpan(items, items[a].vector[0], items[b].vector[0], |items|);
    QuotientInSpan(items[a].vector[0], SumAt(items, Itself, 0, |items|),
                   items[b].vector[0], TotalOf(items, WeightOf(Itself)));
  }

  // ---- heaviest group first, common/cluster/sort.go ----

  function GroupWeights<T>(groups: seq<Group<T>>, weight: T -> real): (r: seq<real>)
    ensures |r| == |groups| && forall g :: 0 <= g < |r| ==> r[g] == TotalOf(groups[g].items, weight)
  {
    seq(|groups|, g requires 0 <= g < |groups| => TotalOf(groups[g].items, weight))
  }

  /** Sorts in place, through a weighted slice that shares the groups. */
  method SortGroupsByWeight<T>(groups: array<Group<T>>, weight: T -> real) returns (ghost perm: seq<nat>)
    modifies groups
    ensures StableOrder(GroupWeights(old(groups[..]), weight), perm)
    ensures Arranged(old(groups[..]), groups[..], perm)
  {
    if groups.Length <= 1 {
      return seq(groups.Length, i => i);
    }
    var weights := new real[groups.Length];
    for g := 0 to groups.Length
      invariant groups[..] == old(groups[..])
      invariant forall k :: 0 <= k < g ==> weights[k] == TotalOf(groups[k].items, weight)
    {
      var sum := 0.0;
      for k := 0 to |groups[g].items|
        invariant sum == Total(groups[g].items, weight, k)
      {
        sum := sum + weight(groups[g].items[k]);
      }
      weights[g] := sum;
    }
    assert weights[..] == GroupWeights(groups[..], weight);
    var slice := new WeightedSlice(groups, weights);
    perm := slice.SortStable();
  }

  /** The group sorted to the front has maximal total weight, and is the first such. */
  lemma FrontIsHeaviest(w: seq<real>, perm: seq<nat>, g: nat)
    requires StableOrder(w, perm) && g < |w|
    ensures perm[0] < |w| && (w[g] < w[perm[0]] || (w[g] == w[perm[0]] && perm[0] <= g))
  {
    Covers(w, perm, g);
    var i :| 0 <= i < |perm| && perm[i] == g;
    assert i > 0 ==> Before(w, perm[0], perm[i]);
  }

  // ---- detection, detector/compute.go ----

  datatype Rect = Rect(x0: int, y0: int, x1: int, y1: int) {
    function Dx(): int { x1 - x0 }
    function Dy(): int { y1 - y0 }
    predicate Empty() { x0 >= x1 || y0 >= y1 }
  }

  datatype Face = Face(col: int, row: int, scale: int, q: real)

  const TOLERANCE := 0.05

  function ComputeFaceWeight(face: Face): real {
    face.scale as real * face.q
  }

  /** Conversion of a float to an int: towards zero. */
  function Trunc(x: real): int {
    if x >= 0.0 then x.Floor else -((-x).Floor)
  }

  /** int(float64(n) * f) and int(float64(n) / f). */
  function Times(n: int, f: real): int { Trunc(Product(n as real, f)) }
  function Product(x: real, f: real): real { x * f }
  function Over(n: int, f: real): int requires f != 0.0 { Trunc(n as real / f) }

  function DominantAxisByRatio(bounds: Rect, ratio: real): nat {
    if Times(bounds.Dy(), ratio) < bounds.Dx() then 0 else 1
  }

  function FaceVector(bounds: Rect, face: Face): (r: seq<real>)
    requires bounds.Dx() > 0 && bounds.Dy() > 0
    ensures |r| == 2
  {
    [face.col as real / bounds.Dx() as real, face.row as real / bounds.Dy() as real]
  }

  function AxisVectorOf(bounds: Rect, face: Face, axis: nat): AxisVector
    requires bounds.Dx() > 0 && bounds.Dy() > 0 && axis < 2 && ComputeFaceWeight(face) >= 0.0
  {
    WeightedVector([FaceVector(bounds, face)[axis]], ComputeFaceWeight(face))
  }

  /** Bounds of a non-empty image and faces of no negative weight, which would panic. */
  predicate Detectable(bounds: Rect, faces: seq<Face>) {
    && 0 < bounds.Dx() && 0 < bounds.Dy()
    && forall i :: 0 <= i < |faces| ==> ComputeFaceWeight(faces[i]) >= 0.0
  }

  function AxisVectors(bounds: Rect, faces: seq<Face>, axis: nat): (r: seq<AxisVector>)
    requires Detectable(bounds, faces) && axis < 2
    ensures |r| == |faces|
    ensures forall i :: 0 <= i < |r| ==> r[i] == AxisVectorOf(bounds, faces[i], axis)
  {
    seq(|faces|, i requires 0 <= i < |faces| => AxisVectorOf(bounds, faces[i], axis))
  }

  /** Where a face lies along an axis, in pixels. */
  function Along(face: Face, axis: nat): int {
    if axis == 0 then face.col else face.row
  }

  function Extent(bounds: Rect, axis: nat): int {
    if axis == 0 then bounds.Dx() else bounds.Dy()
  }

  /** Two faces are at most a twentieth of the image apart, in columns on axis 0 and in
      rows on axis 1. */
  predicate CloseBy(img: Rect, a: Face, b: Face, axis: nat) {
    if axis == 0 then -0.05 * img.Dx() as real <= (a.col - b.col) as real <= 0.05 * img.Dx() as real
    else -0.05 * img.Dy() as real <= (a.row - b.row) as real <= 0.05 * img.Dy() as real
  }

  ghost function FaceEdges(img: Rect, faces: seq<Face>, axis: nat): Edges {
    set i: nat, j: nat | i < j < |faces| && CloseBy(img, faces[i], faces[j], axis) :: (i, j)
  }

  lemma DistanceInPixels(x: int, y: int, e: int)
    requires e > 0
    ensures AxisDistance(x as real / e as real, y as real / e as real) <= 0.05
       <==> (if x < y then y - x else x - y) as real <= 0.05 * e as real
  {
    ShareSign(x as real, y as real, e as real);
    if x < y {
      ShareWithin(x as real, y as real, e as real);
    } else {
      ShareWithin(y as real, x as real, e as real);
    }
  }

  lemma ShareWithin(x: real, y: real, e: real)
    requires e > 0.0
    ensures y / e - x / e <= 0.05 <==> y - x <= 0.05 * e
  {
    var a, b := x / e, y / e;
    assert a * e == x && b * e == y;
    ProductOrder(b - a, 0.05, e);
    assert (b - a) * e == b * e - a * e;
  }

  lemma ShareSign(x: real, y: real, e: real)
    requires e > 0.0
    ensures x / e < y / e <==> x < y
  {
    var a, b := x / e, y / e;
    assert a * e == x && b * e == y;
    ProductOrder(b, a, e);
  }

  lemma ProductOrder(a: real, b: real, r: real)
    requires r > 0.0
    ensures a * r <= b * r <==> a <= b
  {
    assert (b - a) * r == b * r - a * r;
    if a > b {
      assert (a - b) * r > 0.0;
    }
  }

  /** The proximity graph of the axis vectors is that of the faces. */
  lemma NearFaces(img: Rect, faces: seq<Face>, axis: nat)
    requires Detectable(img, faces) && axis < 2
    ensures Near(AxisVectors(img, faces, axis), DistanceTo, TOLERANCE) == FaceEdges(img, faces, axis)
  {
    forall i, j | 0 <= i < j < |faces|
      ensures DistanceTo(AxisVectorOf(img, faces[i], axis), AxisVectorOf(img, faces[j], axis)) <= TOLERANCE
         <==> CloseBy(img, faces[i], faces[j], axis)
    {
      DistanceInPixels(Along(faces[i], axis), Along(faces[j], axis), Extent(img, axis));
    }
  }

  /** The groups are the clusters of the faces on an axis: chains of faces that are close
      by. */
  ghost predicate Clustered(img: Rect, faces: seq<Face>, axis: nat, groups: seq<Group<AxisVector>>,
                            at: seq<seq<nat>>) {
    && Detectable(img, faces) && axis < 2
    && Grouped(AxisVectors(img, faces, axis), FaceEdges(img, faces, axis), groups, at)
  }

  method ClusterFaceVectors(bounds: Rect, faces: seq<Face>, axis: nat)
    returns (groups: seq<Group<AxisVector>>, ghost at: seq<seq<nat>>)
    requires Detectable(bounds, faces) && axis < 2
    ensures var vecs := AxisVectors(bounds, faces, axis);
            Grouped(vecs, Near(vecs, DistanceTo, TOLERANCE), groups, at)
    ensures var vecs := AxisVectors(bounds, faces, axis);
            IsGrouping(vecs, Near(vecs, DistanceTo, TOLERANCE), groups)
    ensures Clustered(bounds, faces, axis, groups, at)
  {
    var vecs: seq<AxisVector> := [];
    for i := 0 to |faces|
      invariant |vecs| == i && forall k :: 0 <= k < i ==> vecs[k] == AxisVectorOf(bounds, faces[k], axis)
    {
      vecs := vecs + [AxisVectorOf(bounds, faces[i], axis)];
    }
    assert vecs == AxisVectors(bounds, faces, axis);
    groups, at := GroupByDistance(vecs, DistanceTo, TOLERANCE);
    NearFaces(bounds, faces, axis);
  }

  function GroupWeight(group: Group<AxisVector>): real {
    TotalOf(group.items, WeightOf(Itself))
  }

  /** No group is heavier than the best, and those listed before it are lighter. */
  ghost predicate Heaviest(groups: seq<Group<AxisVector>>, best: nat) {
    && best < |groups|
    && forall g :: 0 <= g < |groups| ==>
         GroupWeight(groups[g]) < GroupWeight(groups[best])
         || (GroupWeight(groups[g]) == GroupWeight(groups[best]) && best <= g)
  }

  /** The weighted average of the positions of a group. */
  function AxisAverage(items: seq<AxisVector>): real
    requires TotalOf(items, WeightOf(Itself)) > 0.0
  {
    SumAt(items, Itself, 0, |items|) / TotalOf(items, WeightOf(Itself))
  }

  /** pos lies between two members of the group. */
  ghost predicate InSpan(items: seq<AxisVector>, pos: real) {
    exists a, b :: 0 <= a < |items| && 0 <= b < |items| && items[a].vector[0] <= pos <= items[b].vector[0]
  }

  /** What averaging the items of a group gives. */
  ghost predicate Averaged(items: seq<AxisVector>, v: seq<real>) {
    if TotalOf(items, WeightOf(Itself)) <= 0.0 then v == [] else v == [AxisAverage(items)] && InSpan(items, v[0])
  }

  /** What the dominant vector of clusters looks like. */
  ghost predicate Dominant(groups: seq<Group<AxisVector>>, vec: Option<seq<real>>, best: nat) {
    && (vec.None? <==> groups == [])
    && (vec.Some? ==>
          Heaviest(groups, best) && Averaged(groups[best].items, vec.value))
  }

  lemma FrontGroup(groups: seq<Group<AxisVector>>, perm: seq<nat>)
    requires groups != [] && StableOrder(GroupWeights(groups, WeightOf(Itself)), perm)
    ensures Heaviest(groups, perm[0])
  {
    var w := GroupWeights(groups, WeightOf(Itself));
    FrontIsHeaviest(w, perm, 0);
    forall g | 0 <= g < |groups|
      ensures GroupWeight(groups[g]) < GroupWeight(groups[perm[0]])
              || (GroupWeight(groups[g]) == GroupWeight(groups[perm[0]]) && perm[0] <= g)
    {
      FrontIsHeaviest(w, perm, g);
    }
  }

  method WeightedAverageVector(items: seq<AxisVector>) returns (v: Option<seq<real>>)
    ensures v.Some? && Averaged(items, v.value)
  {
    v := WeightedAverageBy(items, Itself);
    if TotalOf(items, WeightOf(Itself)) > 0.0 {
      var a, b := AverageInSpan(items);
    } else if items == [] {
      assert TotalOf(items, WeightOf(Itself)) == 0.0;
    }
  }

  method GetDominantVector(groups: array<Group<AxisVector>>) returns (vec: Option<seq<real>>, ghost best: nat)
    modifies groups
    ensures exists perm :: StableOrder(GroupWeights(old(groups[..]), WeightOf(Itself)), perm)
                           && Arranged(old(groups[..]), groups[..], perm)
    ensures Dominant(old(groups[..]), vec, best)
  {
    best := 0;
    if groups.Length == 0 {
      assert StableOrder(GroupWeights(groups[..], WeightOf(Itself)), []) && Arranged(groups[..], groups[..], []);
      return None, 0;
    }
    ghost var before := groups[..];
    ghost var perm := SortGroupsByWeight(groups, WeightOf(Itself));
    FrontGroup(before, perm);
    best := perm[0];
    assert groups[0] == groups[..][0] == before[best];
    vec := WeightedAverageVector(groups[0].items);
  }

  // ---- the clusters on the axis ----

  function Coordinates(vecs: seq<AxisVector>): (r: seq<real>)
    ensures |r| == |vecs| && forall i :: 0 <= i < |r| ==> r[i] == vecs[i].vector[0]
  {
    seq(|vecs|, i requires 0 <= i < |vecs| => vecs[i].vector[0])
  }

  /** The detector's groups are maximal clusters on the line: sorted neighbours in a
      group are within the tolerance, and the spans of two groups are further apart
      than that. */
  lemma MaximalClusters(vecs: seq<AxisVector>, groups: seq<Group<AxisVector>>, at: seq<seq<nat>>, g: nat, h: nat)
    requires Grouped(vecs, Near(vecs, DistanceTo, TOLERANCE), groups, at) && g < |at| && h < |at|
    ensures forall i, j :: i in at[g] && j in at[g] && vecs[i].vector[0] < vecs[j].vector[0] ==>
              exists k :: k in at[g] && vecs[i].vector[0] < vecs[k].vector[0] <= vecs[i].vector[0] + TOLERANCE
    ensures g != h ==>
              LeftOf(Coordinates(vecs), TOLERANCE, at[g], at[h]) || LeftOf(Coordinates(vecs), TOLERANCE, at[h], at[g])
  {
    var xs := Coordinates(vecs);
    assert Near(vecs, DistanceTo, TOLERANCE) == Near(xs, AxisDistance, TOLERANCE);
    var lines := seq(|at|, k requires 0 <= k < |at| => Group(Picked(xs, at[k])));
    forall k | 0 <= k < |at| ensures Holds(xs, lines[k], at[k]) {
      assert Holds(vecs, groups[k], at[k]);
    }
    assert Grouped(xs, Near(xs, AxisDistance, TOLERANCE), lines, at);
    forall i, j | i in at[g] && j in at[g] && vecs[i].vector[0] < vecs[j].vector[0]
      ensures exists k :: k in at[g] && vecs[i].vector[0] < vecs[k].vector[0] <= vecs[i].vector[0] + TOLERANCE
    {
      NoGaps(xs, TOLERANCE, lines, at, g, i, j);
    }
    if g != h {
      SpansApart(xs, TOLERANCE, lines, at, g, h);
    }
  }

  function Picked(xs: seq<real>, at: seq<nat>): seq<real> {
    if forall k :: 0 <= k < |at| ==> at[k] < |xs| then Pick(xs, at) else []
  }

  // ---- the detector ----

  lemma {:induction false} TotalSign(items: seq<AxisVector>, n: nat)
    requires n <= |items|
    ensures Total(items, WeightOf(Itself), n) >= 0.0
    ensures Total(items, WeightOf(Itself), n) > 0.0 <==> exists k :: 0 <= k < n && items[k].weight > 0.0
  {
    if n > 0 {
      TotalSign(items, n - 1);
      assert Itself(items[n - 1]).weight == WeightOf(Itself)(items[n - 1]);
    }
  }

  /** The heaviest group has positive weight exactly when some face has. */
  lemma HeaviestSign(vecs: seq<AxisVector>, edges: Edges, groups: seq<Group<AxisVector>>, at: seq<seq<nat>>, best: nat)
    requires Grouped(vecs, edges, groups, at) && Heaviest(groups, best)
    ensures GroupWeight(groups[best]) > 0.0 <==> exists i :: 0 <= i < |vecs| && vecs[i].weight > 0.0
  {
    assert Holds(vecs, groups[best], at[best]);
    TotalSign(groups[best].items, |groups[best].items|);
    if i :| 0 <= i < |vecs| && vecs[i].weight > 0.0 {
      assert Placed(at, i);
      var g :| 0 <= g < |at| && i in at[g];
      assert Holds(vecs, groups[g], at[g]);
      var k :| 0 <= k < |at[g]| && at[g][k] == i;
      TotalSign(groups[g].items, |groups[g].items|);
      assert groups[g].items[k].weight > 0.0;
    }
  }

  ghost predicate SomeWeight(vecs: seq<AxisVector>) {
    exists i :: 0 <= i < |vecs| && vecs[i].weight > 0.0
  }

  /** The dominant vector has a coordinate exactly when some face has weight. */
  lemma DominantSign(vecs: seq<AxisVector>, edges: Edges, groups: seq<Group<AxisVector>>, at: seq<seq<nat>>,
                     vec: Option<seq<real>>, best: nat)
    requires Grouped(vecs, edges, groups, at) && Dominant(groups, vec, best)
    ensures vec.Some? && |vec.value| == 1 <==> SomeWeight(vecs)
  {
    if vec.Some? {
      HeaviestSign(vecs, edges, groups, at, best);
    } else {
      assert at == [] && (|vecs| > 0 ==> Placed(at, 0));
    }
  }

  const MAX_IMAGE_WIDTH := 650

  /** The height of an image resized to the maximal width: in proportion, rounded to the
      nearest pixel, and at least 1. */
  function ResizedHeight(width: int, height: int): (h: int)
    requires width > 0
    ensures h >= 1
  {
    Max(1, (2 * MAX_IMAGE_WIDTH * height + width) / (2 * width))
  }

  /** The image the detector looks at: a wide one is resized first. */
  function Seen(bounds: Rect): Rect
    requires bounds.Dx() > 0
  {
    if bounds.Dx() > MAX_IMAGE_WIDTH then Rect(0, 0, MAX_IMAGE_WIDTH, ResizedHeight(bounds.Dx(), bounds.Dy()))
    else bounds
  }

  // ---- on the faces themselves ----

  ghost predicate Members(faces: seq<Face>, at: seq<nat>) {
    forall k :: 0 <= k < |at| ==> at[k] < |faces|
  }

  /** What the first n faces listed weigh: size times quality. */
  ghost function Mass(faces: seq<Face>, at: seq<nat>, n: nat): real
    requires n <= |at| && Members(faces, at)
  {
    if n == 0 then 0.0 else Mass(faces, at, n - 1) + faces[at[n - 1]].scale as real * faces[at[n - 1]].q
  }

  /** The sum of their columns, on axis 0, or rows, each times its weight. */
  ghost function Moment(faces: seq<Face>, at: seq<nat>, axis: nat, n: nat): real
    requires n <= |at| && Members(faces, at)
  {
    if n == 0 then 0.0
    else var f := faces[at[n - 1]];
         Moment(faces, at, axis, n - 1)
         + (f.scale as real * f.q) * (if axis == 0 then f.col as real else f.row as real)
  }

  /** The position lies between two of the faces listed: between their columns when it
      is measured across the image, between their rows when down it. */
  predicate FramedBy(img: Rect, faces: seq<Face>, axis: nat, i: nat, j: nat, pos: real) {
    && i < |faces| && j < |faces|
    && if axis == 0
       then faces[i].col as real <= Product(img.Dx() as real, pos) <= faces[j].col as real
       else faces[i].row as real <= Product(img.Dy() as real, pos) <= faces[j].row as real
  }

  ghost predicate Framed(img: Rect, faces: seq<Face>, axis: nat, at: seq<nat>, pos: real) {
    exists i, j :: i in at && j in at && FramedBy(img, faces, axis, i, j, pos)
  }

  /** The position is the weighted mean of the faces listed, as a share of the extent. */
  ghost predicate MeanOf(img: Rect, faces: seq<Face>, axis: nat, at: seq<nat>, pos: real) {
    && Members(faces, at) && Mass(faces, at, |at|) > 0.0
    && Product(Extent(img, axis) as real, pos) == Moment(faces, at, axis, |at|) / Mass(faces, at, |at|)
  }

  ghost predicate AllMembers(faces: seq<Face>, at: seq<seq<nat>>) {
    forall g :: 0 <= g < |at| ==> Members(faces, at[g])
  }

  /** No cluster of faces weighs more than the best, and those before it weigh less. */
  ghost predicate Weightiest(faces: seq<Face>, at: seq<seq<nat>>, best: nat) {
    && AllMembers(faces, at) && best < |at|
    && forall g :: 0 <= g < |at| ==>
         Mass(faces, at[g], |at[g]|) < Mass(faces, at[best], |at[best]|)
         || (Mass(faces, at[g], |at[g]|) == Mass(faces, at[best], |at[best]|) && best <= g)
  }

  lemma ShareTerm(a: real, c: real, e: real, w: real)
    requires e > 0.0
    ensures (a + (c / e) * w) * e == a * e + w * c
  {
    assert (c / e) * e == c;
    assert (a + (c / e) * w) * e == a * e + ((c / e) * e) * w;
  }

  /** The items are the axis vectors of the faces listed. */
  ghost predicate ItemsOf(img: Rect, faces: seq<Face>, axis: nat, items: seq<AxisVector>, at: seq<nat>) {
    && Detectable(img, faces) && axis < 2 && Members(faces, at) && |at| == |items|
    && forall k :: 0 <= k < |at| ==> ItemOf(img, faces[at[k]], axis, items[k])
  }

  ghost predicate ItemOf(img: Rect, f: Face, axis: nat, v: AxisVector)
    requires img.Dx() > 0 && img.Dy() > 0
  {
    && v.weight == f.scale as real * f.q
    && v.vector[0] == if axis == 0 then f.col as real / img.Dx() as real else f.row as real / img.Dy() as real
  }

  lemma MomentTerm(img: Rect, f: Face, axis: nat, v: AxisVector, sum: real)
    requires img.Dx() > 0 && img.Dy() > 0 && axis < 2 && ItemOf(img, f, axis, v)
    ensures Product(sum + v.vector[0] * v.weight, Extent(img, axis) as real) ==
            Product(sum, Extent(img, axis) as real)
            + (f.scale as real * f.q) * (if axis == 0 then f.col as real else f.row as real)
  {
    ShareTerm(sum, Along(f, axis) as real, Extent(img, axis) as real, v.weight);
  }

  /** A group of axis vectors weighs what its faces weigh. */
  lemma {:induction false} GroupMass(img: Rect, faces: seq<Face>, axis: nat, items: seq<AxisVector>, at: seq<nat>,
                                     n: nat)
    requires ItemsOf(img, faces, axis, items, at) && n <= |at|
    ensures Total(items, WeightOf(Itself), n) == Mass(faces, at, n)
  {
    if n > 0 {
      GroupMass(img, faces, axis, items, at, n - 1);
      assert ItemOf(img, faces[at[n - 1]], axis, items[n - 1]);
      assert Itself(items[n - 1]).weight == WeightOf(Itself)(items[n - 1]);
    }
  }

  lemma {:induction false} GroupMoment(img: Rect, faces: seq<Face>, axis: nat, items: seq<AxisVector>, at: seq<nat>,
                                       n: nat)
    requires ItemsOf(img, faces, axis, items, at) && n <= |at|
    ensures Product(SumAt(items, Itself, 0, n), Extent(img, axis) as real) == Moment(faces, at, axis, n)
  {
    if n > 0 {
      GroupMoment(img, faces, axis, items, at, n - 1);
      assert ItemOf(img, faces[at[n - 1]], axis, items[n - 1]);
      SumStep(items, n);
      MomentTerm(img, faces[at[n - 1]], axis, items[n - 1], SumAt(items, Itself, 0, n - 1));
    }
  }

  lemma SumStep(items: seq<AxisVector>, n: nat)
    requires 0 < n <= |items|
    ensures SumAt(items, Itself, 0, n) ==
            SumAt(items, Itself, 0, n - 1) + items[n - 1].vector[0] * items[n - 1].weight
  {
  }

  lemma ItemsOfFaces(img: Rect, faces: seq<Face>, axis: nat, group: Group<AxisVector>, at: seq<nat>)
    requires Detectable(img, faces) && axis < 2 && Holds(AxisVectors(img, faces, axis), group, at)
    ensures ItemsOf(img, faces, axis, group.items, at) && GroupWeight(group) == Mass(faces, at, |at|)
  {
    forall k | 0 <= k < |at| ensures ItemOf(img, faces[at[k]], axis, group.items[k]) {
      assert group.items[k] == AxisVectorOf(img, faces[at[k]], axis);
    }
    GroupMass(img, faces, axis, group.items, at, |at|);
  }

  lemma QuotientTimes(c: real, e: real, pos: real)
    requires e > 0.0
    ensures c / e <= pos ==> c <= Product(e, pos)
    ensures pos <= c / e ==> Product(e, pos) <= c
  {
    var q := c / e;
    assert q * e == c;
    assert Product(e, pos) - c == e * (pos - q);
  }

  lemma MeanTimes(s: real, m: real, e: real, t: real)
    requires m > 0.0 && Product(s, e) == t
    ensures Product(e, s / m) == t / m
  {
    assert (s / m) * m == s;
    assert Product(e, s / m) * m == t;
  }

  /** What lies in the span of a group lies between two of its faces. */
  lemma SpanFrames(img: Rect, faces: seq<Face>, axis: nat, group: Group<AxisVector>, at: seq<nat>, pos: real)
    requires Detectable(img, faces) && axis < 2 && Holds(AxisVectors(img, faces, axis), group, at)
    requires InSpan(group.items, pos)
    ensures Framed(img, faces, axis, at, pos)
  {
    ItemsOfFaces(img, faces, axis, group, at);
    var a, b :| 0 <= a < |at| && 0 <= b < |at| && group.items[a].vector[0] <= pos <= group.items[b].vector[0];
    QuotientTimes(Along(faces[at[a]], axis) as real, Extent(img, axis) as real, pos);
    QuotientTimes(Along(faces[at[b]], axis) as real, Extent(img, axis) as real, pos);
    assert at[a] in at && at[b] in at && FramedBy(img, faces, axis, at[a], at[b], pos);
  }

  /** The heaviest group of axis vectors is the weightiest cluster of faces. */
  lemma HeaviestWeighs(img: Rect, faces: seq<Face>, axis: nat, groups: seq<Group<AxisVector>>,
                       at: seq<seq<nat>>, best: nat)
    requires Clustered(img, faces, axis, groups, at) && Heaviest(groups, best)
    ensures Weightiest(faces, at, best)
  {
    forall g | 0 <= g < |at|
      ensures Members(faces, at[g]) && GroupWeight(groups[g]) == Mass(faces, at[g], |at[g]|)
    {
      ItemsOfFaces(img, faces, axis, groups[g], at[g]);
    }
  }

  /** Where the position comes from: it is the weighted mean of the faces of a weightiest
      cluster, and so lies between two of them. */
  ghost predicate FromFaces(img: Rect, faces: seq<Face>, axis: nat, at: seq<seq<nat>>, best: nat, pos: real) {
    && Weightiest(faces, at, best)
    && Framed(img, faces, axis, at[best], pos) && MeanOf(img, faces, axis, at[best], pos)
  }

  lemma GroupMean(img: Rect, faces: seq<Face>, axis: nat, items: seq<AxisVector>, at: seq<nat>)
    requires ItemsOf(img, faces, axis, items, at) && Mass(faces, at, |at|) > 0.0
    ensures TotalOf(items, WeightOf(Itself)) == Mass(faces, at, |at|)
    ensures MeanOf(img, faces, axis, at, AxisAverage(items))
  {
    GroupMass(img, faces, axis, items, at, |at|);
    GroupMoment(img, faces, axis, items, at, |at|);
    MeanTimes(SumAt(items, Itself, 0, |items|), Mass(faces, at, |at|), Extent(img, axis) as real,
              Moment(faces, at, axis, |at|));
  }

  lemma PositionOfFaces(img: Rect, faces: seq<Face>, axis: nat, groups: seq<Group<AxisVector>>,
                        at: seq<seq<nat>>, best: nat, v: seq<real>)
    requires Clustered(img, faces, axis, groups, at) && Heaviest(groups, best)
    requires Averaged(groups[best].items, v) && |v| == 1
    ensures FromFaces(img, faces, axis, at, best, v[0])
  {
    HeaviestWeighs(img, faces, axis, groups, at, best);
    ItemsOfFaces(img, faces, axis, groups[best], at[best]);
    GroupMean(img, faces, axis, groups[best].items, at[best]);
    SpanFrames(img, faces, axis, groups[best], at[best], v[0]);
  }

  /** A face with positive weight. */
  ghost predicate SomeFace(faces: seq<Face>) {
    exists i :: 0 <= i < |faces| && faces[i].scale as real * faces[i].q > 0.0
  }

  lemma SomeFaceCounts(img: Rect, faces: seq<Face>, axis: nat, groups: seq<Group<AxisVector>>,
                       at: seq<seq<nat>>, vec: Option<seq<real>>, best: nat)
    requires Clustered(img, faces, axis, groups, at) && Dominant(groups, vec, best)
    ensures vec.Some? && |vec.value| == 1 <==> SomeFace(faces)
  {
    var vecs := AxisVectors(img, faces, axis);
    DominantSign(vecs, FaceEdges(img, faces, axis), groups, at, vec, best);
    forall i | 0 <= i < |faces| ensures vecs[i].weight == faces[i].scale as real * faces[i].q {
      assert vecs[i] == AxisVectorOf(img, faces[i], axis);
    }
  }

  /** The faces are those detected in the image looked at; groups and at are the
      clusters, best the one the position comes from. */
  method FindPrimaryFaceAxisRatio(bounds: Rect, faces: seq<Face>, ratio: real)
    returns (pos: real, found: bool, ghost groups: seq<Group<AxisVector>>, ghost at: seq<seq<nat>>, ghost best: nat)
    requires bounds.Dx() > 0 && Detectable(Seen(bounds), faces)
    ensures found <==> SomeFace(faces)
    ensures var img := Seen(bounds);
            var axis := DominantAxisByRatio(img, ratio);
            && Clustered(img, faces, axis, groups, at)
            && (found ==> Heaviest(groups, best) && InSpan(groups[best].items, pos)
                          && FromFaces(img, faces, axis, at, best, pos))
  {
    var img := bounds;
    if img.Dx() > MAX_IMAGE_WIDTH {
      img := Rect(0, 0, MAX_IMAGE_WIDTH, ResizedHeight(img.Dx(), img.Dy()));
    }
    var axis := DominantAxisByRatio(img, ratio);
    var clusters;
    clusters, at := ClusterFaceVectors(img, faces, axis);
    groups := clusters;
    var slice := new Group<AxisVector>[|clusters|](i requires 0 <= i < |clusters| => clusters[i]);
    assert slice[..] == clusters;
    var vec;
    vec, best := GetDominantVector(slice);
    SomeFaceCounts(img, faces, axis, groups, at, vec, best);
    if vec.None? || |vec.value| != 1 {
      return 0.0, false, groups, at, best;
    }
    PositionOfFaces(img, faces, axis, groups, at, best, vec.value);
    return vec.value[0], true, groups, at, best;
  }

  // ---- the crop, imageutil/crop.go ----

  function Max(a: int, b: int): int { if a < b then b else a }
  function Min(a: int, b: int): int { if a < b then a else b }

  /** SubImage: the part of the rectangle inside the bounds, or the empty image. */
  function SubImage(bounds: Rect, r: Rect): Rect {
    var c := Rect(Max(bounds.x0, r.x0), Max(bounds.y0, r.y0), Min(bounds.x1, r.x1), Min(bounds.y1, r.y1));
    if c.Empty() then Rect(0, 0, 0, 0) else c
  }

  /** The offset of a window of the given size along an extent. */
  function Offset(extent: int, size: int, pos: real): int {
    Max(Min(Times(extent, pos) - Over(size, 2.0), extent - size), 0)
  }

  /** The crop in terms of the axis the detector chose: the window slides along that
      axis and spans the other. */
  function CropAlong(bounds: Rect, axis: nat, size: int, offset: int): Rect {
    if axis == 0 then SubImage(bounds, Rect(bounds.x0 + offset, bounds.y0, bounds.x0 + offset + size, bounds.y1))
    else SubImage(bounds, Rect(bounds.x0, bounds.y0 + offset, bounds.x1, bounds.y0 + offset + size))
  }

  predicate Croppable(ratio: real) {
    0.01 <= ratio <= 100.0
  }

  /** The size of the window along the dominant axis, never more than the image. */
  function WindowSize(bounds: Rect, ratio: real): int
    requires Croppable(ratio)
  {
    if DominantAxisByRatio(bounds, ratio) == 0 then Times(bounds.Dy(), ratio)
    else Min(Over(bounds.Dx(), ratio), bounds.Dy())
  }

  /** The detector and the crop compute their axis separately; the crop moves along
      the detector's axis only. */
  method CropImagePosition(bounds: Rect, ratio: real, pos: real) returns (r: Rect)
    requires bounds.Dx() > 0 && bounds.Dy() > 0
    ensures !Croppable(ratio) ==> r == bounds
    ensures Croppable(ratio) ==>
              var axis, size := DominantAxisByRatio(bounds, ratio), WindowSize(bounds, ratio);
              r == CropAlong(bounds, axis, size, Offset(Extent(bounds, axis), size, pos))
  {
    if ratio < 0.01 || ratio > 100.0 {
      return bounds;
    }
    var width, height := bounds.Dx(), bounds.Dy();
    var w, h := width, height;
    var x, y := 0, 0;
    w := Times(height, ratio);
    if w < width {
      x := Max(Min(Times(width, pos) - Over(w, 2.0), width - w), 0);
    } else {
      h := Over(width, ratio);
      if h < height {
        y := Max(Min(Times(height, pos) - Over(h, 2.0), height - h), 0);
      }
    }
    r := SubImage(bounds, Rect(0 + x + bounds.x0, 0 + y + bounds.y0, w + x + bounds.x0, h + y + bounds.y0));
  }

  predicate Inside(r: Rect, bounds: Rect) {
    bounds.x0 <= r.x0 && bounds.y0 <= r.y0 && r.x1 <= bounds.x1 && r.y1 <= bounds.y1
  }

  /** The window starts half its size before the pixel, unless an edge stops it. */
  predicate Centred(extent: int, size: int, offset: int, pixel: int) {
    && 0 <= offset <= extent - size
    && (offset == pixel - size / 2
        || (offset == 0 && pixel < size / 2) || (offset == extent - size && pixel - size / 2 > extent - size))
  }

  /** The window stays inside the extent and is centred on the pixel the position names,
      as far as the edges allow; it covers that pixel when it is one of the image (the
      last one when the position is 1). */
  lemma WindowCovers(extent: int, size: int, pos: real)
    requires 0 < size <= extent
    ensures Centred(extent, size, Offset(extent, size, pos), Times(extent, pos))
    ensures 0 <= Times(extent, pos) <= extent ==>
              Offset(extent, size, pos) <= Min(Times(extent, pos), extent - 1) < Offset(extent, size, pos) + size
  {
    Halved(size);
    Clamped(extent, size, Times(extent, pos));
  }

  lemma Halved(size: nat)
    ensures Over(size, 2.0) == size / 2
  {
    assert size as real / 2.0 - 1.0 < (size / 2) as real <= size as real / 2.0;
  }

  lemma PixelInside(extent: nat, pos: real)
    requires 0.0 <= pos <= 1.0
    ensures 0 <= Times(extent, pos) <= extent
  {
    assert extent as real * pos >= 0.0;
    assert extent as real * (1.0 - pos) >= 0.0;
  }

  lemma Clamped(extent: int, size: int, pixel: int)
    requires 0 < size <= extent
    ensures var offset := Max(Min(pixel - size / 2, extent - size), 0);
            && Centred(extent, size, offset, pixel)
            && (0 <= pixel <= extent ==> offset <= Min(pixel, extent - 1) < offset + size)
  {
  }

  predicate Shows(r: Rect, axis: nat, pixel: int) {
    if axis == 0 then r.x0 <= pixel < r.x1 else r.y0 <= pixel < r.y1
  }

  predicate FacesInBounds(bounds: Rect, faces: seq<Face>) {
    forall i :: 0 <= i < |faces| ==> 0 <= faces[i].col <= bounds.Dx() && 0 <= faces[i].row <= bounds.Dy()
  }

  /** What a crop looks like, whatever the position: empty, or inside the image and across
      the axis as wide as it. */
  ghost predicate WellCropped(bounds: Rect, axis: nat, r: Rect) {
    || r == Rect(0, 0, 0, 0)
    || (!r.Empty() && Inside(r, bounds) && if axis == 0 then r.Dy() == bounds.Dy() else r.Dx() == bounds.Dx())
  }

  /** The crop is the largest of the wanted aspect ratio, up to a pixel; so it is empty
      exactly when not even one column, or row, of that ratio fits. */
  ghost predicate AspectKept(bounds: Rect, axis: nat, ratio: real, r: Rect) {
    if axis == 0
    then r.Dx() as real <= Product(bounds.Dy() as real, ratio) < r.Dx() as real + 1.0
    else Product(r.Dy() as real, ratio) <= bounds.Dx() as real < Product(r.Dy() as real + 1.0, ratio)
  }

  /** Where the crop starts along an axis, from the image's own edge. */
  function Start(bounds: Rect, r: Rect, axis: nat): int {
    if axis == 0 then r.x0 - bounds.x0 else r.y0 - bounds.y0
  }

  /** The crop shows the column of a face, or its row (the last one when it is on the far
      edge). */
  predicate ShowsFace(bounds: Rect, face: Face, r: Rect, axis: nat) {
    if axis == 0 then r.x0 <= bounds.x0 + Min(face.col, bounds.Dx() - 1) < r.x1
    else r.y0 <= bounds.y0 + Min(face.row, bounds.Dy() - 1) < r.y1
  }

  /** Rows or columns from one face of the list to another, of which the crop shows one. */
  ghost predicate ShowsFaces(bounds: Rect, faces: seq<Face>, at: seq<nat>, r: Rect, axis: nat) {
    exists i, j, p :: i in at && j in at && ShowsBetween(bounds, faces, i, j, p, r, axis)
  }

  /** The crop shows column or row p of the image, which lies between two faces (the
      last one stands for a face on the far edge). */
  predicate ShowsBetween(bounds: Rect, faces: seq<Face>, i: nat, j: nat, p: int, r: Rect, axis: nat) {
    && i < |faces| && j < |faces|
    && if axis == 0
       then r.x0 - bounds.x0 <= p < r.x1 - bounds.x0
            && Min(faces[i].col, bounds.Dx() - 1) <= p <= Min(faces[j].col, bounds.Dx() - 1)
       else r.y0 - bounds.y0 <= p < r.y1 - bounds.y0
            && Min(faces[i].row, bounds.Dy() - 1) <= p <= Min(faces[j].row, bounds.Dy() - 1)
  }

  /** The crop is well formed, of the wanted aspect ratio and, unless empty, centred on a
      pixel of the axis as far as the edges allow; it shows that pixel (or the last one)
      when it is one of the image. */
  ghost predicate CutAt(bounds: Rect, axis: nat, ratio: real, pixel: int, r: Rect) {
    && WellCropped(bounds, axis, r) && AspectKept(bounds, axis, ratio, r)
    && (!r.Empty() ==>
          && Centred(Extent(bounds, axis), Extent(r, axis), Start(bounds, r, axis), pixel)
          && (0 <= pixel <= Extent(bounds, axis) ==> ShowsPixel(bounds, r, axis, pixel)))
  }

  predicate ShowsPixel(bounds: Rect, r: Rect, axis: nat, pixel: int) {
    Shows(r, axis, (if axis == 0 then bounds.x0 else bounds.y0) + Min(pixel, Extent(bounds, axis) - 1))
  }

  /** A ratio that cannot be cropped to leaves the image alone; any other crop is centred on
      the pixel at the position. */
  ghost predicate GoodCrop(bounds: Rect, ratio: real, pos: real, r: Rect) {
    var axis := DominantAxisByRatio(bounds, ratio);
    if ratio < 0.01 || 100.0 < ratio then r == bounds
    else CutAt(bounds, axis, ratio, Times(Extent(bounds, axis), pos), r)
  }

  /** The position is that of a weightiest cluster of the faces in the image looked at. */
  ghost predicate GoodPosition(bounds: Rect, faces: seq<Face>, ratio: real, groups: seq<Group<AxisVector>>,
                               at: seq<seq<nat>>, best: nat, pos: real)
    requires bounds.Dx() > 0
  {
    var img := Seen(bounds);
    var axis := DominantAxisByRatio(img, ratio);
    && Clustered(img, faces, axis, groups, at) && Heaviest(groups, best)
    && FromFaces(img, faces, axis, at, best, pos)
  }

  /** The automatic branch of GetImageByURL, for every image, ratio and default.  A ratio
      that cannot be cropped to leaves the image alone; every other crop is well formed,
      of the wanted aspect ratio, centred on the position and, unless empty, shows the
      pixel at the position when that lies in [0, 1].  The position is the default when
      no face counts; otherwise it is the weighted mean of a heaviest cluster of faces.
      In an image that is not resized the crop shows a place between two of those faces,
      and so a single face itself. */
  method AutoCrop(bounds: Rect, faces: seq<Face>, ratio: real, default: real)
    returns (r: Rect, ghost pos: real, ghost groups: seq<Group<AxisVector>>, ghost at: seq<seq<nat>>, ghost best: nat)
    requires 0 < bounds.Dx() && 0 < bounds.Dy() && Detectable(Seen(bounds), faces)
    ensures GoodCrop(bounds, ratio, pos, r)
    ensures if SomeFace(faces) then GoodPosition(bounds, faces, ratio, groups, at, best, pos) else pos == default
    ensures SomeFace(faces) && FacesInBounds(Seen(bounds), faces) ==> 0.0 <= pos <= 1.0
    ensures SomeFace(faces) && FacesInBounds(bounds, faces) && bounds.Dx() <= 650 && 0.01 <= ratio <= 100.0
            && !r.Empty() ==>
              var axis := DominantAxisByRatio(bounds, ratio);
              ShowsFaces(bounds, faces, at[best], r, axis) && (|faces| == 1 ==> ShowsFace(bounds, faces[0], r, axis))
  {
    var used := default;
    var found: bool;
    var axisR: real;
    axisR, found, groups, at, best := FindPrimaryFaceAxisRatio(bounds, faces, ratio);
    if found {
      used := axisR;
    }
    pos := used;
    r := CropImagePosition(bounds, ratio, used);
    CropIsGood(bounds, ratio, pos, r);
    if found {
      FacesShown(bounds, faces, ratio, groups, at, best, pos, r);
    }
  }

  lemma CropIsGood(bounds: Rect, ratio: real, pos: real, r: Rect)
    requires bounds.Dx() > 0 && bounds.Dy() > 0 && (!Croppable(ratio) ==> r == bounds)
    requires Croppable(ratio) ==>
               var axis, size := DominantAxisByRatio(bounds, ratio), WindowSize(bounds, ratio);
               r == CropAlong(bounds, axis, size, Offset(Extent(bounds, axis), size, pos))
    ensures GoodCrop(bounds, ratio, pos, r)
  {
    if Croppable(ratio) {
      CropMeaning(bounds, ratio, pos);
    }
  }

  /** In an image that is not resized a crop that is not empty shows a place between two
      faces of the weightiest cluster, and so a single face itself. */
  lemma FacesShown(bounds: Rect, faces: seq<Face>, ratio: real, groups: seq<Group<AxisVector>>, at: seq<seq<nat>>,
                   best: nat, pos: real, r: Rect)
    requires bounds.Dx() > 0 && bounds.Dy() > 0 && GoodCrop(bounds, ratio, pos, r)
    requires GoodPosition(bounds, faces, ratio, groups, at, best, pos)
    ensures FacesInBounds(Seen(bounds), faces) ==> 0.0 <= pos <= 1.0
    ensures FacesInBounds(bounds, faces) && bounds.Dx() <= 650 && 0.01 <= ratio <= 100.0 && !r.Empty() ==>
              var axis := DominantAxisByRatio(bounds, ratio);
              ShowsFaces(bounds, faces, at[best], r, axis) && (|faces| == 1 ==> ShowsFace(bounds, faces[0], r, axis))
  {
    var img := Seen(bounds);
    var axis := DominantAxisByRatio(img, ratio);
    if FacesInBounds(img, faces) {
      FramedInUnit(img, faces, axis, at[best], pos);
    }
    if FacesInBounds(bounds, faces) && bounds.Dx() <= 650 && 0.01 <= ratio <= 100.0 && !r.Empty() {
      PixelInside(Extent(bounds, axis), pos);
      PixelAmongFaces(bounds, faces, at[best], r, axis, pos);
    }
  }

  /** A position between two faces in bounds lies in [0, 1]. */
  lemma FramedInUnit(img: Rect, faces: seq<Face>, axis: nat, at: seq<nat>, pos: real)
    requires img.Dx() > 0 && img.Dy() > 0 && axis < 2 && FacesInBounds(img, faces) && Framed(img, faces, axis, at, pos)
    ensures 0.0 <= pos <= 1.0
  {
    var i, j :| i in at && j in at && FramedBy(img, faces, axis, i, j, pos);
    InUnit(Extent(img, axis) as real, pos);
  }

  lemma InUnit(e: real, pos: real)
    requires e > 0.0 && 0.0 <= Product(e, pos) <= e
    ensures 0.0 <= pos <= 1.0
  {
    ProductOrder(0.0, pos, e);
    ProductOrder(pos, 1.0, e);
  }

  /** The pixel at a position between two faces lies between them. */
  lemma PixelAmongFaces(bounds: Rect, faces: seq<Face>, at: seq<nat>, r: Rect, axis: nat, pos: real)
    requires 0 < bounds.Dx() && 0 < bounds.Dy() && axis < 2 && FacesInBounds(bounds, faces)
    requires 0.0 <= pos <= 1.0 && Framed(bounds, faces, axis, at, pos)
    requires ShowsPixel(bounds, r, axis, Times(Extent(bounds, axis), pos))
    ensures ShowsFaces(bounds, faces, at, r, axis) && (|faces| == 1 ==> ShowsFace(bounds, faces[0], r, axis))
  {
    var i, j :| i in at && j in at && FramedBy(bounds, faces, axis, i, j, pos);
    assert Product(Extent(bounds, axis) as real, pos) >= 0.0;
    var p := Min(Times(Extent(bounds, axis), pos), Extent(bounds, axis) - 1);
    assert ShowsBetween(bounds, faces, i, j, p, r, axis);
  }

  /** r is the part of the image that a window of the given size shows. */
  ghost predicate Window(bounds: Rect, axis: nat, size: int, offset: int, r: Rect) {
    if size == 0 then r == Rect(0, 0, 0, 0)
    else && !r.Empty() && Inside(r, bounds) && Extent(r, axis) == size && Start(bounds, r, axis) == offset
         && if axis == 0 then r.Dy() == bounds.Dy() else r.Dx() == bounds.Dx()
  }

  lemma CropShape(bounds: Rect, axis: nat, size: int, offset: int)
    requires bounds.Dx() > 0 && bounds.Dy() > 0 && axis < 2
    requires 0 <= size <= Extent(bounds, axis) && (size > 0 ==> 0 <= offset <= Extent(bounds, axis) - size)
    ensures Window(bounds, axis, size, offset, CropAlong(bounds, axis, size, offset))
  {
  }

  lemma CropMeaning(bounds: Rect, ratio: real, pos: real)
    requires bounds.Dx() > 0 && bounds.Dy() > 0 && Croppable(ratio)
    ensures var axis, size := DominantAxisByRatio(bounds, ratio), WindowSize(bounds, ratio);
            CutAt(bounds, axis, ratio, Times(Extent(bounds, axis), pos),
                  CropAlong(bounds, axis, size, Offset(Extent(bounds, axis), size, pos)))
  {
    var axis, size := DominantAxisByRatio(bounds, ratio), WindowSize(bounds, ratio);
    WindowBounds(bounds, ratio);
    WindowAspect(bounds, ratio);
    var offset := Offset(Extent(bounds, axis), size, pos);
    if size > 0 {
      WindowCovers(Extent(bounds, axis), size, pos);
    }
    CropShape(bounds, axis, size, offset);
    WindowCut(bounds, axis, ratio, Times(Extent(bounds, axis), pos), size, offset,
              CropAlong(bounds, axis, size, offset));
  }

  /** The crop of a window of the wanted aspect ratio that is centred on a pixel. */
  lemma WindowCut(bounds: Rect, axis: nat, ratio: real, pixel: int, size: int, offset: int, r: Rect)
    requires axis < 2 && 0 <= size <= Extent(bounds, axis) && Window(bounds, axis, size, offset, r)
    requires if axis == 0 then size as real <= Product(bounds.Dy() as real, ratio) < size as real + 1.0
             else Product(size as real, ratio) <= bounds.Dx() as real < Product(size as real + 1.0, ratio)
    requires size > 0 ==>
               && Centred(Extent(bounds, axis), size, offset, pixel)
               && (0 <= pixel <= Extent(bounds, axis) ==>
                     offset <= Min(pixel, Extent(bounds, axis) - 1) < offset + size)
    ensures CutAt(bounds, axis, ratio, pixel, r)
  {
    CutAspect(bounds, axis, ratio, size, r);
  }

  lemma CutAspect(bounds: Rect, axis: nat, ratio: real, size: int, r: Rect)
    requires if axis == 0 then size as real <= Product(bounds.Dy() as real, ratio) < size as real + 1.0
             else Product(size as real, ratio) <= bounds.Dx() as real < Product(size as real + 1.0, ratio)
    requires Extent(r, axis) == size
    ensures AspectKept(bounds, axis, ratio, r)
  {
  }

  /** The window is the largest of the wanted aspect ratio that spans the other axis. */
  lemma WindowAspect(bounds: Rect, ratio: real)
    requires bounds.Dx() > 0 && bounds.Dy() > 0 && Croppable(ratio)
    ensures var size := WindowSize(bounds, ratio) as real;
            if DominantAxisByRatio(bounds, ratio) == 0
            then size <= Product(bounds.Dy() as real, ratio) < size + 1.0
            else Product(size, ratio) <= bounds.Dx() as real < Product(size + 1.0, ratio)
  {
    if DominantAxisByRatio(bounds, ratio) == 0 {
      NonNegative(bounds.Dy() as real, ratio);
    } else {
      RowsAspect(bounds.Dx(), bounds.Dy(), ratio);
    }
  }

  lemma NonNegative(x: real, f: real)
    requires x >= 0.0 && f >= 0.0
    ensures Product(x, f) >= 0.0
  {
  }

  lemma RowsAspect(w: int, h: int, ratio: real)
    requires w > 0 && h > 0 && ratio > 0.0 && Times(h, ratio) >= w
    ensures var n := Min(Over(w, ratio), h) as real;
            Product(n, ratio) <= w as real < Product(n + 1.0, ratio)
  {
    var q := w as real / ratio;
    Dividing(w as real, ratio, q);
    Largest(Min(Over(w, ratio), h) as real, q, ratio, h as real);
  }

  lemma Dividing(w: real, ratio: real, q: real)
    requires w > 0.0 && ratio > 0.0 && q == w / ratio
    ensures Product(q, ratio) == w && q > 0.0
  {
  }

  lemma ProductsOrdered(a: real, b: real, r: real)
    requires r > 0.0
    ensures Product(a, r) <= Product(b, r) <==> a <= b
  {
    ProductOrder(a, b, r);
  }

  lemma Largest(n: real, q: real, ratio: real, h: real)
    requires ratio > 0.0
    ensures Product(n, ratio) <= Product(q, ratio) <==> n <= q
    ensures Product(q, ratio) < Product(n + 1.0, ratio) <==> q < n + 1.0
    ensures Product(q, ratio) <= Product(h, ratio) <==> q <= h
  {
    var m := n + 1.0;
    ProductsOrdered(n, q, ratio);
    ProductsOrdered(m, q, ratio);
    ProductsOrdered(q, h, ratio);
  }

  lemma WindowBounds(bounds: Rect, ratio: real)
    requires bounds.Dx() > 0 && bounds.Dy() > 0 && Croppable(ratio)
    ensures 0 <= WindowSize(bounds, ratio) <= Extent(bounds, DominantAxisByRatio(bounds, ratio))
  {
    assert bounds.Dy() as real * ratio >= 0.0;
    assert (bounds.Dx() as real / ratio) * ratio == bounds.Dx() as real;
    assert bounds.Dx() as real / ratio >= 0.0;
  }
}
