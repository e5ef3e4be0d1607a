/** The edit distance of Helpers/Levenshtein.cs: the one-row loop, the recurrence
    it computes, the metric laws, and its meaning as a shortest list of edits. */
module Levenshtein {
  import opened Spacing

  function Min(a: int, b: int): int {
    if a < b then a else b
  }

  function Front(s: string): string
    requires s != []
  {
    s[..|s| - 1]
  }

  function Last(s: string): char
    requires s != []
  {
    s[|s| - 1]
  }

  function Mismatch(x: char, y: char): nat {
    if x == y then 0 else 1
  }

  /** The standard two-dimensional recurrence, by the last characters. */
  function Lev(a: string, b: string): nat
    decreases |a| + |b|
  {
    if a == [] then |b|
    else if b == [] then |a|
    else Min(Lev(Front(a), Front(b)) + Mismatch(Last(a), Last(b)),
             Min(Lev(Front(a), b) + 1, Lev(a, Front(b)) + 1))
  }

  // ---- neighbouring entries ----

  lemma {:induction false} LengthBounds(a: string, b: string)
    ensures |a| - |b| <= Lev(a, b) && |b| - |a| <= Lev(a, b)
    ensures Lev(a, b) <= |a| + |b|
    decreases |a| + |b|
  {
    if a != [] && b != [] {
      LengthBounds(Front(a), Front(b));
      LengthBounds(Front(a), b);
      LengthBounds(a, Front(b));
    }
  }

  /** Entries next to each other differ by at most one. */
  lemma {:induction false} Neighbours(a: string, b: string)
    ensures a != [] ==> Lev(Front(a), b) - 1 <= Lev(a, b) <= Lev(Front(a), b) + 1
    ensures b != [] ==> Lev(a, Front(b)) - 1 <= Lev(a, b) <= Lev(a, Front(b)) + 1
    decreases |a| + |b|
  {
    if a != [] && b != [] {
      Neighbours(Front(a), Front(b));
      Neighbours(Front(a), b);
      Neighbours(a, Front(b));
    }
  }

  /** On equal last characters the diagonal alone decides. */
  lemma MatchIsDiagonal(a: string, b: string)
    requires a != [] && b != [] && Last(a) == Last(b)
    ensures Lev(a, b) == Lev(Front(a), Front(b))
  {
    Neighbours(Front(a), b);
    Neighbours(a, Front(b));
  }

  // ---- the one-row loop ----

  /** The same recurrence by prefix lengths: the table the loop keeps one row of. */
  function Table(a: string, b: string, i: nat, j: nat): nat
    requires i <= |a| && j <= |b|
    decreases i + j
  {
    if i == 0 then j
    else if j == 0 then i
    else Min(Table(a, b, i - 1, j - 1) + Mismatch(a[i - 1], b[j - 1]),
             Min(Table(a, b, i - 1, j) + 1, Table(a, b, i, j - 1) + 1))
  }

  lemma FrontOfTake(s: string, i: nat)
    requires 0 < i <= |s|
    ensures Front(s[..i]) == s[..i - 1] && Last(s[..i]) == s[i - 1]
  {
  }

  lemma {:induction false} TableIsLev(a: string, b: string, i: nat, j: nat)
    requires i <= |a| && j <= |b|
    ensures Table(a, b, i, j) == Lev(a[..i], b[..j])
    decreases i + j
  {
    if i > 0 && j > 0 {
      FrontOfTake(a, i);
      FrontOfTake(b, j);
      TableIsLev(a, b, i - 1, j - 1);
      TableIsLev(a, b, i - 1, j);
      TableIsLev(a, b, i, j - 1);
    }
  }

  /** What the loop body computes from the diagonal, the entry above and, in the
      first column, i instead of i + 1 for the entry to the left. */
  lemma Cell(a: string, b: string, i: nat, j: nat)
    requires i < |a| && j < |b|
    ensures Table(a, b, i + 1, j + 1) ==
            if a[i] == b[j] then Table(a, b, i, j)
            else 1 + Min(Table(a, b, i, j), Min(Table(a, b, i, j + 1), if j == 0 then i else Table(a, b, i + 1, j)))
  {
    if a[i] == b[j] {
      assert Front(a[..i + 1]) == a[..i] && Front(b[..j + 1]) == b[..j];
      MatchIsDiagonal(a[..i + 1], b[..j + 1]);
      TableIsLev(a, b, i, j);
      TableIsLev(a, b, i + 1, j + 1);
    }
  }

  method Distance(value1: string, value2: string) returns (d: int)
    ensures d == Lev(value1, value2)
  {
    if |value2| == 0 {
      return |value1|;
    }
    var costs := new int[|value2|];
    for i := 0 to costs.Length
      invariant forall k :: 0 <= k < i ==> costs[k] == k + 1
    {
      costs[i] := i + 1;
    }
    for i := 0 to |value1|
      invariant forall k :: 0 <= k < costs.Length ==> costs[k] == Table(value1, value2, i, k + 1)
    {
      NextRow(costs, value1, value2, i);
    }
    TableIsLev(value1, value2, |value1|, |value2|);
    assert value1[..|value1|] == value1 && value2[..|value2|] == value2;
    return costs[costs.Length - 1];
  }

  /** The body of the outer loop: the row for i becomes the row for i + 1. */
  method NextRow(costs: array<int>, value1: string, value2: string, i: nat)
    requires i < |value1| && costs.Length == |value2|
    requires forall k :: 0 <= k < costs.Length ==> costs[k] == Table(value1, value2, i, k + 1)
    modifies costs
    ensures forall k :: 0 <= k < costs.Length ==> costs[k] == Table(value1, value2, i + 1, k + 1)
  {
    var cost, previousCost := i, i;
    var value1Char := value1[i];
    for j := 0 to |value2|
      invariant cost == Table(value1, value2, i, j)
      invariant previousCost == if j == 0 then i else Table(value1, value2, i + 1, j)
      invariant forall k :: 0 <= k < j ==> costs[k] == Table(value1, value2, i + 1, k + 1)
      invariant forall k :: j <= k < costs.Length ==> costs[k] == Table(value1, value2, i, k + 1)
    {
      var currentCost := cost;
      cost := costs[j];
      if value1Char != value2[j] {
        if previousCost < currentCost {
          currentCost := previousCost;
        }
        if cost < currentCost {
          currentCost := cost;
        }
        currentCost := currentCost + 1;
      }
      Cell(value1, value2, i, j);
      costs[j] := currentCost;
      previousCost := currentCost;
    }
  }

  // ---- the metric laws ----

  lemma {:induction false} Symmetric(a: string, b: string)
    ensures Lev(a, b) == Lev(b, a)
    decreases |a| + |b|
  {
    if a != [] && b != [] {
      Symmetric(Front(a), Front(b));
      Symmetric(Front(a), b);
      Symmetric(a, Front(b));
    }
  }

  lemma {:induction false} ZeroIffEqual(a: string, b: string)
    ensures Lev(a, b) == 0 <==> a == b
    decreases |a| + |b|
  {
    if a != [] && b != [] {
      ZeroIffEqual(Front(a), Front(b));
      assert a == Front(a) + [Last(a)] && b == Front(b) + [Last(b)];
      if a == b {
        MatchIsDiagonal(a, b);
      }
    }
  }

  lemma {:induction false} Triangle(a: string, b: string, c: string)
    ensures Lev(a, c) <= Lev(a, b) + Lev(b, c)
    decreases |a| + |b| + |c|
  {
    if a == [] || b == [] || c == [] {
      LengthBounds(a, b);
      LengthBounds(b, c);
      LengthBounds(a, c);
    } else {
      var fa, fb, fc := Front(a), Front(b), Front(c);
      if Lev(a, b) == Lev(fa, b) + 1 {
        Triangle(fa, b, c);
      } else if Lev(b, c) == Lev(b, fc) + 1 {
        Triangle(a, b, fc);
      } else if Lev(a, b) == Lev(a, fb) + 1 {
        if Lev(b, c) == Lev(fb, c) + 1 {
          Triangle(a, fb, c);
        } else {
          Triangle(a, fb, fc);
        }
      } else if Lev(b, c) == Lev(fb, c) + 1 {
        Triangle(fa, fb, c);
      } else {
        Triangle(fa, fb, fc);
      }
    }
  }

  // ---- shortest list of edits ----

  /** t is s with one character inserted, deleted or replaced at position i. */
  ghost predicate EditAt(s: string, t: string, i: nat) {
    || (i <= |s| && |t| == |s| + 1 && t[..i] == s[..i] && t[i + 1..] == s[i..])
    || (i < |s| && |t| == |s| - 1 && t[..i] == s[..i] && t[i..] == s[i + 1..])
    || (i < |s| && |t| == |s| && t[..i] == s[..i] && t[i + 1..] == s[i + 1..])
  }

  ghost predicate OneEdit(s: string, t: string) {
    exists i :: EditAt(s, t, i)
  }

  /** A list of strings, each one edit away from the one before. */
  ghost predicate Edits(path: seq<string>, a: string, b: string) {
    && |path| > 0 && path[0] == a && path[|path| - 1] == b
    && forall k :: 0 <= k < |path| - 1 ==> OneEdit(path[k], path[k + 1])
  }

  lemma {:induction false} LevSelf(a: string)
    ensures Lev(a, a) == 0
  {
    ZeroIffEqual(a, a);
  }

  lemma {:induction false} OneEditIsNear(s: string, t: string, i: nat)
    requires EditAt(s, t, i)
    ensures Lev(s, t) <= 1
    decreases |s| + |t|
  {
    if |t| == |s| + 1 && t[..i] == s[..i] && i == |s| {
      assert Front(t) == s[..i] == s;
      LevSelf(s);
      Neighbours(s, t);
    } else if |t| == |s| - 1 && i == |s| - 1 {
      assert Front(s) == t[..i] == t;
      LevSelf(t);
      Neighbours(s, t);
    } else if |t| == |s| && i == |s| - 1 {
      assert Front(s) == Front(t);
      LevSelf(Front(s));
    } else {
      SameTail(s, t, i);
      OneEditIsNear(Front(s), Front(t), i);
      MatchIsDiagonal(s, t);
    }
  }

  /** An edit before the last character leaves that character in place. */
  lemma SameTail(s: string, t: string, i: nat)
    requires EditAt(s, t, i)
    requires if |t| == |s| + 1 then i < |s| else i < |s| - 1
    ensures s != [] && t != [] && Last(s) == Last(t) && EditAt(Front(s), Front(t), i)
  {
    if |t| == |s| + 1 {
      assert Last(t) == t[i + 1..][|s| - i - 1] == s[i..][|s| - i - 1];
      assert Front(t)[..i] == t[..i] && Front(s)[..i] == s[..i];
      assert Front(t)[i + 1..] == Front(t[i + 1..]) && Front(s)[i..] == Front(s[i..]);
    } else if |t| == |s| - 1 {
      assert Last(t) == t[i..][|t| - i - 1] == s[i + 1..][|t| - i - 1];
      assert Front(t)[..i] == t[..i] && Front(s)[..i] == s[..i];
      assert Front(t)[i..] == Front(t[i..]) && Front(s)[i + 1..] == Front(s[i + 1..]);
    } else {
      assert Last(t) == t[i + 1..][|s| - i - 2] == s[i + 1..][|s| - i - 2];
      assert Front(t)[..i] == t[..i] && Front(s)[..i] == s[..i];
      assert Front(t)[i + 1..] == Front(t[i + 1..]) && Front(s)[i + 1..] == Front(s[i + 1..]);
    }
  }

  /** No list of edits is shorter than the distance. */
  lemma {:induction false} NoShorter(path: seq<string>, a: string, b: string)
    requires Edits(path, a, b)
    ensures Lev(a, b) <= |path| - 1
    decreases |path|
  {
    if |path| == 1 {
      LevSelf(a);
    } else {
      var mid := path[1];
      var rest := path[1..];
      assert OneEdit(path[0], path[0 + 1]);
      forall k | 0 <= k < |rest| - 1 ensures OneEdit(rest[k], rest[k + 1]) {
        assert OneEdit(path[k + 1], path[k + 1 + 1]);
      }
      NoShorter(rest, mid, b);
      var i :| EditAt(a, mid, i);
      OneEditIsNear(a, mid, i);
      Triangle(a, mid, b);
    }
  }

  /** The same edits in front of one more character. */
  lemma EditBefore(s: string, t: string, c: char)
    requires OneEdit(s, t)
    ensures OneEdit(s + [c], t + [c])
  {
    var i :| EditAt(s, t, i);
    EditAtBefore(s, t, i, c);
  }

  lemma EditAtBefore(s: string, t: string, i: nat, c: char)
    requires EditAt(s, t, i)
    ensures EditAt(s + [c], t + [c], i)
  {
    var s1, t1 := s + [c], t + [c];
    assert t1[..i] == t[..i] && s1[..i] == s[..i];
    if |t| == |s| + 1 {
      assert t1[i + 1..] == t[i + 1..] + [c] && s1[i..] == s[i..] + [c];
    } else if |t| == |s| - 1 {
      assert t1[i..] == t[i..] + [c] && s1[i + 1..] == s[i + 1..] + [c];
    } else {
      assert t1[i + 1..] == t[i + 1..] + [c] && s1[i + 1..] == s[i + 1..] + [c];
    }
  }

  lemma EditsBefore(path: seq<string>, a: string, b: string, c: char) returns (longer: seq<string>)
    requires Edits(path, a, b)
    ensures Edits(longer, a + [c], b + [c]) && |longer| == |path|
  {
    longer := seq(|path|, k requires 0 <= k < |path| => path[k] + [c]);
    forall k | 0 <= k < |longer| - 1 ensures OneEdit(longer[k], longer[k + 1]) {
      EditBefore(path[k], path[k + 1], c);
    }
  }

  lemma EditsThen(path: seq<string>, a: string, m: string, b: string) returns (longer: seq<string>)
    requires Edits(path, a, m) && OneEdit(m, b)
    ensures Edits(longer, a, b) && |longer| == |path| + 1
  {
    longer := path + [b];
    forall k | 0 <= k < |longer| - 1 ensures OneEdit(longer[k], longer[k + 1]) {
      if k < |path| - 1 {
        assert OneEdit(path[k], path[k + 1]);
      }
    }
  }

  lemma InsertLast(path: seq<string>, a: string, b: string) returns (longer: seq<string>)
    requires b != [] && Edits(path, a, Front(b))
    ensures Edits(longer, a, b) && |longer| == |path| + 1
  {
    assert EditAt(Front(b), b, |b| - 1);
    longer := EditsThen(path, a, Front(b), b);
  }

  lemma DeleteLast(path: seq<string>, a: string, b: string) returns (longer: seq<string>)
    requires a != [] && Edits(path, Front(a), b)
    ensures Edits(longer, a, b) && |longer| == |path| + 1
  {
    var carried := EditsBefore(path, Front(a), b, Last(a));
    assert a == Front(a) + [Last(a)];
    assert EditAt(b + [Last(a)], b, |b|);
    longer := EditsThen(carried, a, b + [Last(a)], b);
  }

  lemma ReplaceLast(path: seq<string>, a: string, b: string) returns (longer: seq<string>)
    requires a != [] && b != [] && Edits(path, Front(a), Front(b))
    ensures Edits(longer, a, b) && |longer| == |path| + Mismatch(Last(a), Last(b))
  {
    longer := EditsBefore(path, Front(a), Front(b), Last(a));
    assert a == Front(a) + [Last(a)] && b == Front(b) + [Last(b)];
    if Last(a) != Last(b) {
      assert EditAt(Front(b) + [Last(a)], b, |b| - 1);
      longer := EditsThen(longer, a, Front(b) + [Last(a)], b);
    }
  }

  /** Some list of edits is exactly as long as the distance. */
  lemma {:induction false} Attained(a: string, b: string) returns (path: seq<string>)
    ensures Edits(path, a, b) && |path| - 1 == Lev(a, b)
    decreases |a| + |b|
  {
    if a == [] && b == [] {
      path := [a];
    } else if b != [] && (a == [] || Lev(a, b) == Lev(a, Front(b)) + 1) {
      path := Attained(a, Front(b));
      path := InsertLast(path, a, b);
    } else if b == [] || Lev(a, b) == Lev(Front(a), b) + 1 {
      path := Attained(Front(a), b);
      path := DeleteLast(path, a, b);
    } else {
      path := Attained(Front(a), Front(b));
      path := ReplaceLast(path, a, b);
    }
  }

  // ---- title similarity, MovieProvider.CalculateTitleSimilarity ----

  function Clamp(x: real): real {
    if x < 0.0 then 0.0 else if x > 1.0 then 1.0 else x
  }

  /** normalize stands for the lower-casing and bracket removal of the two keys. */
  function SimilarityOf(sourceKey: string, targetKey: string): real {
    if Blank(sourceKey) || Blank(targetKey) then 0.0
    else Clamp(1.0 - Lev(sourceKey, targetKey) as real / ((|sourceKey| + |targetKey|) as real / 2.0))
  }

  method CalculateTitleSimilarity(normalize: string -> string, source: string, target: string)
    returns (similarity: real)
    ensures similarity == SimilarityOf(normalize(source), normalize(target))
  {
    var sourceKey, targetKey := normalize(source), normalize(target);
    if Blank(sourceKey) || Blank(targetKey) {
      return 0.0;
    }
    var distance := Distance(sourceKey, targetKey);
    var avgLength := (|sourceKey| + |targetKey|) as real / 2.0;
    return Clamp(1.0 - distance as real / avgLength);
  }

  /** Similarity is symmetric, stays in [0, 1], and is 1 exactly on equal keys
      (0 when either key is blank). */
  lemma SimilarityLaws(a: string, b: string)
    ensures SimilarityOf(a, b) == SimilarityOf(b, a)
    ensures 0.0 <= SimilarityOf(a, b) <= 1.0
    ensures SimilarityOf(a, b) == 1.0 <==> a == b && !Blank(a)
  {
    Symmetric(a, b);
    ZeroIffEqual(a, b);
    if !Blank(a) && !Blank(b) {
      ShareOf(Lev(a, b), (|a| + |b|) as real / 2.0);
    }
  }

  /** Similarity is the share by which the average length exceeds the distance, or 0 when
      it does not: for keys that are not blank, similarity times the length of both is that
      length less twice the distance. */
  lemma {:induction false} SimilarityMeaning(a: string, b: string)
    ensures Words(White, a) == [] || Words(White, b) == [] ==> SimilarityOf(a, b) == 0.0
    ensures Words(White, a) != [] && Words(White, b) != [] ==>
              Scaled(SimilarityOf(a, b), |a| + |b|) == Max(0, |a| + |b| - 2 * Lev(a, b)) as real
  {
    BlankMeaning(a);
    BlankMeaning(b);
    if Words(White, a) != [] && Words(White, b) != [] {
      assert a != [] && !Blank(a) && !Blank(b);
      ClampedShare(|a| + |b|, Lev(a, b));
    }
  }

  function Scaled(x: real, n: nat): real {
    x * n as real
  }

  function Max(a: int, b: int): int {
    if a < b then b else a
  }

  lemma ClampedShare(n: nat, d: nat)
    requires n > 0
    ensures Scaled(Clamp(1.0 - d as real / (n as real / 2.0)), n) == Max(0, n - 2 * d) as real
  {
    ShareTimes(d as real, n as real / 2.0);
  }

  lemma ShareTimes(d: real, avg: real)
    requires avg > 0.0 && d >= 0.0
    ensures (1.0 - d / avg) * (2.0 * avg) == 2.0 * avg - 2.0 * d
    ensures Clamp(1.0 - d / avg) == if d <= avg then 1.0 - d / avg else 0.0
  {
    var q := d / avg;
    assert q * avg == d;
    assert q >= 0.0;
    assert (1.0 - q) * avg == avg - q * avg;
    assert (1.0 - q) * (2.0 * avg) == 2.0 * ((1.0 - q) * avg);
    if d <= avg {
      assert (1.0 - q) * avg >= 0.0;
    } else {
      assert (1.0 - q) * avg < 0.0;
    }
  }

  lemma ShareOf(distance: nat, avg: real)
    requires avg > 0.0
    ensures distance as real / avg >= 0.0
    ensures distance as real / avg == 0.0 <==> distance == 0
  {
    var share := distance as real / avg;
    assert share * avg == distance as real;
  }
}
