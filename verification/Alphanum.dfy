/** The natural-sort comparator of Extensions/EmbyExtensions.cs: strings compare
    chunk by chunk, digit chunks by value and others by code units. */
module Alphanum {
  import opened Options
  import opened Ordinal

  predicate IsDigit(c: char) {
    '0' <= c <= '9'
  }

  function InChunk(ch: char, otherCh: char): bool {
    var numeric := IsDigit(otherCh);
    (numeric || !IsDigit(ch)) && (!numeric || IsDigit(ch))
  }

  /** The length of the run of digits, or of non-digits, at the front. */
  function RunLength(s: string): (n: nat)
    requires s != []
    ensures 0 < n <= |s|
    ensures forall i :: 0 <= i < n ==> IsDigit(s[i]) == IsDigit(s[0])
    ensures n < |s| ==> IsDigit(s[n]) != IsDigit(s[0])
  {
    if |s| == 1 || IsDigit(s[1]) != IsDigit(s[0]) then 1 else 1 + RunLength(s[1..])
  }

  function Chunks(s: string): seq<string> {
    if s == [] then [] else [s[..RunLength(s)]] + Chunks(s[RunLength(s)..])
  }

  function Value(digits: string): int {
    if digits == [] then 0 else 10 * Value(digits[..|digits| - 1]) + (digits[|digits| - 1] as int - '0' as int)
  }

  const MAX_INT := 2147483647

  /** int.TryParse succeeds on a chunk of digits. */
  predicate Fits(digits: string) {
    Value(digits) <= MAX_INT
  }

  predicate Numeric(chunk: string) {
    chunk != [] && IsDigit(chunk[0])
  }

  function Sign(x: int, y: int): int {
    if x < y then -1 else if x > y then 1 else 0
  }

  /** string.Compare by code units. */
  function TextSign(a: string, b: string): int {
    if Less(a, b) then -1 else if Less(b, a) then 1 else 0
  }

  function ChunkSign(a: string, b: string): int {
    if Numeric(a) && Numeric(b) then Sign(Value(a), Value(b)) else TextSign(a, b)
  }

  /** Lexicographic comparison of chunk lists, which gives up with 0 at the first
      pair of digit chunks of which one does not fit an int. */
  function CompareChunks(a: seq<string>, b: seq<string>): int {
    if a == [] then (if b == [] then 0 else -1)
    else if b == [] then 1
    else if Numeric(a[0]) && Numeric(b[0]) && !(Fits(a[0]) && Fits(b[0])) then 0
    else if ChunkSign(a[0], b[0]) != 0 then ChunkSign(a[0], b[0])
    else CompareChunks(a[1..], b[1..])
  }

  function Compare(s: string, t: string): int {
    CompareChunks(Chunks(s), Chunks(t))
  }

  /** The inner loop: it appends to the builder while characters stay in the chunk. */
  method ReadChunk(s: string, start: nat) returns (chunk: string, index: nat)
    requires start < |s|
    ensures index <= |s| && index == start + RunLength(s[start..]) && chunk == s[start..index]
  {
    index, chunk := start, [];
    var ch := s[index];
    while index < |s| && (|chunk| == 0 || InChunk(ch, chunk[0]))
      invariant start <= index <= |s| && chunk == s[start..index]
      invariant index < |s| ==> ch == s[index]
      invariant forall i :: start <= i < index ==> IsDigit(s[i]) == IsDigit(s[start])
    {
      chunk := chunk + [ch];
      index := index + 1;
      if index < |s| {
        ch := s[index];
      }
    }
    ghost var n := RunLength(s[start..]);
    assert forall i :: 0 <= i < |s| - start ==> s[start..][i] == s[start + i];
  }

  /** A null string compares equal to everything. */
  function Compared(s1: Option<string>, s2: Option<string>): int {
    if s1.None? || s2.None? then 0 else Compare(s1.value, s2.value)
  }

  method CompareValues(s1: Option<string>, s2: Option<string>) returns (r: int)
    ensures r == Compared(s1, s2)
  {
    if s1.None? || s2.None? {
      return 0;
    }
    var x, y := s1.value, s2.value;
    var index1, index2 := 0, 0;
    while index1 < |x| || index2 < |y|
      invariant 0 <= index1 <= |x| && 0 <= index2 <= |y|
      invariant Compare(x, y) == CompareChunks(Chunks(x[index1..]), Chunks(y[index2..]))
      decreases |x| - index1
    {
      if index1 >= |x| {
        return -1;
      }
      if index2 >= |y| {
        return 1;
      }
      ghost var i, j := index1, index2;
      var chunk1, chunk2;
      chunk1, index1 := ReadChunk(x, index1);
      chunk2, index2 := ReadChunk(y, index2);
      NextChunks(x, i, index1, chunk1, y, j, index2, chunk2);
      var num := 0;
      if IsDigit(chunk1[0]) && IsDigit(chunk2[0]) {
        var result1, result2 := Value(chunk1), Value(chunk2);
        if result1 > MAX_INT || result2 > MAX_INT {
          return 0;
        }
        if result1 < result2 { num := -1; }
        if result1 > result2 { num := 1; }
      } else {
        num := TextSign(chunk1, chunk2);
      }
      if num != 0 {
        return num;
      }
    }
    return 0;
  }

  /** What remains to be compared once a chunk has been read from each string. */
  lemma NextChunks(x: string, i: nat, i': nat, c: string, y: string, j: nat, j': nat, d: string)
    requires i < |x| && i' == i + RunLength(x[i..]) <= |x| && c == x[i..i']
    requires j < |y| && j' == j + RunLength(y[j..]) <= |y| && d == y[j..j']
    ensures CompareChunks(Chunks(x[i..]), Chunks(y[j..])) ==
            if Numeric(c) && Numeric(d) && !(Fits(c) && Fits(d)) then 0
            else if ChunkSign(c, d) != 0 then ChunkSign(c, d)
            else CompareChunks(Chunks(x[i'..]), Chunks(y[j'..]))
  {
    NextChunk(x, i, i', c);
    NextChunk(y, j, j', d);
  }

  lemma NextChunk(s: string, i: nat, i': nat, c: string)
    requires i < |s| && i' == i + RunLength(s[i..]) <= |s| && c == s[i..i']
    ensures Chunks(s[i..]) == [c] + Chunks(s[i'..])
  {
    var n := RunLength(s[i..]);
    assert s[i..][..n] == c && s[i..][n..] == s[i'..];
  }

  // ---- the decomposition into chunks ----

  predicate Homogeneous(chunk: string) {
    chunk != [] && forall i :: 0 <= i < |chunk| ==> IsDigit(chunk[i]) == IsDigit(chunk[0])
  }

  /** Non-empty chunks, digits and others taking turns. */
  predicate Chunked(l: seq<string>) {
    && (forall i :: 0 <= i < |l| ==> Homogeneous(l[i]))
    && (forall i :: 0 <= i < |l| - 1 ==> Numeric(l[i]) != Numeric(l[i + 1]))
  }

  function Flatten(l: seq<string>): string {
    if l == [] then [] else l[0] + Flatten(l[1..])
  }

  lemma ChunkedCons(c: string, l: seq<string>)
    requires Homogeneous(c) && Chunked(l) && (l != [] ==> Numeric(c) != Numeric(l[0]))
    ensures Chunked([c] + l) && Flatten([c] + l) == c + Flatten(l)
  {
    var m := [c] + l;
    assert m[1..] == l;
    forall i | 0 <= i < |m| - 1 ensures Numeric(m[i]) != Numeric(m[i + 1]) {
      if i > 0 { assert m[i] == l[i - 1] && m[i + 1] == l[i - 1 + 1]; }
    }
  }

  /** The first chunk, and what follows it. */
  lemma FirstChunk(s: string)
    requires s != []
    ensures var n := RunLength(s);
            && Homogeneous(s[..n]) && Numeric(s[..n]) == IsDigit(s[0]) && s == s[..n] + s[n..]
            && (n < |s| ==> IsDigit(s[n..][0]) != IsDigit(s[0]))
  {
  }

  lemma {:induction false} ChunksAreChunked(s: string)
    ensures Chunked(Chunks(s)) && Flatten(Chunks(s)) == s
    ensures s != [] ==> Chunks(s) != [] && Numeric(Chunks(s)[0]) == IsDigit(s[0])
    decreases |s|
  {
    if s != [] {
      var n := RunLength(s);
      FirstChunk(s);
      ChunksAreChunked(s[n..]);
      ChunkedCons(s[..n], Chunks(s[n..]));
    }
  }

  /** The decomposition is unique. */
  lemma {:induction false} ChunksOfFlatten(l: seq<string>)
    requires Chunked(l)
    ensures Chunks(Flatten(l)) == l
    decreases |l|
  {
    if l != [] {
      var rest := l[1..];
      ChunkedTail(l);
      ChunksOfFlatten(rest);
      var s := Flatten(l);
      assert s[..|l[0]|] == l[0] && s[|l[0]|..] == Flatten(rest);
      if rest != [] {
        assert Numeric(l[0]) != Numeric(l[0 + 1]);
        assert Flatten(rest)[0] == rest[0][0] == s[|l[0]|];
      }
      var n := RunLength(s);
      forall i | 0 <= i < |l[0]| ensures IsDigit(s[i]) == IsDigit(s[0]) {
        assert s[i] == l[0][i] && s[0] == l[0][0];
      }
      assert n == |l[0]|;
    }
  }

  // ---- laws ----

  lemma {:induction false} Antisymmetric(a: seq<string>, b: seq<string>)
    ensures CompareChunks(a, b) == -CompareChunks(b, a)
  {
    if a != [] && b != [] {
      if Less(a[0], b[0]) { Asymmetric(a[0], b[0]); }
      Antisymmetric(a[1..], b[1..]);
    }
  }

  predicate AllFit(l: seq<string>) {
    forall i :: 0 <= i < |l| ==> Numeric(l[i]) ==> Fits(l[i])
  }

  /** A digit chunk and a text chunk are told apart by their first characters. */
  lemma MixedSign(a: string, b: string)
    requires a != [] && b != [] && Numeric(a) != Numeric(b)
    ensures ChunkSign(a, b) == if a[0] < b[0] then -1 else 1
  {
  }

  lemma TextSignTransitive(a: string, b: string, c: string)
    requires TextSign(a, b) <= 0 && TextSign(b, c) <= 0
    ensures TextSign(a, c) <= 0 && (TextSign(a, c) == 0 ==> TextSign(a, b) == 0 && TextSign(b, c) == 0)
  {
    Total(a, b);
    Total(b, c);
    Irreflexive(a);
    if Less(a, b) && Less(b, c) {
      Transitive(a, b, c);
    }
    if Less(a, c) { Asymmetric(a, c); }
    if Less(a, b) { Asymmetric(a, b); }
    if Less(b, c) { Asymmetric(b, c); }
  }

  lemma ChunkSignTransitive(a: string, b: string, c: string)
    requires a != [] && b != [] && c != []
    requires ChunkSign(a, b) <= 0 && ChunkSign(b, c) <= 0
    ensures ChunkSign(a, c) <= 0 && (ChunkSign(a, c) == 0 ==> ChunkSign(a, b) == 0 && ChunkSign(b, c) == 0)
  {
    if Numeric(a) == Numeric(b) == Numeric(c) {
      if !Numeric(a) { TextSignTransitive(a, b, c); }
    } else {
      if Numeric(a) != Numeric(b) { MixedSign(a, b); }
      if Numeric(b) != Numeric(c) { MixedSign(b, c); }
      if Numeric(a) != Numeric(c) { MixedSign(a, c); }
    }
  }

  predicate NonEmpty(l: seq<string>) {
    forall i :: 0 <= i < |l| ==> l[i] != []
  }

  /** The middle list decides: when its numbers fit, the outer ones need not. */
  lemma {:induction false} ChunksTransitive(a: seq<string>, b: seq<string>, c: seq<string>)
    requires AllFit(b)
    requires NonEmpty(a) && NonEmpty(b) && NonEmpty(c)
    requires CompareChunks(a, b) <= 0 && CompareChunks(b, c) <= 0
    ensures CompareChunks(a, c) <= 0
  {
    if a != [] && b != [] && c != [] {
      if Numeric(a[0]) && Numeric(b[0]) && !Fits(a[0]) {
        if !Numeric(c[0]) {
        }
      } else if Numeric(b[0]) && Numeric(c[0]) && !Fits(c[0]) {
        if !Numeric(a[0]) {
          BelowDigits(a[0], b[0], c[0]);
        }
      } else {
        ChunkSignTransitive(a[0], b[0], c[0]);
        if ChunkSign(a[0], b[0]) == 0 && ChunkSign(b[0], c[0]) == 0 {
          ChunksTransitive(a[1..], b[1..], c[1..]);
        }
      }
    }
  }

  lemma BelowDigits(a: string, b: string, c: string)
    requires Numeric(b) && Numeric(c) && a != [] && !Numeric(a) && ChunkSign(a, b) <= 0
    ensures ChunkSign(a, c) == -1
  {
    MixedSign(a, b);
    MixedSign(a, c);
  }

  /** A total preorder: signs are opposite, and it is transitive through a string whose
      digit chunks fit an int. */
  lemma TotalPreorder(s: string, t: string, u: string)
    ensures Compare(s, t) == -Compare(t, s)
    ensures AllFit(Chunks(t)) && Compare(s, t) <= 0 && Compare(t, u) <= 0 ==> Compare(s, u) <= 0
  {
    Antisymmetric(Chunks(s), Chunks(t));
    if AllFit(Chunks(t)) && Compare(s, t) <= 0 && Compare(t, u) <= 0 {
      ChunksAreChunked(s);
      ChunksAreChunked(t);
      ChunksAreChunked(u);
      ChunksTransitive(Chunks(s), Chunks(t), Chunks(u));
    }
  }

  // ---- what decides a comparison ----

  /** Two chunks rank alike: equal texts, or numbers of one value that fit. */
  predicate Alike(c: string, d: string) {
    if Numeric(c) && Numeric(d) then Value(c) == Value(d) <= 2147483647 else c == d
  }

  /** r is decided at place i, before which the chunks rank alike: a list that ends comes
      first; a number that does not fit ends the comparison with 0; other numbers are
      ordered by value, and other chunks by code units. */
  ghost predicate DecidedAt(a: seq<string>, b: seq<string>, i: nat, r: int) {
    && i <= |a| && i <= |b| && (forall k :: 0 <= k < i ==> Alike(a[k], b[k]))
    && if i == |a| && i == |b| then r == 0
       else if i == |a| then r == -1
       else if i == |b| then r == 1
       else if Numeric(a[i]) && Numeric(b[i]) then
         if Value(a[i]) > 2147483647 || Value(b[i]) > 2147483647 then r == 0
         else (Value(a[i]) < Value(b[i]) && r == -1) || (Value(a[i]) > Value(b[i]) && r == 1)
       else (Less(a[i], b[i]) && r == -1) || (Less(b[i], a[i]) && r == 1)
  }

  lemma {:induction false} CompareDecided(a: seq<string>, b: seq<string>) returns (i: nat)
    ensures DecidedAt(a, b, i, CompareChunks(a, b))
  {
    i := 0;
    if a != [] && b != [] && !(Numeric(a[0]) && Numeric(b[0]) && !(Fits(a[0]) && Fits(b[0]))) {
      Total(a[0], b[0]);
      if ChunkSign(a[0], b[0]) == 0 {
        i := CompareDecided(a[1..], b[1..]);
        i := i + 1;
        assert forall k :: 0 < k < i ==> a[k] == a[1..][k - 1] && b[k] == b[1..][k - 1];
      } else if Less(a[0], b[0]) {
        Asymmetric(a[0], b[0]);
      }
    }
  }

  // ---- numbers ----

  predicate Digits(s: string) {
    s != [] && forall i :: 0 <= i < |s| ==> IsDigit(s[i])
  }

  function Power10(n: nat): nat {
    if n == 0 then 1 else 10 * Power10(n - 1)
  }

  lemma {:induction false} ValueBound(s: string)
    requires forall i :: 0 <= i < |s| ==> IsDigit(s[i])
    ensures 0 <= Value(s) < Power10(|s|)
  {
    if s != [] {
      ValueBound(s[..|s| - 1]);
    }
  }

  /** The first digit counts as often as the rest is long. */
  lemma {:induction false} FirstDigit(c: char, s: string)
    requires IsDigit(c) && forall i :: 0 <= i < |s| ==> IsDigit(s[i])
    ensures Value([c] + s) == (c as int - '0' as int) * Power10(|s|) + Value(s)
  {
    var t := [c] + s;
    if s == [] {
      assert t[..0] == [];
    } else {
      FirstDigit(c, s[..|s| - 1]);
      assert t[..|t| - 1] == [c] + s[..|s| - 1];
    }
  }

  /** Leading zeros do not count. */
  lemma LeadingZero(s: string)
    requires forall i :: 0 <= i < |s| ==> IsDigit(s[i])
    ensures Value(['0'] + s) == Value(s)
  {
    FirstDigit('0', s);
  }

  /** Numbers of one length are ordered as texts. */
  lemma {:induction false} EqualLengths(s: string, t: string)
    requires |s| == |t| && forall i :: 0 <= i < |s| ==> IsDigit(s[i]) && IsDigit(t[i])
    ensures Value(s) < Value(t) <==> Less(s, t)
  {
    if s != [] {
      EqualLengths(s[1..], t[1..]);
      FirstDigit(s[0], s[1..]);
      FirstDigit(t[0], t[1..]);
      ValueBound(s[1..]);
      ValueBound(t[1..]);
      assert s == [s[0]] + s[1..] && t == [t[0]] + t[1..];
      Leads(s[0] as int - '0' as int, t[0] as int - '0' as int, Power10(|s| - 1));
    }
  }

  lemma Multiple(x: nat, p: nat)
    ensures x * p >= 0
  {
  }

  lemma {:induction false} Leads(x: int, y: int, p: nat)
    ensures x < y ==> x * p + p <= y * p
    ensures y < x ==> y * p + p <= x * p
  {
    if x < y {
      Multiple(y - x - 1, p);
      assert y * p == (y - x - 1) * p + x * p + p;
    }
    if y < x {
      Multiple(x - y - 1, p);
      assert x * p == (x - y - 1) * p + y * p + p;
    }
  }

  lemma {:induction false} PowerGrows(m: nat, n: nat)
    requires m <= n
    ensures Power10(m) <= Power10(n)
  {
    if m < n {
      PowerGrows(m, n - 1);
    }
  }

  /** Without leading zeros the shorter number is the smaller. */
  lemma ShorterIsSmaller(s: string, t: string)
    requires |s| < |t| && t[0] != '0'
    requires (forall i :: 0 <= i < |s| ==> IsDigit(s[i])) && forall i :: 0 <= i < |t| ==> IsDigit(t[i])
    ensures Value(s) < Value(t)
  {
    ValueBound(s);
    ValueBound(t[1..]);
    PowerGrows(|s|, |t| - 1);
    FirstDigit(t[0], t[1..]);
    assert t == [t[0]] + t[1..];
    Leads(0, t[0] as int - '0' as int, Power10(|t| - 1));
  }

  /** The number up to which int.TryParse succeeds. */
  predicate SmallNumber(s: string) {
    Digits(s) && Value(s) <= 2147483647
  }

  /** Natural order, what the comparator is for: behind any common text that does not
      end in a digit, numbers are ordered by value. */
  lemma {:induction false} NaturalOrder(p: string, d: string, e: string)
    requires AllFit(Chunks(p)) && (p == "" || !IsDigit(p[|p| - 1])) && SmallNumber(d) && SmallNumber(e)
    ensures Compare(p + d, p + e) == if Value(d) < Value(e) then -1 else if Value(d) > Value(e) then 1 else 0
  {
    NumberLast(p, d);
    NumberLast(p, e);
    CommonPrefix(Chunks(p), [d], [e]);
    TwoNumbers(d, e);
  }

  lemma {:induction false} TwoNumbers(d: string, e: string)
    requires SmallNumber(d) && SmallNumber(e)
    ensures CompareChunks([d], [e]) == if Value(d) < Value(e) then -1 else if Value(d) > Value(e) then 1 else 0
  {
    assert [d][1..] == [] && [e][1..] == [];
  }

  lemma NumberLast(p: string, d: string)
    requires (p == "" || !IsDigit(p[|p| - 1])) && Digits(d)
    ensures Chunks(p + d) == Chunks(p) + [d]
  {
    ChunksAreChunked(p);
    if Chunks(p) != [] {
      LastChunk(Chunks(p));
    }
    ChunkedSnoc(Chunks(p), d);
    ChunksOfFlatten(Chunks(p) + [d]);
  }

  lemma ChunkedTail(l: seq<string>)
    requires Chunked(l) && l != []
    ensures Chunked(l[1..])
  {
    var rest := l[1..];
    forall i | 0 <= i < |rest| - 1 ensures Numeric(rest[i]) != Numeric(rest[i + 1]) {
      assert Numeric(l[i + 1]) != Numeric(l[i + 1 + 1]);
    }
  }

  lemma {:induction false} LastChunk(l: seq<string>)
    requires Chunked(l) && l != []
    ensures Flatten(l) != "" && Numeric(l[|l| - 1]) == IsDigit(Flatten(l)[|Flatten(l)| - 1])
  {
    var c := l[|l| - 1];
    assert Homogeneous(c) && IsDigit(c[|c| - 1]) == IsDigit(c[0]);
    if |l| == 1 {
      assert Flatten(l) == c + Flatten(l[1..]) == c;
    } else {
      ChunkedTail(l);
      LastChunk(l[1..]);
    }
  }

  lemma {:induction false} ChunkedSnoc(l: seq<string>, d: string)
    requires Chunked(l) && Digits(d) && (l != [] ==> !Numeric(l[|l| - 1]))
    ensures Chunked(l + [d]) && Flatten(l + [d]) == Flatten(l) + d
  {
    if l == [] {
      assert l + [d] == [d] && Flatten([d]) == d + Flatten([d][1..]) == d;
      assert Chunked([d]);
    } else {
      ChunkedTail(l);
      ChunkedSnoc(l[1..], d);
      assert l + [d] == [l[0]] + (l[1..] + [d]);
      ChunkedCons(l[0], l[1..] + [d]);
    }
  }

  // ---- exactly when a string can stand in the middle ----

  /** s orders all the strings around it, null included, consistently. */
  ghost predicate TransitiveThrough(s: Option<string>) {
    forall t, u :: Compared(t, s) <= 0 && Compared(s, u) <= 0 ==> Compared(t, u) <= 0
  }

  lemma {:induction false} CommonPrefix(p: seq<string>, a: seq<string>, b: seq<string>)
    requires AllFit(p)
    ensures CompareChunks(p + a, p + b) == CompareChunks(a, b)
  {
    if p == [] {
      assert p + a == a && p + b == b;
    } else {
      Irreflexive(p[0]);
      assert (p + a)[1..] == p[1..] + a && (p + b)[1..] == p[1..] + b;
      CommonPrefix(p[1..], a, b);
    }
  }

  lemma {:induction false} FirstUnfit(l: seq<string>) returns (i: nat)
    requires !AllFit(l)
    ensures i < |l| && Numeric(l[i]) && !Fits(l[i]) && AllFit(l[..i])
  {
    if !AllFit(l[..|l| - 1]) {
      i := FirstUnfit(l[..|l| - 1]);
      assert l[..|l| - 1][..i] == l[..i];
    } else {
      i := |l| - 1;
    }
  }

  /** The chunks before a digit chunk, with a small number in its place. */
  lemma Replaced(l: seq<string>, i: nat, d: string)
    requires Chunked(l) && i < |l| && Numeric(l[i]) && AllFit(l[..i]) && (d == "1" || d == "2")
    ensures Chunks(Flatten(l[..i] + [d])) == l[..i] + [d] && AllFit(l[..i] + [d])
    ensures Value(d) == d[0] as int - '0' as int
  {
    var p := l[..i];
    var m := p + [d];
    assert d[..0] == [] && Value(d) <= 9;
    assert Chunked(m) by {
      forall j | 0 <= j < |m| - 1 ensures Numeric(m[j]) != Numeric(m[j + 1]) {
        assert Numeric(l[j]) != Numeric(l[j + 1]);
      }
    }
    ChunksOfFlatten(m);
  }

  /** With a digit chunk that does not fit, the string equals both of two strings
      that are not equal. */
  lemma UnfitBreaks(s: string) returns (t: string, u: string)
    requires !AllFit(Chunks(s))
    ensures AllFit(Chunks(t)) && AllFit(Chunks(u))
    ensures Compare(t, s) == 0 && Compare(s, u) == 0 && Compare(t, u) == 1
  {
    var l := Chunks(s);
    ChunksAreChunked(s);
    var i := FirstUnfit(l);
    var p := l[..i];
    t, u := Flatten(p + ["2"]), Flatten(p + ["1"]);
    Replaced(l, i, "2");
    Replaced(l, i, "1");
    AroundUnfit(l, i);
  }

  /** A string of digits is one chunk. */
  lemma DigitsAreOneChunk(s: string)
    requires s != [] && forall i :: 0 <= i < |s| ==> IsDigit(s[i])
    ensures Chunks(s) == [s]
  {
    assert Flatten([s]) == s + Flatten([s][1..]) == s;
    ChunksOfFlatten([s]);
  }

  lemma PrefixValue(s: string, k: nat)
    requires k < |s|
    ensures Value(s[..k + 1]) == 10 * Value(s[..k]) + (s[k] as int - '0' as int)
  {
    assert s[..k + 1][..k] == s[..k];
  }

  lemma OneDigit(s: string)
    requires |s| == 1
    ensures Value(s) == s[0] as int - '0' as int
  {
    PrefixValue(s, 0);
    assert s[..1] == s && s[..0] == [];
  }

  /** The number after the largest int. */
  predicate SpellsMaxPlusOne(s: string) {
    && |s| == 10 && s[0] == '2' && s[1] == '1' && s[2] == '4' && s[3] == '7' && s[4] == '4'
    && s[5] == '8' && s[6] == '3' && s[7] == '6' && s[8] == '4' && s[9] == '8'
  }

  lemma LeadingDigits(s: string)
    requires SpellsMaxPlusOne(s)
    ensures Value(s[..5]) == 21474
  {
    PrefixValue(s, 0);
    PrefixValue(s, 1);
    PrefixValue(s, 2);
    PrefixValue(s, 3);
    PrefixValue(s, 4);
    assert s[..0] == [];
  }

  lemma OneMoreThanMax(s: string)
    requires SpellsMaxPlusOne(s)
    ensures Value(s) == 2147483648
  {
    LeadingDigits(s);
    PrefixValue(s, 5);
    PrefixValue(s, 6);
    PrefixValue(s, 7);
    PrefixValue(s, 8);
    PrefixValue(s, 9);
    assert s[..10] == s;
  }

  lemma UnfitAmong(s: string, one: string, two: string)
    requires SpellsMaxPlusOne(s) && |one| == 1 && |two| == 1 && one[0] == '1' && two[0] == '2'
    ensures Compare(two, s) == 0 && Compare(s, one) == 0 && Compare(two, one) == 1
  {
    OneMoreThanMax(s);
    OneDigit(one);
    OneDigit(two);
    DigitsAreOneChunk(one);
    DigitsAreOneChunk(two);
    DigitsAreOneChunk(s);
  }

  /** "2147483648" equals both "2" and "1". */
  lemma TooLargeForInt()
    ensures Compare("2", "2147483648") == 0 && Compare("2147483648", "1") == 0 && Compare("2", "1") == 1
  {
    UnfitAmong("2147483648", "1", "2");
  }

  lemma TwoDigits(s: string)
    requires |s| == 2
    ensures Value(s) == 10 * (s[0] as int - '0' as int) + (s[1] as int - '0' as int)
  {
    PrefixValue(s, 0);
    PrefixValue(s, 1);
    assert s[..2] == s && s[..0] == [];
  }

  lemma {:induction false} OneChunkEach(s: string, t: string)
    requires SmallNumber(s) && SmallNumber(t) && Value(s) < Value(t)
    ensures Compare(s, t) == -1
  {
    DigitsAreOneChunk(s);
    DigitsAreOneChunk(t);
    TwoNumbers(s, t);
  }

  /** 9 comes before 10, though as a text it comes after. */
  lemma NineBeforeTen()
    ensures Compare("9", "10") == -1 && Less("10", "9")
  {
    OneDigit("9");
    TwoDigits("10");
    OneChunkEach("9", "10");
  }

  lemma AroundUnfit(l: seq<string>, i: nat)
    requires i < |l| && Numeric(l[i]) && !Fits(l[i]) && AllFit(l[..i])
    requires Value("1") == 1 && Value("2") == 2
    ensures CompareChunks(l[..i] + ["2"], l) == 0 && CompareChunks(l, l[..i] + ["1"]) == 0
    ensures CompareChunks(l[..i] + ["2"], l[..i] + ["1"]) == 1
  {
    var p, rest := l[..i], [l[i]] + l[i + 1..];
    assert l == p + rest;
    CommonPrefix(p, ["2"], rest);
    CommonPrefix(p, rest, ["1"]);
    CommonPrefix(p, ["2"], ["1"]);
  }

  /** A string can stand in the middle exactly when it is there and its numbers fit. */
  lemma TransitiveExactlyWhenFitting(s: Option<string>)
    ensures TransitiveThrough(s) <==> s.Some? && AllFit(Chunks(s.value))
  {
    if s.None? {
      NullIsBetween();
    } else if AllFit(Chunks(s.value)) {
      forall t, u | Compared(t, s) <= 0 && Compared(s, u) <= 0 ensures Compared(t, u) <= 0 {
        if t.Some? && u.Some? {
          TotalPreorder(t.value, s.value, u.value);
        }
      }
    } else {
      var t, u := UnfitBreaks(s.value);
      assert Compared(Some(t), s) == 0 && Compared(s, Some(u)) == 0 && Compared(Some(t), Some(u)) == 1;
    }
  }

  /** null equals both of two strings that differ. */
  lemma NullIsBetween()
    ensures !TransitiveThrough(None)
  {
    assert Compared(Some("a"), None) == 0 && Compared(None, Some("")) == 0;
    assert Chunks("a") != [] && Compared(Some("a"), Some("")) == 1;
  }
}
