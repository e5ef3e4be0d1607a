/** White space in names: splitting at it, and joining with single blanks, as both
    ActorCreationLock.NormalizeKey and MovieProvider.NormalizePersonName do. */
module Spacing {

  /** char.IsWhiteSpace. */
  predicate White(c: char) {
    || '\t' <= c <= '\r' || c == ' ' || c == '\U{85}' || c == '\U{A0}' || c == '\U{1680}'
    || '\U{2000}' <= c <= '\U{200A}' || c == '\U{2028}' || c == '\U{2029}' || c == '\U{202F}'
    || c == '\U{205F}' || c == '\U{3000}'
  }

  /** The code points Unicode calls white space. */
  lemma WhiteCodes(c: char)
    ensures White(c) <==> c as int in [9, 10, 11, 12, 13, 32, 133, 160, 5760, 8192, 8193, 8194, 8195, 8196, 8197,
                                       8198, 8199, 8200, 8201, 8202, 8232, 8233, 8239, 8287, 12288]
  {
  }

  predicate Space(c: char) { c == ' ' }

  /** The longest prefix without a separator. */
  function Head(sep: char -> bool, s: string): (w: string)
    ensures |w| <= |s|
  {
    if s == "" || sep(s[0]) then "" else [s[0]] + Head(sep, s[1..])
  }

  /** Split with empty entries removed. */
  function Words(sep: char -> bool, s: string): seq<string>
    decreases |s|
  {
    if s == "" then []
    else if sep(s[0]) then Words(sep, s[1..])
    else
      assert |Head(sep, s)| > 0;
      [Head(sep, s)] + Words(sep, s[|Head(sep, s)|..])
  }

  function Join(ws: seq<string>): string {
    if ws == [] then "" else if |ws| == 1 then ws[0] else ws[0] + " " + Join(ws[1..])
  }

  predicate Word(sep: char -> bool, w: string) {
    w != "" && forall i :: 0 <= i < |w| ==> !sep(w[i])
  }

  lemma {:induction false} HeadMeaning(sep: char -> bool, s: string)
    ensures forall i :: 0 <= i < |Head(sep, s)| ==> !sep(Head(sep, s)[i])
    ensures |Head(sep, s)| < |s| ==> sep(s[|Head(sep, s)|])
    ensures Head(sep, s) == s[..|Head(sep, s)|]
  {
    if s != "" && !sep(s[0]) {
      HeadMeaning(sep, s[1..]);
    }
  }

  /** Every piece is a word, and joining them again gives no longer string. */
  lemma {:induction false} JoinShrinks(sep: char -> bool, s: string)
    ensures forall i :: 0 <= i < |Words(sep, s)| ==> Word(sep, Words(sep, s)[i])
    ensures |Join(Words(sep, s))| <= |s|
    decreases |s|
  {
    if s != "" {
      if sep(s[0]) {
        JoinShrinks(sep, s[1..]);
      } else {
        var w := Head(sep, s);
        HeadMeaning(sep, s);
        var rest := s[|w|..];
        JoinShrinks(sep, rest);
        if rest != "" {
          JoinShrinks(sep, rest[1..]);
          assert Words(sep, rest) == Words(sep, rest[1..]);
        }
        assert Words(sep, s)[1..] == Words(sep, rest);
      }
    }
  }

  lemma {:induction false} HeadOfWord(sep: char -> bool, w: string, rest: string)
    requires Word(sep, w) || w == ""
    requires rest == "" || sep(rest[0])
    ensures Head(sep, w + rest) == w
  {
    if w == "" {
      assert w + rest == rest;
    } else {
      assert (w + rest)[1..] == w[1..] + rest;
      HeadOfWord(sep, w[1..], rest);
    }
  }

  /** Splitting joined words gives the words back. */
  lemma {:induction false} SplitJoin(sep: char -> bool, ws: seq<string>)
    requires sep(' ') && forall i :: 0 <= i < |ws| ==> Word(sep, ws[i])
    ensures Words(sep, Join(ws)) == ws
  {
    if ws != [] {
      var w, rest := ws[0], if |ws| == 1 then "" else " " + Join(ws[1..]);
      assert Word(sep, w);
      assert Join(ws) == w + rest;
      HeadOfWord(sep, w, rest);
      assert (w + rest)[|w|..] == rest;
      SplitJoin(sep, ws[1..]);
      if |ws| > 1 {
        assert rest[1..] == Join(ws[1..]);
      }
    }
  }

  // ---- words and the gaps between them ----

  /** Separators only. */
  predicate Gap(sep: char -> bool, s: string) {
    forall i :: 0 <= i < |s| ==> sep(s[i])
  }

  /** A gap before every word and one at the end; those between words are not empty. */
  ghost predicate Gaps(sep: char -> bool, gaps: seq<string>) {
    && (forall i :: 0 <= i < |gaps| ==> Gap(sep, gaps[i]))
    && (forall i :: 0 < i < |gaps| - 1 ==> gaps[i] != "")
  }

  /** Gaps and words in turn. */
  function Weave(gaps: seq<string>, ws: seq<string>): string
    requires |gaps| == |ws| + 1
    decreases |ws|
  {
    if ws == [] then gaps[0] else gaps[0] + (ws[0] + Weave(gaps[1..], ws[1..]))
  }

  lemma {:induction false} SkipGap(sep: char -> bool, gap: string, s: string)
    requires Gap(sep, gap)
    ensures Words(sep, gap + s) == Words(sep, s)
  {
    if gap == "" {
      assert gap + s == s;
    } else {
      assert (gap + s)[1..] == gap[1..] + s;
      SkipGap(sep, gap[1..], s);
    }
  }

  lemma FirstWord(sep: char -> bool, w: string, rest: string)
    requires Word(sep, w) && (rest == "" || sep(rest[0]))
    ensures Words(sep, w + rest) == [w] + Words(sep, rest)
  {
    HeadOfWord(sep, w, rest);
    assert (w + rest)[|w|..] == rest;
  }

  /** Splitting finds the words, whatever the gaps between and around them are. */
  lemma {:induction false} WordsOfWeave(sep: char -> bool, gaps: seq<string>, ws: seq<string>)
    requires |gaps| == |ws| + 1 && Gaps(sep, gaps) && forall i :: 0 <= i < |ws| ==> Word(sep, ws[i])
    ensures Words(sep, Weave(gaps, ws)) == ws
    decreases |ws|
  {
    if ws == [] {
      SkipGap(sep, gaps[0], "");
      assert gaps[0] + "" == gaps[0];
    } else {
      var rest := Weave(gaps[1..], ws[1..]);
      WordsOfWeave(sep, gaps[1..], ws[1..]);
      assert Word(sep, ws[0]) && Gap(sep, gaps[1]);
      FirstWord(sep, ws[0], rest);
      SkipGap(sep, gaps[0], ws[0] + rest);
    }
  }

  /** Every text is woven of its words and gaps. */
  lemma {:induction false} Woven(sep: char -> bool, s: string) returns (gaps: seq<string>)
    ensures |gaps| == |Words(sep, s)| + 1 && Gaps(sep, gaps) && Weave(gaps, Words(sep, s)) == s
    ensures s != "" && sep(s[0]) ==> gaps[0] != ""
    decreases |s|
  {
    if s == "" {
      gaps := [""];
    } else if sep(s[0]) {
      var more := Woven(sep, s[1..]);
      gaps := [[s[0]] + more[0]] + more[1..];
      WiderGap(sep, s[0], more, gaps[0], gaps);
      WiderWeave(s[0], more, Words(sep, s[1..]), gaps);
      assert [s[0]] + s[1..] == s;
    } else {
      var w := Head(sep, s);
      HeadMeaning(sep, s);
      var more := Woven(sep, s[|w|..]);
      gaps := [""] + more;
      assert gaps[1..] == more && Words(sep, s)[1..] == Words(sep, s[|w|..]);
      assert w + s[|w|..] == s;
    }
  }

  /** One more separator in front. */
  lemma WiderGap(sep: char -> bool, c: char, gaps: seq<string>, first: string, wider: seq<string>)
    requires |gaps| > 0 && Gaps(sep, gaps) && sep(c) && first == [c] + gaps[0]
    requires wider == [first] + gaps[1..]
    ensures Gaps(sep, wider)
  {
    assert Gap(sep, gaps[0]);
    assert Gap(sep, first);
    assert forall i :: 0 < i < |wider| ==> wider[i] == gaps[i];
  }

  lemma {:induction false} WiderWeave(c: char, gaps: seq<string>, ws: seq<string>, wider: seq<string>)
    requires |gaps| == |wider| == |ws| + 1 && wider[0] == [c] + gaps[0] && wider[1..] == gaps[1..]
    ensures Weave(wider, ws) == [c] + Weave(gaps, ws)
  {
    if ws != [] {
      var rest := ws[0] + Weave(gaps[1..], ws[1..]);
      assert [c] + gaps[0] + rest == [c] + (gaps[0] + rest);
    }
  }

  predicate Blank(s: string) {
    forall i :: 0 <= i < |s| ==> White(s[i])
  }

  /** A text is blank exactly when it has no words. */
  lemma BlankMeaning(s: string)
    ensures Blank(s) <==> Words(White, s) == []
  {
    if Blank(s) {
      SkipGap(White, s, "");
      assert s + "" == s;
    }
    if Words(White, s) == [] {
      var gaps := Woven(White, s);
      assert Gap(White, gaps[0]);
    }
  }

  /** The words joined by single blanks. */
  function Squeeze(s: string): string {
    Join(Words(White, s))
  }

  /** Squeezing keeps the words and forgets all other spacing, so a second squeeze
      changes nothing. */
  lemma SpacingForgotten(s: string)
    ensures Words(White, Squeeze(s)) == Words(White, s)
    ensures Squeeze(Squeeze(s)) == Squeeze(s)
  {
    JoinShrinks(White, s);
    SplitJoin(White, Words(White, s));
  }
}
