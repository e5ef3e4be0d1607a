/** Provider ids as text: printing and parsing in the Go engine
    (engine/providerid/providerid.go) and in the plugin (Helpers/ProviderId.cs,
    Extensions/ProviderIdsExtensions.cs), over the bytes of a string. */
module ProviderIds {
  import opened Options

  type byte = c: char | c as int < 256

  type Text = seq<byte>

  // ---- percent-encoding, section 2.1 of RFC 3986 ----

  predicate Digit(c: byte) {
    '0' <= c <= '9'
  }

  /** The unreserved characters of section 2.3 of RFC 3986. */
  predicate Unreserved(c: byte) {
    'a' <= c <= 'z' || 'A' <= c <= 'Z' || Digit(c) || c == '-' || c == '_' || c == '.' || c == '~'
  }

  function HexDigit(n: int): byte
    requires 0 <= n < 16
  {
    if n < 10 then '0' + n as char else 'A' + (n - 10) as char
  }

  function HexValue(c: byte): Option<int> {
    if Digit(c) then Some(c as int - '0' as int)
    else if 'A' <= c <= 'F' then Some(c as int - 'A' as int + 10)
    else if 'a' <= c <= 'f' then Some(c as int - 'a' as int + 10)
    else None
  }

  /** One byte escaped; plus says whether a space becomes a plus sign. */
  function EscapeByte(c: byte, plus: bool): Text {
    if Unreserved(c) then [c]
    else if plus && c == ' ' then ['+']
    else ['%', HexDigit(c as int / 16), HexDigit(c as int % 16)]
  }

  /** url.QueryEscape with plus, Uri.EscapeDataString without. */
  function Escape(s: Text, plus: bool): Text {
    if s == [] then [] else EscapeByte(s[0], plus) + Escape(s[1..], plus)
  }

  /** The byte a complete escape at the front of s stands for. */
  function Decoded(s: Text): Option<byte> {
    if |s| >= 3 && s[0] == '%' && HexValue(s[1]).Some? && HexValue(s[2]).Some?
    then Some((16 * HexValue(s[1]).value + HexValue(s[2]).value) as char) else None
  }

  function Prepend(c: byte, rest: Option<Text>): Option<Text> {
    if rest.Some? then Some([c] + rest.value) else None
  }

  /** url.QueryUnescape: an incomplete escape is an error. */
  function QueryUnescape(s: Text): Option<Text> {
    if s == [] then Some([])
    else if s[0] == '%' then (if Decoded(s).Some? then Prepend(Decoded(s).value, QueryUnescape(s[3..])) else None)
    else Prepend(if s[0] == '+' then ' ' else s[0], QueryUnescape(s[1..]))
  }

  /** Uri.UnescapeDataString: an incomplete escape is left alone. */
  function UnescapeData(s: Text): Text {
    if s == [] then []
    else if Decoded(s).Some? then [Decoded(s).value] + UnescapeData(s[3..])
    else [s[0]] + UnescapeData(s[1..])
  }

  function Append(s: Text, rest: Option<Text>): Option<Text> {
    if rest.Some? then Some(s + rest.value) else None
  }

  lemma QueryByte(c: byte, plus: bool, tail: Text)
    ensures QueryUnescape(EscapeByte(c, plus) + tail) == Prepend(c, QueryUnescape(tail))
  {
    var e := EscapeByte(c, plus);
    assert (e + tail)[|e|..] == tail;
  }

  lemma DataByte(c: byte, tail: Text)
    ensures UnescapeData(EscapeByte(c, false) + tail) == [c] + UnescapeData(tail)
  {
    var e := EscapeByte(c, false);
    assert (e + tail)[|e|..] == tail;
  }

  lemma FirstByte(s: Text, plus: bool, rest: Text)
    requires s != []
    ensures Escape(s, plus) + rest == EscapeByte(s[0], plus) + (Escape(s[1..], plus) + rest)
  {
  }

  lemma PrependAppend(c: byte, s: Text, u: Option<Text>)
    ensures Prepend(c, Append(s, u)) == Append([c] + s, u)
  {
    assert u.Some? ==> [c] + (s + u.value) == [c] + s + u.value;
  }

  lemma HeadAppend(s: Text, u: Text)
    requires s != []
    ensures [s[0]] + (s[1..] + u) == s + u
  {
  }

  /** Unescaping undoes escaping, whatever follows. */
  lemma {:induction false} QueryRoundTrip(s: Text, plus: bool, rest: Text)
    ensures QueryUnescape(Escape(s, plus) + rest) == Append(s, QueryUnescape(rest))
  {
    if s == [] {
      assert Escape(s, plus) + rest == rest;
      assert QueryUnescape(rest).Some? ==> s + QueryUnescape(rest).value == QueryUnescape(rest).value;
    } else {
      QueryRoundTrip(s[1..], plus, rest);
      FirstByte(s, plus, rest);
      QueryByte(s[0], plus, Escape(s[1..], plus) + rest);
      PrependAppend(s[0], s[1..], QueryUnescape(rest));
      assert s == [s[0]] + s[1..];
    }
  }

  lemma {:induction false} DataRoundTrip(s: Text, rest: Text)
    ensures UnescapeData(Escape(s, false) + rest) == s + UnescapeData(rest)
  {
    if s == [] {
      assert Escape(s, false) + rest == rest && s + UnescapeData(rest) == UnescapeData(rest);
    } else {
      DataRoundTrip(s[1..], rest);
      FirstByte(s, false, rest);
      DataByte(s[0], Escape(s[1..], false) + rest);
      HeadAppend(s, UnescapeData(rest));
    }
  }

  lemma {:induction false} EscapedHasNoColon(s: Text, plus: bool)
    ensures ':' !in Escape(s, plus) && '|' !in Escape(s, plus)
  {
    if s != [] {
      EscapedHasNoColon(s[1..], plus);
      var h, l := HexDigit(s[0] as int / 16), HexDigit(s[0] as int % 16);
      assert h != ':' && l != ':' && h != '|' && l != '|';
    }
  }

  // ---- what an escape looks like ----

  const UPPER: Text := ['0', '1', '2', '3', '4', '5', '6', '7', '8', '9', 'A', 'B', 'C', 'D', 'E', 'F']
  const LOWER: Text := ['0', '1', '2', '3', '4', '5', '6', '7', '8', '9', 'a', 'b', 'c', 'd', 'e', 'f']

  /** A letter, a digit or one of four signs stands for itself, a space perhaps for a plus
      sign; any other byte becomes a percent sign and its two digits in base 16, the
      higher one first. */
  lemma EscapeMeaning(c: byte, plus: bool, h: nat, l: nat)
    requires h < 16 && l < 16 && c as int == 16 * h + l
    ensures Escape([c], plus) ==
            if 'a' <= c <= 'z' || 'A' <= c <= 'Z' || '0' <= c <= '9' || c == '-' || c == '_' || c == '.' || c == '~'
            then [c] else if c == ' ' && plus then ['+'] else ['%', UPPER[h], UPPER[l]]
  {
    HexWritten(h);
    HexWritten(l);
    assert c as int / 16 == h && c as int % 16 == l;
    assert Escape([c], plus) == EscapeByte(c, plus) + Escape([c][1..], plus);
  }

  lemma HexWritten(n: nat)
    requires n < 16
    ensures HexDigit(n) == UPPER[n]
  {
  }

  /** Escaping goes byte by byte. */
  lemma {:induction false} EscapeConcat(s: Text, t: Text, plus: bool)
    ensures Escape(s + t, plus) == Escape(s, plus) + Escape(t, plus)
  {
    if s == [] {
      assert s + t == t;
    } else {
      assert (s + t)[1..] == s[1..] + t;
      EscapeConcat(s[1..], t, plus);
    }
  }

  /** Two digits in base 16, of either case, behind a percent sign are read as one byte. */
  lemma DigitsRead(h: nat, l: nat, high: byte, low: byte, rest: Text)
    requires h < 16 && l < 16 && (high == UPPER[h] || high == LOWER[h]) && (low == UPPER[l] || low == LOWER[l])
    ensures UnescapeData(['%', high, low] + rest) == [(16 * h + l) as char] + UnescapeData(rest)
    ensures QueryUnescape(['%', high, low] + rest) == Prepend((16 * h + l) as char, QueryUnescape(rest))
  {
    HexRead(h, high);
    HexRead(l, low);
    assert (['%', high, low] + rest)[3..] == rest;
  }

  lemma HexRead(h: nat, c: byte)
    requires h < 16 && (c == UPPER[h] || c == LOWER[h])
    ensures HexValue(c) == Some(h)
  {
  }

  /** A percent sign without two such digits is an error in a query and stands for itself
      in data. */
  lemma Incomplete(s: Text)
    requires s != [] && s[0] == '%'
    requires |s| < 3 || !Base16(s[1]) || !Base16(s[2])
    ensures QueryUnescape(s).None? && UnescapeData(s) == ['%'] + UnescapeData(s[1..])
  {
    if |s| >= 3 {
      Base16Value(s[1]);
      Base16Value(s[2]);
    }
  }

  predicate Base16(c: byte) {
    c in UPPER || c in LOWER
  }

  lemma Base16Value(c: byte)
    ensures HexValue(c).Some? ==> Base16(c)
  {
    if '0' <= c <= '9' {
      assert UPPER[c as int - '0' as int] == c;
    }
    if 'A' <= c <= 'F' {
      assert UPPER[c as int - 'A' as int + 10] == c;
    }
    if 'a' <= c <= 'f' {
      assert LOWER[c as int - 'a' as int + 10] == c;
    }
  }

  /** Other bytes stand for themselves, but for a plus sign in a query. */
  lemma PlainBytes(c: byte, rest: Text)
    requires c != '%'
    ensures QueryUnescape([c] + rest) == Prepend(if c == '+' then ' ' else c, QueryUnescape(rest))
    ensures UnescapeData([c] + rest) == [c] + UnescapeData(rest)
  {
    assert ([c] + rest)[1..] == rest;
  }

  // ---- position suffixes ----

  predicate AllDigits(s: Text) {
    forall i :: 0 <= i < |s| ==> Digit(s[i])
  }

  /** 0 or 1, optionally followed by a point and digits. */
  predicate IsPosition(s: Text) {
    && s != [] && (s[0] == '0' || s[0] == '1')
    && (|s| == 1 || (|s| > 2 && s[1] == '.' && AllDigits(s[2..])))
  }

  /** What the pattern accepts after the colon: its character class also holds the bar. */
  predicate MatchesPattern(s: Text) {
    && s != [] && (s[0] == '0' || s[0] == '1' || s[0] == '|')
    && (|s| == 1 || (|s| > 2 && s[1] == '.' && AllDigits(s[2..])))
  }

  /** The sign, alone or with a point and digits. */
  predicate Spells(s: Text, sign: byte, digits: Text) {
    AllDigits(digits) && (s == [sign] || (digits != [] && s == [sign, '.'] + digits))
  }

  /** The texts of the pattern: one of three signs, alone or with a point and digits. */
  lemma PatternMeaning(s: Text)
    ensures MatchesPattern(s) <==>
            exists sign, digits :: (sign == '0' || sign == '1' || sign == '|') && Spells(s, sign, digits)
  {
    if MatchesPattern(s) {
      assert Spells(s, s[0], if |s| == 1 then [] else s[2..]);
    }
  }

  function LastColon(s: Text): (at: Option<nat>)
    ensures at.Some? ==> at.value < |s| && s[at.value] == ':' && forall j :: at.value < j < |s| ==> s[j] != ':'
    ensures at.None? ==> forall j :: 0 <= j < |s| ==> s[j] != ':'
  {
    if s == [] then None else if s[|s| - 1] == ':' then Some(|s| - 1) else LastColon(s[..|s| - 1])
  }

  function TrimPosSuffix(s: Text): Text {
    var at := LastColon(s);
    if at.Some? && MatchesPattern(s[at.value + 1..]) then s[..at.value] else s
  }

  /** The pattern is anchored at the end and holds one colon, so wherever it matches
      is the last colon. */
  lemma TrimMeaning(s: Text, i: nat)
    requires i < |s| && s[i] == ':' && MatchesPattern(s[i + 1..])
    ensures TrimPosSuffix(s) == s[..i]
  {
    var rest := s[i + 1..];
    forall j | i < j < |s| ensures s[j] != ':' {
      assert s[j] == rest[j - i - 1];
      assert j - i - 1 >= 2 ==> rest[j - i - 1] == rest[2..][j - i - 3];
    }
  }

  // ---- the Go engine ----

  datatype ProviderID = ProviderID(provider: Text, id: Text)

  datatype Parsed = Ok(pid: ProviderID) | Invalid

  function New(provider: Text, id: Text): Parsed {
    if provider != [] && id != [] then Ok(ProviderID(provider, id)) else Invalid
  }

  function Print(pid: ProviderID): Text {
    pid.provider + [':'] + Escape(pid.id, true)
  }

  /** Cut: the first index of the colon. */
  function FirstColon(s: Text): (at: Option<nat>)
    ensures at.Some? ==> at.value < |s| && s[at.value] == ':' && forall j :: 0 <= j < at.value ==> s[j] != ':'
    ensures at.None? ==> forall j :: 0 <= j < |s| ==> s[j] != ':'
  {
    if s == [] then None
    else if s[0] == ':' then Some(0)
    else
      var at := FirstColon(s[1..]);
      if at.Some? then Some(at.value + 1) else None
  }

  function Parse(s: Text): Parsed {
    var t := TrimPosSuffix(s);
    var at := FirstColon(t);
    if at.None? then Invalid
    else
      var id := QueryUnescape(t[at.value + 1..]);
      if id.None? then Invalid else New(t[..at.value], id.value)
  }

  lemma TrimAt(front: Text, last: Text)
    requires ':' !in last
    ensures TrimPosSuffix(front + [':'] + last) == if MatchesPattern(last) then front else front + [':'] + last
  {
    var s := front + [':'] + last;
    assert s[|front|] == ':' && forall j :: |front| < j < |s| ==> s[j] == last[j - |front| - 1];
    assert s[|front| + 1..] == last && s[..|front|] == front;
  }

  /** Escaping leaves exactly the positions looking like positions. */
  lemma EscapedPosition(id: Text, plus: bool)
    ensures MatchesPattern(Escape(id, plus)) <==> IsPosition(id)
    ensures IsPosition(id) ==> Escape(id, plus) == id
  {
    EscapedHasNoColon(id, plus);
    if IsPosition(id) {
      EscapeUnreserved(id, plus);
    } else if MatchesPattern(Escape(id, plus)) {
      var e := Escape(id, plus);
      assert e[0] in e;
      UnreservedEscape(id, plus);
    }
  }

  lemma {:induction false} EscapeUnreserved(s: Text, plus: bool)
    requires forall i :: 0 <= i < |s| ==> Unreserved(s[i])
    ensures Escape(s, plus) == s
  {
    if s != [] {
      EscapeUnreserved(s[1..], plus);
    }
  }

  lemma {:induction false} UnreservedEscape(s: Text, plus: bool)
    requires forall i :: 0 <= i < |Escape(s, plus)| ==> Unreserved(Escape(s, plus)[i])
    ensures Escape(s, plus) == s
  {
    if s != [] {
      var e, rest := EscapeByte(s[0], plus), Escape(s[1..], plus);
      assert Escape(s, plus) == e + rest && Unreserved(Escape(s, plus)[0]);
      forall i | 0 <= i < |rest| ensures Unreserved(rest[i]) {
        assert rest[i] == Escape(s, plus)[|e| + i];
      }
      UnreservedEscape(s[1..], plus);
    }
  }

  /** Printing and parsing, for every pair: the same pair comes back exactly when the
      provider is not empty and holds no colon, and the id is not empty and does not
      read as a position. */
  lemma PrintParse(pid: ProviderID)
    ensures Parse(Print(pid)) == Ok(pid) <==>
            pid.provider != [] && ':' !in pid.provider && pid.id != [] && !IsPosition(pid.id)
  {
    var e := Escape(pid.id, true);
    EscapedHasNoColon(pid.id, true);
    EscapedPosition(pid.id, true);
    TrimAt(pid.provider, e);
    QueryRoundTrip(pid.id, true, []);
    assert e + [] == e && pid.id + [] == pid.id;
    if ':' in pid.provider {
    } else if IsPosition(pid.id) {
      assert FirstColon(pid.provider).None?;
    } else {
      ParseTrimmed(Print(pid), pid.provider, e);
    }
  }

  /** A parsed provider never holds a colon. */
  lemma ParsedUpToColon(s: Text)
    ensures Parse(s).Ok? ==> ':' !in Parse(s).pid.provider
  {
  }

  /** With a position appended the pair comes back for every id: exactly when neither
      part is empty and the provider holds no colon. */
  lemma PrintPositionParse(pid: ProviderID, position: Text)
    requires MatchesPattern(position)
    ensures Parse(Print(pid) + [':'] + position) == Ok(pid) <==>
            pid.provider != [] && ':' !in pid.provider && pid.id != []
  {
    var s := Print(pid) + [':'] + position;
    ParsedUpToColon(s);
    if ':' !in pid.provider {
      TrimMeaning(s, |Print(pid)|) by {
        assert s[|Print(pid)| + 1..] == position;
      }
      assert s[..|Print(pid)|] == Print(pid);
      ParseTrimmed(s, pid.provider, Escape(pid.id, true));
      QueryRoundTrip(pid.id, true, []);
      assert Escape(pid.id, true) + [] == Escape(pid.id, true) && pid.id + [] == pid.id;
    }
  }

  lemma ParseTrimmed(s: Text, provider: Text, rest: Text)
    requires ':' !in provider && TrimPosSuffix(s) == provider + [':'] + rest
    ensures Parse(s) == if QueryUnescape(rest).None? then Invalid else New(provider, QueryUnescape(rest).value)
  {
    var t := provider + [':'] + rest;
    assert t[|provider|] == ':' && forall j :: 0 <= j < |provider| ==> t[j] == provider[j];
    assert t[..|provider|] == provider && t[|provider| + 1..] == rest;
  }
}
