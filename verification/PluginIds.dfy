/** The plugin's provider id, Helpers/ProviderId.cs, as the extension methods store
    it, Extensions/ProviderIdsExtensions.cs, and as the Go engine reads it back. */
module PluginIds {
  import opened Options
  import opened ProviderIds

  datatype PluginId = PluginId(provider: Text, id: Text, position: Option<real>, update: Option<bool>)

  /** double.ToString and double.TryParse, and which reals are doubles. */
  datatype Numbers = Numbers(isDouble: real -> bool, show: real -> Text, parse: Text -> Option<real>)

  /** Printed doubles read back, hold no colon, and the empty text is no number. */
  ghost predicate Sane(n: Numbers) {
    && (forall x {:trigger n.show(x)} :: n.isDouble(x) ==> n.parse(n.show(x)) == Some(x) && ':' !in n.show(x))
    && n.parse([]).None?
  }

  lemma SaneAt(n: Numbers, x: real)
    requires Sane(n) && n.isDouble(x)
    ensures n.parse(n.show(x)) == Some(x) && ':' !in n.show(x)
  {
  }

  /** A position, when present, is a double. */
  predicate Representable(n: Numbers, position: Option<real>) {
    position.Some? ==> n.isDouble(position.value)
  }

  function ShowSmall(x: real): Text {
    if x == 0.0 then ['0'] else if x == 0.5 then ['0', '.', '5'] else ['1']
  }

  function ParseSmall(s: Text): Option<real> {
    if s == ['0'] then Some(0.0) else if s == ['0', '.', '5'] then Some(0.5)
    else if s == ['1'] then Some(1.0) else None
  }

  /** Sane numbers exist: the left, the middle and the right position. */
  lemma SaneNumbersExist() returns (n: Numbers)
    ensures Sane(n) && n.isDouble(0.0) && n.isDouble(0.5) && n.isDouble(1.0)
    ensures n.show(0.5) == ['0', '.', '5']
  {
    n := Numbers(x => x == 0.0 || x == 0.5 || x == 1.0, ShowSmall, ParseSmall);
  }

  function PrintBool(b: bool): Text {
    if b then ['T', 'r', 'u', 'e'] else ['F', 'a', 'l', 's', 'e']
  }

  function ToBool(s: Text): Option<bool> {
    if s == ['1'] || s == ['t'] || s == ['T'] || s == ['t', 'r', 'u', 'e'] || s == ['T', 'r', 'u', 'e']
       || s == ['T', 'R', 'U', 'E'] then Some(true)
    else if s == ['0'] || s == ['f'] || s == ['F'] || s == ['f', 'a', 'l', 's', 'e'] || s == ['F', 'a', 'l', 's', 'e']
            || s == ['F', 'A', 'L', 'S', 'E'] then Some(false)
    else None
  }

  function Join(parts: seq<Text>): Text {
    if parts == [] then [] else if |parts| == 1 then parts[0] else parts[0] + [':'] + Join(parts[1..])
  }

  lemma Join2(a: Text, b: Text)
    ensures Join([a, b]) == a + [':'] + b
  {
    assert [a, b] == [a] + [b];
  }

  lemma Join3(a: Text, b: Text, c: Text)
    ensures Join([a, b, c]) == a + [':'] + (b + [':'] + c)
  {
    Join2(b, c);
    assert [a, b, c] == [a] + [b, c];
  }

  function Split(s: Text): (parts: seq<Text>)
    ensures |parts| > 0
  {
    var at := FirstColon(s);
    if at.None? then [s] else [s[..at.value]] + Split(s[at.value + 1..])
  }

  lemma SplitCut(head: Text, rest: Text)
    requires ':' !in head
    ensures Split(head + [':'] + rest) == [head] + Split(rest) && Split(head) == [head]
  {
    var s := head + [':'] + rest;
    assert forall j :: 0 <= j < |head| ==> s[j] == head[j];
    assert s[|head|] == ':' && s[..|head|] == head && s[|head| + 1..] == rest;
    assert FirstColon(s) == Some(|head|);
  }

  lemma {:induction false} SplitJoin(parts: seq<Text>)
    requires parts != [] && forall i :: 0 <= i < |parts| ==> ':' !in parts[i]
    ensures Split(Join(parts)) == parts
  {
    var tail := parts[1..];
    assert parts == [parts[0]] + tail;
    if tail == [] {
      SplitCut(parts[0], []);
    } else {
      SplitJoin(tail);
      SplitCut(parts[0], Join(tail));
    }
  }

  method ToText(n: Numbers, pid: PluginId) returns (s: Text)
    ensures s == Printed(n, pid)
  {
    var values := [pid.provider, pid.id];
    if pid.position.Some? {
      values := values + [n.show(pid.position.value)];
    }
    if pid.update.Some? {
      values := values + [(if |values| == 2 then [':'] else []) + PrintBool(pid.update.value)];
    }
    assert pid.update.Some? ==> [] + PrintBool(pid.update.value) == PrintBool(pid.update.value);
    assert values == Places(n, pid);
    return Join(values);
  }

  /** The places of the text, in four shapes: without a position, a colon of its own
      stands before the update. */
  function Places(n: Numbers, pid: PluginId): seq<Text> {
    match (pid.position, pid.update)
    case (None, None) => [pid.provider, pid.id]
    case (Some(x), None) => [pid.provider, pid.id, n.show(x)]
    case (None, Some(b)) => [pid.provider, pid.id, [':'] + PrintBool(b)]
    case (Some(x), Some(b)) => [pid.provider, pid.id, n.show(x), PrintBool(b)]
  }

  function Printed(n: Numbers, pid: PluginId): Text {
    Join(Places(n, pid))
  }

  function Read(n: Numbers, raw: Option<Text>): PluginId {
    if raw.None? then PluginId([], [], None, None)
    else
      var values := Split(raw.value);
      if |values| > 2 && n.parse(values[2]).None? && ToBool(values[2]).None? then
        PluginId(values[0], UnescapeData(Join(values[1..])), None, None)
      else
        PluginId(values[0],
                 if |values| > 1 then UnescapeData(values[1]) else [],
                 if |values| > 2 then n.parse(values[2]) else None,
                 if |values| > 3 then ToBool(values[3]) else None)
  }

  /** SetPid: the id is escaped on its way into the text. */
  function Stored(n: Numbers, pid: PluginId): Text {
    Printed(n, pid.(id := Escape(pid.id, false)))
  }

  function PositionText(n: Numbers, pid: PluginId): Text {
    if pid.position.Some? then [':'] + n.show(pid.position.value) else if pid.update.Some? then [':'] else []
  }

  function FlagText(pid: PluginId): Text {
    if pid.update.None? then []
    else if pid.update.value then [':', 'T', 'r', 'u', 'e'] else [':', 'F', 'a', 'l', 's', 'e']
  }

  /** The text stored: provider and escaped id; the position if there is one; and the flag,
      behind two colons when there is no position. */
  lemma StoredText(n: Numbers, pid: PluginId)
    ensures Stored(n, pid) == pid.provider + [':'] + Escape(pid.id, false) + PositionText(n, pid) + FlagText(pid)
  {
    var a, e := pid.provider, Escape(pid.id, false);
    assert pid.update.Some? ==> FlagText(pid) == [':'] + PrintBool(pid.update.value);
    match (pid.position, pid.update)
    case (None, None) => Join2(a, e);
    case (Some(x), None) => Joined3(a, e, n.show(x));
    case (None, Some(b)) => Joined3(a, e, [':'] + PrintBool(b));
    case (Some(x), Some(b)) => Joined4(a, e, n.show(x), PrintBool(b));
  }

  lemma Joined3(a: Text, b: Text, c: Text)
    ensures Join([a, b, c]) == a + [':'] + b + ([':'] + c)
  {
    Join3(a, b, c);
  }

  lemma Joined4(a: Text, b: Text, c: Text, d: Text)
    ensures Join([a, b, c, d]) == a + [':'] + b + ([':'] + c) + ([':'] + d)
  {
    Join4(a, b, c, d);
  }

  lemma Join4(a: Text, b: Text, c: Text, d: Text)
    ensures Join([a, b, c, d]) == a + [':'] + (b + [':'] + (c + [':'] + d))
  {
    Join3(b, c, d);
    assert [a, b, c, d] == [a] + [b, c, d];
  }

  /** The words read as true and as false. */
  lemma FlagMeaning(s: Text)
    ensures ToBool(s) == Some(true) <==>
            s in [['1'], ['t'], ['T'], ['t', 'r', 'u', 'e'], ['T', 'r', 'u', 'e'], ['T', 'R', 'U', 'E']]
    ensures ToBool(s) == Some(false) <==>
            s in [['0'], ['f'], ['F'], ['f', 'a', 'l', 's', 'e'], ['F', 'a', 'l', 's', 'e'], ['F', 'A', 'L', 'S', 'E']]
  {
  }

  /** Reading any text by its parts between colons: a third part that is neither a number
      nor a flag makes everything behind the provider the id; otherwise the third part is
      the position, if it is a number, and the fourth the flag, if it is one. */
  lemma ReadParts(n: Numbers, parts: seq<Text>)
    requires parts != [] && forall i :: 0 <= i < |parts| ==> ':' !in parts[i]
    ensures Read(n, None) == PluginId([], [], None, None)
    ensures var r := Read(n, Some(Join(parts)));
            && r.provider == parts[0]
            && (|parts| > 2 && n.parse(parts[2]).None? && ToBool(parts[2]).None? ==>
                  r.id == UnescapeData(Join(parts[1..])) && r.position.None? && r.update.None?)
            && (|parts| == 1 ==> r.id == [] && r.position.None? && r.update.None?)
            && (|parts| == 2 ==> r.id == UnescapeData(parts[1]) && r.position.None? && r.update.None?)
            && (|parts| > 2 && (n.parse(parts[2]).Some? || ToBool(parts[2]).Some?) ==>
                  r.id == UnescapeData(parts[1]) && r.position == n.parse(parts[2])
                  && r.update == if |parts| > 3 then ToBool(parts[3]) else None)
  {
    SplitJoin(parts);
  }

  lemma PlainId(id: Text)
    ensures UnescapeData(Escape(id, false)) == id
  {
    DataRoundTrip(id, []);
    assert Escape(id, false) + [] == Escape(id, false) && id + [] == id;
  }

  lemma ReadPlain(n: Numbers, pid: PluginId)
    requires Sane(n) && Representable(n, pid.position) && ':' !in pid.provider
    requires pid.update.None? || pid.position.Some?
    ensures Read(n, Some(Stored(n, pid))) == pid
  {
    var e := Escape(pid.id, false);
    EscapedHasNoColon(pid.id, false);
    PlainId(pid.id);
    match (pid.position, pid.update)
    case (None, _) => SplitJoin([pid.provider, e]);
    case (Some(x), None) => SplitJoin([pid.provider, e, n.show(x)]);
    case (Some(x), Some(b)) =>
      assert ToBool(PrintBool(b)) == Some(b) && ':' !in PrintBool(b);
      SplitJoin([pid.provider, e, n.show(x), PrintBool(b)]);
  }

  /** An update without a position: the flag ends up inside the id. */
  lemma ReadSwallowsUpdate(n: Numbers, pid: PluginId)
    requires Sane(n) && ':' !in pid.provider && pid.update.Some? && pid.position.None?
    ensures Read(n, Some(Stored(n, pid))) ==
            PluginId(pid.provider, pid.id + [':', ':'] + PrintBool(pid.update.value), None, None)
  {
    var b := PrintBool(pid.update.value);
    assert ':' !in b && '%' !in b;
    SplitWithoutPosition(pid.provider, pid.id, b);
    SwallowedId(pid.id, b);
    ReadFour(n, Stored(n, pid), pid.provider, Escape(pid.id, false), b);
    EmptyPlace(pid.provider, Escape(pid.id, false), b);
  }

  lemma SplitWithoutPosition(provider: Text, id: Text, b: Text)
    requires ':' !in provider && ':' !in b
    ensures Split(Join([provider, Escape(id, false), [':'] + b])) == [provider, Escape(id, false), [], b]
  {
    var e := Escape(id, false);
    var none: Text := [];
    EscapedHasNoColon(id, false);
    SplitJoin([provider, e, none, b]);
    EmptyPlace(provider, e, b);
  }

  lemma ReadFour(n: Numbers, s: Text, provider: Text, e: Text, b: Text)
    requires n.parse([]).None? && Split(s) == [provider, e, [], b]
    ensures Read(n, Some(s)) == PluginId(provider, UnescapeData(Join([e, [], b])), None, None)
  {
    var none: Text := [];
    assert [provider, e, none, b][1..] == [e, none, b];
  }

  /** The doubled colon of an absent position is an empty part. */
  lemma EmptyPlace(provider: Text, e: Text, b: Text)
    ensures Join([e, [], b]) == e + ([':', ':'] + b)
    ensures Join([provider, e, [':'] + b]) == Join([provider, e, [], b])
  {
    var none: Text := [];
    Join3(provider, e, [':'] + b);
    Join3(e, none, b);
    assert [provider, e, none, b] == [provider] + [e, none, b];
    assert none + [':'] + b == [':'] + b;
    assert e + [':'] + ([':'] + b) == e + ([':', ':'] + b);
  }

  lemma SwallowedId(id: Text, b: Text)
    requires '%' !in b
    ensures UnescapeData(Escape(id, false) + ([':', ':'] + b)) == id + [':', ':'] + b
  {
    DataRoundTrip(id, [':', ':'] + b);
    Untouched([':', ':'] + b);
    assert id + [':', ':'] + b == id + ([':', ':'] + b);
  }

  lemma {:induction false} Untouched(s: Text)
    requires '%' !in s
    ensures UnescapeData(s) == s
  {
    if s != [] {
      Untouched(s[1..]);
    }
  }

  /** The first part of a split text ends before its first colon. */
  lemma ReadUpToColon(n: Numbers, s: Text)
    ensures ':' !in Read(n, Some(s)).provider
  {
    assert Split(s)[0] == if FirstColon(s).None? then s else s[..FirstColon(s).value];
  }

  /** Storing and reading gives the same fields back exactly when the provider holds no
      colon, and the update is absent or the position present. */
  lemma StoreRead(n: Numbers, pid: PluginId)
    requires Sane(n) && Representable(n, pid.position)
    ensures Read(n, Some(Stored(n, pid))) == pid <==>
            ':' !in pid.provider && (pid.update.None? || pid.position.Some?)
  {
    if ':' in pid.provider {
      ReadUpToColon(n, Stored(n, pid));
    } else if pid.update.None? || pid.position.Some? {
      ReadPlain(n, pid);
    } else {
      ReadSwallowsUpdate(n, pid);
    }
  }

  /** The Go engine reads the provider and id out of a stored text without an update
      exactly when neither is empty, the provider holds no colon, and the text ends in a
      position suffix, or has no position and an id that does not read as one. */
  lemma EngineReads(n: Numbers, provider: Text, id: Text, position: Option<real>)
    requires Sane(n) && Representable(n, position)
    ensures Parse(Stored(n, PluginId(provider, id, position, None))) == Ok(ProviderID(provider, id)) <==>
            ':' !in provider && provider != [] && id != []
            && if position.None? then !IsPosition(id) else MatchesPattern(n.show(position.value))
  {
    var e := Escape(id, false);
    EscapedHasNoColon(id, false);
    EscapedPosition(id, false);
    if ':' in provider {
      ParsedUpToColon(Stored(n, PluginId(provider, id, position, None)));
    } else if position.None? {
      Join2(provider, e);
      EngineReadsPlain(provider, id);
    } else {
      var t := n.show(position.value);
      SaneAt(n, position.value);
      Join3(provider, e, t);
      assert provider + [':'] + (e + [':'] + t) == (provider + [':'] + e) + [':'] + t;
      EngineReadsSuffix(provider, id, t);
    }
  }

  lemma EngineReadsPlain(provider: Text, id: Text)
    requires ':' !in provider
    ensures Parse(provider + [':'] + Escape(id, false)) == Ok(ProviderID(provider, id)) <==>
            provider != [] && id != [] && !IsPosition(id)
  {
    var e := Escape(id, false);
    EscapedHasNoColon(id, false);
    EscapedPosition(id, false);
    WholeId(id);
    TrimAt(provider, e);
    if IsPosition(id) {
      assert FirstColon(provider).None?;
    } else {
      ParseTrimmed(provider + [':'] + e, provider, e);
    }
  }

  lemma WholeId(id: Text)
    ensures QueryUnescape(Escape(id, false)) == Some(id)
  {
    QueryRoundTrip(id, false, []);
    assert Escape(id, false) + [] == Escape(id, false) && id + [] == id;
  }

  lemma EngineReadsSuffix(provider: Text, id: Text, t: Text)
    requires ':' !in provider && ':' !in t
    ensures Parse((provider + [':'] + Escape(id, false)) + [':'] + t) == Ok(ProviderID(provider, id)) <==>
            provider != [] && id != [] && MatchesPattern(t)
  {
    var e := Escape(id, false);
    TrimAt(provider + [':'] + e, t);
    if MatchesPattern(t) {
      EngineDropsSuffix(provider, id, e, t);
    } else {
      EngineKeepsSuffix(provider, id, e, t);
    }
  }

  lemma EngineDropsSuffix(provider: Text, id: Text, e: Text, t: Text)
    requires ':' !in provider && e == Escape(id, false)
    requires TrimPosSuffix((provider + [':'] + e) + [':'] + t) == provider + [':'] + e
    ensures Parse((provider + [':'] + e) + [':'] + t) == Ok(ProviderID(provider, id)) <==>
            provider != [] && id != []
  {
    WholeId(id);
    ParseTrimmed((provider + [':'] + e) + [':'] + t, provider, e);
  }

  /** A tail that is no position stays part of the id. */
  lemma EngineKeepsSuffix(provider: Text, id: Text, e: Text, t: Text)
    requires ':' !in provider && e == Escape(id, false)
    requires TrimPosSuffix((provider + [':'] + e) + [':'] + t) == (provider + [':'] + e) + [':'] + t
    ensures Parse((provider + [':'] + e) + [':'] + t) != Ok(ProviderID(provider, id))
  {
    var s, rest := (provider + [':'] + e) + [':'] + t, e + [':'] + t;
    LongerId(id, e, t);
    assert s == provider + [':'] + rest;
    ParseTrimmed(s, provider, rest);
  }

  lemma LongerId(id: Text, e: Text, t: Text)
    requires e == Escape(id, false)
    ensures QueryUnescape(e + [':'] + t) != Some(id)
  {
    QueryRoundTrip(id, false, [':'] + t);
    assert e + [':'] + t == e + ([':'] + t);
    assert ([':'] + t)[1..] == t;
  }
}
