/** The index of existing people in MovieProvider.cs: the keys a name is known under,
    the first-wins dictionary built from them, and the lookup of an actor's name. */
module PersonIndex {
  import opened Options
  import opened Spacing

  // ---- names ----

  /** What Unicode says of normalization form C: it is idempotent, parts of a normal
      string are normal, and words of a normal string joined by blanks are normal. */
  ghost predicate Normalizes(nfc: string -> string) {
    && (forall s {:trigger nfc(nfc(s))} :: nfc(nfc(s)) == nfc(s))
    && (forall s, i, j :: 0 <= i <= j <= |s| && nfc(s) == s ==> nfc(s[i..j]) == s[i..j])
    && (forall s {:trigger nfc(Squeeze(s))} :: nfc(s) == s ==> nfc(Squeeze(s)) == Squeeze(s))
  }

  /** Text that is already normal normalizes to itself: the condition can be met. */
  lemma PlainTextNormalizes()
    ensures Normalizes((s: string) => s)
  {
  }

  function NormalizePersonName(nfc: string -> string, name: string): string {
    Squeeze(nfc(name))
  }

  /** A part of a normalized name does not grow when it is normalized again. */
  lemma PartShrinks(nfc: string -> string, name: string, i: nat, j: nat)
    requires Normalizes(nfc) && i <= j <= |NormalizePersonName(nfc, name)|
    ensures |NormalizePersonName(nfc, NormalizePersonName(nfc, name)[i..j])| <= j - i
  {
    var v := NormalizePersonName(nfc, name);
    assert nfc(nfc(name)) == nfc(name);
    assert nfc(v) == v;
    JoinShrinks(White, v[i..j]);
  }

  /** The index of the last opening parenthesis, or -1. */
  function LastOpen(v: string): (i: int)
    ensures -1 <= i < |v| && (i >= 0 ==> v[i] == '(')
  {
    if v == "" then -1 else if v[|v| - 1] == '(' then |v| - 1 else LastOpen(v[..|v| - 1])
  }

  function TrimmedEnd(s: string): (n: nat)
    ensures n <= |s|
  {
    if s != "" && White(s[|s| - 1]) then TrimmedEnd(s[..|s| - 1]) else |s|
  }

  const COMMA := '\U{3001}'

  predicate Digit(c: char) { '0' <= c <= '9' }

  /** Where the name starts after "JAP", a year or a question mark, and the commas. */
  function AfterTag(s: string): (n: nat)
    ensures n <= |s|
  {
    if |s| >= 4 && s[0] in "Jj" && s[1] in "Aa" && s[2] in "Pp" && s[3] == COMMA then
      if |s| >= 6 && s[4] == '?' && s[5] == COMMA then 6
      else if |s| >= 9 && Digit(s[4]) && Digit(s[5]) && Digit(s[6]) && Digit(s[7]) && s[8] == COMMA then 9
      else 0
    else 0
  }

  /** The two groups of the canonical form "western (JAP, year, original)", as ranges:
      the western part ends at west, the original part starts at orig and ends before
      the last character. */
  datatype Groups = Groups(west: nat, orig: nat)

  function Canonical(v: string): (g: Option<Groups>)
    ensures g.Some? ==> g.value.west < |v| && 0 < g.value.orig < |v| - 1
  {
    var i := LastOpen(v);
    if i >= 0 && v[|v| - 1] == ')' && i < |v| - 1 then
      var inner := v[i + 1..|v| - 1];
      var n := AfterTag(inner);
      if n > 0 && n < |inner| && ')' !in inner then Some(Groups(TrimmedEnd(v[..i]), i + 1 + n)) else None
    else None
  }

  function Western(v: string): string {
    if Canonical(v).Some? then v[0..Canonical(v).value.west] else ""
  }

  function Original(v: string): string {
    if Canonical(v).Some? then v[Canonical(v).value.orig..|v| - 1] else ""
  }

  predicate Japanese(v: string) {
    exists i :: 0 <= i < |v| && ('\U{3040}' <= v[i] <= '\U{30ff}' || '\U{3400}' <= v[i] <= '\U{9fff}')
  }

  /** The parts of a canonical name are proper parts of it. */
  lemma PartRanges(v: string) returns (west: nat, orig: nat)
    requires Canonical(v).Some?
    ensures west < |v| && Western(v) == v[0..west]
    ensures 0 < orig < |v| - 1 && Original(v) == v[orig..|v| - 1]
  {
    west, orig := Canonical(v).value.west, Canonical(v).value.orig;
  }

  lemma PartIsShorter(nfc: string -> string, name: string, part: string, i: nat, j: nat)
    requires Normalizes(nfc) && i <= j <= |NormalizePersonName(nfc, name)|
    requires part == NormalizePersonName(nfc, name)[i..j] && j - i < |NormalizePersonName(nfc, name)|
    ensures |NormalizePersonName(nfc, part)| < |NormalizePersonName(nfc, name)|
  {
    PartShrinks(nfc, name, i, j);
  }

  /** Both parts of a canonical name are shorter than it, also when normalised again. */
  lemma PartsAreShorter(nfc: string -> string, name: string)
    requires Normalizes(nfc) && Canonical(NormalizePersonName(nfc, name)).Some?
    ensures var v := NormalizePersonName(nfc, name);
            |NormalizePersonName(nfc, Western(v))| < |v| && |NormalizePersonName(nfc, Original(v))| < |v|
  {
    var v := NormalizePersonName(nfc, name);
    var west, orig := PartRanges(v);
    PartIsShorter(nfc, name, Western(v), 0, west);
    PartIsShorter(nfc, name, Original(v), orig, |v| - 1);
  }

  /** ActorIdentityKeys: the name itself, then the keys of both parts of a canonical
      name, or the reversal of a two-word Latin name. */
  function ActorIdentityKeys(nfc: string -> string, name: string): seq<string>
    requires Normalizes(nfc)
    decreases |NormalizePersonName(nfc, name)|
  {
    var v := NormalizePersonName(nfc, name);
    if v == "" then []
    else if Canonical(v).Some? then
      PartsAreShorter(nfc, name);
      [v] + ActorIdentityKeys(nfc, Western(v)) + ActorIdentityKeys(nfc, Original(v))
    else if !Japanese(v) && |Words(Space, v)| == 2 then
      [v, Words(Space, v)[1] + " " + Words(Space, v)[0]]
    else [v]
  }

  // ---- the index ----

  /** A library item: aliases are the entries of its JAVAlsoKnownAs ids. */
  datatype Person = Person(name: string, originalTitle: string, aliases: seq<string>)

  /** The name and title comparisons of the runtime. */
  datatype Runtime = Runtime(nfc: string -> string, fold: string -> string)
  {
    ghost predicate Valid() { Normalizes(nfc) }
  }

  function Identities(p: Person): seq<string> {
    [p.name] + (if Blank(p.originalTitle) then [] else [p.originalTitle]) + p.aliases
  }

  function KeysOfAll(x: Runtime, names: seq<string>): seq<string>
    requires x.Valid()
  {
    if names == [] then [] else KeysOfAll(x, names[..|names| - 1]) + ActorIdentityKeys(x.nfc, names[|names| - 1])
  }

  predicate Owns(x: Runtime, p: Person, folded: string)
    requires x.Valid()
  {
    exists i :: 0 <= i < |KeysOfAll(x, Identities(p))| && x.fold(KeysOfAll(x, Identities(p))[i]) == folded
  }

  predicate Holds(x: Runtime, p: Person, folded: string)
    requires x.Valid()
  {
    !Blank(p.name) && Owns(x, p, folded)
  }

  /** The linear scan: the first person with a name who owns a key. */
  function Scan(x: Runtime, people: seq<Person>, folded: string): Option<string>
    requires x.Valid()
  {
    if people == [] then None
    else if Holds(x, people[0], folded) then Some(people[0].name)
    else Scan(x, people[1..], folded)
  }

  function Lookup(index: map<string, string>, folded: string): Option<string> {
    if folded in index then Some(index[folded]) else None
  }

  /** What TryAdd of a list of keys does to a lookup. */
  function AfterAdd(x: Runtime, was: Option<string>, keys: seq<string>, name: string, folded: string): Option<string> {
    if was.Some? then was
    else if exists i :: 0 <= i < |keys| && x.fold(keys[i]) == folded then Some(name)
    else None
  }

  /** Every lookup in now is the lookup in was, after the keys were added. */
  ghost predicate Grown(x: Runtime, was: map<string, string>, now: map<string, string>, keys: seq<string>,
                        name: string) {
    forall k :: Lookup(now, k) == AfterAdd(x, Lookup(was, k), keys, name, k)
  }

  lemma GrownByOne(x: Runtime, was: map<string, string>, now: map<string, string>, keys: seq<string>,
                   key: string, name: string)
    requires Grown(x, was, now, keys, name)
    ensures Grown(x, was, if x.fold(key) in now then now else now[x.fold(key) := name], keys + [key], name)
  {
    var next := if x.fold(key) in now then now else now[x.fold(key) := name];
    forall k ensures Lookup(next, k) == AfterAdd(x, Lookup(was, k), keys + [key], name, k) {
      AfterAddConcat(x, Lookup(was, k), keys, [key], name, k);
      assert x.fold(key) == k ==> x.fold([key][0]) == k;
      assert Lookup(now, k) == AfterAdd(x, Lookup(was, k), keys, name, k);
    }
  }

  method AddPersonIdentity(x: Runtime, index: map<string, string>, identity: string, name: string)
    returns (r: map<string, string>)
    requires x.Valid()
    ensures Grown(x, index, r, ActorIdentityKeys(x.nfc, identity), name)
  {
    r := index;
    var keys := ActorIdentityKeys(x.nfc, identity);
    for i := 0 to |keys|
      invariant Grown(x, index, r, keys[..i], name)
    {
      GrownByOne(x, index, r, keys[..i], keys[i], name);
      assert keys[..i + 1] == keys[..i] + [keys[i]];
      if x.fold(keys[i]) !in r {
        r := r[x.fold(keys[i]) := name];
      }
    }
    assert keys[..|keys|] == keys;
  }

  lemma AfterAddConcat(x: Runtime, was: Option<string>, keys: seq<string>, more: seq<string>, name: string,
                       folded: string)
    ensures AfterAdd(x, was, keys + more, name, folded) ==
            AfterAdd(x, AfterAdd(x, was, keys, name, folded), more, name, folded)
  {
    var all := keys + more;
    if i :| 0 <= i < |keys| && x.fold(keys[i]) == folded {
      assert all[i] == keys[i];
    }
    if i :| 0 <= i < |more| && x.fold(more[i]) == folded {
      assert all[|keys| + i] == more[i];
    }
  }

  lemma GrownAgain(x: Runtime, was: map<string, string>, now: map<string, string>, next: map<string, string>,
                   keys: seq<string>, more: seq<string>, name: string)
    requires Grown(x, was, now, keys, name) && Grown(x, now, next, more, name)
    ensures Grown(x, was, next, keys + more, name)
  {
    forall k ensures Lookup(next, k) == AfterAdd(x, Lookup(was, k), keys + more, name, k) {
      AfterAddConcat(x, Lookup(was, k), keys, more, name, k);
      assert Lookup(now, k) == AfterAdd(x, Lookup(was, k), keys, name, k);
    }
  }

  method AddPerson(x: Runtime, index: map<string, string>, p: Person) returns (r: map<string, string>)
    requires x.Valid()
    ensures forall k :: Lookup(r, k) ==
                        if Lookup(index, k).None? && Owns(x, p, k) then Some(p.name) else Lookup(index, k)
  {
    r := index;
    var ids := Identities(p);
    for i := 0 to |ids|
      invariant Grown(x, index, r, KeysOfAll(x, ids[..i]), p.name)
    {
      ghost var was := r;
      r := AddPersonIdentity(x, r, ids[i], p.name);
      assert ids[..i + 1][..i] == ids[..i];
      GrownAgain(x, index, was, r, KeysOfAll(x, ids[..i]), ActorIdentityKeys(x.nfc, ids[i]), p.name);
    }
    assert ids[..|ids|] == ids;
  }

  lemma {:induction false} ScanSnoc(x: Runtime, people: seq<Person>, p: Person, folded: string)
    requires x.Valid()
    ensures Scan(x, people + [p], folded) ==
              if Scan(x, people, folded).Some? then Scan(x, people, folded)
              else if Holds(x, p, folded) then Some(p.name) else None
  {
    if people == [] {
      assert people + [p] == [p] && [p][1..] == [];
    } else {
      assert (people + [p])[1..] == people[1..] + [p];
      ScanSnoc(x, people[1..], p, folded);
    }
  }

  /** The index answers every key as the linear scan over the people does. */
  method GetPersonIndex(x: Runtime, people: seq<Person>) returns (index: map<string, string>)
    requires x.Valid()
    ensures forall k :: Lookup(index, k) == Scan(x, people, k)
  {
    index := map[];
    for i := 0 to |people|
      invariant forall k :: Lookup(index, k) == Scan(x, people[..i], k)
    {
      ghost var was := index;
      if !Blank(people[i].name) {
        index := AddPerson(x, index, people[i]);
      }
      forall k ensures Lookup(index, k) == Scan(x, people[..i + 1], k) {
        assert people[..i + 1] == people[..i] + [people[i]];
        ScanSnoc(x, people[..i], people[i], k);
        assert Lookup(was, k) == Scan(x, people[..i], k);
      }
    }
    assert people[..|people|] == people;
  }

  // ---- the lookup ----

  /** The first key that anyone owns decides. */
  function ScanKeys(x: Runtime, people: seq<Person>, keys: seq<string>): Option<string>
    requires x.Valid()
  {
    if keys == [] then None
    else if Scan(x, people, x.fold(keys[0])).Some? then Scan(x, people, x.fold(keys[0]))
    else ScanKeys(x, people, keys[1..])
  }

  /** The lookup in ResolveCanonicalActorNames. */
  method FindExisting(x: Runtime, people: seq<Person>, index: map<string, string>, name: string)
    returns (found: Option<string>)
    requires x.Valid() && forall k :: Lookup(index, k) == Scan(x, people, k)
    ensures found == ScanKeys(x, people, ActorIdentityKeys(x.nfc, name))
    ensures found.Some? ==> !Blank(found.value)
  {
    var keys := ActorIdentityKeys(x.nfc, name);
    for i := 0 to |keys|
      invariant ScanKeys(x, people, keys) == ScanKeys(x, people, keys[i..])
    {
      ghost var rest := keys[i..];
      assert rest[0] == keys[i] && rest[1..] == keys[i + 1..];
      assert Lookup(index, x.fold(keys[i])) == Scan(x, people, x.fold(keys[i]));
      if x.fold(keys[i]) in index {
        ghost var j := ScanMeaning(x, people, x.fold(keys[i]));
        if !Blank(index[x.fold(keys[i])]) {
          return Some(index[x.fold(keys[i])]);
        }
      }
    }
    return None;
  }

  /** people[j] holds the key, and no one before does. */
  ghost predicate Earliest(x: Runtime, people: seq<Person>, folded: string, j: nat)
    requires x.Valid()
  {
    j < |people| && Holds(x, people[j], folded) && forall l :: 0 <= l < j ==> !Holds(x, people[l], folded)
  }

  ghost predicate Unheld(x: Runtime, people: seq<Person>, folded: string)
    requires x.Valid()
  {
    forall l :: 0 <= l < |people| ==> !Holds(x, people[l], folded)
  }

  lemma {:induction false} ScanMeaning(x: Runtime, people: seq<Person>, folded: string) returns (j: nat)
    requires x.Valid()
    ensures var found := Scan(x, people, folded);
            if found.Some? then Earliest(x, people, folded, j) && found.value == people[j].name
            else Unheld(x, people, folded)
  {
    j := 0;
    if people != [] && !Holds(x, people[0], folded) {
      j := ScanMeaning(x, people[1..], folded);
      j := j + 1;
      assert forall l :: 0 < l < |people| ==> people[l] == people[1..][l - 1];
    }
  }

  /** For the first key that anyone holds, the lookup gives the earliest holder's name. */
  lemma {:induction false} ScanKeysMeaning(x: Runtime, people: seq<Person>, keys: seq<string>) returns (i: nat, j: nat)
    requires x.Valid()
    ensures var found := ScanKeys(x, people, keys);
            if found.Some?
            then && i < |keys| && Earliest(x, people, x.fold(keys[i]), j) && found.value == people[j].name
                 && forall k :: 0 <= k < i ==> Unheld(x, people, x.fold(keys[k]))
            else forall k :: 0 <= k < |keys| ==> Unheld(x, people, x.fold(keys[k]))
  {
    i, j := 0, 0;
    if keys != [] {
      j := ScanMeaning(x, people, x.fold(keys[0]));
      if Scan(x, people, x.fold(keys[0])).None? {
        i, j := ScanKeysMeaning(x, people, keys[1..]);
        i := i + 1;
        assert forall k :: 0 < k < |keys| ==> keys[k] == keys[1..][k - 1];
      }
    }
  }

  // ---- the keys of a name ----

  /** After Unicode normalisation the name consists of the words a and b. */
  predicate TwoWords(nfc: string -> string, name: string, a: string, b: string) {
    Words(White, nfc(name)) == [a, b]
  }

  lemma NormalTwoWords(nfc: string -> string, name: string, a: string, b: string)
    requires TwoWords(nfc, name, a, b)
    ensures Word(White, a) && Word(White, b) && NormalizePersonName(nfc, name) == a + " " + b
  {
    var ws := [a, b];
    JoinShrinks(White, nfc(name));
    assert Word(White, ws[0]) && Word(White, ws[1]);
    assert ws[1..] == [b];
  }

  /** Only the words of a name matter to its keys. */
  lemma KeysForgetSpacing(nfc: string -> string, name: string, respaced: string)
    requires Normalizes(nfc) && Words(White, nfc(name)) == Words(White, nfc(respaced))
    ensures ActorIdentityKeys(nfc, name) == ActorIdentityKeys(nfc, respaced)
  {
  }

  /** No kana and no Chinese character. */
  predicate Latin(w: string) {
    forall i :: 0 <= i < |w| ==> !('\U{3040}' <= w[i] <= '\U{30ff}') && !('\U{3400}' <= w[i] <= '\U{9fff}')
  }

  lemma LatinPair(a: string, b: string)
    ensures Japanese(a + " " + b) <==> !Latin(a) || !Latin(b)
  {
    var s := a + " " + b;
    assert forall i :: 0 <= i < |a| ==> a[i] == s[i];
    assert forall i :: 0 <= i < |b| ==> b[i] == s[|a| + 1 + i];
    assert s[|a|] == ' ';
  }

  /** The keys of a name that is not canonical: none without words; the name itself, with
      single blanks; and its reversal when it has two words and nothing Japanese. */
  lemma PlainKeys(nfc: string -> string, name: string)
    requires Normalizes(nfc) && Canonical(Join(Words(White, nfc(name)))).None?
    ensures var ws := Words(White, nfc(name));
            ActorIdentityKeys(nfc, name) ==
            if ws == [] then [] else if |ws| == 2 && Latin(ws[0]) && Latin(ws[1]) then [Join(ws), ws[1] + " " + ws[0]]
            else [Join(ws)]
  {
    var ws := Words(White, nfc(name));
    JoinShrinks(White, nfc(name));
    JoinedWords(ws);
    KeysOfPlain(nfc, name, Join(ws));
  }

  lemma KeysOfPlain(nfc: string -> string, name: string, v: string)
    requires Normalizes(nfc) && NormalizePersonName(nfc, name) == v && Canonical(v).None?
    ensures ActorIdentityKeys(nfc, name) ==
            if v == "" then []
            else if !Japanese(v) && |Words(Space, v)| == 2 then [v, Words(Space, v)[1] + " " + Words(Space, v)[0]]
            else [v]
  {
  }

  lemma {:induction false} JoinedWords(ws: seq<string>)
    requires forall i :: 0 <= i < |ws| ==> Word(White, ws[i])
    ensures Words(Space, Join(ws)) == ws && (Join(ws) == "" <==> ws == [])
    ensures |ws| == 2 ==> (Japanese(Join(ws)) <==> !Latin(ws[0]) || !Latin(ws[1]))
  {
    forall i | 0 <= i < |ws| ensures Word(Space, ws[i]) {
      assert Word(White, ws[i]);
    }
    SplitJoin(Space, ws);
    if ws != [] {
      assert Word(White, ws[0]) && Join(ws)[0] == ws[0][0];
    }
    if |ws| == 2 {
      assert ws[1..] == [ws[1]] && Join(ws) == ws[0] + " " + ws[1];
      LatinPair(ws[0], ws[1]);
    }
  }

  // ---- canonical names ----

  /** "JAP" in any case, a year of four digits or a question mark, each with an ideographic
      comma behind it. */
  predicate IsTag(tag: string) {
    && |tag| >= 6 && tag[0] in "Jj" && tag[1] in "Aa" && tag[2] in "Pp"
    && tag[3] == '\U{3001}' && tag[|tag| - 1] == '\U{3001}'
    && ((|tag| == 6 && tag[4] == '?') || (|tag| == 9 && forall i :: 4 <= i < 8 ==> '0' <= tag[i] <= '9'))
  }

  /** v is a western name, blanks, and in parentheses a tag and an original name. */
  predicate HasParts(v: string, west: string, gap: string, tag: string, orig: string) {
    && v == west + gap + "(" + tag + orig + ")"
    && (west != "" ==> !White(west[|west| - 1])) && Gap(White, gap)
    && IsTag(tag) && orig != "" && '(' !in orig && ')' !in orig
  }

  lemma {:induction false} TrimGap(west: string, gap: string)
    requires Gap(White, gap) && (west != "" ==> !White(west[|west| - 1]))
    ensures TrimmedEnd(west + gap) == |west|
  {
    if gap == "" {
      assert west + gap == west;
    } else {
      var s := west + gap;
      assert s[..|s| - 1] == west + gap[..|gap| - 1] && s[|s| - 1] == gap[|gap| - 1];
      TrimGap(west, gap[..|gap| - 1]);
    }
  }

  lemma {:induction false} TrimmedGap(s: string)
    ensures var n := TrimmedEnd(s); Gap(White, s[n..]) && (n > 0 ==> !White(s[n - 1]))
  {
    if s != "" && White(s[|s| - 1]) {
      TrimmedGap(s[..|s| - 1]);
      var n := TrimmedEnd(s[..|s| - 1]);
      assert s[n..] == s[..|s| - 1][n..] + [s[|s| - 1]];
    }
  }

  lemma {:induction false} NoneAfterLastOpen(v: string)
    ensures '(' !in v[LastOpen(v) + 1..]
  {
    if v != "" && v[|v| - 1] != '(' {
      NoneAfterLastOpen(v[..|v| - 1]);
      var i := LastOpen(v);
      assert v[i + 1..] == v[..|v| - 1][i + 1..] + [v[|v| - 1]];
    }
  }

  lemma TagIsRead(tag: string, orig: string)
    requires IsTag(tag)
    ensures AfterTag(tag + orig) == |tag| && '(' !in tag && ')' !in tag
  {
    var s := tag + orig;
    assert forall i :: 0 <= i < |tag| ==> s[i] == tag[i];
  }

  /** A name made of those parts is canonical, and the parts are the ones found. */
  lemma CanonicalParts(v: string, west: string, gap: string, tag: string, orig: string)
    requires HasParts(v, west, gap, tag, orig)
    ensures Canonical(v).Some? && Western(v) == west && Original(v) == orig
  {
    var front, inner := west + gap, tag + orig;
    TagIsRead(tag, orig);
    TrimGap(west, gap);
    assert v == front + "(" + inner + ")";
    OpenAt(v, front, inner);
    assert v[0..|west|] == west && v[|front| + 1 + |tag|..|v| - 1] == orig;
  }

  lemma OpenAt(v: string, front: string, inner: string)
    requires v == front + "(" + inner + ")" && '(' !in inner
    ensures LastOpen(v) == |front| && v[..|front|] == front && v[|front| + 1..|v| - 1] == inner
  {
    var i := |front|;
    assert forall j :: i < j < |v| - 1 ==> v[j] == inner[j - i - 1];
    LastOpenAt(v, i);
  }

  lemma TagAtFront(inner: string)
    requires AfterTag(inner) > 0
    ensures IsTag(inner[..AfterTag(inner)])
  {
  }

  /** Every canonical name is made of such parts. */
  lemma PartsOfCanonical(v: string) returns (gap: string, tag: string)
    requires Canonical(v).Some?
    ensures HasParts(v, Western(v), gap, tag, Original(v))
  {
    var i := LastOpen(v);
    var front, inner := v[..i], v[i + 1..|v| - 1];
    var w, n := TrimmedEnd(front), AfterTag(inner);
    gap, tag := front[w..], inner[..n];
    TrimmedGap(front);
    TagAtFront(inner);
    NoOpenInside(v, i, inner);
    CutInParts(v, i, front, w, inner, n);
    PartsFound(v, i, front, w, inner, n);
  }

  lemma PartsFound(v: string, i: nat, front: string, w: nat, inner: string, n: nat)
    requires Canonical(v) == Some(Groups(w, i + 1 + n))
    requires i < |v| - 1 && front == v[..i] && inner == v[i + 1..|v| - 1] && w <= i && n < |inner|
    ensures Western(v) == front[..w] && Original(v) == inner[n..]
  {
  }

  lemma CutInParts(v: string, i: nat, front: string, w: nat, inner: string, n: nat)
    requires i < |v| - 1 && v[i] == '(' && v[|v| - 1] == ')' && front == v[..i] && inner == v[i + 1..|v| - 1]
    requires w <= |front| && Gap(White, front[w..]) && (w > 0 ==> !White(front[w - 1]))
    requires n < |inner| && IsTag(inner[..n]) && '(' !in inner && ')' !in inner
    ensures HasParts(v, front[..w], front[w..], inner[..n], inner[n..])
  {
    Reassemble(v, i, front, w, inner, n);
    assert w > 0 ==> front[..w][w - 1] == front[w - 1];
    assert forall c :: c in inner[n..] ==> c in inner;
  }

  lemma NoOpenInside(v: string, i: nat, inner: string)
    requires i == LastOpen(v) < |v| - 1 && inner == v[i + 1..|v| - 1]
    ensures '(' !in inner
  {
    NoneAfterLastOpen(v);
    assert forall j :: 0 <= j < |inner| ==> inner[j] == v[i + 1..][j];
  }

  lemma Reassemble(v: string, i: nat, front: string, w: nat, inner: string, n: nat)
    requires i < |v| - 1 && v[i] == '(' && v[|v| - 1] == ')' && front == v[..i] && inner == v[i + 1..|v| - 1]
    requires w <= |front| && n <= |inner|
    ensures v == front[..w] + front[w..] + "(" + inner[..n] + inner[n..] + ")"
  {
    assert front[..w] + front[w..] == front;
    var whole := front + "(" + inner[..n] + inner[n..] + ")";
    assert |whole| == |v|;
    forall k | 0 <= k < |v| ensures v[k] == whole[k] {
    }
  }

  /** The keys of a canonical name: itself, those of the western part, those of the
      original part. */
  lemma CanonicalKeys(nfc: string -> string, name: string, west: string, gap: string, tag: string, orig: string)
    requires Normalizes(nfc) && HasParts(Join(Words(White, nfc(name))), west, gap, tag, orig)
    ensures ActorIdentityKeys(nfc, name) ==
            [Join(Words(White, nfc(name)))] + ActorIdentityKeys(nfc, west) + ActorIdentityKeys(nfc, orig)
  {
    CanonicalParts(Join(Words(White, nfc(name))), west, gap, tag, orig);
  }

  // ---- who holds a key ----

  ghost predicate HasKey(x: Runtime, name: string, folded: string)
    requires x.Valid()
  {
    exists k :: k in ActorIdentityKeys(x.nfc, name) && x.fold(k) == folded
  }

  /** k is a key of one of the names. */
  ghost predicate KeyAmong(x: Runtime, names: seq<string>, k: string)
    requires x.Valid()
  {
    exists n :: n in names && k in ActorIdentityKeys(x.nfc, n)
  }

  lemma KeyAmongSnoc(x: Runtime, names: seq<string>, last: string, k: string)
    requires x.Valid()
    ensures KeyAmong(x, names + [last], k) <==> KeyAmong(x, names, k) || k in ActorIdentityKeys(x.nfc, last)
  {
    if KeyAmong(x, names, k) {
      var n :| n in names && k in ActorIdentityKeys(x.nfc, n);
      assert n in names + [last];
    }
    assert last in names + [last];
  }

  lemma {:induction false} KeyOfSome(x: Runtime, names: seq<string>, k: string)
    requires x.Valid()
    ensures k in KeysOfAll(x, names) <==> KeyAmong(x, names, k)
  {
    if names != [] {
      var front, last := names[..|names| - 1], names[|names| - 1];
      KeyOfSome(x, front, k);
      KeyAmongSnoc(x, front, last, k);
      assert names == front + [last];
      assert KeysOfAll(x, names) == KeysOfAll(x, front) + ActorIdentityKeys(x.nfc, last);
    }
  }

  lemma OwnsMeaning(x: Runtime, p: Person, folded: string)
    requires x.Valid()
    ensures Owns(x, p, folded) <==> exists n :: n in Identities(p) && HasKey(x, n, folded)
  {
    var all := KeysOfAll(x, Identities(p));
    if i :| 0 <= i < |all| && x.fold(all[i]) == folded {
      KeyOfSome(x, Identities(p), all[i]);
      var n :| n in Identities(p) && all[i] in ActorIdentityKeys(x.nfc, n);
      assert HasKey(x, n, folded);
    }
    if n :| n in Identities(p) && HasKey(x, n, folded) {
      var k :| k in ActorIdentityKeys(x.nfc, n) && x.fold(k) == folded;
      KeyOfSome(x, Identities(p), k);
      assert k in all;
    }
  }

  lemma IdentityOf(p: Person, n: string)
    ensures n in Identities(p) <==>
            n == p.name || (Words(White, p.originalTitle) != [] && n == p.originalTitle) || n in p.aliases
  {
    BlankMeaning(p.originalTitle);
  }

  /** A person who has a name holds the keys of the name, of the original title unless it
      is blank, and of every alias. */
  lemma HoldsMeaning(x: Runtime, p: Person, folded: string)
    requires x.Valid()
    ensures Holds(x, p, folded) <==>
            Words(White, p.name) != []
            && exists n :: HasKey(x, n, folded)
                 && (n == p.name || (Words(White, p.originalTitle) != [] && n == p.originalTitle) || n in p.aliases)
  {
    BlankMeaning(p.name);
    OwnsMeaning(x, p, folded);
    forall n ensures n in Identities(p) <==>
        n == p.name || (Words(White, p.originalTitle) != [] && n == p.originalTitle) || n in p.aliases
    {
      IdentityOf(p, n);
    }
  }

  /** The keys of a two-word Latin name are the name and its reversal. */
  lemma TwoWordKeys(nfc: string -> string, name: string, a: string, b: string)
    requires Normalizes(nfc) && TwoWords(nfc, name, a, b) && Latin(a) && Latin(b)
    requires Canonical(a + " " + b).None?
    ensures ActorIdentityKeys(nfc, name) == [a + " " + b, b + " " + a]
  {
    NormalTwoWords(nfc, name, a, b);
    PlainKeys(nfc, name);
  }

  predicate Found(x: Runtime, people: seq<Person>, name: string)
    requires x.Valid()
  {
    ScanKeys(x, people, ActorIdentityKeys(x.nfc, name)).Some?
  }

  /** A two-word Latin name and its reversal are found or missed together. */
  lemma ReversalFindsAlike(x: Runtime, people: seq<Person>, name: string, reversed: string, a: string, b: string)
    requires x.Valid() && TwoWords(x.nfc, name, a, b) && TwoWords(x.nfc, reversed, b, a)
    requires Latin(a) && Latin(b)
    requires Canonical(a + " " + b).None? && Canonical(b + " " + a).None?
    ensures Found(x, people, name) <==> Found(x, people, reversed)
  {
    TwoWordKeys(x.nfc, name, a, b);
    TwoWordKeys(x.nfc, reversed, b, a);
    ScanTwo(x, people, a + " " + b, b + " " + a);
    ScanTwo(x, people, b + " " + a, a + " " + b);
  }

  lemma ScanTwo(x: Runtime, people: seq<Person>, k: string, l: string)
    requires x.Valid()
    ensures ScanKeys(x, people, [k, l]).Some? <==>
            Scan(x, people, x.fold(k)).Some? || Scan(x, people, x.fold(l)).Some?
  {
    assert [k, l][1..] == [l] && [l][1..] == [];
    assert ScanKeys(x, people, [l]).Some? <==> Scan(x, people, x.fold(l)).Some?;
  }

  // ---- reversals of canonical names ----

  /** Either part of a canonical name is found. */
  predicate PartFound(x: Runtime, people: seq<Person>, v: string)
    requires x.Valid()
  {
    Canonical(v).Some? && (Found(x, people, Western(v)) || Found(x, people, Original(v)))
  }

  lemma {:induction false} ScanEither(x: Runtime, people: seq<Person>, k: seq<string>, l: seq<string>)
    requires x.Valid()
    ensures ScanKeys(x, people, k + l).Some? <==> ScanKeys(x, people, k).Some? || ScanKeys(x, people, l).Some?
  {
    if k == [] {
      assert k + l == l;
    } else {
      assert (k + l)[1..] == k[1..] + l;
      ScanEither(x, people, k[1..], l);
    }
  }

  /** A canonical name is found when someone holds it as it stands or a part of it. */
  lemma CanonicalFound(x: Runtime, people: seq<Person>, name: string)
    requires x.Valid() && Canonical(NormalizePersonName(x.nfc, name)).Some?
    ensures var v := NormalizePersonName(x.nfc, name);
            Found(x, people, name) <==> Scan(x, people, x.fold(v)).Some? || PartFound(x, people, v)
  {
    var v := NormalizePersonName(x.nfc, name);
    var west, orig := ActorIdentityKeys(x.nfc, Western(v)), ActorIdentityKeys(x.nfc, Original(v));
    ScanEither(x, people, [v] + west, orig);
    ScanEither(x, people, [v], west);
    assert [v][1..] == [];
  }

  /** When the name is canonical and its reversal is not, the two are found alike if and
      only if someone holds the name as it stands, or the reversal is held exactly when
      a part is found. */
  lemma CanonicalReversalFindsAlike(x: Runtime, people: seq<Person>, name: string, reversed: string,
                                    a: string, b: string)
    requires x.Valid() && TwoWords(x.nfc, name, a, b) && TwoWords(x.nfc, reversed, b, a)
    requires Latin(a) && Latin(b)
    requires Canonical(a + " " + b).Some? && Canonical(b + " " + a).None?
    ensures (Found(x, people, name) <==> Found(x, people, reversed)) <==>
            Scan(x, people, x.fold(a + " " + b)).Some?
            || (Scan(x, people, x.fold(b + " " + a)).Some? <==> PartFound(x, people, a + " " + b))
  {
    NormalTwoWords(x.nfc, name, a, b);
    CanonicalFound(x, people, name);
    TwoWordKeys(x.nfc, reversed, b, a);
    ScanTwo(x, people, b + " " + a, a + " " + b);
  }

  lemma PlainKeysShrink(nfc: string -> string, name: string, k: string)
    requires Normalizes(nfc) && Canonical(NormalizePersonName(nfc, name)).None? && k in ActorIdentityKeys(nfc, name)
    ensures |k| <= |NormalizePersonName(nfc, name)|
  {
    var v := NormalizePersonName(nfc, name);
    if k != v {
      var ws := Words(Space, v);
      JoinShrinks(Space, v);
      assert ws[1..] == [ws[1]] && Join(ws) == ws[0] + " " + ws[1];
    }
  }

  /** No key of a name is longer than the normalised name. */
  lemma {:induction false} KeysShrink(nfc: string -> string, name: string, k: string)
    requires Normalizes(nfc) && k in ActorIdentityKeys(nfc, name)
    ensures |k| <= |NormalizePersonName(nfc, name)|
    decreases |NormalizePersonName(nfc, name)|
  {
    var v := NormalizePersonName(nfc, name);
    if Canonical(v).None? {
      PlainKeysShrink(nfc, name, k);
    } else {
      PartsAreShorter(nfc, name);
      if k in ActorIdentityKeys(nfc, Western(v)) {
        KeysShrink(nfc, Western(v), k);
      } else if k in ActorIdentityKeys(nfc, Original(v)) {
        KeysShrink(nfc, Original(v), k);
      }
    }
  }

  /** The part is a name: more than blanks. */
  predicate Named(x: Runtime, part: string) {
    !Blank(part) && NormalizePersonName(x.nfc, part) != ""
  }

  /** A canonical name has a part that is a name. */
  predicate PartNamed(x: Runtime, v: string) {
    Canonical(v).Some? ==> Named(x, Western(v)) || Named(x, Original(v))
  }

  /** The keys of a person known under one name only. */
  lemma OneName(x: Runtime, name: string)
    requires x.Valid()
    ensures KeysOfAll(x, Identities(Person(name, "", []))) == ActorIdentityKeys(x.nfc, name)
  {
    assert Identities(Person(name, "", [])) == [name];
    assert [name][..0] == [] && [name][|[name]| - 1] == name;
    assert KeysOfAll(x, [name]) == KeysOfAll(x, [name][..0]) + ActorIdentityKeys(x.nfc, name);
  }

  /** In a library with one person, known under one name, exactly the keys of that name
      are held; with a fold that keeps lengths no longer one is. */
  lemma OnePerson(x: Runtime, name: string, k: string)
    requires x.Valid() && !Blank(name)
    ensures k in ActorIdentityKeys(x.nfc, name) ==> Scan(x, [Person(name, "", [])], x.fold(k)).Some?
    ensures |k| > |NormalizePersonName(x.nfc, name)| && (forall s :: |x.fold(s)| == |s|) ==>
              Scan(x, [Person(name, "", [])], x.fold(k)).None?
  {
    var p := Person(name, "", []);
    var keys := ActorIdentityKeys(x.nfc, name);
    OneName(x, name);
    assert [p][1..] == [];
    if k in keys {
      var i :| 0 <= i < |keys| && keys[i] == k;
      assert Owns(x, p, x.fold(k));
    }
    if |k| > |NormalizePersonName(x.nfc, name)| && forall s :: |x.fold(s)| == |s| {
      forall i | 0 <= i < |keys| ensures x.fold(keys[i]) != x.fold(k) {
        KeysShrink(x.nfc, name, keys[i]);
        assert |x.fold(keys[i])| == |keys[i]| && |x.fold(k)| == |k|;
      }
      assert !Owns(x, p, x.fold(k));
    }
  }

  lemma FirstKey(x: Runtime, people: seq<Person>, name: string)
    requires x.Valid() && NormalizePersonName(x.nfc, name) != ""
    ensures NormalizePersonName(x.nfc, name) in ActorIdentityKeys(x.nfc, name)
    ensures Scan(x, people, x.fold(NormalizePersonName(x.nfc, name))).Some? ==> Found(x, people, name)
  {
    assert ActorIdentityKeys(x.nfc, name)[0] == NormalizePersonName(x.nfc, name);
  }

  /** One person who bears a part of a canonical name makes it found. */
  lemma PartMakesFound(x: Runtime, name: string, part: string)
    requires x.Valid() && Canonical(NormalizePersonName(x.nfc, name)).Some? && Named(x, part)
    requires part == Western(NormalizePersonName(x.nfc, name)) || part == Original(NormalizePersonName(x.nfc, name))
    ensures Found(x, [Person(part, "", [])], name)
  {
    var people := [Person(part, "", [])];
    FirstKey(x, people, part);
    OnePerson(x, part, NormalizePersonName(x.nfc, part));
    CanonicalFound(x, people, name);
  }

  /** One person with a shorter name makes no plain two-word name found. */
  lemma LongNameMissed(x: Runtime, short: string, name: string, a: string, b: string)
    requires x.Valid() && TwoWords(x.nfc, name, a, b) && Latin(a) && Latin(b) && Canonical(a + " " + b).None?
    requires !Blank(short) && |NormalizePersonName(x.nfc, short)| < |a| + 1 + |b|
    requires forall s :: |x.fold(s)| == |s|
    ensures !Found(x, [Person(short, "", [])], name)
  {
    TwoWordKeys(x.nfc, name, a, b);
    OnePerson(x, short, a + " " + b);
    OnePerson(x, short, b + " " + a);
    ScanTwo(x, [Person(short, "", [])], a + " " + b, b + " " + a);
  }

  /** A library with one person, who bears one part: the canonical name is found and its
      reversal is missed. */
  lemma PartOnly(x: Runtime, name: string, reversed: string, a: string, b: string) returns (people: seq<Person>)
    requires x.Valid() && TwoWords(x.nfc, name, a, b) && TwoWords(x.nfc, reversed, b, a)
    requires Latin(a) && Latin(b)
    requires Canonical(a + " " + b).Some? && Canonical(b + " " + a).None?
    requires PartNamed(x, a + " " + b) && forall s :: |x.fold(s)| == |s|
    ensures Found(x, people, name) && !Found(x, people, reversed)
  {
    var part := if Named(x, Western(a + " " + b)) then Western(a + " " + b) else Original(a + " " + b);
    people := [Person(part, "", [])];
    NormalTwoWords(x.nfc, name, a, b);
    PartMakesFound(x, name, part);
    PartsAreShorter(x.nfc, name);
    LongNameMissed(x, part, reversed, b, a);
  }

  /** For every library alike: exactly when the name is not of the canonical form. */
  lemma ReversalFindsAlikeExactly(x: Runtime, name: string, reversed: string, a: string, b: string)
    requires x.Valid() && TwoWords(x.nfc, name, a, b) && TwoWords(x.nfc, reversed, b, a)
    requires Latin(a) && Latin(b) && Canonical(b + " " + a).None?
    requires PartNamed(x, a + " " + b) && forall s :: |x.fold(s)| == |s|
    ensures (forall people :: Found(x, people, name) <==> Found(x, people, reversed)) <==>
            Canonical(a + " " + b).None?
  {
    if Canonical(a + " " + b).None? {
      forall people ensures Found(x, people, name) <==> Found(x, people, reversed) {
        ReversalFindsAlike(x, people, name, reversed, a, b);
      }
    } else {
      var people := PartOnly(x, name, reversed, a, b);
    }
  }

  // ---- at one name ----

  lemma {:induction false} LastOpenAt(v: string, i: nat)
    requires i < |v| && v[i] == '(' && forall j :: i < j < |v| ==> v[j] != '('
    ensures LastOpen(v) == i
  {
    if i < |v| - 1 {
      LastOpenAt(v[..|v| - 1], i);
    }
  }

  const FOO := "Foo"
  const BAR := "Bar"
  const TAG := "JAP\U{3001}1990\U{3001}"
  const TAGGED := "(JAP\U{3001}1990\U{3001}Bar)"

  lemma FooIsCanonical()
    ensures Canonical(FOO + " " + TAGGED).Some? && Original(FOO + " " + TAGGED) == BAR
    ensures Canonical(TAGGED + " " + FOO).None?
  {
    FooParts();
    CanonicalParts(FOO + " " + TAGGED, FOO, " ", TAG, BAR);
    var r := TAGGED + " " + FOO;
    assert r[|r| - 1] == 'o';
  }

  lemma FooParts()
    ensures HasParts(FOO + " " + TAGGED, FOO, " ", TAG, BAR)
  {
    assert TAGGED == "(" + TAG + BAR + ")";
    assert FOO + " " + TAGGED == FOO + " " + "(" + TAG + BAR + ")";
  }

  lemma WordsOfPair(a: string, b: string)
    requires Word(White, a) && Word(White, b)
    ensures Words(White, a + " " + b) == [a, b] && Words(White, a) == [a]
  {
    assert [a, b][1..] == [b] && Join([a, b]) == a + " " + b;
    SplitJoin(White, [a, b]);
    SplitJoin(White, [a]);
  }

  function Same(s: string): string { s }

  /** Text operations that change nothing. */
  function Plain(): Runtime { Runtime(Same, Same) }

  /** A squeezed canonical name in a library that knows its original part only. */
  lemma FoundOneWay(a: string, b: string, orig: string)
    requires Word(White, a) && Word(White, b) && Word(White, orig) && Latin(a) && Latin(b)
    requires Canonical(a + " " + b).Some? && Original(a + " " + b) == orig && Canonical(b + " " + a).None?
    requires |orig| < |a| + 1 + |b|
    ensures Plain().Valid() && Found(Plain(), [Person(orig, "", [])], a + " " + b)
            && !Found(Plain(), [Person(orig, "", [])], b + " " + a)
  {
    WordsOfPair(a, b);
    WordsOfPair(b, a);
    WordsOfPair(orig, a);
    NormalTwoWords(Same, a + " " + b, a, b);
    assert !White(orig[0]);
    PartMakesFound(Plain(), a + " " + b, orig);
    LongNameMissed(Plain(), orig, b + " " + a, b, a);
  }

  /** With text operations that change nothing and one person called Bar in the library,
      the name "Foo (JAP, 1990, Bar)" with its ideographic commas is found, and its
      reversal is missed. */
  lemma FooBar()
    ensures var people := [Person(BAR, "", [])];
            && Plain().Valid() && Found(Plain(), people, FOO + " " + TAGGED)
            && !Found(Plain(), people, TAGGED + " " + FOO)
  {
    FooIsCanonical();
    FooWords();
    FoundOneWay(FOO, TAGGED, BAR);
  }

  lemma FooWords()
    ensures Word(White, FOO) && Word(White, TAGGED) && Word(White, BAR) && |BAR| < |FOO| + 1 + |TAGGED|
    ensures Latin(FOO) && Latin(TAGGED)
  {
  }
}
