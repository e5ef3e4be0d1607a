/** merge and clean_aliases of actor-resolver/resolver.py without an override: the
    records several providers hold of one actor become one record. */
module ActorMerge {
  import opened Options
  import opened SourceOrder

  /** Text operations of the runtime: case folding, dropping "Also known as:" and outer
      blanks, the part of a name before " (", choosing the canonical name from the
      records and aliases, and printing a number. */
  datatype Texts = Texts(fold: string -> string, trim: string -> string, primary: string -> string,
                         naming: (string, seq<Detail>, seq<string>) -> string, digits: int -> string)

  datatype Merged = Merged(id: string, name: string, homepage: string,
                           aliases: seq<string>, images: seq<string>, tags: seq<string>,
                           birthday: string, fields: map<Field, Value>, provenance: map<Field, string>,
                           conflicts: map<Field, map<string, seq<string>>>,
                           externalIds: map<string, string>, urls: map<string, string>, sources: seq<string>)

  const FIELDS := [DebutDate, DebutTitle, AppearancePeriod, BloodType, CupSize, Measurements,
                   Nationality, Height, Hobby, Skill, Summary, Sign]
  const CONFLICT_FIELDS := [Birthday, BloodType, CupSize, Measurements, Height]
  const STABLE := ["AV-LEAGUE", "Gfriends", "XsList", "Minnano-AV"]
  const DEBUT_SOURCES := ["Minnano-AV"]

  // ---- lists without duplicates ----

  function Same(s: string): string { s }

  predicate Known(key: string -> string, s: seq<string>, x: string) {
    exists i :: 0 <= i < |s| && key(s[i]) == key(x)
  }

  /** The non-empty values, the first of every key. */
  function Distinct(key: string -> string, s: seq<string>): seq<string> {
    if s == [] then []
    else
      var front, last := Distinct(key, s[..|s| - 1]), s[|s| - 1];
      if last != "" && !Known(key, front, last) then front + [last] else front
  }

  /** s[i] is the first non-empty value of s with its key. */
  ghost predicate Fresh(key: string -> string, s: seq<string>, i: nat) {
    i < |s| && s[i] != "" && forall j :: 0 <= j < i && s[j] != "" ==> key(s[j]) != key(s[i])
  }

  /** d[k] stands at position at[k] of s, and the positions ascend. */
  ghost predicate Picked(s: seq<string>, d: seq<string>, at: seq<nat>) {
    && |at| == |d| && (forall k :: 0 <= k < |at| ==> at[k] < |s| && s[at[k]] == d[k])
    && (forall k, l :: 0 <= k < l < |at| ==> at[k] < at[l])
  }

  /** The values kept are the first of their key, in order, and all of those. */
  lemma {:induction false} DistinctMeaning(key: string -> string, s: seq<string>) returns (at: seq<nat>)
    ensures Picked(s, Distinct(key, s), at)
    ensures forall i: nat :: i in at <==> Fresh(key, s, i)
    ensures forall i :: 0 <= i < |s| && s[i] != "" ==> Known(key, Distinct(key, s), s[i])
  {
    if s == [] {
      at := [];
    } else {
      var front, last, n := s[..|s| - 1], s[|s| - 1], |s| - 1;
      at := DistinctMeaning(key, front);
      var d := Distinct(key, front);
      FreshBefore(key, s);
      if last == "" {
      } else if Known(key, d, last) {
        KnownIsNotFresh(key, s, d, at);
      } else {
        UnknownIsFresh(key, s, d);
        KnownSnoc(key, d, last);
        at := at + [n];
      }
    }
  }

  lemma FreshBefore(key: string -> string, s: seq<string>)
    requires s != []
    ensures forall i: nat :: i < |s| - 1 ==> (Fresh(key, s, i) <==> Fresh(key, s[..|s| - 1], i))
  {
  }

  lemma KnownIsNotFresh(key: string -> string, s: seq<string>, d: seq<string>, at: seq<nat>)
    requires s != [] && Picked(s[..|s| - 1], d, at) && Known(key, d, s[|s| - 1])
    requires forall i: nat :: i in at <==> Fresh(key, s[..|s| - 1], i)
    ensures !Fresh(key, s, |s| - 1)
  {
    var k :| 0 <= k < |d| && key(d[k]) == key(s[|s| - 1]);
    assert at[k] in at;
  }

  lemma UnknownIsFresh(key: string -> string, s: seq<string>, d: seq<string>)
    requires s != [] && s[|s| - 1] != "" && !Known(key, d, s[|s| - 1])
    requires forall i :: 0 <= i < |s| - 1 && s[i] != "" ==> Known(key, d, s[i])
    ensures Fresh(key, s, |s| - 1)
  {
    forall j | 0 <= j < |s| - 1 && s[j] != "" ensures key(s[j]) != key(s[|s| - 1]) {
      var i :| 0 <= i < |d| && key(d[i]) == key(s[j]);
    }
  }

  lemma KnownSnoc(key: string -> string, d: seq<string>, x: string)
    ensures Known(key, d + [x], x)
    ensures forall y :: Known(key, d, y) ==> Known(key, d + [x], y)
  {
    assert (d + [x])[|d|] == x;
    forall y | Known(key, d, y) ensures Known(key, d + [x], y) {
      var i :| 0 <= i < |d| && key(d[i]) == key(y);
      assert (d + [x])[i] == d[i];
    }
  }

  /** No value is empty, and no two have one key. */
  ghost predicate Apart(key: string -> string, d: seq<string>) {
    && (forall i :: 0 <= i < |d| ==> d[i] != "")
    && (forall i, j :: 0 <= i < j < |d| ==> key(d[i]) != key(d[j]))
  }

  lemma {:induction false} DistinctApart(key: string -> string, s: seq<string>)
    ensures Apart(key, Distinct(key, s))
  {
    if s != [] {
      DistinctApart(key, s[..|s| - 1]);
    }
  }

  /** The loop that appends the values not yet in a list. */
  method AppendNew(key: string -> string, ghost before: seq<string>, list: seq<string>, values: seq<string>)
    returns (r: seq<string>)
    requires list == Distinct(key, before)
    ensures r == Distinct(key, before + values)
  {
    r := list;
    assert before + values[..0] == before;
    for i := 0 to |values|
      invariant r == Distinct(key, before + values[..i])
    {
      assert before + values[..i + 1] == before + values[..i] + [values[i]];
      assert (before + values[..i + 1])[..|before| + i] == before + values[..i];
      if values[i] != "" && !Known(key, r, values[i]) {
        r := r + [values[i]];
      }
    }
    assert before + values[..|values|] == before + values;
  }

  // ---- aliases ----

  predicate HasLatin(s: string) {
    exists i :: 0 <= i < |s| && ('A' <= s[i] <= 'Z' || 'a' <= s[i] <= 'z')
  }

  /** Every Latin alias becomes the Latin part of the canonical name. */
  function Clean(x: Texts, canonical: string, value: string): string {
    var v := x.trim(value);
    if v != "" && HasLatin(v) then x.primary(canonical) else v
  }

  function CleanAll(x: Texts, canonical: string, values: seq<string>): (r: seq<string>)
    ensures |r| == |values|
  {
    seq(|values|, i requires 0 <= i < |values| => Clean(x, canonical, values[i]))
  }

  method CleanAliases(x: Texts, values: seq<string>, canonical: string) returns (cleaned: seq<string>)
    ensures cleaned == Distinct(x.fold, CleanAll(x, canonical, values))
  {
    cleaned := [];
    ghost var all := CleanAll(x, canonical, values);
    for i := 0 to |values|
      invariant cleaned == Distinct(x.fold, all[..i])
    {
      var value := x.trim(values[i]);
      assert all[..i + 1][..i] == all[..i];
      assert all[i] == Clean(x, canonical, values[i]);
      if value != "" {
        if HasLatin(value) {
          value := x.primary(canonical);
        }
        if value != "" && !Known(x.fold, cleaned, value) {
          cleaned := cleaned + [value];
        }
      }
    }
    assert all[..|values|] == all;
  }

  // ---- what the records say ----

  /** What the records list, one after the other. */
  function Listed(list: Detail -> seq<string>, d: seq<Detail>): seq<string> {
    if d == [] then [] else Listed(list, d[..|d| - 1]) + list(d[|d| - 1])
  }

  function NamesOf(d: Detail): seq<string> { [d.name] + d.aliases }

  function ImagesOf(d: Detail): seq<string> { d.images }

  function TagsOf(d: Detail): seq<string> { d.tags }

  function Names(d: seq<Detail>): seq<string> { Listed(NamesOf, d) }

  function Images(d: seq<Detail>): seq<string> { Listed(ImagesOf, d) }

  function Tags(d: seq<Detail>): seq<string> { Listed(TagsOf, d) }

  /** Where item p of record i stands in the list. */
  function Place(list: Detail -> seq<string>, d: seq<Detail>, i: nat, p: nat): nat
    requires i <= |d|
  {
    |Listed(list, d[..i])| + p
  }

  /** Item k of the list is item p of record i. */
  ghost predicate Stands(list: Detail -> seq<string>, d: seq<Detail>, k: nat, i: nat, p: nat) {
    && i < |d| && p < |list(d[i])| && k < |Listed(list, d)|
    && Place(list, d, i, p) == k && list(d[i])[p] == Listed(list, d)[k]
  }

  lemma {:induction false} ItemAt(list: Detail -> seq<string>, d: seq<Detail>, k: nat) returns (i: nat, p: nat)
    requires k < |Listed(list, d)|
    ensures Stands(list, d, k, i, p)
  {
    var front := d[..|d| - 1];
    if k < |Listed(list, front)| {
      i, p := ItemAt(list, front, k);
      assert d[..i] == front[..i];
    } else {
      i, p := |d| - 1, k - |Listed(list, front)|;
    }
  }

  lemma {:induction false} PlaceOf(list: Detail -> seq<string>, d: seq<Detail>, i: nat, p: nat)
    requires i < |d| && p < |list(d[i])|
    ensures Stands(list, d, Place(list, d, i, p), i, p)
  {
    var front := d[..|d| - 1];
    if i < |d| - 1 {
      PlaceOf(list, front, i, p);
      assert d[..i] == front[..i];
    }
  }

  /** Items stand by record, and inside a record as it lists them. */
  lemma {:induction false} PlaceOrder(list: Detail -> seq<string>, d: seq<Detail>, i: nat, p: nat, j: nat, q: nat)
    requires i < j < |d| && p < |list(d[i])|
    ensures Place(list, d, i, p) < Place(list, d, j, q)
    decreases j
  {
    assert d[..j][..j - 1] == d[..j - 1] && d[..j][j - 1] == d[j - 1];
    if i < j - 1 {
      PlaceOrder(list, d, i, p, j - 1, q);
    }
  }

  function Ids(d: seq<Detail>): map<string, string> {
    if d == [] then map[] else Ids(d[..|d| - 1])[d[|d| - 1].provider := d[|d| - 1].id]
  }

  function Urls(d: seq<Detail>): map<string, string> {
    if d == [] then map[]
    else
      var front, last := Urls(d[..|d| - 1]), d[|d| - 1];
      if last.homepage != "" then front[last.provider := last.homepage] else front
  }

  function Providers(d: seq<Detail>): seq<string> {
    if d == [] then [] else Providers(d[..|d| - 1]) + [d[|d| - 1].provider]
  }

  predicate Debut(field: Field) {
    field.DebutDate? || field.DebutTitle? || field.AppearancePeriod?
  }

  function Reader(field: Field): Wanted {
    if field == DebutDate then Date(field) else Any(field)
  }

  /** The record a field is taken from: debut fields prefer Minnano-AV. */
  function Source(field: Field, d: seq<Detail>): Option<Detail> {
    First(Reader(field), if Debut(field) then Sorted(DEBUT_SOURCES, d) else d)
  }

  function Preference(field: Field): seq<string> {
    if Debut(field) then DEBUT_SOURCES else []
  }

  function Chosen(w: Wanted, source: Option<Detail>): Value {
    if source.Some? then Read(w, source.value) else Text("")
  }

  function Origin(source: Option<Detail>): string {
    if source.Some? then source.value.provider else ""
  }

  function Taken(fields: seq<Field>, d: seq<Detail>): map<Field, Value> {
    map f | f in fields :: Chosen(Reader(f), Source(f, d))
  }

  function Credited(fields: seq<Field>, d: seq<Detail>): map<Field, string> {
    map f | f in fields && Origin(Source(f, d)) != "" :: Origin(Source(f, d))
  }

  // ---- conflicts ----

  function Claim(field: Field, d: Detail): Value {
    if field == Birthday then Text(IsoDate(d.Get(field))) else d.Get(field)
  }

  function Show(x: Texts, v: Value): string {
    match v
    case Missing => ""
    case Text(s) => s
    case Number(n) => x.digits(n)
  }

  /** The providers behind each printed value. */
  function Claims(x: Texts, field: Field, d: seq<Detail>): map<string, seq<string>> {
    if d == [] then map[]
    else
      var front, last := Claims(x, field, d[..|d| - 1]), d[|d| - 1];
      if Filled(Claim(field, last)) then
        var k := Show(x, Claim(field, last));
        front[k := (if k in front then front[k] else []) + [last.provider]]
      else front
  }

  /** The providers of the records whose value prints as k. */
  function Claimants(x: Texts, field: Field, d: seq<Detail>, k: string): seq<string> {
    if d == [] then []
    else Claimants(x, field, d[..|d| - 1], k)
         + if Claimant(x, field, d[|d| - 1], k) then [d[|d| - 1].provider] else []
  }

  /** The record has a value for the field that prints as k: for the birthday a date,
      otherwise a text that is not empty or a number that is not zero. */
  predicate Claimant(x: Texts, field: Field, d: Detail, k: string) {
    if field.Birthday? then k != "" && k == IsoDate(d.Get(field))
    else match d.Get(field)
         case Missing => false
         case Text(s) => s != "" && k == s
         case Number(n) => n != 0 && k == x.digits(n)
  }

  lemma {:induction false} ClaimsMeaning(x: Texts, field: Field, d: seq<Detail>, k: string)
    ensures k in Claims(x, field, d) <==> exists i :: 0 <= i < |d| && Claimant(x, field, d[i], k)
    ensures k in Claims(x, field, d) ==> Claims(x, field, d)[k] == Claimants(x, field, d, k)
    ensures k !in Claims(x, field, d) ==> Claimants(x, field, d, k) == []
  {
    if d != [] {
      ClaimsMeaning(x, field, d[..|d| - 1], k);
    }
  }

  ghost predicate Disagree(x: Texts, field: Field, a: Detail, b: Detail) {
    exists k, l :: Claimant(x, field, a, k) && Claimant(x, field, b, l) && k != l
  }

  ghost predicate Disputed(x: Texts, field: Field, details: seq<Detail>) {
    exists a, b :: a in details && b in details && Disagree(x, field, a, b)
  }

  lemma TwoKeys(c: map<string, seq<string>>)
    ensures |c| > 1 <==> exists k, l :: k in c && l in c && k != l
  {
    if |c| > 1 {
      var k :| k in c;
      assert |c.Keys - {k}| == |c| - 1;
      var l :| l in c.Keys - {k};
    }
    if k, l :| k in c && l in c && k != l {
      assert {k, l} <= c.Keys;
      assert |c.Keys - {k, l}| == |c.Keys| - 2;
    }
  }

  lemma Claimed(x: Texts, field: Field, d: seq<Detail>, k: string)
    ensures k in Claims(x, field, d) <==> exists a :: a in d && Claimant(x, field, a, k)
  {
    ClaimsMeaning(x, field, d, k);
    if a :| a in d && Claimant(x, field, a, k) {
      var i :| 0 <= i < |d| && d[i] == a;
    }
  }

  /** More than one value is claimed exactly when two records disagree. */
  lemma ConflictMeaning(x: Texts, field: Field, d: seq<Detail>)
    ensures |Claims(x, field, d)| > 1 <==> Disputed(x, field, d)
  {
    var c := Claims(x, field, d);
    TwoKeys(c);
    if k, l :| k in c && l in c && k != l {
      Claimed(x, field, d, k);
      Claimed(x, field, d, l);
      var a :| a in d && Claimant(x, field, a, k);
      var b :| b in d && Claimant(x, field, b, l);
      assert Disagree(x, field, a, b);
    }
    if a, b :| a in d && b in d && Disagree(x, field, a, b) {
      var k, l :| Claimant(x, field, a, k) && Claimant(x, field, b, l) && k != l;
      Claimed(x, field, d, k);
      Claimed(x, field, d, l);
    }
  }

  function Conflicts(x: Texts, fields: seq<Field>, d: seq<Detail>): map<Field, map<string, seq<string>>> {
    map f | f in fields && |Claims(x, f, d)| > 1 :: Claims(x, f, d)
  }

  // ---- merge ----

  function StableProvider(ids: map<string, string>, d: seq<Detail>, stable: seq<string>): string
    requires d != []
  {
    if stable == [] then d[0].provider
    else if stable[0] in ids then stable[0] else StableProvider(ids, d, stable[1..])
  }

  lemma {:induction false} IdsMeaning(d: seq<Detail>, p: string)
    ensures p in Ids(d) <==> exists i :: 0 <= i < |d| && d[i].provider == p
    ensures p in Urls(d) ==> p in Ids(d)
  {
    if d != [] {
      IdsMeaning(d[..|d| - 1], p);
    }
  }

  lemma {:induction false} StableHasId(d: seq<Detail>, stable: seq<string>)
    requires d != []
    ensures StableProvider(Ids(d), d, stable) in Ids(d)
  {
    if stable == [] {
      IdsMeaning(d, d[0].provider);
      assert d[0].provider == d[0].provider;
    } else {
      StableHasId(d, stable[1..]);
    }
  }

  /** The provider whose id names the merged record. */
  function Anchor(d: seq<Detail>): (p: string)
    requires d != []
    ensures p in Ids(d)
  {
    StableHasId(d, STABLE);
    StableProvider(Ids(d), d, STABLE)
  }

  function Canonical(x: Texts, name: string, d: seq<Detail>): string {
    x.naming(name, d, Distinct(x.fold, Names(d)))
  }

  function Aliases(x: Texts, name: string, d: seq<Detail>): seq<string> {
    Distinct(x.fold, CleanAll(x, Canonical(x, name, d), Distinct(x.fold, Names(d))))
  }

  function Provenance(d: seq<Detail>): map<Field, string> {
    var birthday := First(Date(Birthday), d);
    if birthday.Some? then Credited(FIELDS, d)[Birthday := Origin(birthday)] else Credited(FIELDS, d)
  }

  /** The merged record of sorted details. */
  function MergedFrom(x: Texts, name: string, d: seq<Detail>): Merged
    requires d != []
  {
    Merged(Anchor(d) + ":" + Ids(d)[Anchor(d)], Canonical(x, name, d),
           if Anchor(d) in Urls(d) then Urls(d)[Anchor(d)] else "",
           Aliases(x, name, d), Distinct(Same, Images(d)), Distinct(Same, Tags(d)),
           Chosen(Date(Birthday), First(Date(Birthday), d)).text,
           Taken(FIELDS, d), Provenance(d), Conflicts(x, CONFLICT_FIELDS, d), Ids(d), Urls(d), Providers(d))
  }

  /** Reading a merged date again changes nothing. */
  lemma DateIsStable(v: Value)
    ensures IsoDate(Text(IsoDate(v))) == IsoDate(v)
  {
    if IsoDate(v) != "" {
      var s := v.text[..10];
      assert s[..4] == v.text[..4] && s[..10] == s;
    }
  }

  /** The debut date is read as a date once more at the end, to no effect. */
  lemma DebutStays(d: seq<Detail>)
    ensures DebutDate in Taken(FIELDS, d)
    ensures Taken(FIELDS, d)[DebutDate := Text(IsoDate(Taken(FIELDS, d)[DebutDate]))] == Taken(FIELDS, d)
  {
    var source := Source(DebutDate, d);
    assert DebutDate == FIELDS[0];
    assert Taken(FIELDS, d)[DebutDate] == Chosen(Reader(DebutDate), source);
    if source.Some? {
      DateIsStable(source.value.Get(DebutDate));
    }
  }

  method Merge(x: Texts, order: seq<string>, name: string, details: seq<Detail>) returns (m: Merged)
    requires details != []
    ensures Sorted(order, details) != [] && m == MergedFrom(x, name, Sorted(order, details))
  {
    var d := Sorted(order, details);
    SortedMeaning(order, details);
    assert details[0] in multiset(d);
    var aliases, images, tags, externalIds, urls, sources := Gather(x, d);
    var canonical := x.naming(name, d, aliases);
    aliases := CleanAliases(x, aliases, canonical);
    var fields, provenance := TakeFields(FIELDS, d);
    DebutStays(d);
    fields := fields[DebutDate := Text(IsoDate(fields[DebutDate]))];
    var birthday := First(Date(Birthday), d);
    if birthday.Some? {
      provenance := provenance[Birthday := Origin(birthday)];
    }
    var conflicts := FindConflicts(x, CONFLICT_FIELDS, d);
    var stable := StableProvider(externalIds, d, STABLE);
    assert stable == Anchor(d);
    m := Merged(stable + ":" + externalIds[stable], canonical, if stable in urls then urls[stable] else "",
                aliases, images, tags, Chosen(Date(Birthday), birthday).text,
                fields, provenance, conflicts, externalIds, urls, sources);
  }

  method Gather(x: Texts, d: seq<Detail>)
    returns (aliases: seq<string>, images: seq<string>, tags: seq<string>,
             ids: map<string, string>, urls: map<string, string>, sources: seq<string>)
    ensures aliases == Distinct(x.fold, Names(d)) && images == Distinct(Same, Images(d))
    ensures tags == Distinct(Same, Tags(d)) && ids == Ids(d) && urls == Urls(d) && sources == Providers(d)
  {
    aliases, images, tags, ids, urls, sources := [], [], [], map[], map[], [];
    for i := 0 to |d|
      invariant aliases == Distinct(x.fold, Names(d[..i])) && images == Distinct(Same, Images(d[..i]))
      invariant tags == Distinct(Same, Tags(d[..i])) && ids == Ids(d[..i]) && urls == Urls(d[..i])
      invariant sources == Providers(d[..i])
    {
      assert d[..i + 1][..i] == d[..i];
      ids := ids[d[i].provider := d[i].id];
      if d[i].homepage != "" {
        urls := urls[d[i].provider := d[i].homepage];
      }
      aliases := AppendNew(x.fold, Names(d[..i]), aliases, [d[i].name] + d[i].aliases);
      images := AppendNew(Same, Images(d[..i]), images, d[i].images);
      tags := AppendNew(Same, Tags(d[..i]), tags, d[i].tags);
      sources := sources + [d[i].provider];
    }
    assert d[..|d|] == d;
  }

  lemma CreditedNext(all: seq<Field>, f: Field, d: seq<Detail>)
    ensures Credited(all + [f], d) ==
              if Origin(Source(f, d)) != "" then Credited(all, d)[f := Origin(Source(f, d))] else Credited(all, d)
  {
  }

  method TakeFields(all: seq<Field>, d: seq<Detail>) returns (fields: map<Field, Value>, provenance: map<Field, string>)
    ensures fields == Taken(all, d) && provenance == Credited(all, d)
  {
    fields, provenance := map[], map[];
    for i := 0 to |all|
      invariant fields == Taken(all[..i], d) && provenance == Credited(all[..i], d)
    {
      var field := all[i];
      assert all[..i + 1] == all[..i] + [field];
      CreditedNext(all[..i], field, d);
      var source := Source(field, d);
      fields := fields[field := Chosen(Reader(field), source)];
      if Origin(source) != "" {
        provenance := provenance[field := Origin(source)];
      }
    }
    assert all[..|all|] == all;
  }

  method FindClaims(x: Texts, field: Field, d: seq<Detail>) returns (values: map<string, seq<string>>)
    ensures values == Claims(x, field, d)
  {
    values := map[];
    for j := 0 to |d|
      invariant values == Claims(x, field, d[..j])
    {
      assert d[..j + 1][..j] == d[..j];
      var value := Claim(field, d[j]);
      if Filled(value) {
        var k := Show(x, value);
        values := values[k := (if k in values then values[k] else []) + [d[j].provider]];
      }
    }
    assert d[..|d|] == d;
  }

  method FindConflicts(x: Texts, all: seq<Field>, d: seq<Detail>)
    returns (conflicts: map<Field, map<string, seq<string>>>)
    ensures conflicts == Conflicts(x, all, d)
  {
    conflicts := map[];
    for i := 0 to |all|
      invariant conflicts == Conflicts(x, all[..i], d)
    {
      assert all[..i + 1] == all[..i] + [all[i]];
      var values := FindClaims(x, all[i], d);
      if |values| > 1 {
        conflicts := conflicts[all[i] := values];
      }
    }
    assert all[..|all|] == all;
  }

  // ---- what merge promises ----

  /** The merged record does not depend on the order the records arrive in, when their
      providers are distinct and all in the source order. */
  lemma ArrivalIrrelevant(x: Texts, order: seq<string>, name: string, a: seq<Detail>, b: seq<Detail>)
    requires a != [] && b != [] && multiset(a) == multiset(b)
    requires forall i :: 0 <= i < |a| ==> a[i].provider in order
    requires forall i, j :: 0 <= i < j < |a| ==> a[i].provider != a[j].provider
    ensures Sorted(order, a) != [] && Sorted(order, b) != []
    ensures MergedFrom(x, name, Sorted(order, a)) == MergedFrom(x, name, Sorted(order, b))
  {
    DistinctSourcesTell(order, a);
    OneSort(order, a, b);
    SortedMeaning(order, a);
    assert a[0] in multiset(Sorted(order, a));
  }

  /** Of the records that have a value, e is from the most preferred provider: first
      by the preferred list, then by the source order. */
  ghost predicate Foremost(preferred: seq<string>, order: seq<string>, w: Wanted, details: seq<Detail>, e: Detail) {
    && e in details && Has(w, e)
    && forall o :: o in details && Has(w, o) ==>
         Rank(preferred, e) < Rank(preferred, o)
         || (Rank(preferred, e) == Rank(preferred, o) && Rank(order, e) <= Rank(order, o))
  }

  lemma {:induction false} AscendingPair(order: seq<string>, s: seq<Detail>, i: nat, j: nat)
    requires Ascending(order, s) && i <= j < |s|
    ensures Rank(order, s[i]) <= Rank(order, s[j])
  {
    if j < |s| - 1 {
      AscendingPair(order, s[..|s| - 1], i, j);
    } else if i < j {
      assert s[..|s| - 1][i] == s[i];
    }
  }

  ghost predicate FindsForemost(preferred: seq<string>, order: seq<string>, w: Wanted, details: seq<Detail>,
                                f: Option<Detail>) {
    if f.Some? then Foremost(preferred, order, w, details, f.value) else Nobody(w, details)
  }

  lemma RefinesOrder(preferred: seq<string>, order: seq<string>, w: Wanted, s: seq<Detail>, f: Option<Detail>)
    requires Ascending(order, s) && Finds(preferred, w, s, f)
    ensures FindsForemost(preferred, order, w, s, f)
  {
    if f.Some? {
      var i: nat :| Preferred(preferred, w, s, i) && f.value == s[i];
      forall o | o in s && Has(w, o)
        ensures Rank(preferred, s[i]) < Rank(preferred, o)
                || (Rank(preferred, s[i]) == Rank(preferred, o) && Rank(order, s[i]) <= Rank(order, o))
      {
        var j :| 0 <= j < |s| && s[j] == o;
        if i <= j {
          AscendingPair(order, s, i, j);
        }
      }
    }
  }

  lemma SameForemost(preferred: seq<string>, order: seq<string>, w: Wanted, s: seq<Detail>, t: seq<Detail>,
                     f: Option<Detail>)
    requires multiset(s) == multiset(t) && FindsForemost(preferred, order, w, s, f)
    ensures FindsForemost(preferred, order, w, t, f)
  {
    forall o ensures o in s <==> o in t {
      SameMembers(s, t, o);
    }
    forall j | 0 <= j < |t| ensures t[j] in s {
      assert t[j] in t;
    }
  }

  /** The second, stable sort refines the first one. */
  lemma FirstOfTwoSorts(preferred: seq<string>, order: seq<string>, w: Wanted, details: seq<Detail>)
    ensures FindsForemost(preferred, order, w, details, First(w, Sorted(preferred, Sorted(order, details))))
  {
    var s := Sorted(order, details);
    SortedMeaning(order, details);
    FirstIsPreferred(preferred, w, s);
    RefinesOrder(preferred, order, w, s, First(w, Sorted(preferred, s)));
    SameForemost(preferred, order, w, s, details, First(w, Sorted(preferred, s)));
  }

  lemma {:induction false} SortByNothing(s: seq<Detail>)
    ensures Sorted([], s) == s
  {
    if s != [] {
      SortByNothing(s[..|s| - 1]);
      assert s == s[..|s| - 1] + [s[|s| - 1]];
    }
  }

  lemma SourceIsForemost(order: seq<string>, details: seq<Detail>, field: Field)
    ensures FindsForemost(Preference(field), order, Reader(field), details, Source(field, Sorted(order, details)))
  {
    SortByNothing(Sorted(order, details));
    FirstOfTwoSorts(Preference(field), order, Reader(field), details);
  }

  lemma ProvenanceOf(d: seq<Detail>, field: Field)
    requires field in FIELDS
    ensures field in Provenance(d) <==> Origin(Source(field, d)) != ""
    ensures field in Provenance(d) ==> Provenance(d)[field] == Origin(Source(field, d))
  {
    assert Birthday !in FIELDS;
  }

  /** Every field but the birthday is merged this way. */
  lemma AllFields(field: Field)
    ensures field in FIELDS <==> !field.Birthday?
  {
    assert FIELDS[0] == DebutDate && FIELDS[1] == DebutTitle && FIELDS[2] == AppearancePeriod
           && FIELDS[3] == BloodType && FIELDS[4] == CupSize && FIELDS[5] == Measurements;
    assert FIELDS[6] == Nationality && FIELDS[7] == Height && FIELDS[8] == Hobby
           && FIELDS[9] == Skill && FIELDS[10] == Summary && FIELDS[11] == Sign;
  }

  /** The record has a value for the field: for the date of debut a date, otherwise a text
      that is not empty or a number that is not zero. */
  predicate HasValue(field: Field, d: Detail, v: Value) {
    if field.DebutDate? then v.Text? && v.text != "" && v.text == IsoDate(d.Get(field))
    else v == d.Get(field) && v != Missing && v != Text("") && v != Number(0)
  }

  /** Debut fields come from Minnano-AV when it has them, all others and all else by the
      source order alone. */
  ghost predicate Best(order: seq<string>, details: seq<Detail>, field: Field, e: Detail, v: Value) {
    && e in details && HasValue(field, e, v)
    && forall o, u :: o in details && HasValue(field, o, u) ==>
         if (field.DebutDate? || field.DebutTitle? || field.AppearancePeriod?)
            && (e.provider == "Minnano-AV") != (o.provider == "Minnano-AV")
         then e.provider == "Minnano-AV"
         else Rank(order, e) <= Rank(order, o)
  }

  /** Each field is the value of the best record that has one, credited to its provider;
      it is empty and uncredited only when no record has one. */
  ghost predicate WellSourced(order: seq<string>, details: seq<Detail>, field: Field,
                              value: Value, credit: map<Field, string>) {
    || (exists e :: Best(order, details, field, e, value)
                    && (if e.provider != "" then field in credit && credit[field] == e.provider
                        else field !in credit))
    || (value == Text("") && field !in credit && forall e, v :: e in details ==> !HasValue(field, e, v))
  }

  lemma ReadsValue(field: Field, d: Detail, v: Value)
    requires !field.Birthday?
    ensures HasValue(field, d, v) <==> Has(Reader(field), d) && v == Read(Reader(field), d)
  {
  }

  lemma MinnanoFirst(p: string, q: string)
    ensures Index(DEBUT_SOURCES, p) == if p == "Minnano-AV" then 0 else 1
  {
    assert DEBUT_SOURCES[1..] == [];
  }

  lemma ForemostIsBest(order: seq<string>, details: seq<Detail>, field: Field, e: Detail)
    requires !field.Birthday? && Foremost(Preference(field), order, Reader(field), details, e)
    ensures Best(order, details, field, e, Read(Reader(field), e))
  {
    ReadsValue(field, e, Read(Reader(field), e));
    forall o, u | o in details && HasValue(field, o, u)
      ensures if (field.DebutDate? || field.DebutTitle? || field.AppearancePeriod?)
                 && (e.provider == "Minnano-AV") != (o.provider == "Minnano-AV")
              then e.provider == "Minnano-AV"
              else Rank(order, e) <= Rank(order, o)
    {
      ReadsValue(field, o, u);
      MinnanoFirst(e.provider, o.provider);
      MinnanoFirst(o.provider, e.provider);
      assert Index([], e.provider) == Index([], o.provider) == 0;
    }
  }

  lemma FieldMeaning(x: Texts, order: seq<string>, name: string, details: seq<Detail>, field: Field)
    requires details != [] && Sorted(order, details) != []
    ensures var m := MergedFrom(x, name, Sorted(order, details));
            (field in m.fields <==> !field.Birthday?)
            && (field in m.fields ==> WellSourced(order, details, field, m.fields[field], m.provenance))
  {
    var d := Sorted(order, details);
    var m := MergedFrom(x, name, d);
    AllFields(field);
    assert m.fields == Taken(FIELDS, d) && m.provenance == Provenance(d);
    if !field.Birthday? {
      SourceIsForemost(order, details, field);
      ProvenanceOf(d, field);
      assert m.fields[field] == Chosen(Reader(field), Source(field, d));
      if Source(field, d).Some? {
        ForemostIsBest(order, details, field, Source(field, d).value);
      } else {
        NoValue(details, field);
      }
    }
  }

  lemma NoValue(details: seq<Detail>, field: Field)
    requires !field.Birthday? && Nobody(Reader(field), details)
    ensures forall e, v :: e in details ==> !HasValue(field, e, v)
  {
    forall e, v | e in details ensures !HasValue(field, e, v) {
      ReadsValue(field, e, v);
    }
  }

  /** The birthday is the date of the preferred record that has one, credited to its
      provider; it is empty and uncredited only when no record has one. */
  ghost predicate WellDated(order: seq<string>, details: seq<Detail>, value: string, credit: map<Field, string>) {
    || (exists i: nat :: && Preferred(order, Date(Birthday), details, i)
                    && value == IsoDate(details[i].Get(Birthday))
                    && Birthday in credit && credit[Birthday] == details[i].provider)
    || (value == "" && Birthday !in credit && Nobody(Date(Birthday), details))
  }

  lemma DatedWell(order: seq<string>, details: seq<Detail>)
    ensures var d := Sorted(order, details);
            WellDated(order, details, Chosen(Date(Birthday), First(Date(Birthday), d)).text, Provenance(d))
  {
    FirstIsPreferred(order, Date(Birthday), details);
    assert Birthday !in FIELDS;
  }

  lemma BirthdayMeaning(x: Texts, order: seq<string>, name: string, details: seq<Detail>)
    requires details != [] && Sorted(order, details) != []
    ensures var m := MergedFrom(x, name, Sorted(order, details));
            WellDated(order, details, m.birthday, m.provenance)
  {
    DatedWell(order, details);
  }

  lemma ConflictOf(x: Texts, order: seq<string>, details: seq<Detail>, field: Field)
    ensures |Claims(x, field, Sorted(order, details))| > 1 <==> Disputed(x, field, details)
  {
    var d := Sorted(order, details);
    SortedMeaning(order, details);
    forall a ensures a in d <==> a in details {
      SameMembers(d, details, a);
    }
    ConflictMeaning(x, field, d);
  }

  lemma ConflictFields(field: Field)
    ensures field in CONFLICT_FIELDS <==>
            field.Birthday? || field.BloodType? || field.CupSize? || field.Measurements? || field.Height?
  {
    assert CONFLICT_FIELDS[0] == Birthday && CONFLICT_FIELDS[1] == BloodType && CONFLICT_FIELDS[2] == CupSize
           && CONFLICT_FIELDS[3] == Measurements && CONFLICT_FIELDS[4] == Height;
  }

  /** A conflict is recorded exactly when two records disagree in one of the five fields
      that are compared; it lists under each value the providers that claim it. */
  lemma ConflictRecorded(x: Texts, order: seq<string>, name: string, details: seq<Detail>, field: Field)
    requires details != [] && Sorted(order, details) != []
    ensures var d := Sorted(order, details);
            var m := MergedFrom(x, name, d);
            && (field in m.conflicts <==>
                  (field.Birthday? || field.BloodType? || field.CupSize? || field.Measurements? || field.Height?)
                  && Disputed(x, field, details))
            && (field in m.conflicts ==> forall k :: k in m.conflicts[field] ==>
                  m.conflicts[field][k] == Claimants(x, field, d, k) != [])
  {
    ConflictOf(x, order, details, field);
    ConflictFields(field);
    var d := Sorted(order, details);
    var m := MergedFrom(x, name, d);
    assert m.conflicts == Conflicts(x, CONFLICT_FIELDS, d);
    forall k | field in m.conflicts && k in m.conflicts[field]
      ensures m.conflicts[field][k] == Claimants(x, field, d, k) != []
    {
      ClaimsMeaning(x, field, d, k);
      ClaimedBySomeone(x, field, d, k);
    }
  }

  lemma {:induction false} ClaimedBySomeone(x: Texts, field: Field, d: seq<Detail>, k: string)
    requires exists i :: 0 <= i < |d| && Claimant(x, field, d[i], k)
    ensures Claimants(x, field, d, k) != []
  {
    if !Claimant(x, field, d[|d| - 1], k) {
      ClaimedBySomeone(x, field, d[..|d| - 1], k);
    }
  }
}
