/** The lists and maps of a merged actor record, in terms of the records it was merged
    from: aliases, images, tags, ids, links and sources. */
module MergedLists {
  import opened ActorMerge
  import opened Options
  import opened SourceOrder

  // ---- the lists of the merged record ----

  /** a is listed before any b: by record, and inside a record as it lists them. */
  ghost predicate ListedBefore(list: Detail -> seq<string>, d: seq<Detail>, a: string, b: string) {
    exists i: nat, p: nat :: i < |d| && p < |list(d[i])| && list(d[i])[p] == a
      && forall j: nat, q: nat :: j < |d| && q < |list(d[j])| && list(d[j])[q] == b ==> i < j || (i == j && p < q)
  }

  ghost predicate KeepsOrder(list: Detail -> seq<string>, d: seq<Detail>, out: seq<string>) {
    forall k, l :: 0 <= k < l < |out| ==> ListedBefore(list, d, out[k], out[l])
  }

  lemma ListedMember(list: Detail -> seq<string>, d: seq<Detail>, v: string)
    ensures v in Listed(list, d) <==> exists e :: e in d && v in list(e)
  {
    if v in Listed(list, d) {
      var k :| 0 <= k < |Listed(list, d)| && Listed(list, d)[k] == v;
      var i, p := ItemAt(list, d, k);
      assert d[i] in d && v in list(d[i]);
    }
    if e :| e in d && v in list(e) {
      var i :| 0 <= i < |d| && d[i] == e;
      var p :| 0 <= p < |list(e)| && list(e)[p] == v;
      PlaceOf(list, d, i, p);
    }
  }

  lemma DistinctMembers(s: seq<string>, v: string)
    ensures v in Distinct(Same, s) <==> v in s && v != ""
  {
    var at := DistinctMeaning(Same, s);
    DistinctApart(Same, s);
    var out := Distinct(Same, s);
    if v in s && v != "" {
      var i :| 0 <= i < |s| && s[i] == v;
      assert Known(Same, out, s[i]);
    }
    if v in out {
      var k :| 0 <= k < |out| && out[k] == v;
      assert s[at[k]] == out[k];
    }
  }

  lemma DistinctKeepsOrder(list: Detail -> seq<string>, d: seq<Detail>)
    ensures KeepsOrder(list, d, Distinct(Same, Listed(list, d)))
  {
    var s := Listed(list, d);
    var out := Distinct(Same, s);
    var at := DistinctMeaning(Same, s);
    forall k, l | 0 <= k < l < |out| ensures ListedBefore(list, d, out[k], out[l]) {
      assert at[k] < at[l] && at[l] in at && Fresh(Same, s, at[l]);
      var i, p := ItemAt(list, d, at[k]);
      forall j: nat, q: nat | j < |d| && q < |list(d[j])| && list(d[j])[q] == out[l]
        ensures i < j || (i == j && p < q)
      {
        PlaceOf(list, d, j, q);
        assert s[Place(list, d, j, q)] == s[at[l]];
        assert Place(list, d, j, q) >= at[l];
        if j < i {
          PlaceOrder(list, d, j, q, i, p);
        }
      }
    }
  }

  /** The non-empty items of all records, each once, in the order of the records. */
  lemma CollectedFrom(list: Detail -> seq<string>, order: seq<string>, details: seq<Detail>)
    ensures var d := Sorted(order, details);
            var out := Distinct(Same, Listed(list, d));
            && (forall v :: v in out <==> v != "" && exists e :: e in details && v in list(e))
            && Apart(Same, out) && KeepsOrder(list, d, out)
  {
    var d := Sorted(order, details);
    SortedMeaning(order, details);
    var out := Distinct(Same, Listed(list, d));
    forall v ensures v in out <==> v != "" && exists e :: e in details && v in list(e) {
      DistinctMembers(Listed(list, d), v);
      ListedMember(list, d, v);
      forall e ensures e in d <==> e in details {
        SameMembers(d, details, e);
      }
    }
    DistinctApart(Same, Listed(list, d));
    DistinctKeepsOrder(list, d);
  }

  /** The merged images and tags: the non-empty ones of all records, each once, by the
      first record that has it and inside a record as it lists them. */
  lemma MediaMeaning(x: Texts, order: seq<string>, name: string, details: seq<Detail>)
    requires details != [] && Sorted(order, details) != []
    ensures var d := Sorted(order, details);
            var m := MergedFrom(x, name, d);
            && (forall v :: v in m.images <==> v != "" && exists e :: e in details && v in e.images)
            && (forall v :: v in m.tags <==> v != "" && exists e :: e in details && v in e.tags)
            && Apart(Same, m.images) && KeepsOrder(ImagesOf, d, m.images)
            && Apart(Same, m.tags) && KeepsOrder(TagsOf, d, m.tags)
  {
    CollectedFrom(ImagesOf, order, details);
    CollectedFrom(TagsOf, order, details);
  }

  // ---- aliases ----

  /** The record knows the actor under the name v. */
  predicate KnownAs(e: Detail, v: string) {
    v != "" && (v == e.name || v in e.aliases)
  }

  /** A name becomes t: trimmed, and the Latin part of the canonical name instead of
      any name with a Latin letter. */
  predicate Becomes(x: Texts, canonical: string, v: string, t: string) {
    var w := x.trim(v);
    if exists i :: 0 <= i < |w| && ('A' <= w[i] <= 'Z' || 'a' <= w[i] <= 'z') then t == x.primary(canonical)
    else t == w
  }

  /** A name is represented: one that folds alike, of some record, becomes nothing or an
      alias, up to folding. */
  ghost predicate Represented(x: Texts, details: seq<Detail>, canonical: string, aliases: seq<string>, v: string) {
    exists e, u, t :: e in details && KnownAs(e, u) && x.fold(u) == x.fold(v) && Becomes(x, canonical, u, t)
                      && (t == "" || Known(x.fold, aliases, t))
  }

  /** An alias is what some name of a record becomes. */
  ghost predicate Stems(x: Texts, details: seq<Detail>, canonical: string, a: string) {
    exists e, v :: e in details && KnownAs(e, v) && Becomes(x, canonical, v, a)
  }

  lemma NameMember(d: seq<Detail>, v: string)
    ensures v != "" ==> (v in Names(d) <==> exists e :: e in d && KnownAs(e, v))
  {
    ListedMember(NamesOf, d, v);
    forall e ensures v in NamesOf(e) <==> v == e.name || v in e.aliases {
      assert NamesOf(e)[0] == e.name && NamesOf(e)[1..] == e.aliases;
    }
  }

  lemma CleanBecomes(x: Texts, canonical: string, v: string)
    ensures Becomes(x, canonical, v, Clean(x, canonical, v))
  {
  }

  /** The names kept before cleaning. */
  function KeptNames(x: Texts, d: seq<Detail>): seq<string> {
    Distinct(x.fold, Names(d))
  }

  lemma KeptIsKnown(x: Texts, d: seq<Detail>, k: nat)
    requires k < |KeptNames(x, d)|
    ensures exists e :: e in d && KnownAs(e, KeptNames(x, d)[k])
  {
    var at := DistinctMeaning(x.fold, Names(d));
    assert Names(d)[at[k]] == KeptNames(x, d)[k];
    DistinctApart(x.fold, Names(d));
    NameMember(d, KeptNames(x, d)[k]);
  }

  lemma KeptLike(x: Texts, d: seq<Detail>, v: string) returns (k: nat)
    requires v != "" && v in Names(d)
    ensures k < |KeptNames(x, d)| && x.fold(KeptNames(x, d)[k]) == x.fold(v)
  {
    var at := DistinctMeaning(x.fold, Names(d));
    var i :| 0 <= i < |Names(d)| && Names(d)[i] == v;
    assert Known(x.fold, KeptNames(x, d), Names(d)[i]);
    k :| 0 <= k < |KeptNames(x, d)| && x.fold(KeptNames(x, d)[k]) == x.fold(v);
  }

  /** The list of names the canonical name is chosen with: it holds the first of every name
      of every record, up to folding, and nothing else. */
  ghost predicate AllNames(x: Texts, details: seq<Detail>, names: seq<string>) {
    && Apart(x.fold, names)
    && (forall n :: n in names ==> exists e :: e in details && KnownAs(e, n))
    && (forall e, v :: e in details && KnownAs(e, v) ==> Known(x.fold, names, v))
  }

  lemma KeptAreAll(x: Texts, d: seq<Detail>)
    ensures AllNames(x, d, KeptNames(x, d))
  {
    DistinctApart(x.fold, Names(d));
    forall n | n in KeptNames(x, d) ensures exists e :: e in d && KnownAs(e, n) {
      var k :| 0 <= k < |KeptNames(x, d)| && KeptNames(x, d)[k] == n;
      KeptIsKnown(x, d, k);
    }
    forall e, v | e in d && KnownAs(e, v) ensures Known(x.fold, KeptNames(x, d), v) {
      NameMember(d, v);
      var k := KeptLike(x, d, v);
    }
  }

  /** The canonical name is chosen from the sorted records and all their names. */
  lemma NameMeaning(x: Texts, order: seq<string>, name: string, details: seq<Detail>) returns (names: seq<string>)
    requires details != [] && Sorted(order, details) != []
    ensures AllNames(x, Sorted(order, details), names)
    ensures MergedFrom(x, name, Sorted(order, details)).name == x.naming(name, Sorted(order, details), names)
  {
    names := KeptNames(x, Sorted(order, details));
    KeptAreAll(x, Sorted(order, details));
  }

  lemma CleanedKept(x: Texts, name: string, d: seq<Detail>, k: nat)
    requires k < |KeptNames(x, d)|
    ensures var t := Clean(x, Canonical(x, name, d), KeptNames(x, d)[k]);
            t == "" || Known(x.fold, Aliases(x, name, d), t)
  {
    var cleaned := CleanAll(x, Canonical(x, name, d), KeptNames(x, d));
    var at := DistinctMeaning(x.fold, cleaned);
    assert cleaned[k] != "" ==> Known(x.fold, Aliases(x, name, d), cleaned[k]);
  }

  lemma NameRepresented(x: Texts, name: string, d: seq<Detail>, v: string)
    requires v != "" && v in Names(d)
    ensures Represented(x, d, Canonical(x, name, d), Aliases(x, name, d), v)
  {
    var k := KeptLike(x, d, v);
    KeptIsKnown(x, d, k);
    CleanedKept(x, name, d, k);
    CleanBecomes(x, Canonical(x, name, d), KeptNames(x, d)[k]);
  }

  lemma AliasStems(x: Texts, name: string, d: seq<Detail>, a: string)
    requires a in Aliases(x, name, d)
    ensures Stems(x, d, Canonical(x, name, d), a)
  {
    var cleaned := CleanAll(x, Canonical(x, name, d), KeptNames(x, d));
    var at := DistinctMeaning(x.fold, cleaned);
    var l :| 0 <= l < |Aliases(x, name, d)| && Aliases(x, name, d)[l] == a;
    assert cleaned[at[l]] == a;
    KeptIsKnown(x, d, at[l]);
    CleanBecomes(x, Canonical(x, name, d), KeptNames(x, d)[at[l]]);
  }

  lemma SameRecords(x: Texts, d: seq<Detail>, details: seq<Detail>, canonical: string, aliases: seq<string>)
    requires multiset(d) == multiset(details)
    ensures forall e :: e in d <==> e in details
    ensures forall v :: Represented(x, d, canonical, aliases, v) ==> Represented(x, details, canonical, aliases, v)
    ensures forall a :: Stems(x, d, canonical, a) ==> Stems(x, details, canonical, a)
  {
    forall e ensures e in d <==> e in details {
      SameMembers(d, details, e);
    }
    forall v | Represented(x, d, canonical, aliases, v) ensures Represented(x, details, canonical, aliases, v) {
      var e, u, t :| e in d && KnownAs(e, u) && x.fold(u) == x.fold(v) && Becomes(x, canonical, u, t)
                     && (t == "" || Known(x.fold, aliases, t));
      assert e in details;
    }
    forall a | Stems(x, d, canonical, a) ensures Stems(x, details, canonical, a) {
      var e, v :| e in d && KnownAs(e, v) && Becomes(x, canonical, v, a);
      assert e in details;
    }
  }

  /** Every name and alias of every record is represented among the merged aliases. */
  lemma NamesRepresented(x: Texts, order: seq<string>, name: string, details: seq<Detail>, e: Detail, v: string)
    requires details != [] && Sorted(order, details) != [] && e in details && KnownAs(e, v)
    ensures var m := MergedFrom(x, name, Sorted(order, details));
            Represented(x, details, m.name, m.aliases, v)
  {
    var d := Sorted(order, details);
    SortedMeaning(order, details);
    SameRecords(x, d, details, Canonical(x, name, d), Aliases(x, name, d));
    NameMember(d, v);
    NameRepresented(x, name, d, v);
  }

  /** Every merged alias is what some name of a record becomes; none is empty, and no two
      fold alike. */
  lemma AliasMeaning(x: Texts, order: seq<string>, name: string, details: seq<Detail>)
    requires details != [] && Sorted(order, details) != []
    ensures var m := MergedFrom(x, name, Sorted(order, details));
            (forall a :: a in m.aliases ==> Stems(x, details, m.name, a)) && Apart(x.fold, m.aliases)
  {
    var d := Sorted(order, details);
    SortedMeaning(order, details);
    SameRecords(x, d, details, Canonical(x, name, d), Aliases(x, name, d));
    forall a | a in Aliases(x, name, d) ensures Stems(x, details, Canonical(x, name, d), a) {
      AliasStems(x, name, d, a);
    }
    DistinctApart(x.fold, CleanAll(x, Canonical(x, name, d), Distinct(x.fold, Names(d))));
  }

  // ---- where the record comes from ----

  ghost predicate HasSource(details: seq<Detail>, p: string) {
    exists e :: e in details && e.provider == p
  }

  /** d[i] is the last record of its provider. */
  ghost predicate LastOf(d: seq<Detail>, i: int, p: string) {
    0 <= i < |d| && d[i].provider == p && forall j :: i < j < |d| ==> d[j].provider != p
  }

  /** d[i] is the last record of its provider that has a home page. */
  ghost predicate LastLinked(d: seq<Detail>, i: int, p: string) {
    && 0 <= i < |d| && d[i].provider == p && d[i].homepage != ""
    && forall j :: i < j < |d| ==> d[j].provider != p || d[j].homepage == ""
  }

  /** Under p stands the id of its last record, if it has one. */
  ghost predicate IdOfLast(d: seq<Detail>, ids: map<string, string>, p: string) {
    if p in ids then exists i :: LastOf(d, i, p) && ids[p] == d[i].id else forall i :: !LastOf(d, i, p)
  }

  /** Under p stands the last home page of its records, if there is one. */
  ghost predicate LinkOfLast(d: seq<Detail>, urls: map<string, string>, p: string) {
    if p in urls then exists i :: LastLinked(d, i, p) && urls[p] == d[i].homepage else forall i :: !LastLinked(d, i, p)
  }

  lemma {:induction false} LastIds(d: seq<Detail>, p: string)
    ensures IdOfLast(d, Ids(d), p)
  {
    if d != [] {
      var front, n := d[..|d| - 1], |d| - 1;
      LastIds(front, p);
      if d[n].provider == p {
        assert LastOf(d, n, p);
      } else if p in Ids(front) {
        var i :| LastOf(front, i, p) && Ids(front)[p] == front[i].id;
        assert LastOf(d, i, p);
      } else {
        assert forall i :: LastOf(d, i, p) ==> LastOf(front, i, p);
      }
    }
  }

  lemma {:induction false} LastLinks(d: seq<Detail>, p: string)
    ensures LinkOfLast(d, Urls(d), p)
  {
    if d != [] {
      var front, n := d[..|d| - 1], |d| - 1;
      LastLinks(front, p);
      if d[n].provider == p && d[n].homepage != "" {
        assert LastLinked(d, n, p);
      } else if p in Urls(front) {
        var i :| LastLinked(front, i, p) && Urls(front)[p] == front[i].homepage;
        assert LastLinked(d, i, p);
      } else {
        assert forall i :: LastLinked(d, i, p) ==> LastLinked(front, i, p);
      }
    }
  }

  lemma {:induction false} ProvidersMeaning(d: seq<Detail>)
    ensures |Providers(d)| == |d| && forall i :: 0 <= i < |d| ==> Providers(d)[i] == d[i].provider
  {
    if d != [] {
      ProvidersMeaning(d[..|d| - 1]);
    }
  }

  /** The first of the four stable providers that has a record, or the provider of the
      first record. */
  ghost predicate Stable(details: seq<Detail>, first: Detail, p: string) {
    if HasSource(details, "AV-LEAGUE") then p == "AV-LEAGUE"
    else if HasSource(details, "Gfriends") then p == "Gfriends"
    else if HasSource(details, "XsList") then p == "XsList"
    else if HasSource(details, "Minnano-AV") then p == "Minnano-AV"
    else p == first.provider
  }

  /** The id and home page of the merged record are those of the stable provider. */
  lemma IdMeaning(x: Texts, order: seq<string>, name: string, details: seq<Detail>) returns (p: string)
    requires details != [] && Sorted(order, details) != []
    ensures var m := MergedFrom(x, name, Sorted(order, details));
            && Stable(details, Sorted(order, details)[0], p)
            && p in m.externalIds && m.id == p + ":" + m.externalIds[p]
            && m.homepage == (if p in m.urls then m.urls[p] else "")
  {
    var d := Sorted(order, details);
    p := Anchor(d);
    AnchorIsStable(order, details, d);
  }

  /** The ids, links and sources of the merged record: of several records of one provider
      the last one counts, for links the last one that has a home page. */
  lemma SourcesMeaning(x: Texts, order: seq<string>, name: string, details: seq<Detail>)
    requires details != [] && Sorted(order, details) != []
    ensures var d := Sorted(order, details);
            var m := MergedFrom(x, name, d);
            && (forall p :: p in m.externalIds <==> HasSource(details, p))
            && (forall p :: IdOfLast(d, m.externalIds, p) && LinkOfLast(d, m.urls, p))
            && |m.sources| == |d| && (forall i :: 0 <= i < |d| ==> m.sources[i] == d[i].provider)
  {
    var d := Sorted(order, details);
    forall p ensures p in Ids(d) <==> HasSource(details, p) {
      SourceHasId(order, details, p);
    }
    forall p ensures IdOfLast(d, Ids(d), p) && LinkOfLast(d, Urls(d), p) {
      LastIds(d, p);
      LastLinks(d, p);
    }
    ProvidersMeaning(d);
  }

  lemma SourceHasId(order: seq<string>, details: seq<Detail>, q: string)
    ensures q in Ids(Sorted(order, details)) <==> HasSource(details, q)
  {
    var d := Sorted(order, details);
    SortedMeaning(order, details);
    IdsMeaning(d, q);
    if e :| e in details && e.provider == q {
      SameMembers(d, details, e);
      var i :| 0 <= i < |d| && d[i] == e;
    }
    if i :| 0 <= i < |d| && d[i].provider == q {
      SameMembers(d, details, d[i]);
    }
  }

  lemma AnchorIsStable(order: seq<string>, details: seq<Detail>, d: seq<Detail>)
    requires d != [] && d == Sorted(order, details)
    ensures Stable(details, d[0], Anchor(d))
  {
    var ids := Ids(d);
    SourceHasId(order, details, "AV-LEAGUE");
    SourceHasId(order, details, "Gfriends");
    SourceHasId(order, details, "XsList");
    SourceHasId(order, details, "Minnano-AV");
    assert STABLE == ["AV-LEAGUE"] + (["Gfriends"] + (["XsList"] + ["Minnano-AV"]));
    StableCons(ids, d, "AV-LEAGUE", ["Gfriends"] + (["XsList"] + ["Minnano-AV"]));
    StableCons(ids, d, "Gfriends", ["XsList"] + ["Minnano-AV"]);
    StableCons(ids, d, "XsList", ["Minnano-AV"]);
    StableCons(ids, d, "Minnano-AV", []);
    assert ["Minnano-AV"] + [] == ["Minnano-AV"];
  }

  lemma StableCons(ids: map<string, string>, d: seq<Detail>, p: string, rest: seq<string>)
    requires d != []
    ensures StableProvider(ids, d, [p] + rest) == if p in ids then p else StableProvider(ids, d, rest)
    ensures StableProvider(ids, d, []) == d[0].provider
  {
    assert ([p] + rest)[1..] == rest;
  }
}
