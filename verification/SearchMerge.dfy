/** SearchMovieAll of engine/movie.go: the answers of all providers, in the order
    they arrive, with the database's rows behind them, become one ranked list. */
module SearchMerge {
  import opened Connectivity
  import opened Options
  import opened OrderedSets
  import opened WeightedSlices

  datatype MovieResult = MovieResult(id: string, number: string, title: string, provider: string, homepage: string,
                                     rest: string)
  {
    predicate IsValid() {
      id != "" && number != "" && title != "" && provider != "" && homepage != ""
    }
  }

  /** The hash of the result set: provider and id run together. */
  function Key(r: MovieResult): string {
    r.provider + r.id
  }

  /** An answer is a list of results or an error. */
  datatype Answer = Results(results: seq<MovieResult>) | Failed

  datatype Error = NoError | InvalidKeyword | InfoNotFound

  /** The registered providers by name, with their priority, and the similarity of
      the keyword to a number. */
  datatype Engine = Engine(priority: string -> Option<real>, similarity: (string, string) -> real)

  function Found(a: Answer): seq<MovieResult> {
    if a.Results? then a.results else []
  }

  /** What the receiving loop has appended after the first n arrivals. */
  function Gathered(answers: seq<Answer>, arrival: seq<nat>, n: nat): seq<MovieResult>
    requires n <= |arrival| && forall i :: 0 <= i < |arrival| ==> arrival[i] < |answers|
  {
    if n == 0 then [] else Gathered(answers, arrival, n - 1) + Found(answers[arrival[n - 1]])
  }

  /** Every provider answers once, in some order. */
  ghost predicate IsArrival(answers: seq<Answer>, arrival: seq<nat>) {
    && |arrival| == |answers|
    && (forall i :: 0 <= i < |arrival| ==> arrival[i] < |answers|)
    && (forall i, j :: 0 <= i < j < |arrival| ==> arrival[i] != arrival[j])
  }

  function Rows(fallback: bool, db: Option<seq<MovieResult>>): seq<MovieResult> {
    if fallback && db.Some? then db.value else []
  }

  predicate Kept(e: Engine, r: MovieResult) {
    r.IsValid() && e.priority(r.provider).Some?
  }

  function Score(e: Engine, keyword: string, r: MovieResult): real {
    if e.priority(r.provider).Some? then e.similarity(keyword, r.number) * e.priority(r.provider).value else 0.0
  }

  /** The result is stored under its key, and kept. */
  predicate Keeps(e: Engine, stored: map<string, MovieResult>, r: MovieResult) {
    Kept(e, r) && Key(r) in stored && stored[Key(r)] == r
  }

  /** A ranked list of the results a key map stores: the kept ones, each once, none
      scored above the one before it. */
  ghost predicate Ranks(e: Engine, keyword: string, stored: map<string, MovieResult>, results: seq<MovieResult>) {
    && (forall r :: r in results <==> Keeps(e, stored, r))
    && (forall i, j :: 0 <= i < j < |results| ==> Key(results[i]) != Key(results[j]))
    && (forall i, j :: 0 <= i < j < |results| ==> Score(e, keyword, results[i]) >= Score(e, keyword, results[j]))
  }

  /** Results of equal score keep the order in which their keys were first gathered. */
  ghost predicate TiesKeepOrder(e: Engine, keyword: string, all: seq<MovieResult>, results: seq<MovieResult>) {
    AddAllWellKeyed(Key, Ordered([], map[]), all);
    var kept := Filtered(e, Values(Keyed(Key, all)));
    exists perm :: StableOrder(Scores(e, keyword, kept), perm) && Arranged(kept, results, perm)
  }

  // ---- what a search returns, in terms of the results gathered ----

  /** all[i] is the last result gathered with its provider and id run together. */
  ghost predicate LastOfItsKind(all: seq<MovieResult>, i: int) {
    && 0 <= i < |all|
    && forall j :: i < j < |all| ==> all[j].provider + all[j].id != all[i].provider + all[i].id
  }

  /** Complete metadata from a registered provider. */
  predicate Wanted(e: Engine, r: MovieResult) {
    && r.id != "" && r.number != "" && r.title != "" && r.provider != "" && r.homepage != ""
    && e.priority(r.provider).Some?
  }

  /** Exactly the wanted results that no later one replaces are returned, each once. */
  ghost predicate Selected(e: Engine, all: seq<MovieResult>, results: seq<MovieResult>) {
    && (forall r :: r in results <==> Wanted(e, r) && exists i :: LastOfItsKind(all, i) && all[i] == r)
    && (forall i, j :: 0 <= i < j < |results| ==>
          results[i].provider + results[i].id != results[j].provider + results[j].id)
  }

  /** Result a is gathered first of its kind before any of the kind of b. */
  ghost predicate GatheredBefore(all: seq<MovieResult>, a: MovieResult, b: MovieResult) {
    exists i :: 0 <= i < |all| && all[i].provider + all[i].id == a.provider + a.id
                && forall j :: 0 <= j <= i ==> all[j].provider + all[j].id != b.provider + b.id
  }

  /** a may stand before b: it is more similar to the keyword, weighed by the priority of
      its provider, or as much and gathered before. */
  ghost predicate RankedBefore(e: Engine, keyword: string, all: seq<MovieResult>, a: MovieResult, b: MovieResult) {
    && e.priority(a.provider).Some? && e.priority(b.provider).Some?
    && var x, y := e.similarity(keyword, a.number) * e.priority(a.provider).value,
                   e.similarity(keyword, b.number) * e.priority(b.provider).value;
       x > y || (x == y && GatheredBefore(all, a, b))
  }

  ghost predicate Ranking(e: Engine, keyword: string, all: seq<MovieResult>, results: seq<MovieResult>) {
    forall i, j :: 0 <= i < j < |results| ==> RankedBefore(e, keyword, all, results[i], results[j])
  }

  /** Some provider answered with the result. */
  ghost predicate Answered(answers: seq<Answer>, r: MovieResult) {
    exists i :: 0 <= i < |answers| && answers[i].Results? && r in answers[i].results
  }

  ghost predicate NobodyAnswered(answers: seq<Answer>) {
    forall r :: !Answered(answers, r)
  }

  /** arrival is the order the channel delivers the answers in; keyword is trimmed. */
  method SearchMovieAll(e: Engine, keyword: string, fallback: bool, answers: seq<Answer>, arrival: seq<nat>,
                        db: Option<seq<MovieResult>>)
    returns (results: seq<MovieResult>, err: Error)
    requires IsArrival(answers, arrival)
    ensures var all := Gathered(answers, arrival, |arrival|) + Rows(fallback, db);
            if keyword == "" then results == [] && err == InvalidKeyword
            else if all == [] then results == [] && err == InfoNotFound
            else err == NoError && Ranks(e, keyword, Keyed(Key, all).m, results)
                 && Selected(e, all, results) && Ranking(e, keyword, all, results)
    // every result was answered, or is a row when rows are asked for
    ensures forall r :: r in results ==> Answered(answers, r) || (fallback && db.Some? && r in db.value)
    // a row is returned unless a later row replaces it
    ensures keyword != "" && fallback && db.Some? ==>
              forall i :: LastOfItsKind(db.value, i) && Wanted(e, db.value[i]) ==> db.value[i] in results
    // nothing is found only when nobody answered with a result and there is no row
    ensures err == InfoNotFound <==>
              keyword != "" && NobodyAnswered(answers) && !(fallback && db.Some? && db.value != [])
  {
    if keyword == "" {
      return [], InvalidKeyword;
    }
    results := Receive(answers, arrival);
    ghost var gathered, rows := results, Rows(fallback, db);
    AnswersGathered(answers, arrival);
    err := NoError;
    // the deferred functions, the last registered first
    if fallback && db.Some? && |db.value| > 0 {
      err := NoError;
      results := results + db.value;
    }
    assert results == Gathered(answers, arrival, |arrival|) + Rows(fallback, db);
    if |results| == 0 {
      return [], InfoNotFound;
    }
    results := Finish(e, keyword, results);
    RowsReturned(e, gathered, rows, results);
  }

  lemma RowsReturned(e: Engine, gathered: seq<MovieResult>, rows: seq<MovieResult>, results: seq<MovieResult>)
    requires Selected(e, gathered + rows, results)
    ensures forall i :: LastOfItsKind(rows, i) && Wanted(e, rows[i]) ==> rows[i] in results
    ensures forall r :: r in results ==> r in gathered || r in rows
  {
    forall i | LastOfItsKind(rows, i) && Wanted(e, rows[i]) ensures rows[i] in results {
      assert (gathered + rows)[|gathered| + i] == rows[i] && LastOfItsKind(gathered + rows, |gathered| + i);
    }
  }

  lemma {:induction false} GatheredFrom(answers: seq<Answer>, arrival: seq<nat>, n: nat, r: MovieResult)
    requires IsArrival(answers, arrival) && n <= |arrival|
    ensures r in Gathered(answers, arrival, n) <==> exists i :: 0 <= i < n && r in Found(answers[arrival[i]])
  {
    if n > 0 {
      GatheredFrom(answers, arrival, n - 1, r);
    }
  }

  lemma AnswersGathered(answers: seq<Answer>, arrival: seq<nat>)
    requires IsArrival(answers, arrival)
    ensures forall r :: r in Gathered(answers, arrival, |arrival|) <==> Answered(answers, r)
    ensures Gathered(answers, arrival, |arrival|) == [] <==> NobodyAnswered(answers)
  {
    var all := Gathered(answers, arrival, |arrival|);
    forall r ensures r in all <==> Answered(answers, r) {
      GatheredFrom(answers, arrival, |arrival|, r);
      if Answered(answers, r) {
        var p :| 0 <= p < |answers| && answers[p].Results? && r in answers[p].results;
        EveryoneArrives(answers, arrival, p);
      }
    }
    assert all != [] ==> all[0] in all;
  }

  /** The loop over the channel in searchMovieAll: failed answers are dropped. */
  method Receive(answers: seq<Answer>, arrival: seq<nat>) returns (results: seq<MovieResult>)
    requires IsArrival(answers, arrival)
    ensures results == Gathered(answers, arrival, |arrival|)
  {
    results := [];
    for i := 0 to |arrival|
      invariant results == Gathered(answers, arrival, i)
    {
      var resp := answers[arrival[i]];
      if resp.Results? {
        results := results + resp.results;
      }
    }
  }

  /** The first deferred function: remove duplicates, filter, weigh, sort. */
  method Finish(e: Engine, keyword: string, all: seq<MovieResult>) returns (results: seq<MovieResult>)
    ensures Ranks(e, keyword, Keyed(Key, all).m, results)
    ensures Selected(e, all, results) && Ranking(e, keyword, all, results)
  {
    var msr := new OrderedSet(Key);
    msr.Add(all);
    var distinct := msr.AsSlice();
    ghost var stored := Keyed(Key, all);
    AddAllWellKeyed(Key, Ordered([], map[]), all);
    forall k | k in stored.m ensures Key(stored.m[k]) == k {
      KeyedMeaning(Key, all, k);
    }
    DistinctValues(stored);
    FilteredMeaning(e, distinct);
    var ps := Weigh(e, keyword, distinct);
    ghost var before := ps.objects[..];
    ghost var perm := ps.SortStable();
    results := ps.objects[..];
    RankedBySort(e, keyword, stored.m, distinct, before, results, perm);
    SelectedByRank(e, keyword, all, results);
    assert TiesKeepOrder(e, keyword, all, results);
    RankingByRank(e, keyword, all, results);
  }

  lemma SelectedByRank(e: Engine, keyword: string, all: seq<MovieResult>, results: seq<MovieResult>)
    requires Ranks(e, keyword, Keyed(Key, all).m, results)
    ensures Selected(e, all, results)
  {
    forall r ensures r in results <==> Wanted(e, r) && exists i :: LastOfItsKind(all, i) && all[i] == r {
      KeyedMeaning(Key, all, Key(r));
      if i :| LastOfItsKind(all, i) && all[i] == r {
        assert Key(all[i]) == Key(r);
      }
      if Keeps(e, Keyed(Key, all).m, r) {
        var i :| 0 <= i < |all| && Key(all[i]) == Key(r) && Keyed(Key, all).m[Key(r)] == all[i]
                 && forall j :: i < j < |all| ==> Key(all[j]) != Key(r);
        assert LastOfItsKind(all, i);
      }
    }
    forall i, j | 0 <= i < j < |results|
      ensures results[i].provider + results[i].id != results[j].provider + results[j].id
    {
      assert Key(results[i]) != Key(results[j]);
    }
  }

  /** What the filter keeps stands in the same order. */
  lemma {:induction false} FilteredOrder(e: Engine, s: seq<MovieResult>, k: nat, l: nat) returns (a: nat, b: nat)
    requires k < l < |Filtered(e, s)|
    ensures a < b < |s| && s[a] == Filtered(e, s)[k] && s[b] == Filtered(e, s)[l]
  {
    var front, n := s[..|s| - 1], |s| - 1;
    if l < |Filtered(e, front)| {
      a, b := FilteredOrder(e, front, k, l);
    } else {
      b := n;
      FilteredMeaning(e, front);
      assert Filtered(e, front)[k] in front;
      a :| 0 <= a < |front| && front[a] == Filtered(e, front)[k];
    }
  }

  lemma KeptInOrder(e: Engine, all: seq<MovieResult>, k: nat, l: nat)
    requires WellKeyed(Keyed(Key, all))
    requires k < l < |Filtered(e, Values(Keyed(Key, all)))|
    ensures var kept := Filtered(e, Values(Keyed(Key, all))); GatheredBefore(all, kept[k], kept[l])
  {
    var o := Keyed(Key, all);
    var a, b := FilteredOrder(e, Values(o), k, l);
    OrderMeaning(Key, all, a, b);
    KeyedMeaning(Key, all, o.order[a]);
    KeyedMeaning(Key, all, o.order[b]);
    assert o.order[a] in o.m && o.order[b] in o.m;
    assert Key(Values(o)[a]) == o.order[a] && Key(Values(o)[b]) == o.order[b];
    var i :| 0 <= i < |all| && Key(all[i]) == o.order[a] && forall j :: 0 <= j <= i ==> Key(all[j]) != o.order[b];
  }

  lemma RankingByRank(e: Engine, keyword: string, all: seq<MovieResult>, results: seq<MovieResult>)
    requires Ranks(e, keyword, Keyed(Key, all).m, results) && TiesKeepOrder(e, keyword, all, results)
    ensures Ranking(e, keyword, all, results)
  {
    AddAllWellKeyed(Key, Ordered([], map[]), all);
    var kept := Filtered(e, Values(Keyed(Key, all)));
    var perm :| StableOrder(Scores(e, keyword, kept), perm) && Arranged(kept, results, perm);
    forall i, j | 0 <= i < j < |results| ensures RankedBefore(e, keyword, all, results[i], results[j]) {
      assert results[i] in results && results[j] in results;
      assert Before(Scores(e, keyword, kept), perm[i], perm[j]);
      if Score(e, keyword, results[i]) == Score(e, keyword, results[j]) {
        KeptInOrder(e, all, perm[i], perm[j]);
      }
    }
  }

  method Weigh(e: Engine, keyword: string, distinct: seq<MovieResult>) returns (ps: WeightedSlice<MovieResult>)
    ensures ps.Valid() && fresh(ps) && fresh(ps.objects) && fresh(ps.weights)
    ensures ps.objects[..] == Filtered(e, distinct)
    ensures ps.weights[..] == Scores(e, keyword, ps.objects[..])
  {
    var objects := new MovieResult[0];
    var weights := new real[0];
    ps := new WeightedSlice(objects, weights);
    for i := 0 to |distinct|
      invariant ps.Valid() && fresh(ps) && fresh(ps.objects) && fresh(ps.weights)
      invariant ps.objects[..] == Filtered(e, distinct[..i])
      invariant ps.weights[..] == Scores(e, keyword, ps.objects[..])
    {
      var result := distinct[i];
      FilteredNext(e, distinct, i);
      if result.IsValid() && e.priority(result.provider).Some? {
        var priority := e.similarity(keyword, result.number) * e.priority(result.provider).value;
        assert priority == Score(e, keyword, result);
        ghost var os := ps.objects[..];
        ps.Append(result, priority);
        assert ps.objects[..] == os + [result] && ps.weights[..] == Scores(e, keyword, os) + [priority];
      }
    }
    assert distinct[..|distinct|] == distinct;
  }

  lemma FilteredNext(e: Engine, s: seq<MovieResult>, i: nat)
    requires i < |s|
    ensures Filtered(e, s[..i + 1]) == Filtered(e, s[..i]) + if Kept(e, s[i]) then [s[i]] else []
  {
    assert s[..i + 1][..i] == s[..i];
  }

  function Filtered(e: Engine, s: seq<MovieResult>): seq<MovieResult> {
    if s == [] then []
    else Filtered(e, s[..|s| - 1]) + if Kept(e, s[|s| - 1]) then [s[|s| - 1]] else []
  }

  function Scores(e: Engine, keyword: string, s: seq<MovieResult>): (w: seq<real>)
    ensures |w| == |s| && forall i :: 0 <= i < |w| ==> w[i] == Score(e, keyword, s[i])
  {
    seq(|s|, i requires 0 <= i < |s| => Score(e, keyword, s[i]))
  }

  ghost predicate DistinctKeys(s: seq<MovieResult>) {
    forall i, j :: 0 <= i < j < |s| ==> Key(s[i]) != Key(s[j])
  }

  lemma {:induction false} FilteredMeaning(e: Engine, s: seq<MovieResult>)
    ensures forall r :: r in Filtered(e, s) <==> Kept(e, r) && r in s
    ensures DistinctKeys(s) ==> DistinctKeys(Filtered(e, s))
  {
    if s != [] {
      var front, last := s[..|s| - 1], s[|s| - 1];
      FilteredMeaning(e, front);
      assert s == front + [last];
      if DistinctKeys(s) {
        forall i | 0 <= i < |Filtered(e, front)| ensures Key(Filtered(e, front)[i]) != Key(last) {
          assert Filtered(e, front)[i] in front;
        }
      }
    }
  }

  lemma DistinctValues(o: Ordered<string, MovieResult>)
    requires WellKeyed(o) && forall k :: k in o.m ==> Key(o.m[k]) == k
    ensures DistinctKeys(Values(o))
    ensures forall r :: r in Values(o) <==> Key(r) in o.m && o.m[Key(r)] == r
  {
    forall r ensures r in Values(o) <==> Key(r) in o.m && o.m[Key(r)] == r {
      if Key(r) in o.m && o.m[Key(r)] == r {
        var i :| 0 <= i < |o.order| && o.order[i] == Key(r);
        assert Values(o)[i] == r;
      }
    }
  }

  lemma RankedBySort(e: Engine, keyword: string, stored: map<string, MovieResult>, distinct: seq<MovieResult>,
                     before: seq<MovieResult>, results: seq<MovieResult>, perm: seq<nat>)
    requires DistinctKeys(before) && forall r :: r in before <==> Kept(e, r) && r in distinct
    requires forall r :: r in distinct <==> Key(r) in stored && stored[Key(r)] == r
    requires StableOrder(Scores(e, keyword, before), perm) && Arranged(before, results, perm)
    ensures Ranks(e, keyword, stored, results)
  {
    var w := Scores(e, keyword, before);
    forall r ensures r in results <==> r in before {
      if r in before {
        var k :| 0 <= k < |before| && before[k] == r;
        Covers(w, perm, k);
        var i :| 0 <= i < |perm| && perm[i] == k;
        assert results[i] == r;
      }
    }
    forall i, j | 0 <= i < j < |results|
      ensures Key(results[i]) != Key(results[j]) && Score(e, keyword, results[i]) >= Score(e, keyword, results[j])
    {
      assert Before(w, perm[i], perm[j]);
    }
  }

  // ---- the order of arrival ----

  ghost predicate AgreeOn(answers: seq<Answer>, i: nat, j: nat, k: string) {
    k in KeyedBy(answers, i) && k in KeyedBy(answers, j) ==> KeyedBy(answers, i)[k] == KeyedBy(answers, j)[k]
  }

  /** Two providers never store different results under one key. */
  ghost predicate Agree(answers: seq<Answer>) {
    forall i, j, k :: AgreeOn(answers, i, j, k)
  }

  function KeyedBy(answers: seq<Answer>, i: int): map<string, MovieResult> {
    if 0 <= i < |answers| then Keyed(Key, Found(answers[i])).m else map[]
  }

  function MapAfter(answers: seq<Answer>, arrival: seq<nat>, n: nat): map<string, MovieResult>
    requires n <= |arrival| && forall i :: 0 <= i < |arrival| ==> arrival[i] < |answers|
  {
    Keyed(Key, Gathered(answers, arrival, n)).m
  }

  function Overlay(maps: seq<map<string, MovieResult>>): map<string, MovieResult> {
    if maps == [] then map[] else Overlay(maps[..|maps| - 1]) + maps[|maps| - 1]
  }

  function InOrder(answers: seq<Answer>, arrival: seq<nat>, n: nat): (r: seq<map<string, MovieResult>>)
    requires n <= |arrival|
    ensures |r| == n && forall i :: 0 <= i < n ==> r[i] == KeyedBy(answers, arrival[i])
  {
    seq(n, i requires 0 <= i < n => KeyedBy(answers, arrival[i]))
  }

  /** Each arrival lays the provider's own map over what was gathered before. */
  lemma {:induction false} GatheredInOrder(answers: seq<Answer>, arrival: seq<nat>, n: nat)
    requires IsArrival(answers, arrival) && n <= |arrival|
    ensures MapAfter(answers, arrival, n) == Overlay(InOrder(answers, arrival, n))
  {
    if n > 0 {
      GatheredInOrder(answers, arrival, n - 1);
      KeyedConcat(Key, Gathered(answers, arrival, n - 1), Found(answers[arrival[n - 1]]));
      assert InOrder(answers, arrival, n)[..n - 1] == InOrder(answers, arrival, n - 1);
    }
  }

  /** A key is stored when some map has it; the last map decides the value. */
  lemma {:induction false} OverlayKeys(maps: seq<map<string, MovieResult>>, k: string)
    ensures k in Overlay(maps) <==> exists i :: 0 <= i < |maps| && k in maps[i]
    ensures maps != [] && k in maps[|maps| - 1] ==> Overlay(maps)[k] == maps[|maps| - 1][k]
  {
    if maps != [] {
      OverlayKeys(maps[..|maps| - 1], k);
    }
  }

  /** When the maps agree on a key, any of them that has it decides the value. */
  lemma {:induction false} OverlayAgreed(maps: seq<map<string, MovieResult>>, k: string, v: MovieResult)
    requires forall i :: 0 <= i < |maps| && k in maps[i] ==> maps[i][k] == v
    ensures k in Overlay(maps) ==> Overlay(maps)[k] == v
  {
    if maps != [] {
      OverlayAgreed(maps[..|maps| - 1], k, v);
    }
  }

  lemma EveryoneArrives(answers: seq<Answer>, arrival: seq<nat>, p: nat)
    requires IsArrival(answers, arrival) && p < |answers|
    ensures exists i :: 0 <= i < |arrival| && arrival[i] == p
  {
    var used := Arrived(answers, arrival, |arrival|);
    if p !in used {
      assert used <= Below(|answers|) - {p};
      Smaller(used, Below(|answers|) - {p});
    }
  }

  lemma {:induction false} Arrived(answers: seq<Answer>, arrival: seq<nat>, n: nat) returns (used: set<nat>)
    requires IsArrival(answers, arrival) && n <= |arrival|
    ensures |used| == n && forall x :: x in used <==> exists i :: 0 <= i < n && arrival[i] == x
  {
    if n == 0 {
      used := {};
    } else {
      var before := Arrived(answers, arrival, n - 1);
      used := before + {arrival[n - 1]};
    }
  }

  /** When the providers agree on shared keys, the stored map does not depend on the
      order of arrival. */
  lemma SameMap(answers: seq<Answer>, arrival: seq<nat>, arrival': seq<nat>)
    requires IsArrival(answers, arrival) && IsArrival(answers, arrival') && Agree(answers)
    ensures MapAfter(answers, arrival, |arrival|) == MapAfter(answers, arrival', |arrival'|)
  {
    var n := |arrival|;
    var maps, maps' := InOrder(answers, arrival, n), InOrder(answers, arrival', n);
    GatheredInOrder(answers, arrival, n);
    GatheredInOrder(answers, arrival', n);
    forall k ensures k in Overlay(maps) <==> k in Overlay(maps') {
      if k in Overlay(maps) { SubKeys(answers, arrival, arrival', k); }
      if k in Overlay(maps') { SubKeys(answers, arrival', arrival, k); }
    }
    forall k | k in Overlay(maps) ensures Overlay(maps)[k] == Overlay(maps')[k] {
      OverlayKeys(maps, k);
      var p :| 0 <= p < n && k in maps[p];
      var v := maps[p][k];
      forall i | 0 <= i < n
        ensures (k in maps[i] ==> maps[i][k] == v) && (k in maps'[i] ==> maps'[i][k] == v)
      {
        assert AgreeOn(answers, arrival[i], arrival[p], k) && AgreeOn(answers, arrival'[i], arrival[p], k);
      }
      OverlayAgreed(maps, k, v);
      OverlayAgreed(maps', k, v);
    }
  }

  lemma SubKeys(answers: seq<Answer>, arrival: seq<nat>, arrival': seq<nat>, k: string)
    requires IsArrival(answers, arrival) && IsArrival(answers, arrival')
    requires k in Overlay(InOrder(answers, arrival, |arrival|))
    ensures k in Overlay(InOrder(answers, arrival', |arrival'|))
  {
    var maps, maps' := InOrder(answers, arrival, |arrival|), InOrder(answers, arrival', |arrival'|);
    OverlayKeys(maps, k);
    var i :| 0 <= i < |maps| && k in maps[i];
    EveryoneArrives(answers, arrival', arrival[i]);
    var j :| 0 <= j < |arrival'| && arrival'[j] == arrival[i];
    assert k in maps'[j];
    OverlayKeys(maps', k);
  }

  /** Two rankings of one map hold the same results, and score alike at every rank:
      they differ only in the order among equal scores. */
  lemma RanksAlike(e: Engine, keyword: string, stored: map<string, MovieResult>,
                   a: seq<MovieResult>, b: seq<MovieResult>)
    requires Ranks(e, keyword, stored, a) && Ranks(e, keyword, stored, b)
    ensures (forall r :: r in a <==> r in b) && |a| == |b|
    ensures forall i :: 0 <= i < |a| ==> Score(e, keyword, a[i]) == Score(e, keyword, b[i])
  {
    FirstElements(a, |a|);
    FirstElements(b, |b|);
    assert Elements(a, |a|) == (set r | r in a) == (set r | r in b) == Elements(b, |b|);
    forall i | 0 <= i < |a| ensures Score(e, keyword, a[i]) == Score(e, keyword, b[i]) {
      NotAbove(e, keyword, stored, a, b, i);
      NotAbove(e, keyword, stored, b, a, i);
    }
  }

  ghost function Elements(s: seq<MovieResult>, n: nat): set<MovieResult>
    requires n <= |s|
  {
    set i | 0 <= i < n :: s[i]
  }

  lemma ElementsSnoc(s: seq<MovieResult>, n: nat)
    requires 0 < n <= |s| && DistinctKeys(s)
    ensures Elements(s, n) == Elements(s, n - 1) + {s[n - 1]} && s[n - 1] !in Elements(s, n - 1)
  {
    forall i | 0 <= i < n - 1 ensures s[i] != s[n - 1] {
      assert Key(s[i]) != Key(s[n - 1]);
    }
  }

  lemma {:induction false} FirstElements(s: seq<MovieResult>, n: nat)
    requires n <= |s| && DistinctKeys(s)
    ensures |Elements(s, n)| == n
  {
    if n > 0 {
      FirstElements(s, n - 1);
      ElementsSnoc(s, n);
    }
  }

  lemma NotAbove(e: Engine, keyword: string, stored: map<string, MovieResult>,
                 a: seq<MovieResult>, b: seq<MovieResult>, i: nat)
    requires Ranks(e, keyword, stored, a) && Ranks(e, keyword, stored, b) && i < |a| && i < |b|
    ensures Score(e, keyword, a[i]) <= Score(e, keyword, b[i])
  {
    if Score(e, keyword, a[i]) > Score(e, keyword, b[i]) {
      forall r | r in Elements(a, i + 1) ensures r in Elements(b, i) {
        var j :| 0 <= j <= i && a[j] == r;
        assert r in a;
        var l :| 0 <= l < |b| && b[l] == r;
        assert Score(e, keyword, a[j]) >= Score(e, keyword, a[i]);
        assert l < i;
      }
      FirstElements(a, i + 1);
      FirstElements(b, i);
      Smaller(Elements(a, i + 1), Elements(b, i));
    }
  }

  // ---- the order of arrival and the results ----

  /** The map a search stores: the answers in order of arrival, under the rows. */
  function StoredMap(answers: seq<Answer>, arrival: seq<nat>, rows: seq<MovieResult>): map<string, MovieResult>
    requires forall i :: 0 <= i < |arrival| ==> arrival[i] < |answers|
  {
    Keyed(Key, Gathered(answers, arrival, |arrival|) + rows).m
  }

  ghost predicate SameKept(e: Engine, m: map<string, MovieResult>, m': map<string, MovieResult>) {
    forall r :: Keeps(e, m, r) <==> Keeps(e, m', r)
  }

  /** No row stands under the key, and two answers store different results under it, at
      least one of which would be kept. */
  ghost predicate Clash(e: Engine, answers: seq<Answer>, rows: seq<MovieResult>, i: nat, j: nat, k: string) {
    && k !in Keyed(Key, rows).m && k in KeyedBy(answers, i) && k in KeyedBy(answers, j)
    && KeyedBy(answers, i)[k] != KeyedBy(answers, j)[k]
    && (Kept(e, KeyedBy(answers, i)[k]) || Kept(e, KeyedBy(answers, j)[k]))
  }

  lemma {:induction false} OverlayFrom(maps: seq<map<string, MovieResult>>, k: string) returns (i: nat)
    requires k in Overlay(maps)
    ensures i < |maps| && k in maps[i] && Overlay(maps)[k] == maps[i][k]
  {
    if k in maps[|maps| - 1] {
      i := |maps| - 1;
    } else {
      i := OverlayFrom(maps[..|maps| - 1], k);
    }
  }

  /** Under a key that no row has, the stored result is the one some answer stores. */
  lemma StoredFrom(answers: seq<Answer>, arrival: seq<nat>, rows: seq<MovieResult>, k: string) returns (i: nat)
    requires IsArrival(answers, arrival) && k in StoredMap(answers, arrival, rows) && k !in Keyed(Key, rows).m
    ensures k in KeyedBy(answers, i) && StoredMap(answers, arrival, rows)[k] == KeyedBy(answers, i)[k]
  {
    KeyedConcat(Key, Gathered(answers, arrival, |arrival|), rows);
    GatheredInOrder(answers, arrival, |arrival|);
    var p := OverlayFrom(InOrder(answers, arrival, |arrival|), k);
    i := arrival[p];
  }

  /** Which keys are stored does not depend on the order of arrival. */
  lemma SameKeys(answers: seq<Answer>, arrival: seq<nat>, arrival': seq<nat>, rows: seq<MovieResult>, k: string)
    requires IsArrival(answers, arrival) && IsArrival(answers, arrival') && k in StoredMap(answers, arrival, rows)
    ensures k in StoredMap(answers, arrival', rows)
    ensures k in Keyed(Key, rows).m ==> StoredMap(answers, arrival, rows)[k] == StoredMap(answers, arrival', rows)[k]
  {
    KeyedConcat(Key, Gathered(answers, arrival, |arrival|), rows);
    KeyedConcat(Key, Gathered(answers, arrival', |arrival'|), rows);
    if k !in Keyed(Key, rows).m {
      GatheredInOrder(answers, arrival, |arrival|);
      GatheredInOrder(answers, arrival', |arrival'|);
      SubKeys(answers, arrival, arrival', k);
    }
  }

  lemma KeptStays(e: Engine, answers: seq<Answer>, rows: seq<MovieResult>, arrival: seq<nat>, arrival': seq<nat>,
                  r: MovieResult)
    requires IsArrival(answers, arrival) && IsArrival(answers, arrival')
    requires forall i, j, k :: !Clash(e, answers, rows, i, j, k)
    requires Keeps(e, StoredMap(answers, arrival, rows), r)
    ensures Keeps(e, StoredMap(answers, arrival', rows), r)
  {
    var k := Key(r);
    SameKeys(answers, arrival, arrival', rows, k);
    if k !in Keyed(Key, rows).m {
      var i := StoredFrom(answers, arrival, rows, k);
      var j := StoredFrom(answers, arrival', rows, k);
      assert !Clash(e, answers, rows, i, j, k);
    }
  }

  lemma RanksOn(e: Engine, keyword: string, m: map<string, MovieResult>, m': map<string, MovieResult>,
                results: seq<MovieResult>)
    requires Ranks(e, keyword, m, results) && SameKept(e, m, m')
    ensures Ranks(e, keyword, m', results)
  {
  }

  /** Without a clash the results of a search do not depend on the order of arrival,
      except among equal scores. */
  lemma ArrivalOrderIrrelevant(e: Engine, keyword: string, answers: seq<Answer>, rows: seq<MovieResult>,
                               arrival: seq<nat>, arrival': seq<nat>, a: seq<MovieResult>, b: seq<MovieResult>)
    requires IsArrival(answers, arrival) && IsArrival(answers, arrival')
    requires forall i, j, k :: !Clash(e, answers, rows, i, j, k)
    requires Ranks(e, keyword, StoredMap(answers, arrival, rows), a)
    requires Ranks(e, keyword, StoredMap(answers, arrival', rows), b)
    ensures (forall r :: r in a <==> r in b) && |a| == |b|
    ensures forall i :: 0 <= i < |a| ==> Score(e, keyword, a[i]) == Score(e, keyword, b[i])
  {
    var m, m' := StoredMap(answers, arrival, rows), StoredMap(answers, arrival', rows);
    forall r ensures Keeps(e, m, r) <==> Keeps(e, m', r) {
      if Keeps(e, m, r) { KeptStays(e, answers, rows, arrival, arrival', r); }
      if Keeps(e, m', r) { KeptStays(e, answers, rows, arrival', arrival, r); }
    }
    RanksOn(e, keyword, m', m, b);
    RanksAlike(e, keyword, m, a, b);
  }

  lemma LastDecides(answers: seq<Answer>, rows: seq<MovieResult>, p: nat, k: string) returns (arrival: seq<nat>)
    requires k in KeyedBy(answers, p) && k !in Keyed(Key, rows).m
    ensures IsArrival(answers, arrival)
    ensures k in StoredMap(answers, arrival, rows) && StoredMap(answers, arrival, rows)[k] == KeyedBy(answers, p)[k]
  {
    arrival := ComesLast(answers, p);
    KeyedConcat(Key, Gathered(answers, arrival, |arrival|), rows);
    GatheredInOrder(answers, arrival, |arrival|);
    OverlayKeys(InOrder(answers, arrival, |arrival|), k);
  }

  lemma ClashShows(e: Engine, answers: seq<Answer>, rows: seq<MovieResult>, i: nat, j: nat, k: string)
    returns (x: seq<nat>, y: seq<nat>)
    requires Clash(e, answers, rows, i, j, k)
    ensures IsArrival(answers, x) && IsArrival(answers, y)
    ensures !SameKept(e, StoredMap(answers, x, rows), StoredMap(answers, y, rows))
  {
    x := LastDecides(answers, rows, i, k);
    y := LastDecides(answers, rows, j, k);
    var r, q := KeyedBy(answers, i)[k], KeyedBy(answers, j)[k];
    KeyedMeaning(Key, Found(answers[i]), k);
    KeyedMeaning(Key, Found(answers[j]), k);
    assert Key(r) == k && Key(q) == k;
    assert Kept(e, r) ==> Keeps(e, StoredMap(answers, x, rows), r) && !Keeps(e, StoredMap(answers, y, rows), r);
    assert Kept(e, q) ==> Keeps(e, StoredMap(answers, y, rows), q) && !Keeps(e, StoredMap(answers, x, rows), q);
  }

  /** The exact condition: all orders of arrival keep the same results if and only if
      no key without a row has two different answers of which one would be kept. */
  lemma ResultsIndependentExactly(e: Engine, answers: seq<Answer>, rows: seq<MovieResult>)
    ensures (forall i, j, k :: !Clash(e, answers, rows, i, j, k)) <==>
            forall x, y :: IsArrival(answers, x) && IsArrival(answers, y) ==>
              SameKept(e, StoredMap(answers, x, rows), StoredMap(answers, y, rows))
  {
    if i, j, k :| Clash(e, answers, rows, i, j, k) {
      var x, y := ClashShows(e, answers, rows, i, j, k);
    } else {
      forall x, y | IsArrival(answers, x) && IsArrival(answers, y)
        ensures SameKept(e, StoredMap(answers, x, rows), StoredMap(answers, y, rows))
      {
        forall r ensures Keeps(e, StoredMap(answers, x, rows), r) <==> Keeps(e, StoredMap(answers, y, rows), r) {
          if Keeps(e, StoredMap(answers, x, rows), r) { KeptStays(e, answers, rows, x, y, r); }
          if Keeps(e, StoredMap(answers, y, rows), r) { KeptStays(e, answers, rows, y, x, r); }
        }
      }
    }
  }

  /** Provider "A" finds "BC", provider "AB" finds "C": their results share a key, and
      the search returns the one that arrives later. */
  lemma LaterAnswerWins(e: Engine, keyword: string)
    returns (answers: seq<Answer>, x: seq<nat>, y: seq<nat>, r: MovieResult, q: MovieResult)
    requires e.priority("A").Some? && e.priority("AB").Some?
    ensures answers == [Results([r]), Results([q])] && r.provider == "A" && q.provider == "AB"
    ensures IsArrival(answers, x) && IsArrival(answers, y)
    ensures Ranks(e, keyword, StoredMap(answers, x, []), [q])
    ensures Ranks(e, keyword, StoredMap(answers, y, []), [r])
  {
    r := MovieResult("BC", "1", "T", "A", "H", "");
    q := MovieResult("C", "2", "T", "AB", "H", "");
    answers := [Results([r]), Results([q])];
    x, y := [0, 1], [1, 0];
    assert Key(r) == "ABC" == Key(q);
    TwoResults(answers, x, r, q);
    TwoResults(answers, y, q, r);
  }

  /** Of two results with one key the second is stored. */
  lemma TwoResults(answers: seq<Answer>, arrival: seq<nat>, r: MovieResult, q: MovieResult)
    requires IsArrival(answers, arrival) && |arrival| == 2 && Key(r) == Key(q)
    requires answers[arrival[0]] == Results([r]) && answers[arrival[1]] == Results([q])
    ensures StoredMap(answers, arrival, []) == map[Key(q) := q]
  {
    assert Gathered(answers, arrival, 0) == [];
    assert Gathered(answers, arrival, 1) == [] + [r] == [r];
    assert Gathered(answers, arrival, 2) + [] == [r] + [q] == [r, q];
    var none: seq<MovieResult> := [];
    KeyedSnoc(Key, none, r);
    KeyedSnoc(Key, [r], q);
    assert none + [r] == [r] && [r] + [q] == [r, q] && Keyed(Key, none).m == map[];
  }

  /** An arrival in which provider p comes last. */
  lemma ComesLast(answers: seq<Answer>, p: nat) returns (arrival: seq<nat>)
    requires p < |answers|
    ensures IsArrival(answers, arrival) && arrival[|arrival| - 1] == p
  {
    var n := |answers|;
    arrival := seq(n, i requires 0 <= i < n => if i == n - 1 then p else if i == p then n - 1 else i);
  }

  /** Agreement is exactly what the map of the answers needs to be independent of arrival. */
  lemma AgreementIsNeeded(answers: seq<Answer>)
    ensures Agree(answers) <==>
            forall x, y :: IsArrival(answers, x) && IsArrival(answers, y) ==>
              MapAfter(answers, x, |x|) == MapAfter(answers, y, |y|)
  {
    if Agree(answers) {
      forall x, y | IsArrival(answers, x) && IsArrival(answers, y)
        ensures MapAfter(answers, x, |x|) == MapAfter(answers, y, |y|)
      {
        SameMap(answers, x, y);
      }
    } else {
      var i, j, k :| !AgreeOn(answers, i, j, k);
      var x := ComesLast(answers, i);
      var y := ComesLast(answers, j);
      GatheredInOrder(answers, x, |x|);
      GatheredInOrder(answers, y, |y|);
      OverlayKeys(InOrder(answers, x, |x|), k);
      OverlayKeys(InOrder(answers, y, |y|), k);
    }
  }
}
