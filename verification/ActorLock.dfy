/** The ordered multi-lock of Helpers/ActorCreationLock.cs: how a caller turns
    actor names into the list of semaphores it takes, and the protocol any number
    of callers run over those semaphores. */
module ActorLock {
  import opened Ordinal
  import opened Spacing

  /** A semaphore is named by the case-folded form of a normalised actor name. */
  type Key = string

  /** The culture-independent text services the code relies on. */
  datatype Text = Text(normal: string -> string, upper: char -> char)

  // ---- from names to keys ----

  function NormalizeKey(t: Text, name: string): string {
    Squeeze(t.normal(name))
  }

  function Fold(t: Text, s: string): (r: Key)
    ensures |r| == |s|
  {
    seq(|s|, i requires 0 <= i < |s| => t.upper(s[i]))
  }

  /** The class of a name: two names contend for one semaphore exactly when their
      classes are equal. */
  function KeyOf(t: Text, name: string): Key {
    Fold(t, NormalizeKey(t, name))
  }

  /** Two texts agree character by character under upper-casing. */
  ghost predicate SameUpper(t: Text, a: string, b: string) {
    |a| == |b| && forall i :: 0 <= i < |a| ==> t.upper(a[i]) == t.upper(b[i])
  }

  /** Two names stand for one actor: after Unicode normalisation their words, joined by
      single blanks, agree under upper-casing. */
  ghost predicate SameName(t: Text, a: string, b: string) {
    SameUpper(t, Join(Words(White, t.normal(a))), Join(Words(White, t.normal(b))))
  }

  lemma FoldTells(t: Text, a: string, b: string)
    ensures Fold(t, a) == Fold(t, b) <==> SameUpper(t, a, b)
  {
    if Fold(t, a) == Fold(t, b) {
      assert |a| == |b|;
      forall i | 0 <= i < |a| ensures t.upper(a[i]) == t.upper(b[i]) {
        assert Fold(t, a)[i] == Fold(t, b)[i];
      }
    }
  }

  /** Names contend for one semaphore exactly when they stand for one actor. */
  lemma OneClassExactly(t: Text, a: string, b: string)
    ensures KeyOf(t, a) == KeyOf(t, b) <==> SameName(t, a, b)
    ensures Words(White, t.normal(a)) == Words(White, t.normal(b)) ==> KeyOf(t, a) == KeyOf(t, b)
  {
    FoldTells(t, NormalizeKey(t, a), NormalizeKey(t, b));
  }

  /** Spacing makes no difference: the same words with any white space between and
      around them are one class. */
  lemma OneClassHoweverSpaced(t: Text, a: string, b: string, ws: seq<string>, gaps: seq<string>, gaps': seq<string>)
    requires |gaps| == |gaps'| == |ws| + 1 && Gaps(White, gaps) && Gaps(White, gaps')
    requires forall i :: 0 <= i < |ws| ==> Word(White, ws[i])
    requires t.normal(a) == Weave(gaps, ws) && t.normal(b) == Weave(gaps', ws)
    ensures KeyOf(t, a) == KeyOf(t, b) == Fold(t, Join(ws))
  {
    WordsOfWeave(White, gaps, ws);
    WordsOfWeave(White, gaps', ws);
  }

  function NormalizedNames(t: Text, names: seq<string>): seq<string> {
    if names == [] then []
    else (if Blank(names[0]) then [] else [NormalizeKey(t, names[0])]) + NormalizedNames(t, names[1..])
  }

  /** Distinct under case folding keeps the first name of each class. */
  function Distinct(t: Text, names: seq<string>, seen: set<Key>): seq<string> {
    if names == [] then []
    else if Fold(t, names[0]) in seen then Distinct(t, names[1..], seen)
    else [names[0]] + Distinct(t, names[1..], seen + {Fold(t, names[0])})
  }

  function Insert(t: Text, name: string, sorted: seq<string>): seq<string> {
    if sorted == [] then [name]
    else if Less(Fold(t, sorted[0]), Fold(t, name)) then [sorted[0]] + Insert(t, name, sorted[1..])
    else [name] + sorted
  }

  function OrderBy(t: Text, names: seq<string>): seq<string> {
    if names == [] then [] else Insert(t, names[0], OrderBy(t, names[1..]))
  }

  function Keys(t: Text, names: seq<string>): (r: seq<Key>)
    ensures |r| == |names| && forall i :: 0 <= i < |r| ==> r[i] == Fold(t, names[i])
  {
    seq(|names|, i requires 0 <= i < |names| => Fold(t, names[i]))
  }

  /** The semaphores AcquireAsync takes, in the order it takes them. */
  function LockList(t: Text, names: seq<string>): seq<Key> {
    Keys(t, OrderBy(t, Distinct(t, NormalizedNames(t, names), {})))
  }

  ghost function Classes(t: Text, names: seq<string>): set<Key> {
    set i | 0 <= i < |names| :: Fold(t, names[i])
  }

  ghost predicate DistinctClasses(t: Text, names: seq<string>) {
    forall i, j :: 0 <= i < j < |names| ==> Fold(t, names[i]) != Fold(t, names[j])
  }

  lemma {:induction false} DistinctMeaning(t: Text, names: seq<string>, seen: set<Key>)
    ensures DistinctClasses(t, Distinct(t, names, seen))
    ensures Classes(t, Distinct(t, names, seen)) == Classes(t, names) - seen
  {
    if names != [] {
      var rest := if Fold(t, names[0]) in seen then seen else seen + {Fold(t, names[0])};
      DistinctMeaning(t, names[1..], rest);
      ClassesOfCons(t, names[0], names[1..]);
      assert names == [names[0]] + names[1..];
      var kept := Distinct(t, names[1..], rest);
      if Fold(t, names[0]) !in seen {
        ClassesOfCons(t, names[0], kept);
        forall j | 0 <= j < |kept| ensures Fold(t, names[0]) != Fold(t, kept[j]) {
          assert Fold(t, kept[j]) in Classes(t, kept);
        }
      }
    }
  }

  lemma ClassesOfCons(t: Text, name: string, names: seq<string>)
    ensures Classes(t, [name] + names) == {Fold(t, name)} + Classes(t, names)
  {
    var all := [name] + names;
    forall k ensures k in Classes(t, all) <==> k == Fold(t, name) || k in Classes(t, names) {
      if k in Classes(t, names) {
        var i :| 0 <= i < |names| && k == Fold(t, names[i]);
        assert all[i + 1] == names[i];
      }
      assert all[0] == name;
    }
  }

  lemma {:induction false} InsertMeaning(t: Text, name: string, sorted: seq<string>)
    requires StrictlySorted(Keys(t, sorted)) && Fold(t, name) !in Classes(t, sorted)
    ensures StrictlySorted(Keys(t, Insert(t, name, sorted)))
    ensures Classes(t, Insert(t, name, sorted)) == {Fold(t, name)} + Classes(t, sorted)
  {
    ClassesOfCons(t, name, sorted);
    if sorted != [] {
      var head, rest := sorted[0], sorted[1..];
      SortedSplit(t, head, rest, sorted);
      ClassesOfCons(t, head, rest);
      if Less(Fold(t, head), Fold(t, name)) {
        InsertMeaning(t, name, rest);
        var more := Insert(t, name, rest);
        ClassesOfCons(t, head, more);
        forall j | 0 <= j < |more| ensures Less(Fold(t, head), Fold(t, more[j])) {
          assert Fold(t, more[j]) in Classes(t, more);
        }
        SortedCons(t, head, more);
      } else {
        assert Fold(t, head) in Classes(t, sorted);
        Total(Fold(t, head), Fold(t, name));
        forall j | 0 <= j < |sorted| ensures Less(Fold(t, name), Fold(t, sorted[j])) {
          if j > 0 {
            Transitive(Fold(t, name), Fold(t, head), Fold(t, rest[j - 1]));
          }
        }
        SortedCons(t, name, sorted);
      }
    }
  }

  lemma SortedSplit(t: Text, head: string, rest: seq<string>, sorted: seq<string>)
    requires sorted == [head] + rest && StrictlySorted(Keys(t, sorted))
    ensures StrictlySorted(Keys(t, rest)) && forall j :: 0 <= j < |rest| ==> Less(Fold(t, head), Fold(t, rest[j]))
  {
    assert Keys(t, sorted) == [Fold(t, head)] + Keys(t, rest);
    forall i, j | 0 <= i < j < |rest| ensures Less(Keys(t, rest)[i], Keys(t, rest)[j]) {
      assert Less(Keys(t, sorted)[i + 1], Keys(t, sorted)[j + 1]);
    }
    forall j | 0 <= j < |rest| ensures Less(Fold(t, head), Fold(t, rest[j])) {
      assert Less(Keys(t, sorted)[0], Keys(t, sorted)[j + 1]);
    }
  }

  lemma SortedCons(t: Text, name: string, names: seq<string>)
    requires StrictlySorted(Keys(t, names)) && forall j :: 0 <= j < |names| ==> Less(Fold(t, name), Fold(t, names[j]))
    ensures StrictlySorted(Keys(t, [name] + names))
  {
    var keys, all := Keys(t, names), Keys(t, [name] + names);
    assert all == [Fold(t, name)] + keys;
  }

  lemma {:induction false} OrderByMeaning(t: Text, names: seq<string>)
    requires DistinctClasses(t, names)
    ensures StrictlySorted(Keys(t, OrderBy(t, names)))
    ensures Classes(t, OrderBy(t, names)) == Classes(t, names)
  {
    if names != [] {
      var rest := names[1..];
      OrderByMeaning(t, rest);
      ClassesOfCons(t, names[0], rest);
      assert names == [names[0]] + rest;
      InsertMeaning(t, names[0], OrderBy(t, rest));
    }
  }

  ghost predicate Wants(t: Text, names: seq<string>, k: Key) {
    exists i :: 0 <= i < |names| && !Blank(names[i]) && k == KeyOf(t, names[i])
  }

  lemma {:induction false} NormalizedMeaning(t: Text, names: seq<string>, k: Key)
    ensures k in Classes(t, NormalizedNames(t, names)) <==> Wants(t, names, k)
  {
    if names != [] {
      var rest := names[1..];
      NormalizedMeaning(t, rest, k);
      ClassesOfCons(t, NormalizeKey(t, names[0]), NormalizedNames(t, rest));
      assert [] + NormalizedNames(t, rest) == NormalizedNames(t, rest);
      if Wants(t, rest, k) {
        var i :| 0 <= i < |rest| && !Blank(rest[i]) && k == KeyOf(t, rest[i]);
        assert names[i + 1] == rest[i];
      }
      if Wants(t, names, k) {
        var i :| 0 <= i < |names| && !Blank(names[i]) && k == KeyOf(t, names[i]);
        assert i > 0 ==> rest[i - 1] == names[i];
      }
    }
  }

  /** The lock list is strictly sorted, hence free of repeats, and names exactly
      the classes of the names that are not blank. */
  lemma LockListMeaning(t: Text, names: seq<string>)
    ensures StrictlySorted(LockList(t, names))
    ensures forall k :: k in LockList(t, names) <==> Wants(t, names, k)
  {
    var normal := NormalizedNames(t, names);
    DistinctMeaning(t, normal, {});
    OrderByMeaning(t, Distinct(t, normal, {}));
    var ordered := OrderBy(t, Distinct(t, normal, {}));
    forall k ensures k in LockList(t, names) <==> Wants(t, names, k) {
      NormalizedMeaning(t, names, k);
      if k in Classes(t, ordered) {
        var i :| 0 <= i < |ordered| && k == Fold(t, ordered[i]);
        assert Keys(t, ordered)[i] == k;
      }
    }
  }

  // ---- the protocol ----

  /** locks is the caller's lock list.  Acquiring: in the loop, next in line is
      locks[index]; acquired is the list the loop grows.  Holding: the lock object is
      alive.  Releasing: in the loop over the reversed list, acquired is what is still
      to be released. */
  datatype Phase =
    | Acquiring(locks: seq<Key>, index: nat, acquired: seq<Key>)
    | Holding(locks: seq<Key>, acquired: seq<Key>)
    | Releasing(locks: seq<Key>, acquired: seq<Key>)
    | Finished

  /** asked[c] is the list of names caller c came with. */
  datatype State = State(counts: map<Key, int>, callers: seq<Phase>, asked: seq<seq<string>>)

  datatype Action =
    | Arrive(names: seq<string>)
    | Take(c: nat)
    | Return(c: nat)
    | Cancel(c: nat)
    | Dispose(c: nat)
    | Put(c: nat)
    | Finish(c: nat)

  const START := State(map[], [], [])

  function WithSemaphores(counts: map<Key, int>, keys: seq<Key>): map<Key, int> {
    (map k | k in keys :: 1) + counts
  }

  predicate Enabled(s: State, a: Action) {
    match a
    case Arrive(_) => true
    case Take(c) => c < |s.callers| && s.callers[c].Acquiring? && s.callers[c].index < |s.callers[c].locks|
                    && s.callers[c].locks[s.callers[c].index] in s.counts
                    && s.counts[s.callers[c].locks[s.callers[c].index]] > 0
    case Return(c) => c < |s.callers| && s.callers[c].Acquiring? && s.callers[c].index >= |s.callers[c].locks|
    case Cancel(c) => c < |s.callers| && s.callers[c].Acquiring? && s.callers[c].index < |s.callers[c].locks|
    case Dispose(c) => c < |s.callers| && s.callers[c].Holding?
    case Put(c) => c < |s.callers| && s.callers[c].Releasing? && s.callers[c].acquired != []
                   && Last(s.callers[c].acquired) in s.counts
    case Finish(c) => c < |s.callers| && s.callers[c].Releasing? && s.callers[c].acquired == []
  }

  function Last(keys: seq<Key>): Key
    requires keys != []
  {
    keys[|keys| - 1]
  }

  function Apply(t: Text, s: State, a: Action): State
    requires Enabled(s, a)
  {
    match a
    case Arrive(names) =>
      var locks := LockList(t, names);
      State(WithSemaphores(s.counts, locks), s.callers + [Acquiring(locks, 0, [])], s.asked + [names])
    case Take(c) =>
      var p := s.callers[c];
      var k := p.locks[p.index];
      s.(counts := s.counts[k := s.counts[k] - 1],
         callers := s.callers[c := Acquiring(p.locks, p.index + 1, p.acquired + [k])])
    case Return(c) => s.(callers := s.callers[c := Holding(s.callers[c].locks, s.callers[c].acquired)])
    case Cancel(c) => s.(callers := s.callers[c := Releasing(s.callers[c].locks, s.callers[c].acquired)])
    case Dispose(c) => s.(callers := s.callers[c := Releasing(s.callers[c].locks, s.callers[c].acquired)])
    case Put(c) =>
      var p := s.callers[c];
      var k := Last(p.acquired);
      s.(counts := s.counts[k := s.counts[k] + 1],
         callers := s.callers[c := Releasing(p.locks, p.acquired[..|p.acquired| - 1])])
    case Finish(c) => s.(callers := s.callers[c := Finished])
  }

  function Held(p: Phase): seq<Key> {
    if p.Finished? then [] else p.acquired
  }

  ghost function Holders(callers: seq<Phase>, k: Key): set<nat> {
    set c: nat | c < |callers| && k in Held(callers[c])
  }

  ghost predicate PhaseOk(counts: map<Key, int>, p: Phase) {
    && StrictlySorted(Held(p))
    && (forall k :: k in Held(p) ==> k in counts)
    && (p.Acquiring? ==>
          && StrictlySorted(p.locks) && p.index <= |p.locks| && p.acquired == p.locks[..p.index]
          && forall k :: k in p.locks ==> k in counts)
    && (p.Holding? ==> p.acquired == p.locks)
    && (p.Releasing? ==> p.acquired <= p.locks)
  }

  ghost predicate PhasesOk(counts: map<Key, int>, callers: seq<Phase>) {
    forall c :: 0 <= c < |callers| ==> PhaseOk(counts, callers[c])
  }

  ghost predicate Counted(s: State, k: Key) {
    k in s.counts && s.counts[k] >= 0 && s.counts[k] == 1 - |Holders(s.callers, k)|
  }

  /** Every caller holds a strictly sorted list that is a prefix of its lock list while
      it acquires and while it releases, and all of it while its lock object lives;
      every semaphore's count is 1 minus its number of holders
      and never negative. */
  ghost predicate Inv(s: State) {
    PhasesOk(s.counts, s.callers) && forall k :: k in s.counts ==> Counted(s, k)
  }

  function HeldBy(p: Phase, k: Key): int {
    if k in Held(p) then 1 else 0
  }

  /** A step of one caller that moves the counts by what it takes and gives back. */
  lemma InvUpdate(s: State, s': State, c: nat, p: Phase)
    requires Inv(s) && c < |s.callers| && PhaseOk(s'.counts, p)
    requires s'.callers == s.callers[c := p] && s'.counts.Keys == s.counts.Keys
    requires forall k :: k in s.counts ==>
               s'.counts[k] == s.counts[k] + HeldBy(s.callers[c], k) - HeldBy(p, k) >= 0
    ensures Inv(s')
  {
    forall k | k in s'.counts ensures Counted(s', k) {
      assert Counted(s, k);
      HoldersChange(s.callers, c, p, k);
      assert k in Held(s.callers[c]) <==> c in Holders(s.callers, k);
    }
    forall d | 0 <= d < |s'.callers| ensures PhaseOk(s'.counts, s'.callers[d]) {
      assert PhaseOk(s.counts, s.callers[d]);
    }
  }

  lemma InvArrive(t: Text, s: State, names: seq<string>)
    requires Inv(s)
    ensures Inv(Apply(t, s, Arrive(names)))
  {
    var locks := LockList(t, names);
    LockListMeaning(t, names);
    var s' := Apply(t, s, Arrive(names));
    forall k | k in s'.counts ensures Counted(s', k) {
      assert Holders(s'.callers, k) == Holders(s.callers, k);
      if k in s.counts {
        assert Counted(s, k);
      } else {
        assert Holders(s.callers, k) == {} by {
          forall c: nat | c < |s.callers| ensures k !in Held(s.callers[c]) {
            assert PhaseOk(s.counts, s.callers[c]);
          }
        }
      }
    }
    forall c | 0 <= c < |s'.callers| ensures PhaseOk(s'.counts, s'.callers[c]) {
      if c < |s.callers| {
        assert PhaseOk(s.counts, s.callers[c]);
      }
    }
  }

  /** Changing one caller leaves the holders of a key alone, adds it or removes it. */
  lemma HoldersChange(callers: seq<Phase>, c: nat, p: Phase, k: Key)
    requires c < |callers|
    ensures Holders(callers[c := p], k) ==
            if k in Held(p) then Holders(callers, k) + {c} else Holders(callers, k) - {c}
  {
  }

  lemma InvTake(t: Text, s: State, c: nat)
    requires Inv(s) && Enabled(s, Take(c))
    ensures Inv(Apply(t, s, Take(c)))
  {
    var s' := Apply(t, s, Take(c));
    var p := s.callers[c];
    assert PhaseOk(s.counts, p);
    DropLast(p.locks[..p.index + 1]);
    assert p.locks[..p.index + 1][..p.index] == p.acquired;
    InvUpdate(s, s', c, s'.callers[c]);
  }

  lemma DropLast(keys: seq<Key>)
    requires StrictlySorted(keys) && keys != []
    ensures var rest := keys[..|keys| - 1];
            StrictlySorted(rest) && keys == rest + [Last(keys)] && Last(keys) !in rest
    ensures forall k :: k in keys <==> k in keys[..|keys| - 1] || k == Last(keys)
  {
    SortedDistinct(keys);
    assert keys == keys[..|keys| - 1] + [Last(keys)];
  }

  /** A release never overfills: the semaphore released is at zero. */
  lemma InvPut(t: Text, s: State, c: nat)
    requires Inv(s) && Enabled(s, Put(c))
    ensures s.counts[Last(s.callers[c].acquired)] == 0
    ensures Inv(Apply(t, s, Put(c)))
  {
    var s' := Apply(t, s, Put(c));
    var held := s.callers[c].acquired;
    assert PhaseOk(s.counts, s.callers[c]);
    DropLast(held);
    assert Counted(s, Last(held)) && c in Holders(s.callers, Last(held));
    InvUpdate(s, s', c, s'.callers[c]);
  }

  lemma InvQuiet(t: Text, s: State, a: Action)
    requires Inv(s) && Enabled(s, a) && (a.Return? || a.Cancel? || a.Dispose? || a.Finish?)
    ensures Inv(Apply(t, s, a))
  {
    assert PhaseOk(s.counts, s.callers[a.c]);
    InvUpdate(s, Apply(t, s, a), a.c, Apply(t, s, a).callers[a.c]);
  }

  lemma InvStep(t: Text, s: State, a: Action)
    requires Inv(s) && Enabled(s, a)
    ensures Inv(Apply(t, s, a))
  {
    match a
    case Arrive(names) => InvArrive(t, s, names);
    case Take(c) => InvTake(t, s, c);
    case Put(c) => InvPut(t, s, c);
    case Return(_) => InvQuiet(t, s, a);
    case Cancel(_) => InvQuiet(t, s, a);
    case Dispose(_) => InvQuiet(t, s, a);
    case Finish(_) => InvQuiet(t, s, a);
  }

  // ---- runs ----

  /** The state a list of actions leads to from a state, when all are enabled in turn. */
  ghost predicate Runs(t: Text, s: State, actions: seq<Action>, s': State)
    decreases actions
  {
    if actions == [] then s' == s
    else Enabled(s, actions[0]) && Runs(t, Apply(t, s, actions[0]), actions[1..], s')
  }

  lemma {:induction false} InvRun(t: Text, s: State, actions: seq<Action>, s': State)
    requires Inv(s) && Runs(t, s, actions, s')
    ensures Inv(s')
    decreases actions
  {
    if actions != [] {
      InvStep(t, s, actions[0]);
      InvRun(t, Apply(t, s, actions[0]), actions[1..], s');
    }
  }

  lemma OneHolder(s: State, k: Key, c: nat, d: nat)
    requires Inv(s) && c < |s.callers| && d < |s.callers| && k in Held(s.callers[c]) && k in Held(s.callers[d])
    ensures c == d
  {
    assert PhaseOk(s.counts, s.callers[c]);
    assert Counted(s, k);
    if c != d {
      TwoElements(Holders(s.callers, k), c, d);
    }
  }

  /** Safety over every run, with cancellation at any wait: no name class ever has
      two holders. */
  lemma MutualExclusion(t: Text, actions: seq<Action>, s: State, k: Key, c: nat, d: nat)
    requires Runs(t, START, actions, s)
    requires c < |s.callers| && d < |s.callers| && k in Held(s.callers[c]) && k in Held(s.callers[d])
    ensures c == d
  {
    InvRun(t, START, actions, s);
    OneHolder(s, k, c, d);
  }

  // ---- who holds what it asked for ----

  /** Every caller's lock list is the one its names stand for. */
  ghost predicate AskedFor(t: Text, s: State) {
    && |s.asked| == |s.callers|
    && forall c :: 0 <= c < |s.callers| ==> s.callers[c].Finished? || s.callers[c].locks == LockList(t, s.asked[c])
  }

  lemma {:induction false} AskedRun(t: Text, s: State, actions: seq<Action>, s': State)
    requires AskedFor(t, s) && Runs(t, s, actions, s')
    ensures AskedFor(t, s')
    decreases actions
  {
    if actions != [] {
      AskedRun(t, Apply(t, s, actions[0]), actions[1..], s');
    }
  }

  /** A live lock object holds the semaphores of exactly the classes its caller asked
      for; a caller that acquires or releases holds a prefix of that list. */
  lemma LiveLockHoldsAll(t: Text, actions: seq<Action>, s: State, c: nat)
    requires Runs(t, START, actions, s) && c < |s.callers|
    ensures |s.asked| == |s.callers| && Held(s.callers[c]) <= LockList(t, s.asked[c])
    ensures s.callers[c].Holding? ==> forall k :: k in s.callers[c].acquired <==> Wants(t, s.asked[c], k)
  {
    InvRun(t, START, actions, s);
    AskedRun(t, START, actions, s);
    assert PhaseOk(s.counts, s.callers[c]);
    LockListMeaning(t, s.asked[c]);
  }

  /** While a lock object lives, no other caller has a semaphore of a class that was
      asked for: in particular two live lock objects never share a class. */
  lemma LiveLocksExclude(t: Text, actions: seq<Action>, s: State, k: Key, c: nat, d: nat)
    requires Runs(t, START, actions, s) && c < |s.callers| && d < |s.callers| <= |s.asked|
    requires s.callers[c].Holding? && Wants(t, s.asked[c], k)
    requires k in Held(s.callers[d]) || (s.callers[d].Holding? && Wants(t, s.asked[d], k))
    ensures c == d
  {
    LiveLockHoldsAll(t, actions, s, c);
    LiveLockHoldsAll(t, actions, s, d);
    MutualExclusion(t, actions, s, k, c, d);
  }

  /** Two live lock objects that were asked for one actor, however each caller spelled
      its spaces and letter case, are one. */
  lemma OneLockForOneActor(t: Text, actions: seq<Action>, s: State, c: nat, d: nat, i: nat, j: nat)
    requires Runs(t, START, actions, s) && c < |s.callers| && d < |s.callers| && |s.callers| <= |s.asked|
    requires s.callers[c].Holding? && s.callers[d].Holding? && i < |s.asked[c]| && j < |s.asked[d]|
    requires !Blank(s.asked[c][i]) && !Blank(s.asked[d][j]) && SameName(t, s.asked[c][i], s.asked[d][j])
    ensures c == d
  {
    OneClassExactly(t, s.asked[c][i], s.asked[d][j]);
    LiveLocksExclude(t, actions, s, KeyOf(t, s.asked[c][i]), c, d);
  }

  lemma TwoElements(a: set<nat>, c: nat, d: nat)
    requires c in a && d in a && c != d
    ensures |a| >= 2
  {
    assert |a - {c}| == |a| - 1 && d in a - {c};
  }

  /** Which steps a reachable state offers.  Anyone may arrive; a caller in line takes its
      next semaphore exactly when nobody holds it, and may be cancelled instead; then the
      lock object is returned, disposed of, and releases all it holds. */
  lemma StepsOffered(t: Text, actions: seq<Action>, s: State, c: nat)
    requires Runs(t, START, actions, s) && c < |s.callers|
    ensures forall names :: Enabled(s, Arrive(names))
    ensures match s.callers[c]
            case Acquiring(locks, i, _) =>
              if i < |locks| then
                Enabled(s, Cancel(c)) && (Enabled(s, Take(c)) <==> forall d :: 0 <= d < |s.callers| ==>
                                            locks[i] !in Held(s.callers[d]))
              else Enabled(s, Return(c))
            case Holding(_, _) => Enabled(s, Dispose(c))
            case Releasing(_, acquired) => if acquired != [] then Enabled(s, Put(c)) else Enabled(s, Finish(c))
            case Finished => forall a :: Enabled(s, a) ==> a.Arrive? || a.c != c
  {
    InvRun(t, START, actions, s);
    var p := s.callers[c];
    assert PhaseOk(s.counts, p);
    if p.Acquiring? && p.index < |p.locks| {
      NobodyHolds(s, p.locks[p.index]);
    }
    if p.Releasing? && p.acquired != [] {
      assert Last(p.acquired) in Held(p);
    }
  }

  lemma NobodyHolds(s: State, k: Key)
    requires Inv(s) && k in s.counts
    ensures s.counts[k] > 0 <==> forall d :: 0 <= d < |s.callers| ==> k !in Held(s.callers[d])
  {
    assert Counted(s, k);
    if d :| 0 <= d < |s.callers| && k in Held(s.callers[d]) {
      assert d in Holders(s.callers, k);
    } else {
      assert Holders(s.callers, k) == {};
    }
  }

  /** A caller is blocked when it waits for a semaphore that is taken. */
  predicate Blocked(s: State, c: nat) {
    c < |s.callers| && s.callers[c].Acquiring? && s.callers[c].index < |s.callers[c].locks|
    && !Enabled(s, Take(c))
  }

  function Wanted(s: State, c: nat): Key
    requires Blocked(s, c)
  {
    s.callers[c].locks[s.callers[c].index]
  }

  /** A blocked caller waits for another caller, and if that one is blocked, too, it
      wants a strictly later key: waiting never runs in a circle. */
  lemma WaitsForward(s: State, c: nat) returns (d: nat)
    requires Inv(s) && Blocked(s, c)
    ensures d < |s.callers| && d != c && Wanted(s, c) in Held(s.callers[d])
    ensures Blocked(s, d) ==> Less(Wanted(s, c), Wanted(s, d))
  {
    var k := Wanted(s, c);
    assert PhaseOk(s.counts, s.callers[c]);
    SortedDistinct(s.callers[c].locks);
    assert Counted(s, k) && Holders(s.callers, k) != {};
    d :| d in Holders(s.callers, k);
    assert k !in Held(s.callers[c]);
    if Blocked(s, d) {
      assert PhaseOk(s.counts, s.callers[d]);
    }
  }

  ghost function LaterKeys(s: State, k: Key): set<Key> {
    set x | x in s.counts && Less(k, x)
  }

  /** From any unfinished caller, following who waits for whom ends at a caller that
      can take a step of its own, without cancelling. */
  lemma {:induction false} SomeoneMoves(s: State, c: nat) returns (a: Action)
    requires Inv(s) && c < |s.callers| && !s.callers[c].Finished?
    ensures Enabled(s, a) && !a.Arrive? && !a.Cancel?
    decreases if Blocked(s, c) then LaterKeys(s, Wanted(s, c)) + {Wanted(s, c)} else {}
  {
    assert PhaseOk(s.counts, s.callers[c]);
    match s.callers[c]
    case Holding(_, _) => a := Dispose(c);
    case Releasing(_, acquired) =>
      if acquired == [] {
        a := Finish(c);
      } else {
        assert Last(acquired) in Held(s.callers[c]);
        a := Put(c);
      }
    case Acquiring(locks, index, _) =>
      if index >= |locks| {
        a := Return(c);
      } else if Enabled(s, Take(c)) {
        a := Take(c);
      } else {
        var d := WaitsForward(s, c);
        if Blocked(s, d) {
          var k, l := Wanted(s, c), Wanted(s, d);
          assert PhaseOk(s.counts, s.callers[d]);
          forall x | x in LaterKeys(s, l) ensures x in LaterKeys(s, k) {
            Transitive(k, l, x);
          }
          Irreflexive(k);
          Asymmetric(k, l);
          assert k !in LaterKeys(s, l) + {l};
        }
        a := SomeoneMoves(s, d);
      }
  }

  /** Deadlock freedom over every run: while any caller is unfinished, some caller
      can take a step that is not a cancellation. */
  lemma DeadlockFree(t: Text, actions: seq<Action>, s: State)
    requires Runs(t, START, actions, s)
    requires exists c :: 0 <= c < |s.callers| && !s.callers[c].Finished?
    ensures exists a :: Enabled(s, a) && !a.Arrive? && !a.Cancel?
  {
    InvRun(t, START, actions, s);
    var c :| 0 <= c < |s.callers| && !s.callers[c].Finished?;
    var a := SomeoneMoves(s, c);
  }

  // ---- every caller finishes ----

  function Work(p: Phase): int {
    match p
    case Acquiring(locks, index, _) => 2 * |locks| - index + 3
    case Holding(_, acquired) => |acquired| + 2
    case Releasing(_, acquired) => |acquired| + 1
    case Finished => 0
  }

  function TotalWork(callers: seq<Phase>): int {
    if callers == [] then 0 else Work(callers[0]) + TotalWork(callers[1..])
  }

  lemma {:induction false} TotalWorkUpdate(callers: seq<Phase>, c: nat, p: Phase)
    requires c < |callers|
    ensures TotalWork(callers[c := p]) == TotalWork(callers) - Work(callers[c]) + Work(p)
  {
    if c == 0 {
      assert callers[c := p][1..] == callers[1..];
    } else {
      assert callers[c := p][1..] == callers[1..][c - 1 := p];
      TotalWorkUpdate(callers[1..], c - 1, p);
    }
  }

  lemma {:induction false} TotalWorkNonNegative(counts: map<Key, int>, callers: seq<Phase>)
    requires PhasesOk(counts, callers)
    ensures TotalWork(callers) >= 0
  {
    if callers != [] {
      assert PhaseOk(counts, callers[0]);
      TotalWorkNonNegative(counts, callers[1..]);
    }
  }

  lemma StepWorks(t: Text, s: State, a: Action)
    requires Inv(s) && Enabled(s, a) && !a.Arrive?
    ensures TotalWork(Apply(t, s, a).callers) < TotalWork(s.callers)
  {
    var s' := Apply(t, s, a);
    var c := a.c;
    assert PhaseOk(s.counts, s.callers[c]);
    TotalWorkUpdate(s.callers, c, s'.callers[c]);
    assert Work(s'.callers[c]) < Work(s.callers[c]);
  }

  /** Without new arrivals a run is no longer than the work left at its start. */
  lemma {:induction false} RunsAreBounded(t: Text, s: State, actions: seq<Action>, s': State)
    requires Inv(s) && Runs(t, s, actions, s') && forall i :: 0 <= i < |actions| ==> !actions[i].Arrive?
    ensures |actions| <= TotalWork(s.callers) - TotalWork(s'.callers)
    decreases actions
  {
    if actions != [] {
      StepWorks(t, s, actions[0]);
      InvStep(t, s, actions[0]);
      RunsAreBounded(t, Apply(t, s, actions[0]), actions[1..], s');
    }
  }

  /** A run that cannot go on has finished every caller and returned every
      semaphore: with the bound above, every caller finishes. */
  lemma MaximalRunsFinish(t: Text, actions: seq<Action>, s: State)
    requires Runs(t, START, actions, s)
    requires forall a :: Enabled(s, a) ==> a.Arrive? || a.Cancel?
    ensures forall c :: 0 <= c < |s.callers| ==> s.callers[c].Finished?
    ensures forall k :: k in s.counts ==> s.counts[k] == 1
  {
    InvRun(t, START, actions, s);
    forall c | 0 <= c < |s.callers| ensures s.callers[c].Finished? {
      if !s.callers[c].Finished? {
        var a := SomeoneMoves(s, c);
      }
    }
    forall k | k in s.counts ensures s.counts[k] == 1 {
      assert Counted(s, k) && Holders(s.callers, k) == {};
    }
  }
}
