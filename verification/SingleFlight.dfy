/** common/singledo/singledo.go: callers share one run of a function and its result
    for a window of time.  The class holds the critical sections as the code has
    them; the transition system interleaves any number of callers around them. */
module SingleFlight {
  import opened Options

  datatype Result = Result(val: string, err: string)

  /** The fields guarded by the mutex.  A call is named by the index of its run;
      last == 0 is the zero time. */
  datatype Fields = Fields(wait: int, last: int, call: Option<nat>, result: Option<Result>)

  /** How Do goes on after its critical section. */
  datatype Decision = UseCache | Join(id: nat) | Lead(id: nat)

  function Decide(f: Fields, now: int, id: nat): Decision {
    if now < f.last + f.wait then UseCache else if f.call.Some? then Join(f.call.value) else Lead(id)
  }

  function Entered(f: Fields, now: int, id: nat): Fields {
    if Decide(f, now, id).Lead? then f.(call := Some(id)) else f
  }

  function Published(f: Fields, r: Result, now: int): Fields {
    f.(call := None, result := Some(r), last := now)
  }

  class Single {
    const wait: int
    var last: int
    var call: Option<nat>
    var result: Option<Result>

    function Now(): Fields
      reads this
    {
      Fields(wait, last, call, result)
    }

    constructor (wait: int)
      ensures Now() == Fields(wait, 0, None, None)
    {
      this.wait, last, call, result := wait, 0, None, None;
    }

    /** From taking the mutex to giving it up on any of the three paths. */
    method Enter(now: int, id: nat) returns (d: Decision)
      modifies this
      ensures d == Decide(old(Now()), now, id)
      ensures Now() == Entered(old(Now()), now, id)
      // inside the window the cache; else the call in flight; else a call of its own
      ensures now < old(last) + wait ==> d == UseCache && call == old(call)
      ensures now >= old(last) + wait && old(call).Some? ==> d == Join(old(call).value) && call == old(call)
      ensures now >= old(last) + wait && old(call).None? ==> d == Lead(id) && call == Some(id)
      ensures last == old(last) && result == old(result)
    {
      if now < last + wait {
        return UseCache;
      }
      if call.Some? {
        return Join(call.value);
      }
      call := Some(id);
      return Lead(id);
    }

    /** The second critical section, after fn has returned. */
    method Publish(r: Result, now: int)
      modifies this
      ensures Now() == Published(old(Now()), r, now)
    {
      call := None;
      result := Some(r);
      last := now;
    }

    method Reset()
      modifies this
      ensures Now() == old(Now()).(last := 0)
    {
      last := 0;
    }
  }

  // ---- one caller at a time ----

  /** Do, called while no run is in flight: r is what fn would return. */
  method Do(s: Single, now: int, id: nat, r: Result) returns (v: Result, shared: bool)
    requires s.call.None? && (now < s.last + s.wait ==> s.result.Some?)
    modifies s
    ensures shared <==> now < old(s.last) + s.wait
    ensures shared ==> s.Now() == old(s.Now()) && Some(v) == s.result
    ensures !shared ==> s.Now() == Fields(s.wait, now, None, Some(r)) && v == r
  {
    var d := s.Enter(now, id);
    match d
    case UseCache => return s.result.value, true;
    case Lead(_) =>
      s.Publish(r, now);
      return r, false;
  }

  /** The call whose run call i returns, when calls come one at a time. */
  function RunOf(wait: int, times: seq<int>, i: nat): (l: nat)
    requires i < |times|
    ensures l <= i && (l == i || times[i] < times[l] + wait)
  {
    if i == 0 then 0
    else if times[i] < times[RunOf(wait, times, i - 1)] + wait then RunOf(wait, times, i - 1) else i
  }

  /** Call i makes a run of its own. */
  predicate MakesRun(wait: int, times: seq<int>, i: nat) {
    i < |times| && RunOf(wait, times, i) == i
  }

  /** The run a call belongs to is made by a call, and is not older than any run made
      before the call. */
  lemma {:induction false} RunOfRun(wait: int, times: seq<int>, i: nat, k: nat)
    requires k < |times|
    ensures MakesRun(wait, times, RunOf(wait, times, k))
    ensures i <= k && MakesRun(wait, times, i) ==> i <= RunOf(wait, times, k)
  {
    if k > 0 {
      RunOfRun(wait, times, i, k - 1);
    }
  }

  /** Runs made one call at a time start at least wait apart. */
  lemma {:induction false} OwnRunsApart(wait: int, times: seq<int>, i: nat, j: nat)
    requires wait >= 0 && i < j && MakesRun(wait, times, i) && MakesRun(wait, times, j)
    ensures times[j] >= times[i] + wait
    decreases j
  {
    var l := RunOf(wait, times, j - 1);
    RunOfRun(wait, times, i, j - 1);
    if l > i {
      OwnRunsApart(wait, times, i, l);
    }
  }

  /** Each call returned the outcome of the run it belongs to. */
  ghost predicate Served(wait: int, times: seq<int>, outcomes: seq<Result>, got: seq<Result>)
    requires |outcomes| == |times|
  {
    |got| <= |times| && forall k :: 0 <= k < |got| ==> got[k] == outcomes[RunOf(wait, times, k)]
  }

  /** Calls one at a time. */
  method OneByOne(wait: int, times: seq<int>, outcomes: seq<Result>) returns (got: seq<Result>)
    requires |outcomes| == |times| && (times != [] ==> times[0] >= wait)
    ensures |got| == |times| && Served(wait, times, outcomes, got)
    ensures wait >= 0 ==>
              forall i: nat, j: nat :: i < j && MakesRun(wait, times, i) && MakesRun(wait, times, j) ==>
                times[j] >= times[i] + wait
  {
    if wait >= 0 {
      forall i: nat, j: nat | i < j && MakesRun(wait, times, i) && MakesRun(wait, times, j)
        ensures times[j] >= times[i] + wait
      {
        OwnRunsApart(wait, times, i, j);
      }
    }
    var s := new Single(wait);
    got := [];
    ghost var l: nat := 0;
    for i := 0 to |times|
      invariant fresh(s) && s.wait == wait && s.call.None? && |got| == i
      invariant if i == 0 then s.last == 0
                else l < i && l == RunOf(wait, times, i - 1) && s.last == times[l] && s.result == Some(outcomes[l])
      invariant Served(wait, times, outcomes, got)
    {
      var v, shared := Do(s, times[i], i, outcomes[i]);
      ghost var next := if shared then l else i;
      assert next == RunOf(wait, times, i);
      got := got + [v];
      l := next;
    }
  }

  // ---- any number of callers ----

  /** Where a result came from: the caller's own run, a run it joined at a time, or
      the cache, checked at a time. */
  datatype Via = OwnRun(id: nat) | Joined(at: int, id: nat) | Cache(at: int)

  datatype Phase =
    | Cached(at: int)                   // past the unlock of the cache path, nothing read yet
    | CachedVal(at: int, val: string)   // the value is read, the error is not
    | Joining(at: int, id: nat)         // waiting for the call it found
    | Running(id: nat)                  // fn is running
    | Publishing(id: nat)               // the wait group is done, the result not yet published
    | Returned(r: Result, shared: bool, via: Via)

  /** start is the time its caller read inside the critical section. */
  datatype Run = Run(start: int, outcome: Option<Result>)

  datatype State = State(clock: int, f: Fields, runs: seq<Run>, callers: seq<Phase>)

  datatype Action =
    | Tick(to: int)
    | Call
    | FnDone(c: nat, r: Result)
    | Publish(c: nat)
    | Wake(c: nat)
    | ReadVal(c: nat)
    | ReadErr(c: nat)
    | Reset

  /** The zero time lies more than one window before any real time. */
  ghost predicate Init(s: State) {
    s.clock >= 0 && s.clock >= s.f.wait && s.f == Fields(s.f.wait, 0, None, None) && s.runs == [] && s.callers == []
  }

  predicate Enabled(s: State, a: Action) {
    match a
    case Tick(to) => to >= s.clock
    case Call => true
    case FnDone(c, _) => c < |s.callers| && s.callers[c].Running? && s.callers[c].id < |s.runs|
    case Publish(c) => c < |s.callers| && s.callers[c].Publishing? && s.callers[c].id < |s.runs|
                       && s.runs[s.callers[c].id].outcome.Some?
    case Wake(c) => c < |s.callers| && s.callers[c].Joining? && s.callers[c].id < |s.runs|
                    && s.runs[s.callers[c].id].outcome.Some?
    case ReadVal(c) => c < |s.callers| && s.callers[c].Cached? && s.f.result.Some?
    case ReadErr(c) => c < |s.callers| && s.callers[c].CachedVal? && s.f.result.Some?
    case Reset => true
  }

  function Apply(s: State, a: Action): State
    requires Enabled(s, a)
  {
    match a
    case Tick(to) => s.(clock := to)
    case Call =>
      var id := |s.runs|;
      var f := Entered(s.f, s.clock, id);
      (match Decide(s.f, s.clock, id)
       case UseCache => s.(callers := s.callers + [Cached(s.clock)])
       case Join(id') => s.(callers := s.callers + [Joining(s.clock, id')])
       case Lead(_) => State(s.clock, f, s.runs + [Run(s.clock, None)], s.callers + [Running(id)]))
    case FnDone(c, r) =>
      var id := s.callers[c].id;
      s.(runs := s.runs[id := s.runs[id].(outcome := Some(r))], callers := s.callers[c := Publishing(id)])
    case Publish(c) =>
      var id := s.callers[c].id;
      var r := s.runs[id].outcome.value;
      s.(f := Published(s.f, r, s.runs[id].start), callers := s.callers[c := Returned(r, false, OwnRun(id))])
    case Wake(c) =>
      var p := s.callers[c];
      s.(callers := s.callers[c := Returned(s.runs[p.id].outcome.value, true, Joined(p.at, p.id))])
    case ReadVal(c) => s.(callers := s.callers[c := CachedVal(s.callers[c].at, s.f.result.value.val)])
    case ReadErr(c) =>
      var p := s.callers[c];
      s.(callers := s.callers[c := Returned(Result(p.val, s.f.result.value.err), true, Cache(p.at))])
    case Reset => s.(f := s.f.(last := 0))
  }

  /** The number of runs published so far: all but the one in flight. */
  function Done(s: State): int {
    if s.f.call.Some? then |s.runs| - 1 else |s.runs|
  }

  /** A published run that started less than one window before the time. */
  ghost predicate Fresh(s: State, i: int, at: int) {
    0 <= i < Done(s) <= |s.runs| && s.runs[i].outcome.Some? && at < s.runs[i].start + s.f.wait
  }

  ghost predicate FreshVal(s: State, at: int, val: string) {
    exists i :: Fresh(s, i, at) && s.runs[i].outcome.value.val == val
  }

  ghost predicate FreshErr(s: State, at: int, err: string) {
    exists i :: Fresh(s, i, at) && s.runs[i].outcome.value.err == err
  }

  /** The run has this outcome. */
  ghost predicate RunGave(s: State, id: nat, r: Result) {
    id < |s.runs| && s.runs[id].outcome == Some(r)
  }

  ghost predicate PhaseOk(s: State, p: Phase) {
    match p
    case Cached(at) => at <= s.clock && Fresh(s, Done(s) - 1, at)
    case CachedVal(at, val) => at <= s.clock && Fresh(s, Done(s) - 1, at) && FreshVal(s, at, val)
    case Joining(at, id) => id < |s.runs| && s.runs[id].start <= at <= s.clock
    case Running(id) => s.f.call == Some(id) && id < |s.runs| && s.runs[id].outcome.None?
    case Publishing(id) => s.f.call == Some(id) && id < |s.runs| && s.runs[id].outcome.Some?
    case Returned(r, shared, via) =>
      match via
      case OwnRun(id) => !shared && RunGave(s, id, r)
      case Joined(at, id) => shared && RunGave(s, id, r) && s.runs[id].start <= at
      case Cache(at) => shared && FreshVal(s, at, r.val) && FreshErr(s, at, r.err)
  }

  predicate Leads(p: Phase) {
    p.Running? || p.Publishing?
  }

  ghost predicate FieldsOk(s: State) {
    && (s.f.call.Some? ==> |s.runs| > 0 && s.f.call.value == |s.runs| - 1)
    && (Done(s) > 0 ==> s.f.result == s.runs[Done(s) - 1].outcome)
    && (s.f.last == 0 || (Done(s) > 0 && s.f.last == s.runs[Done(s) - 1].start))
    && s.clock >= 0 && s.clock >= s.f.wait
  }

  ghost predicate RunsOk(s: State) {
    && (forall i :: 0 <= i < Done(s) ==> s.runs[i].outcome.Some?)
    && (forall i :: 0 <= i < |s.runs| ==> s.runs[i].start <= s.clock)
    && (forall i, j :: 0 <= i < j < |s.runs| ==> s.runs[i].start <= s.runs[j].start)
  }

  ghost predicate Leader(s: State, c: int) {
    0 <= c < |s.callers| && Leads(s.callers[c])
  }

  /** What every run of the system keeps, with or without Reset. */
  ghost predicate Inv(s: State) {
    && FieldsOk(s) && RunsOk(s)
    && (forall c :: 0 <= c < |s.callers| ==> PhaseOk(s, s.callers[c]))
    && (forall c, d :: Leader(s, c) && Leader(s, d) ==> c == d)
    && (s.f.call.Some? <==> exists c :: Leader(s, c))
  }

  /** Each run starts at least wait after the one before. */
  ghost predicate Spaced(s: State) {
    forall i :: 0 <= i < |s.runs| - 1 ==> s.runs[i + 1].start >= s.runs[i].start + s.f.wait
  }

  /** The next run cannot start too early: one is in flight, or the time of the last
      one is known, or its window is over. */
  ghost predicate Guarded(s: State) {
    Harmless(s) || (Done(s) > 0 && s.f.last == s.runs[Done(s) - 1].start)
  }

  /** Reset has nothing to forget: a run is in flight, there was none, or the window
      of the last one is over. */
  ghost predicate Harmless(s: State) {
    s.f.call.Some? || Done(s) == 0 || s.clock >= s.runs[Done(s) - 1].start + s.f.wait
  }

  // ---- steps keep the invariant ----

  /** Runs are only ever added, given an outcome once, and published in order. */
  ghost predicate Extends(s: State, s': State) {
    && s.clock <= s'.clock && s.f.wait == s'.f.wait && Done(s) <= Done(s') && |s.runs| <= |s'.runs|
    && (forall i :: 0 <= i < |s.runs| ==> s'.runs[i].start == s.runs[i].start)
    && (forall i :: 0 <= i < |s.runs| && s.runs[i].outcome.Some? ==> s'.runs[i].outcome == s.runs[i].outcome)
  }

  lemma FreshStays(s: State, s': State, i: int, at: int)
    requires Extends(s, s') && Fresh(s, i, at) && Done(s') <= |s'.runs|
    ensures Fresh(s', i, at)
  {
  }

  /** What is known of a caller that is not leading survives every step. */
  lemma PhaseStays(s: State, s': State, p: Phase)
    requires Extends(s, s') && PhaseOk(s, p) && !Leads(p) && FieldsOk(s') && RunsOk(s')
    ensures PhaseOk(s', p)
  {
    match p
    case Cached(at) => FreshStays(s, s', Done(s) - 1, at);
    case CachedVal(at, val) =>
      FreshStays(s, s', Done(s) - 1, at);
      FreshValStays(s, s', at, val);
    case Joining(_, _) =>
    case Returned(r, _, via) =>
      if via.Cache? {
        FreshValStays(s, s', via.at, r.val);
        var i :| Fresh(s, i, via.at) && s.runs[i].outcome.value.err == r.err;
        FreshStays(s, s', i, via.at);
      }
  }

  lemma FreshValStays(s: State, s': State, at: int, val: string)
    requires Extends(s, s') && FreshVal(s, at, val) && Done(s') <= |s'.runs|
    ensures FreshVal(s', at, val)
  {
    var i :| Fresh(s, i, at) && s.runs[i].outcome.value.val == val;
    FreshStays(s, s', i, at);
  }

  /** A step of one caller: the others keep what they know. */
  lemma OthersStay(s: State, s': State, c: nat, p: Phase)
    requires Inv(s) && Extends(s, s') && FieldsOk(s') && RunsOk(s')
    requires c < |s.callers| && s'.callers == s.callers[c := p] && PhaseOk(s', p)
    requires Leads(s.callers[c]) || (s'.f.call == s.f.call && s'.runs == s.runs)
    ensures forall d :: 0 <= d < |s'.callers| ==> PhaseOk(s', s'.callers[d])
  {
    forall d | 0 <= d < |s'.callers| ensures PhaseOk(s', s'.callers[d]) {
      if d != c {
        assert PhaseOk(s, s.callers[d]);
        if Leads(s.callers[d]) {
          assert Leader(s, d) && (Leader(s, c) || s'.runs == s.runs);
        } else {
          PhaseStays(s, s', s.callers[d]);
        }
      }
    }
  }

  /** A caller that is served from the cache or joins the run in flight. */
  lemma InvArrive(s: State, p: Phase)
    requires Inv(s) && PhaseOk(s, p) && !Leads(p)
    ensures Inv(s.(callers := s.callers + [p]))
  {
    var s' := s.(callers := s.callers + [p]);
    forall d | 0 <= d < |s'.callers| ensures PhaseOk(s', s'.callers[d]) {
      assert d < |s.callers| ==> PhaseOk(s, s.callers[d]);
      if !Leads(s'.callers[d]) {
        PhaseStays(s, s', s'.callers[d]);
      }
    }
    assert forall d :: Leader(s', d) <==> Leader(s, d);
  }

  lemma InvLeadNew(s: State)
    requires Inv(s) && Decide(s.f, s.clock, |s.runs|).Lead?
    ensures Inv(Apply(s, Call))
  {
    var s' := Apply(s, Call);
    assert FieldsOk(s') && RunsOk(s') && Extends(s, s');
    forall d | 0 <= d < |s'.callers| ensures PhaseOk(s', s'.callers[d]) {
      if d < |s.callers| {
        assert PhaseOk(s, s.callers[d]) && !Leader(s, d);
        PhaseStays(s, s', s.callers[d]);
      }
    }
    assert forall d :: 0 <= d < |s.callers| ==> !Leader(s, d) && !Leader(s', d);
    assert Leader(s', |s.callers|);
  }

  lemma InvCall(s: State)
    requires Inv(s)
    ensures Inv(Apply(s, Call))
  {
    match Decide(s.f, s.clock, |s.runs|)
    case UseCache => InvArrive(s, Cached(s.clock));
    case Join(id) => InvArrive(s, Joining(s.clock, id));
    case Lead(_) => InvLeadNew(s);
  }

  /** fn returns, or its result is published: the leader moves on. */
  lemma InvLead(s: State, a: Action)
    requires Inv(s) && (a.FnDone? || a.Publish?) && Enabled(s, a)
    ensures Inv(Apply(s, a))
  {
    var s' := Apply(s, a);
    assert PhaseOk(s, s.callers[a.c]) && Leader(s, a.c);
    assert FieldsOk(s') && RunsOk(s') && Extends(s, s');
    OthersStay(s, s', a.c, s'.callers[a.c]);
    assert forall d :: 0 <= d < |s'.callers| && d != a.c ==> (Leader(s', d) <==> Leader(s, d));
    assert Leader(s', a.c) <==> a.FnDone?;
  }

  /** A caller that is not leading changes only what it knows. */
  lemma InvFollow(s: State, c: nat, p: Phase)
    requires Inv(s) && c < |s.callers| && !Leads(s.callers[c]) && !Leads(p) && PhaseOk(s, p)
    ensures Inv(s.(callers := s.callers[c := p]))
  {
    var s' := s.(callers := s.callers[c := p]);
    PhaseStays(s, s', p);
    OthersStay(s, s', c, p);
    assert forall d :: Leader(s', d) <==> Leader(s, d);
  }

  lemma InvShared(s: State, a: Action)
    requires Inv(s) && (a.Wake? || a.ReadVal? || a.ReadErr?) && Enabled(s, a)
    ensures Inv(Apply(s, a))
  {
    var p := Apply(s, a).callers[a.c];
    assert PhaseOk(s, s.callers[a.c]);
    assert PhaseOk(s, p) by {
      if !a.Wake? {
        assert Fresh(s, Done(s) - 1, s.callers[a.c].at);
      }
    }
    InvFollow(s, a.c, p);
  }

  lemma InvClock(s: State, a: Action)
    requires Inv(s) && (a.Tick? || a.Reset?) && Enabled(s, a)
    ensures Inv(Apply(s, a))
  {
    var s' := Apply(s, a);
    forall d | 0 <= d < |s'.callers| ensures PhaseOk(s', s'.callers[d]) {
      assert PhaseOk(s, s.callers[d]);
      if !Leads(s.callers[d]) {
        PhaseStays(s, s', s.callers[d]);
      }
    }
    assert forall d :: Leader(s', d) <==> Leader(s, d);
  }

  lemma InvStep(s: State, a: Action)
    requires Inv(s) && Enabled(s, a)
    ensures Inv(Apply(s, a))
  {
    match a
    case Call => InvCall(s);
    case FnDone(_, _) => InvLead(s, a);
    case Publish(_) => InvLead(s, a);
    case Wake(_) => InvShared(s, a);
    case ReadVal(_) => InvShared(s, a);
    case ReadErr(_) => InvShared(s, a);
    case Tick(_) => InvClock(s, a);
    case Reset => InvClock(s, a);
  }

  lemma SpacedCall(s: State)
    requires Inv(s) && Spaced(s) && Guarded(s)
    ensures Spaced(Apply(s, Call)) && Guarded(Apply(s, Call))
  {
    var s' := Apply(s, Call);
    if Decide(s.f, s.clock, |s.runs|).Lead? {
      assert |s.runs| > 0 ==> s.clock >= s.runs[|s.runs| - 1].start + s.f.wait;
    } else {
      assert s'.runs == s.runs && s'.f == s.f;
    }
  }

  /** fn returns, or its result is published: the starts stay, and the time of the
      last run is known once it is published. */
  lemma SpacedLead(s: State, a: Action)
    requires Inv(s) && Spaced(s) && (a.FnDone? || a.Publish?) && Enabled(s, a)
    ensures Spaced(Apply(s, a)) && Guarded(Apply(s, a))
  {
    var s' := Apply(s, a);
    assert PhaseOk(s, s.callers[a.c]);
    assert forall i :: 0 <= i < |s.runs| ==> s'.runs[i].start == s.runs[i].start;
  }

  lemma SpacedStep(s: State, a: Action)
    requires Inv(s) && Spaced(s) && Guarded(s) && Enabled(s, a) && (a.Reset? ==> Harmless(s))
    ensures Spaced(Apply(s, a)) && Guarded(Apply(s, a))
  {
    if a.Call? {
      SpacedCall(s);
    } else if a.FnDone? || a.Publish? {
      SpacedLead(s, a);
    } else {
      var s' := Apply(s, a);
      assert s'.runs == s.runs && s'.clock >= s.clock && s'.f.call == s.f.call;
    }
  }

  // ---- theorems over whole runs ----

  ghost predicate Runs(s: State, actions: seq<Action>, s': State)
    decreases actions
  {
    if actions == [] then s' == s
    else Enabled(s, actions[0]) && Runs(Apply(s, actions[0]), actions[1..], s')
  }

  lemma {:induction false} InvRun(s: State, actions: seq<Action>, s': State)
    requires Inv(s) && Runs(s, actions, s')
    ensures Inv(s')
    ensures Spaced(s) && Guarded(s) && Gentle(s, actions) ==> Spaced(s') && Guarded(s')
    decreases actions
  {
    if actions != [] {
      InvStep(s, actions[0]);
      if Spaced(s) && Guarded(s) && Gentle(s, actions) {
        SpacedStep(s, actions[0]);
      }
      InvRun(Apply(s, actions[0]), actions[1..], s');
    }
  }

  /** Every Reset among the actions is harmless when it happens. */
  ghost predicate Gentle(s: State, actions: seq<Action>)
    decreases actions
  {
    actions != [] && Enabled(s, actions[0]) ==>
      (actions[0].Reset? ==> Harmless(s)) && Gentle(Apply(s, actions[0]), actions[1..])
  }

  lemma {:induction false} NoResetIsGentle(s: State, actions: seq<Action>)
    requires Reset !in actions
    ensures Gentle(s, actions)
    decreases actions
  {
    if actions != [] && Enabled(s, actions[0]) {
      NoResetIsGentle(Apply(s, actions[0]), actions[1..]);
    }
  }

  lemma Reachable(s0: State, actions: seq<Action>, s: State)
    requires Init(s0) && Runs(s0, actions, s)
    ensures Inv(s) && (Gentle(s0, actions) ==> Spaced(s))
  {
    InvRun(s0, actions, s);
  }

  /** In every interleaving at most one fn runs at a time. */
  lemma OneRunAtATime(s0: State, actions: seq<Action>, s: State, c: nat, d: nat)
    requires Init(s0) && Runs(s0, actions, s)
    requires c < |s.callers| && d < |s.callers| && s.callers[c].Running? && s.callers[d].Running?
    ensures c == d
  {
    Reachable(s0, actions, s);
    assert Leader(s, c) && Leader(s, d);
  }

  /** When every Reset is harmless any two runs start at least wait apart. */
  lemma HarmlessResetsKeepSpacing(s0: State, actions: seq<Action>, s: State, i: nat, j: nat)
    requires Init(s0) && Runs(s0, actions, s) && Gentle(s0, actions)
    requires i < j < |s.runs|
    ensures s.runs[j].start >= s.runs[i].start + s.f.wait
  {
    Reachable(s0, actions, s);
    assert s.runs[i + 1].start >= s.runs[i].start + s.f.wait;
    assert j > i + 1 ==> s.runs[j].start >= s.runs[i + 1].start;
  }

  /** In particular without Reset. */
  lemma RunsAreSpaced(s0: State, actions: seq<Action>, s: State, i: nat, j: nat)
    requires Init(s0) && Runs(s0, actions, s) && Reset !in actions
    requires i < j < |s.runs|
    ensures s.runs[j].start >= s.runs[i].start + s.f.wait
  {
    NoResetIsGentle(s0, actions);
    HarmlessResetsKeepSpacing(s0, actions, s, i, j);
  }

  lemma HarmfulReset(s: State) returns (s': State)
    requires Inv(s) && !Harmless(s)
    ensures Runs(Apply(s, Reset), [Call], s') && !Spaced(s')
  {
    var r := Apply(s, Reset);
    s' := Apply(r, Call);
    assert Runs(s', [], s') && [Call][1..] == [];
    var i := |s.runs| - 1;
    assert s'.runs[i + 1].start == s.clock < s'.runs[i].start + s'.f.wait;
  }

  lemma HarmlessReset(s: State, actions: seq<Action>, s': State)
    requires Inv(s) && Spaced(s) && Harmless(s)
    requires Runs(Apply(s, Reset), actions, s') && Reset !in actions
    ensures Spaced(s')
  {
    InvStep(s, Reset);
    NoResetIsGentle(Apply(s, Reset), actions);
    InvRun(Apply(s, Reset), actions, s');
  }

  /** The exact condition: in a reachable state with all runs spaced so far, a Reset
      leaves them spaced in every continuation without another Reset if and only if
      it is harmless. */
  lemma ResetHarmlessExactly(s0: State, before: seq<Action>, s: State)
    requires Init(s0) && Runs(s0, before, s) && Spaced(s)
    ensures Harmless(s) <==>
            forall actions, s' :: Runs(Apply(s, Reset), actions, s') && Reset !in actions ==> Spaced(s')
  {
    Reachable(s0, before, s);
    if Harmless(s) {
      forall actions, s' | Runs(Apply(s, Reset), actions, s') && Reset !in actions ensures Spaced(s') {
        HarmlessReset(s, actions, s');
      }
    } else {
      var s' := HarmfulReset(s);
      assert Reset !in [Call];
    }
  }

  // ---- how a caller came ----

  /** Where the result of a caller comes from, as decided when it came. */
  function Source(p: Phase): Via {
    match p
    case Cached(at) => Via.Cache(at)
    case CachedVal(at, _) => Via.Cache(at)
    case Joining(at, id) => Joined(at, id)
    case Running(id) => OwnRun(id)
    case Publishing(id) => OwnRun(id)
    case Returned(_, _, via) => via
  }

  /** Some caller is making the run: fn is running, or its result is not yet published. */
  ghost predicate InFlight(s: State, id: nat) {
    exists d :: 0 <= d < |s.callers| && (s.callers[d] == Running(id) || s.callers[d] == Publishing(id))
  }

  /** What the state tells a caller that comes: inside the window of the last published
      run, the cache; else to join the run in flight; and to make a run of its own only
      when none is. */
  ghost predicate Told(s: State, via: Via) {
    match via
    case Cache(at) => at == s.clock && Fresh(s, Done(s) - 1, at)
    case Joined(at, id) => at == s.clock && InFlight(s, id)
    case OwnRun(id) => id == |s.runs| && forall i :: !InFlight(s, i)
  }

  lemma CallerTold(s: State)
    requires Inv(s)
    ensures var s' := Apply(s, Call);
            |s'.callers| == |s.callers| + 1 && Told(s, Source(s'.callers[|s.callers|]))
  {
    match Decide(s.f, s.clock, |s.runs|)
    case UseCache =>
    case Join(id) =>
      var d :| Leader(s, d);
      assert PhaseOk(s, s.callers[d]);
    case Lead(_) =>
      forall i ensures !InFlight(s, i) {
        if d :| 0 <= d < |s.callers| && (s.callers[d] == Running(i) || s.callers[d] == Publishing(i)) {
          assert Leader(s, d);
        }
      }
  }

  lemma {:induction false} SourceStays(s: State, actions: seq<Action>, s': State, c: nat)
    requires Runs(s, actions, s') && c < |s.callers|
    ensures c < |s'.callers| && Source(s'.callers[c]) == Source(s.callers[c])
    decreases actions
  {
    if actions != [] {
      SourceStays(Apply(s, actions[0]), actions[1..], s', c);
    }
  }

  /** Every caller came by a Call, in a state that told it where to take its result. */
  ghost predicate CameBy(s: State, actions: seq<Action>, n: nat, now: State, c: nat, via: Via) {
    && n < |actions| && Runs(s, actions[..n], now) && actions[n] == Call
    && |now.callers| == c && Told(now, via)
  }

  lemma {:induction false} HowItCame(s: State, actions: seq<Action>, s': State, c: nat) returns (n: nat, now: State)
    requires Inv(s) && Runs(s, actions, s') && |s.callers| <= c < |s'.callers|
    ensures CameBy(s, actions, n, now, c, Source(s'.callers[c]))
    decreases actions
  {
    var next := Apply(s, actions[0]);
    InvStep(s, actions[0]);
    if c < |next.callers| {
      n, now := 0, s;
      CallerTold(s);
      SourceStays(next, actions[1..], s', c);
    } else {
      n, now := HowItCame(next, actions[1..], s', c);
      n := n + 1;
      assert actions[..n][0] == actions[0] && actions[..n][1..] == actions[1..][..n - 1];
    }
  }

  // ---- where an outcome comes from ----

  lemma {:induction false} OutcomeStays(s: State, actions: seq<Action>, s': State, id: nat)
    requires Inv(s) && Runs(s, actions, s') && id < |s.runs| && s.runs[id].outcome.Some?
    ensures id < |s'.runs| && s'.runs[id].outcome == s.runs[id].outcome
    decreases actions
  {
    if actions != [] {
      var a := actions[0];
      if a.FnDone? {
        assert PhaseOk(s, s.callers[a.c]);
      }
      InvStep(s, a);
      OutcomeStays(Apply(s, a), actions[1..], s', id);
    }
  }

  /** fn returned r in the caller that makes the run. */
  ghost predicate FnReturned(s: State, actions: seq<Action>, n: nat, now: State, c: nat, id: nat, r: Result) {
    && n < |actions| && Runs(s, actions[..n], now) && actions[n] == FnDone(c, r)
    && c < |now.callers| && now.callers[c] == Running(id)
  }

  lemma {:induction false} GivenByFn(s: State, actions: seq<Action>, s': State, id: nat, r: Result)
    returns (n: nat, now: State, c: nat)
    requires Inv(s) && Runs(s, actions, s') && RunGave(s', id, r)
    requires id < |s.runs| ==> s.runs[id].outcome.None?
    ensures FnReturned(s, actions, n, now, c, id, r)
    decreases actions
  {
    var a := actions[0];
    var next := Apply(s, a);
    InvStep(s, a);
    if id < |next.runs| && next.runs[id].outcome.Some? {
      OutcomeStays(next, actions[1..], s', id);
      n, now, c := 0, s, a.c;
    } else {
      n, now, c := GivenByFn(next, actions[1..], s', id, r);
      n := n + 1;
      assert actions[..n][0] == actions[0] && actions[..n][1..] == actions[1..][..n - 1];
    }
  }

  /** The outcome of a run is what fn returned in it. */
  lemma OutcomeOfFn(s0: State, actions: seq<Action>, s: State, id: nat, r: Result)
    returns (n: nat, now: State, c: nat)
    requires Init(s0) && Runs(s0, actions, s) && RunGave(s, id, r)
    ensures FnReturned(s0, actions, n, now, c, id, r)
  {
    n, now, c := GivenByFn(s0, actions, s, id, r);
  }

  /** What may happen in a reachable state: time passes, anyone calls, Reset is called,
      fn returns any result; a caller past its critical section goes on, and one that
      joined wakes exactly when the run has its outcome. */
  lemma StepsOffered(s0: State, actions: seq<Action>, s: State, c: nat)
    requires Init(s0) && Runs(s0, actions, s) && c < |s.callers|
    ensures Enabled(s, Call) && Enabled(s, Reset)
    ensures forall to :: to >= s.clock ==> Enabled(s, Tick(to)) && Apply(s, Tick(to)).clock == to
    ensures match s.callers[c]
            case Cached(_) => Enabled(s, ReadVal(c))
            case CachedVal(_, _) => Enabled(s, ReadErr(c))
            case Joining(_, id) => id < |s.runs| && (Enabled(s, Wake(c)) <==> s.runs[id].outcome.Some?)
            case Running(_) => forall r :: Enabled(s, FnDone(c, r))
            case Publishing(_) => Enabled(s, Publish(c))
            case Returned(_, _, _) => true
  {
    Reachable(s0, actions, s);
    assert PhaseOk(s, s.callers[c]);
  }

  /** What a returned caller got: the outcome of its own run; of the run it joined,
      which was in flight when the caller came; or from the cache, a value and an error
      each from a published run that started less than wait before the check. */
  lemma ReturnedResult(s0: State, actions: seq<Action>, s: State, c: nat) returns (n: nat, now: State)
    requires Init(s0) && Runs(s0, actions, s)
    requires c < |s.callers| && s.callers[c].Returned?
    ensures var Returned(r, shared, via) := s.callers[c];
            && (shared <==> !via.OwnRun?)
            && (via.OwnRun? ==> RunGave(s, via.id, r))
            && (via.Joined? ==> RunGave(s, via.id, r) && s.runs[via.id].start <= via.at)
            && (via.Cache? ==> FreshVal(s, via.at, r.val) && FreshErr(s, via.at, r.err))
            && CameBy(s0, actions, n, now, c, via)
  {
    Reachable(s0, actions, s);
    assert PhaseOk(s, s.callers[c]);
    n, now := HowItCame(s0, actions, s, c);
  }

  /** Reading the cache never finds it empty, and no caller waits for a run nobody
      makes: a caller that has not returned can step, or the one it waits for can. */
  lemma NobodyStuck(s0: State, actions: seq<Action>, s: State, c: nat) returns (a: Action)
    requires Init(s0) && Runs(s0, actions, s)
    requires c < |s.callers| && !s.callers[c].Returned?
    ensures Enabled(s, a) && !a.Tick? && !a.Call? && !a.Reset?
    ensures !s.callers[c].Joining? ==> a.c == c
  {
    Reachable(s0, actions, s);
    assert PhaseOk(s, s.callers[c]);
    match s.callers[c]
    case Cached(_) => a := ReadVal(c);
    case CachedVal(_, _) => a := ReadErr(c);
    case Running(_) => a := FnDone(c, Result("", ""));
    case Publishing(_) => a := Publish(c);
    case Joining(_, id) =>
      if s.runs[id].outcome.Some? {
        a := Wake(c);
      } else {
        var d :| Leader(s, d);
        assert PhaseOk(s, s.callers[d]);
        a := if s.callers[d].Running? then FnDone(d, Result("", "")) else Publish(d);
      }
  }

  /** With Reset the spacing is lost: two runs can start at the same time. */
  lemma ResetBreaksSpacing() returns (s0: State, actions: seq<Action>, s: State)
    ensures Init(s0) && Runs(s0, actions, s)
    ensures |s.runs| == 2 && s.runs[1].start < s.runs[0].start + s.f.wait
  {
    s0 := State(30, Fields(30, 0, None, None), [], []);
    var r := Result("", "");
    var s1 := Apply(s0, Call);
    var s2 := Apply(s1, FnDone(0, r));
    var s3 := Apply(s2, Publish(0));
    var s4 := Apply(s3, Reset);
    s := Apply(s4, Call);
    actions := [Call, FnDone(0, r), Publish(0), Reset, Call];
    assert Runs(s4, [Call], s);
    assert Runs(s3, [Reset, Call], s) by { assert [Reset, Call][1..] == [Call]; }
    assert Runs(s2, [Publish(0), Reset, Call], s) by { assert [Publish(0), Reset, Call][1..] == [Reset, Call]; }
    assert Runs(s1, [FnDone(0, r), Publish(0), Reset, Call], s) by {
      assert [FnDone(0, r), Publish(0), Reset, Call][1..] == [Publish(0), Reset, Call];
    }
    assert actions[1..] == [FnDone(0, r), Publish(0), Reset, Call];
  }
}
