/**
 The circuit breaker (crates/uniko-pipes/src/circuit_breaker.rs) as a transition
 system of single atomic operations by any number of threads, under every
 schedule.  Steps are sequentially consistent.
 */
module BreakerInterleavings {
  import CB = CircuitBreaker

  /** Where a thread is, with the locals it holds there. */
  datatype Pc =
    | Idle
    | LoadState(call: bool)              // `call`, or the read-only `is_available`
    | LoadLast(call: bool)               // saw Open
    | ReadClock(call: bool, last: nat)
    | StoreHalfOpen
    | Running                            // the wrapped future is running
    | SwapClosed
    | StoreZero
    | FetchAdd
    | StoreLast(count: nat)
    | SwapOpen

  /** What a scheduled thread does where it has a choice. */
  datatype Choice = StartCall | StartQuery | StartSuccess | StartFailure | FutureOk | FutureErr | Tick(now: nat) | Proceed

  /** One entry per write of the failure counter. */
  datatype CounterWrite = Added | Zeroed

  datatype Shared = Shared(state: CB.State, failureCount: nat, lastFailureMs: nat, writes: seq<CounterWrite>)

  datatype System = System(shared: Shared, pcs: map<nat, Pc>) {
    function At(t: nat): Pc { if t in pcs then pcs[t] else Idle }
  }

  const START := System(Shared(CB.Closed, 0, 0, []), map[])

  /** One atomic operation of a thread at `pc`; a choice that does not fit is
      skipped. */
  function Act(cfg: CB.Config, sh: Shared, pc: Pc, c: Choice): (Shared, Pc) {
    match pc
    case Idle => (sh, match c
      case StartCall => LoadState(true)
      case StartQuery => LoadState(false)
      case StartSuccess => SwapClosed
      case StartFailure => FetchAdd
      case _ => Idle)
    case Running => (sh, match c case FutureOk => SwapClosed case FutureErr => FetchAdd case _ => Running)
    case LoadState(call) => (sh, if sh.state == CB.Open then LoadLast(call) else if call then Running else Idle)
    case LoadLast(call) => (sh, ReadClock(call, sh.lastFailureMs))
    case ReadClock(call, last) =>
      (sh, if !c.Tick? then pc else if CB.Elapsed(c.now, last, cfg.recoveryMs) && call then StoreHalfOpen else Idle)
    case StoreHalfOpen => (sh.(state := CB.HalfOpen), Running)
    case SwapClosed => (sh.(state := CB.Closed), StoreZero)
    case StoreZero => (sh.(failureCount := 0, writes := sh.writes + [Zeroed]), Idle)
    case FetchAdd =>
      var count := CB.Increment(sh.failureCount);
      (sh.(failureCount := count, writes := sh.writes + [Added]), StoreLast(count))
    case StoreLast(count) =>
      if !c.Tick? then (sh, pc)
      else (sh.(lastFailureMs := c.now), if count >= cfg.failureThreshold then SwapOpen else Idle)
    case SwapOpen => (sh.(state := CB.Open), Idle)
  }

  /** Thread `t` performs its next atomic operation. */
  function Step(cfg: CB.Config, s: System, t: nat, c: Choice): System {
    var (shared, pc) := Act(cfg, s.shared, s.At(t), c);
    System(shared, s.pcs[t := pc])
  }

  type Schedule = seq<(nat, Choice)>

  function Run(cfg: CB.Config, schedule: Schedule): System {
    if schedule == [] then START
    else
      var (t, c) := schedule[|schedule| - 1];
      Step(cfg, Run(cfg, schedule[..|schedule| - 1]), t, c)
  }

  // ----- no rejection without a counted run of failures -----

  /** Additions since the last reset. */
  function AddedRun(writes: seq<CounterWrite>): nat {
    if writes == [] || writes[|writes| - 1] == Zeroed then 0 else AddedRun(writes[..|writes| - 1]) + 1
  }

  /** At some time `threshold` failures had been counted with no reset between. */
  ghost predicate OnceTripped(cfg: CB.Config, writes: seq<CounterWrite>) {
    exists k :: 0 <= k <= |writes| && AddedRun(writes[..k]) >= cfg.failureThreshold
  }

  /** The thread has seen, or is about to write, a state other than Closed. */
  predicate Committed(cfg: CB.Config, pc: Pc) {
    match pc
    case LoadLast(_) => true
    case ReadClock(_, _) => true
    case StoreHalfOpen => true
    case SwapOpen => true
    case StoreLast(count) => count >= cfg.failureThreshold
    case _ => false
  }

  ghost predicate Inv(cfg: CB.Config, s: System) {
    && s.shared.failureCount <= AddedRun(s.shared.writes)
    && (s.shared.state != CB.Closed ==> OnceTripped(cfg, s.shared.writes))
    && forall t :: t in s.pcs && Committed(cfg, s.pcs[t]) ==> OnceTripped(cfg, s.shared.writes)
  }

  lemma OnceTrippedLasts(cfg: CB.Config, writes: seq<CounterWrite>, w: CounterWrite)
    ensures OnceTripped(cfg, writes) ==> OnceTripped(cfg, writes + [w])
    ensures AddedRun(writes + [w]) >= cfg.failureThreshold ==> OnceTripped(cfg, writes + [w])
    ensures AddedRun(writes + [w]) == if w == Zeroed then 0 else AddedRun(writes) + 1
  {
    var after := writes + [w];
    assert after[..|writes|] == writes && after[..|after|] == after;
    if OnceTripped(cfg, writes) {
      var k :| 0 <= k <= |writes| && AddedRun(writes[..k]) >= cfg.failureThreshold;
      assert after[..k] == writes[..k];
    }
  }

  lemma ActKeepsInv(cfg: CB.Config, sh: Shared, pc: Pc, c: Choice)
    requires sh.failureCount <= AddedRun(sh.writes)
    requires sh.state != CB.Closed || Committed(cfg, pc) ==> OnceTripped(cfg, sh.writes)
    ensures var (sh', pc') := Act(cfg, sh, pc, c);
      && sh'.failureCount <= AddedRun(sh'.writes)
      && (sh'.state != CB.Closed || Committed(cfg, pc') ==> OnceTripped(cfg, sh'.writes))
      && (OnceTripped(cfg, sh.writes) ==> OnceTripped(cfg, sh'.writes))
  {
    if pc == FetchAdd { OnceTrippedLasts(cfg, sh.writes, Added); }
    if pc == StoreZero { OnceTrippedLasts(cfg, sh.writes, Zeroed); }
  }

  lemma StepKeepsInv(cfg: CB.Config, s: System, t: nat, c: Choice)
    requires Inv(cfg, s)
    ensures Inv(cfg, Step(cfg, s, t, c))
  {
    ActKeepsInv(cfg, s.shared, s.At(t), c);
  }

  lemma {:induction false} RunsKeepInv(cfg: CB.Config, schedule: Schedule)
    ensures Inv(cfg, Run(cfg, schedule))
  {
    if schedule != [] {
      RunsKeepInv(cfg, schedule[..|schedule| - 1]);
      var (t, c) := schedule[|schedule| - 1];
      StepKeepsInv(cfg, Run(cfg, schedule[..|schedule| - 1]), t, c);
    }
  }

  /** Thread `t`, scheduled at clock `now`, is turned away. */
  predicate TurnsAway(cfg: CB.Config, s: System, t: nat, now: nat) {
    s.At(t).ReadClock? && !CB.Elapsed(now, s.At(t).last, cfg.recoveryMs)
  }

  /** Under every schedule, an Open or HalfOpen breaker, and every rejection, come
      after `failureThreshold` failures counted with no reset between them. */
  lemma NoUnearnedRejection(cfg: CB.Config, schedule: Schedule)
    ensures var s := Run(cfg, schedule);
      && (s.shared.state != CB.Closed ==> OnceTripped(cfg, s.shared.writes))
      && forall t, now :: TurnsAway(cfg, s, t, now) ==> OnceTripped(cfg, s.shared.writes)
  {
    RunsKeepInv(cfg, schedule);
  }

  // ----- what the counter says about a quiet breaker -----

  /** A write that will reopen the breaker or clear the counter is still due. */
  predicate Pending(cfg: CB.Config, pc: Pc) {
    match pc
    case StoreZero => true
    case SwapOpen => true
    case StoreLast(count) => count >= cfg.failureThreshold
    case _ => false
  }

  ghost predicate ClosedBelow(cfg: CB.Config, s: System) {
    s.shared.state == CB.Closed && s.shared.failureCount >= cfg.failureThreshold ==>
      exists t :: t in s.pcs && Pending(cfg, s.pcs[t])
  }

  lemma StepKeepsClosedBelow(cfg: CB.Config, s: System, t: nat, c: Choice)
    requires cfg.failureThreshold >= 1 && ClosedBelow(cfg, s)
    ensures ClosedBelow(cfg, Step(cfg, s, t, c))
  {
    var after := Step(cfg, s, t, c);
    if after.shared.state == CB.Closed && after.shared.failureCount >= cfg.failureThreshold {
      if Pending(cfg, after.At(t)) {
        assert t in after.pcs;
      } else {
        assert s.shared.state == CB.Closed && s.shared.failureCount >= cfg.failureThreshold;
        var u :| u in s.pcs && Pending(cfg, s.pcs[u]);
        assert u in after.pcs && Pending(cfg, after.pcs[u]);
      }
    }
  }

  /** Whenever no thread is in the middle of recording an outcome, a Closed
      breaker holds fewer failures than the threshold. */
  lemma {:induction false} QuietClosedIsBelow(cfg: CB.Config, schedule: Schedule)
    requires cfg.failureThreshold >= 1
    ensures ClosedBelow(cfg, Run(cfg, schedule))
  {
    if schedule != [] {
      QuietClosedIsBelow(cfg, schedule[..|schedule| - 1]);
      var (t, c) := schedule[|schedule| - 1];
      StepKeepsClosedBelow(cfg, Run(cfg, schedule[..|schedule| - 1]), t, c);
    }
  }

  // ----- when a failed call reopens the breaker -----

  /** Operations of threads other than `t`. */
  ghost predicate OfOthers(ops: Schedule, t: nat) {
    forall i :: 0 <= i < |ops| ==> ops[i].0 != t
  }

  lemma {:induction false} OthersLeaveAt(cfg: CB.Config, schedule: Schedule, ops: Schedule, t: nat)
    requires OfOthers(ops, t)
    ensures Run(cfg, schedule + ops).At(t) == Run(cfg, schedule).At(t)
  {
    if ops == [] {
      assert schedule + ops == schedule;
    } else {
      assert (schedule + ops)[..|schedule + ops| - 1] == schedule + ops[..|ops| - 1];
      OthersLeaveAt(cfg, schedule, ops[..|ops| - 1], t);
    }
  }

  /** The operations of a thread that records a failure, up to its last one, with those
      of other threads in between. */
  function Recording(schedule: Schedule, t: nat, now: nat, first: Schedule, second: Schedule): Schedule {
    schedule + [(t, Proceed)] + first + [(t, Tick(now))] + second
  }

  lemma CountStep(cfg: CB.Config, s: Schedule, t: nat)
    requires Run(cfg, s).At(t) == FetchAdd
    ensures Run(cfg, s + [(t, Proceed)]).At(t) == StoreLast(CB.Increment(Run(cfg, s).shared.failureCount))
    ensures Run(cfg, s + [(t, Proceed)]).shared.state == Run(cfg, s).shared.state
  {
    var longer := Then(cfg, s, t, Proceed);
  }

  lemma StampStep(cfg: CB.Config, s: Schedule, t: nat, now: nat, count: nat)
    requires Run(cfg, s).At(t) == StoreLast(count)
    ensures Run(cfg, s + [(t, Tick(now))]).At(t) == if count >= cfg.failureThreshold then SwapOpen else Idle
    ensures Run(cfg, s + [(t, Tick(now))]).shared.state == Run(cfg, s).shared.state
  {
    var longer := Then(cfg, s, t, Tick(now));
  }

  lemma OpenStep(cfg: CB.Config, s: Schedule, t: nat)
    requires Run(cfg, s).At(t) == SwapOpen || Run(cfg, s).At(t) == Idle
    ensures Run(cfg, s + [(t, Proceed)]).shared.state == if Run(cfg, s).At(t) == SwapOpen then CB.Open else Run(cfg, s).shared.state
  {
    var longer := Then(cfg, s, t, Proceed);
  }

  /** Under every schedule, whatever other threads do between its operations, a thread
      that counts a failure ends by opening the breaker exactly when the count it took
      reaches the threshold; otherwise it leaves the state to the others. */
  lemma FailureOpensAmongOthers(cfg: CB.Config, schedule: Schedule, t: nat, now: nat, first: Schedule, second: Schedule)
    requires Run(cfg, schedule).At(t) == FetchAdd && OfOthers(first, t) && OfOthers(second, t)
    ensures var mid := Recording(schedule, t, now, first, second);
      var opens := CB.Increment(Run(cfg, schedule).shared.failureCount) >= cfg.failureThreshold;
      Run(cfg, mid + [(t, Proceed)]).shared.state == if opens then CB.Open else Run(cfg, mid).shared.state
  {
    var count := CB.Increment(Run(cfg, schedule).shared.failureCount);
    CountStep(cfg, schedule, t);
    OthersLeaveAt(cfg, schedule + [(t, Proceed)], first, t);
    StampStep(cfg, schedule + [(t, Proceed)] + first, t, now, count);
    OthersLeaveAt(cfg, schedule + [(t, Proceed)] + first + [(t, Tick(now))], second, t);
    OpenStep(cfg, Recording(schedule, t, now, first, second), t);
  }

  /** With nothing in between: the breaker is then Open exactly when it was Open before
      or the count reaches the threshold. */
  lemma FailureOpensExactly(cfg: CB.Config, schedule: Schedule, t: nat, now: nat)
    requires Run(cfg, schedule).At(t) == FetchAdd
    ensures var before, after := Run(cfg, schedule).shared, Run(cfg, schedule + [(t, Proceed), (t, Tick(now)), (t, Proceed)]).shared;
      after.state == CB.Open <==> before.state == CB.Open || CB.Increment(before.failureCount) >= cfg.failureThreshold
  {
    FailureOpensAmongOthers(cfg, schedule, t, now, [], []);
    CountStep(cfg, schedule, t);
    StampStep(cfg, schedule + [(t, Proceed)], t, now, CB.Increment(Run(cfg, schedule).shared.failureCount));
    var mid := Recording(schedule, t, now, [], []);
    assert mid == schedule + [(t, Proceed)] + [(t, Tick(now))];
    assert mid + [(t, Proceed)] == schedule + [(t, Proceed), (t, Tick(now)), (t, Proceed)];
  }

  /** The stored count after so many additions. */
  function Stored(added: nat): nat {
    if added == 0 then 0 else CB.Increment(Stored(added - 1))
  }

  lemma {:induction false} StoredIsWrapped(added: nat)
    ensures Stored(added) == added % CB.U32
  {
    if added > 0 {
      StoredIsWrapped(added - 1);
      CB.WrappedAdd(added - 1);
    }
  }

  lemma AddedNext(writes: seq<CounterWrite>)
    ensures AddedRun(writes + [Added]) == AddedRun(writes) + 1 && AddedRun(writes + [Zeroed]) == 0
  {
    assert (writes + [Added])[..|writes|] == writes;
  }

  ghost predicate CountKept(sh: Shared) {
    sh.failureCount == Stored(AddedRun(sh.writes))
  }

  lemma ActCounts(cfg: CB.Config, sh: Shared, pc: Pc, c: Choice)
    requires CountKept(sh)
    ensures CountKept(Act(cfg, sh, pc, c).0)
  {
    AddedNext(sh.writes);
  }

  lemma {:induction false} RunsKeepCount(cfg: CB.Config, schedule: Schedule)
    ensures CountKept(Run(cfg, schedule).shared)
  {
    if schedule != [] {
      var (t, c) := schedule[|schedule| - 1];
      var s := Run(cfg, schedule[..|schedule| - 1]);
      RunsKeepCount(cfg, schedule[..|schedule| - 1]);
      ActCounts(cfg, s.shared, s.At(t), c);
    }
  }

  /** The stored count is the run of additions since the last reset, on 32 bits. */
  lemma CountIsRun(cfg: CB.Config, schedule: Schedule)
    ensures var sh := Run(cfg, schedule).shared; sh.failureCount == AddedRun(sh.writes) % CB.U32
  {
    RunsKeepCount(cfg, schedule);
    StoredIsWrapped(AddedRun(Run(cfg, schedule).shared.writes));
  }

  lemma {:induction false} RunGoesOn(writes: seq<CounterWrite>, k: nat)
    requires k <= |writes| && Zeroed !in writes[k..]
    ensures AddedRun(writes) == AddedRun(writes[..k]) + |writes| - k
  {
    if k < |writes| {
      var front := writes[..|writes| - 1];
      assert writes[|writes| - 1] in writes[k..];
      assert front[k..] == writes[k..|writes| - 1] && forall w :: w in front[k..] ==> w in writes[k..];
      RunGoesOn(front, k);
      assert front[..k] == writes[..k];
    } else {
      assert writes[..k] == writes;
    }
  }

  /** Every time the run of additions had reached the threshold, a reset came later or
      the run has outgrown the counter. */
  ghost predicate ResetOrWrapped(writes: seq<CounterWrite>, threshold: nat) {
    forall k :: 0 <= k <= |writes| && AddedRun(writes[..k]) >= threshold ==> Zeroed in writes[k..] || AddedRun(writes) >= CB.U32
  }

  lemma {:induction false} StoredBelowWidth(added: nat)
    requires added < CB.U32
    ensures Stored(added) == added
  {
    if added > 0 { StoredBelowWidth(added - 1); }
  }

  lemma LowCountMeans(writes: seq<CounterWrite>, threshold: nat)
    requires Stored(AddedRun(writes)) < threshold
    ensures ResetOrWrapped(writes, threshold)
  {
    if AddedRun(writes) < CB.U32 { StoredBelowWidth(AddedRun(writes)); }
    forall k | 0 <= k <= |writes| && AddedRun(writes[..k]) >= threshold && Zeroed !in writes[k..]
      ensures AddedRun(writes) >= CB.U32
    {
      RunGoesOn(writes, k);
    }
  }

  /** Why a failed call may not reopen it: under every schedule, a breaker that is not
      Closed and holds a count below the threshold has once counted enough failures,
      and after every time it had, the counter was reset or has wrapped. */
  lemma LowCountIsExplained(cfg: CB.Config, schedule: Schedule)
    ensures var sh := Run(cfg, schedule).shared;
      sh.state != CB.Closed && sh.failureCount < cfg.failureThreshold ==>
        OnceTripped(cfg, sh.writes) && ResetOrWrapped(sh.writes, cfg.failureThreshold)
  {
    var sh := Run(cfg, schedule).shared;
    RunsKeepInv(cfg, schedule);
    RunsKeepCount(cfg, schedule);
    if sh.failureCount < cfg.failureThreshold { LowCountMeans(sh.writes, cfg.failureThreshold); }
  }

  // ----- what interleaving takes away -----

  predicate Looks(s: System, state: CB.State, count: nat, one: Pc, two: Pc) {
    s.shared.state == state && s.shared.failureCount == count && s.At(1) == one && s.At(2) == two
  }

  lemma Then(cfg: CB.Config, schedule: Schedule, t: nat, c: Choice) returns (longer: Schedule)
    ensures longer == schedule + [(t, c)]
    ensures var s, s' := Run(cfg, schedule), Run(cfg, longer);
      && (s'.shared, s'.At(t)) == Act(cfg, s.shared, s.At(t), c)
      && (t != 1 ==> s'.At(1) == s.At(1)) && (t != 2 ==> s'.At(2) == s.At(2))
  {
    longer := schedule + [(t, c)];
    assert longer[..|schedule|] == schedule;
  }

  lemma FailOnce(cfg: CB.Config) returns (r: Schedule)
    requires cfg.failureThreshold == 2
    ensures Looks(Run(cfg, r), CB.Closed, 1, Idle, Idle)
  {
    r := Then(cfg, [], 1, StartFailure);
    assert Looks(Run(cfg, r), CB.Closed, 0, FetchAdd, Idle);
    r := Then(cfg, r, 1, Proceed);
    assert Looks(Run(cfg, r), CB.Closed, 1, StoreLast(1), Idle);
    r := Then(cfg, r, 1, Tick(0));
  }

  /** Two failures and a success race: the success swaps the state, the second
      failure opens, and only then the success clears the counter. */
  lemma Race(cfg: CB.Config) returns (r: Schedule)
    requires cfg.failureThreshold == 2
    ensures Looks(Run(cfg, r), CB.Open, 0, Idle, Idle)
  {
    r := FailOnce(cfg);
    r := Then(cfg, r, 1, StartFailure);
    assert Looks(Run(cfg, r), CB.Closed, 1, FetchAdd, Idle);
    r := Then(cfg, r, 1, Proceed);
    assert Looks(Run(cfg, r), CB.Closed, 2, StoreLast(2), Idle);
    r := Then(cfg, r, 2, StartSuccess);
    assert Looks(Run(cfg, r), CB.Closed, 2, StoreLast(2), SwapClosed);
    r := Then(cfg, r, 2, Proceed);
    assert Looks(Run(cfg, r), CB.Closed, 2, StoreLast(2), StoreZero);
    r := Then(cfg, r, 1, Tick(0));
    assert Looks(Run(cfg, r), CB.Closed, 2, SwapOpen, StoreZero);
    r := Then(cfg, r, 1, Proceed);
    assert Looks(Run(cfg, r), CB.Open, 2, Idle, StoreZero);
    r := Then(cfg, r, 2, Proceed);
  }

  /** A call that begins after the race finds the breaker Open and goes on to probe. */
  lemma ProbeAfterRace(cfg: CB.Config) returns (probing: Schedule)
    requires cfg == CB.Config(2, 0)
    ensures Looks(Run(cfg, probing), CB.HalfOpen, 0, Running, Idle)
  {
    probing := Race(cfg);
    probing := Then(cfg, probing, 1, StartCall);
    assert Looks(Run(cfg, probing), CB.Open, 0, LoadState(true), Idle);
    probing := Then(cfg, probing, 1, Proceed);
    assert Looks(Run(cfg, probing), CB.Open, 0, LoadLast(true), Idle);
    probing := Then(cfg, probing, 1, Proceed);
    probing := Then(cfg, probing, 1, Tick(0));
    assert Looks(Run(cfg, probing), CB.Open, 0, StoreHalfOpen, Idle);
    probing := Then(cfg, probing, 1, Proceed);
  }

  /** Split into atomic operations, `record_success` can leave an Open breaker with
      a counter of zero; the next probe then fails without reopening it, which no
      history of whole calls allows. */
  lemma FailedProbeMayNotReopen(cfg: CB.Config) returns (probing: Schedule, failed: Schedule)
    requires cfg == CB.Config(2, 0)
    ensures Looks(Run(cfg, probing), CB.HalfOpen, 0, Running, Idle)
    ensures failed == probing + [(1, FutureErr), (1, Proceed), (1, Tick(0))]
    ensures Looks(Run(cfg, failed), CB.HalfOpen, 1, Idle, Idle)
  {
    probing := ProbeAfterRace(cfg);
    failed := Then(cfg, probing, 1, FutureErr);
    assert Looks(Run(cfg, failed), CB.HalfOpen, 0, FetchAdd, Idle);
    failed := Then(cfg, failed, 1, Proceed);
    assert Looks(Run(cfg, failed), CB.HalfOpen, 1, StoreLast(1), Idle);
    failed := Then(cfg, failed, 1, Tick(0));
  }
}
