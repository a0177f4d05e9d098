/**
 What one call does to the breaker while other threads do whatever they do between its
 operations, and which reports stand behind an open breaker
 (crates/uniko-pipes/src/circuit_breaker.rs, 85-144), under every schedule.
 */
module BreakerOutcomes {
  import CB = CircuitBreaker
  import opened BreakerInterleavings

  /** Thread `t` performs one operation after `s`, and others go on with `ops`. */
  lemma OneOperation(cfg: CB.Config, s: Schedule, t: nat, c: Choice, ops: Schedule)
    requires OfOthers(ops, t)
    ensures var before, after := Run(cfg, s), Run(cfg, s + [(t, c)]);
      && (after.shared, after.At(t)) == Act(cfg, before.shared, before.At(t), c)
      && Run(cfg, s + [(t, c)] + ops).At(t) == after.At(t)
  {
    var longer := Then(cfg, s, t, c);
    OthersLeaveAt(cfg, longer, ops, t);
  }

  // ----- a call that is let in, and how it ends -----

  /** A future that succeeds closes the breaker by the thread's next operation and clears
      the counter by the one after, whatever others do in between. */
  lemma SuccessClosesAmongOthers(cfg: CB.Config, s: Schedule, t: nat, first: Schedule, c: Choice, second: Schedule, d: Choice)
    requires Run(cfg, s).At(t) == Running && OfOthers(first, t) && OfOthers(second, t)
    ensures var swapped := s + [(t, FutureOk)] + first + [(t, c)];
      var cleared := swapped + second + [(t, d)];
      && Run(cfg, swapped).shared.state == CB.Closed
      && Run(cfg, cleared).shared.failureCount == 0 && Run(cfg, cleared).At(t) == Idle
      && Run(cfg, cleared).shared.state == Run(cfg, swapped + second).shared.state
  {
    OneOperation(cfg, s, t, FutureOk, first);
    OneOperation(cfg, s + [(t, FutureOk)] + first, t, c, second);
    OneOperation(cfg, s + [(t, FutureOk)] + first + [(t, c)] + second, t, d, []);
  }

  /** A future that fails adds one to the count by the thread's next operation. */
  lemma FailureCountsAmongOthers(cfg: CB.Config, s: Schedule, t: nat, first: Schedule, c: Choice)
    requires Run(cfg, s).At(t) == Running && OfOthers(first, t)
    ensures var waiting := s + [(t, FutureErr)] + first;
      && Run(cfg, waiting).At(t) == FetchAdd
      && Run(cfg, waiting + [(t, c)]).shared.failureCount == CB.Increment(Run(cfg, waiting).shared.failureCount)
      && Run(cfg, waiting + [(t, c)]).shared.state == Run(cfg, waiting).shared.state
  {
    OneOperation(cfg, s, t, FutureErr, first);
    OneOperation(cfg, s + [(t, FutureErr)] + first, t, c, []);
  }

  /** A call that finds the breaker Closed or HalfOpen runs its future. */
  lemma CallRunsUnlessOpen(cfg: CB.Config, s: Schedule, t: nat, first: Schedule, c: Choice)
    requires Run(cfg, s).At(t) == Idle && OfOthers(first, t)
    ensures var waiting := s + [(t, StartCall)] + first;
      && (Run(cfg, waiting + [(t, c)]).At(t) == Running <==> Run(cfg, waiting).shared.state != CB.Open)
      && (Run(cfg, waiting + [(t, c)]).At(t) == LoadLast(true) <==> Run(cfg, waiting).shared.state == CB.Open)
      && Run(cfg, waiting + [(t, c)]).shared == Run(cfg, waiting).shared
  {
    OneOperation(cfg, s, t, StartCall, first);
    OneOperation(cfg, s + [(t, StartCall)] + first, t, c, []);
  }

  /** One that finds it Open is turned away exactly when its clock is not `recoveryMs` past
      the last failure it then reads; otherwise it makes the breaker HalfOpen and runs. */
  lemma OpenCallProbesExactly(cfg: CB.Config, s: Schedule, t: nat, c: Choice, first: Schedule, now: nat, second: Schedule, d: Choice)
    requires Run(cfg, s).At(t) == LoadLast(true) && OfOthers(first, t) && OfOthers(second, t)
    ensures var last := Run(cfg, s).shared.lastFailureMs;
      var asked := s + [(t, c)] + first + [(t, Tick(now))] + second;
      var probing := Run(cfg, asked + [(t, d)]);
      if now >= last + cfg.recoveryMs || cfg.recoveryMs == 0
      then probing.At(t) == Running && probing.shared == Run(cfg, asked).shared.(state := CB.HalfOpen)
      else Run(cfg, asked).At(t) == Idle
  {
    var last := Run(cfg, s).shared.lastFailureMs;
    OneOperation(cfg, s, t, c, first);
    assert Run(cfg, s + [(t, c)] + first).At(t) == ReadClock(true, last);
    OneOperation(cfg, s + [(t, c)] + first, t, Tick(now), second);
    OneOperation(cfg, s + [(t, c)] + first + [(t, Tick(now))] + second, t, d, []);
  }

  // ----- the reports behind an open breaker -----

  ghost function Before(cfg: CB.Config, s: Schedule, i: nat): Pc
    requires i < |s|
  {
    Run(cfg, s[..i]).At(s[i].0)
  }

  /** Entry `i` reports a failure: a future that fails, or a direct report. */
  ghost predicate ReportsFailure(cfg: CB.Config, s: Schedule, i: int) {
    0 <= i < |s| && ((Before(cfg, s, i) == Running && s[i].1 == FutureErr) || (Before(cfg, s, i) == Idle && s[i].1 == StartFailure))
  }

  ghost predicate AddsOne(cfg: CB.Config, s: Schedule, i: int) {
    0 <= i < |s| && Before(cfg, s, i) == FetchAdd
  }

  ghost predicate Resets(cfg: CB.Config, s: Schedule, i: int) {
    0 <= i < |s| && Before(cfg, s, i) == StoreZero
  }

  /** Entry `j` counts the failure that entry `i` reported: the thread's next operation. */
  ghost predicate CountsReport(cfg: CB.Config, s: Schedule, i: int, j: int) {
    && ReportsFailure(cfg, s, i) && AddsOne(cfg, s, j) && i < j && s[i].0 == s[j].0
    && forall k :: i < k < j ==> s[k].0 != s[j].0
  }

  lemma SameBefore(cfg: CB.Config, s: Schedule, p: nat, i: nat)
    requires i < p <= |s|
    ensures Before(cfg, s[..p], i) == Before(cfg, s, i)
  {
    assert s[..p][..i] == s[..i];
  }

  /** A thread about to add has reported a failure and done nothing since. */
  lemma {:induction false} AdderReported(cfg: CB.Config, s: Schedule, t: nat) returns (i: nat)
    requires Run(cfg, s).At(t) == FetchAdd
    ensures ReportsFailure(cfg, s, i) && s[i].0 == t && forall k :: i < k < |s| ==> s[k].0 != t
  {
    var n := |s| - 1;
    if s[n].0 == t {
      i := n;
    } else {
      i := AdderReported(cfg, s[..n], t);
      SameBefore(cfg, s, n, i);
    }
  }

  lemma AddCountsReport(cfg: CB.Config, s: Schedule, j: nat) returns (i: nat)
    requires AddsOne(cfg, s, j)
    ensures CountsReport(cfg, s, i, j)
  {
    i := AdderReported(cfg, s[..j], s[j].0);
    SameBefore(cfg, s, j, i);
    forall k | i < k < j ensures s[k].0 != s[j].0 { assert s[..j][k] == s[k]; }
  }

  ghost predicate Increasing(xs: seq<nat>) {
    forall m, n :: 0 <= m < n < |xs| ==> xs[m] < xs[n]
  }

  /** Additions in a row: no reset from the first of them on. */
  ghost predicate AddsSinceReset(cfg: CB.Config, s: Schedule, adds: seq<nat>) {
    && Increasing(adds) && (forall m :: 0 <= m < |adds| ==> AddsOne(cfg, s, adds[m]))
    && forall i :: Resets(cfg, s, i) && adds != [] ==> i < adds[0]
  }

  /** A further entry that neither adds nor resets, one that adds. */
  lemma AddsNext(cfg: CB.Config, s: Schedule, adds: seq<nat>)
    requires s != [] && AddsSinceReset(cfg, s[..|s| - 1], adds) && Before(cfg, s, |s| - 1) != StoreZero
    ensures AddsSinceReset(cfg, s, if Before(cfg, s, |s| - 1) == FetchAdd then adds + [|s| - 1] else adds)
  {
    var n := |s| - 1;
    forall m | 0 <= m < |adds| ensures AddsOne(cfg, s, adds[m]) && adds[m] < n {
      assert AddsOne(cfg, s[..n], adds[m]);
      SameBefore(cfg, s, n, adds[m]);
    }
    forall i | Resets(cfg, s, i) ensures i < n && (adds != [] ==> i < adds[0]) {
      SameBefore(cfg, s, n, i);
      assert Resets(cfg, s[..n], i);
    }
  }

  lemma ActAdds(cfg: CB.Config, sh: Shared, pc: Pc, c: Choice)
    ensures AddedRun(Act(cfg, sh, pc, c).0.writes)
         == if pc == FetchAdd then AddedRun(sh.writes) + 1 else if pc == StoreZero then 0 else AddedRun(sh.writes)
  {
    AddedNext(sh.writes);
  }

  lemma LastStep(cfg: CB.Config, s: Schedule)
    requires s != []
    ensures Run(cfg, s) == Step(cfg, Run(cfg, s[..|s| - 1]), s[|s| - 1].0, s[|s| - 1].1)
  {
  }

  lemma RunNext(cfg: CB.Config, s: Schedule)
    requires s != []
    ensures var pc, added := Before(cfg, s, |s| - 1), AddedRun(Run(cfg, s[..|s| - 1]).shared.writes);
      AddedRun(Run(cfg, s).shared.writes) == if pc == FetchAdd then added + 1 else if pc == StoreZero then 0 else added
  {
    var before := Run(cfg, s[..|s| - 1]);
    LastStep(cfg, s);
    ActAdds(cfg, before.shared, before.At(s[|s| - 1].0), s[|s| - 1].1);
  }

  /** The additions that the run of the counter is made of. */
  lemma {:induction false} RunOfAdds(cfg: CB.Config, s: Schedule) returns (adds: seq<nat>)
    ensures AddsSinceReset(cfg, s, adds) && |adds| == AddedRun(Run(cfg, s).shared.writes)
  {
    adds := [];
    if s != [] {
      var n := |s| - 1;
      RunNext(cfg, s);
      if Before(cfg, s, n) != StoreZero {
        adds := RunOfAdds(cfg, s[..n]);
        AddsNext(cfg, s, adds);
        if Before(cfg, s, n) == FetchAdd { adds := adds + [n]; }
      }
    }
  }

  /** Each stage of the counter's history is that of some part of the schedule. */
  lemma {:induction false} WritesOfPart(cfg: CB.Config, s: Schedule, k: nat) returns (p: nat)
    requires k <= |Run(cfg, s).shared.writes|
    ensures p <= |s| && Run(cfg, s[..p]).shared.writes == Run(cfg, s).shared.writes[..k]
  {
    var writes := Run(cfg, s).shared.writes;
    if k == |writes| {
      p := |s|;
      assert s[..p] == s && writes[..k] == writes;
    } else {
      var front := s[..|s| - 1];
      assert Run(cfg, front).shared.writes <= writes && |writes| <= |Run(cfg, front).shared.writes| + 1;
      p := WritesOfPart(cfg, front, k);
      assert front[..p] == s[..p];
    }
  }

  /** Each report is counted by the addition at its place. */
  ghost predicate Counted(cfg: CB.Config, s: Schedule, reports: seq<nat>, adds: seq<nat>) {
    |reports| == |adds| && forall m :: 0 <= m < |reports| ==> CountsReport(cfg, s, reports[m], adds[m])
  }

  ghost predicate AllDifferent(xs: seq<nat>) {
    forall m, n :: 0 <= m < n < |xs| ==> xs[m] != xs[n]
  }

  /** The counter is not reset from the first addition to the last. */
  ghost predicate NoResetAmong(cfg: CB.Config, s: Schedule, adds: seq<nat>) {
    adds != [] ==> forall i :: Resets(cfg, s, i) ==> i < adds[0] || i > adds[|adds| - 1]
  }

  /** `failureThreshold` reported failures, each counted by its thread's next operation,
      with no reset of the counter from the first count to the last. */
  ghost predicate Earned(cfg: CB.Config, s: Schedule, reports: seq<nat>, adds: seq<nat>) {
    && |adds| >= cfg.failureThreshold && Increasing(adds) && AllDifferent(reports)
    && Counted(cfg, s, reports, adds) && NoResetAmong(cfg, s, adds)
  }

  lemma {:induction false} ReportsOf(cfg: CB.Config, s: Schedule, adds: seq<nat>) returns (reports: seq<nat>)
    requires forall m :: 0 <= m < |adds| ==> AddsOne(cfg, s, adds[m])
    ensures Counted(cfg, s, reports, adds)
  {
    reports := [];
    if adds != [] {
      var n := |adds| - 1;
      reports := ReportsOf(cfg, s, adds[..n]);
      forall m | 0 <= m < n ensures CountsReport(cfg, s, reports[m], adds[m]) { assert adds[..n][m] == adds[m]; }
      var i := AddCountsReport(cfg, s, adds[n]);
      reports := reports + [i];
    }
  }

  lemma OneCountEach(cfg: CB.Config, s: Schedule, i: nat, a: nat, b: nat)
    requires CountsReport(cfg, s, i, a) && CountsReport(cfg, s, i, b)
    ensures a == b
  {
  }

  lemma ReportsDiffer(cfg: CB.Config, s: Schedule, reports: seq<nat>, adds: seq<nat>)
    requires Counted(cfg, s, reports, adds) && Increasing(adds)
    ensures AllDifferent(reports)
  {
    forall m, n | 0 <= m < n < |reports| ensures reports[m] != reports[n] {
      if reports[m] == reports[n] { OneCountEach(cfg, s, reports[m], adds[m], adds[n]); }
    }
  }

  lemma PartCounts(cfg: CB.Config, s: Schedule, p: nat, i: nat, j: nat)
    requires p <= |s| && CountsReport(cfg, s[..p], i, j)
    ensures CountsReport(cfg, s, i, j)
  {
    SameBefore(cfg, s, p, i);
    SameBefore(cfg, s, p, j);
    forall k | i < k < j ensures s[k].0 != s[j].0 { assert s[..p][k] == s[k]; }
  }

  lemma NoResetInPart(cfg: CB.Config, s: Schedule, p: nat, adds: seq<nat>)
    requires p <= |s| && AddsSinceReset(cfg, s[..p], adds)
    ensures NoResetAmong(cfg, s, adds)
  {
    if adds != [] {
      assert AddsOne(cfg, s[..p], adds[|adds| - 1]);
      forall i | Resets(cfg, s, i) ensures i < adds[0] || i > adds[|adds| - 1] {
        if i < p {
          SameBefore(cfg, s, p, i);
          assert Resets(cfg, s[..p], i);
        }
      }
    }
  }

  lemma PartIsEarned(cfg: CB.Config, s: Schedule, p: nat, reports: seq<nat>, adds: seq<nat>)
    requires p <= |s| && |adds| >= cfg.failureThreshold && AddsSinceReset(cfg, s[..p], adds) && Counted(cfg, s[..p], reports, adds)
    ensures Earned(cfg, s, reports, adds)
  {
    forall m | 0 <= m < |reports| ensures CountsReport(cfg, s, reports[m], adds[m]) {
      PartCounts(cfg, s, p, reports[m], adds[m]);
    }
    ReportsDiffer(cfg, s, reports, adds);
    NoResetInPart(cfg, s, p, adds);
  }

  lemma TrippedIsEarned(cfg: CB.Config, s: Schedule) returns (reports: seq<nat>, adds: seq<nat>)
    requires OnceTripped(cfg, Run(cfg, s).shared.writes)
    ensures Earned(cfg, s, reports, adds)
  {
    var writes := Run(cfg, s).shared.writes;
    var k :| 0 <= k <= |writes| && AddedRun(writes[..k]) >= cfg.failureThreshold;
    var p := WritesOfPart(cfg, s, k);
    adds := RunOfAdds(cfg, s[..p]);
    reports := ReportsOf(cfg, s[..p], adds);
    PartIsEarned(cfg, s, p, reports, adds);
  }

  /** Under every schedule, an Open or HalfOpen breaker, and every rejection, have the
      threshold number of reported failures behind them, counted with no reset between. */
  lemma RejectionIsEarned(cfg: CB.Config, s: Schedule, t: nat, now: nat)
    ensures Run(cfg, s).shared.state != CB.Closed || TurnsAway(cfg, Run(cfg, s), t, now) ==>
      exists reports, adds :: Earned(cfg, s, reports, adds)
  {
    NoUnearnedRejection(cfg, s);
    if Run(cfg, s).shared.state != CB.Closed || TurnsAway(cfg, Run(cfg, s), t, now) {
      var reports, adds := TrippedIsEarned(cfg, s);
    }
  }

  /** While every future succeeds and nothing else reports a failure, the breaker stays
      Closed. */
  lemma NoFailureStaysClosed(cfg: CB.Config, s: Schedule)
    requires cfg.failureThreshold >= 1 && forall i :: 0 <= i < |s| ==> s[i].1 != FutureErr && s[i].1 != StartFailure
    ensures Run(cfg, s).shared.state == CB.Closed
  {
    RejectionIsEarned(cfg, s, 0, 0);
    if reports, adds :| Earned(cfg, s, reports, adds) {
      assert CountsReport(cfg, s, reports[0], adds[0]);
    }
  }
}
