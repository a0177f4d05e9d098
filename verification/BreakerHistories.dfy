/** What the history function of `CircuitBreaker` promises over whole runs. */
module BreakerHistories {
  import opened CircuitBreaker

  function FailureTotal(h: seq<Event>): nat {
    if h == [] then 0 else FailureTotal(h[..|h| - 1]) + if h[|h| - 1].Failed? then 1 else 0
  }

  /** `FailureRun` counts the failures after the last success, wherever it is. */
  lemma {:induction false} RunIsSinceLastSuccess(h: seq<Event>, i: nat)
    requires i <= |h| && (i == 0 || h[i - 1].Succeeded?)
    requires forall j :: i <= j < |h| ==> !h[j].Succeeded?
    ensures FailureRun(h) == FailureTotal(h[i..])
    decreases |h|
  {
    if i < |h| {
      RunIsSinceLastSuccess(h[..|h| - 1], i);
      assert h[i..][..|h| - i - 1] == h[..|h| - 1][i..];
    }
  }

  /** The last failure is the last one, whatever came after it; 0 stands for none. */
  lemma {:induction false} LastFailureIsLast(h: seq<Event>, i: nat)
    requires i <= |h| && (i == 0 || h[i - 1].Failed?) && forall j :: i <= j < |h| ==> !h[j].Failed?
    ensures LastFailure(h) == if i == 0 then 0 else h[i - 1].now
    decreases |h|
  {
    if i < |h| { LastFailureIsLast(h[..|h| - 1], i); }
  }

  lemma {:induction false} RunAtMostTotal(h: seq<Event>)
    ensures FailureRun(h) <= FailureTotal(h)
  {
    if h != [] { RunAtMostTotal(h[..|h| - 1]); }
  }

  /** No call is rejected before `failureThreshold` failures were recorded. */
  lemma NoEarlyRejection(h: seq<Event>, cfg: Config, now: nat)
    requires FailureTotal(h) < cfg.failureThreshold || FailureTotal(h) == 0
    ensures !Rejects(h, cfg, now)
  {
    RunAtMostTotal(h);
  }

  /** The event ends all probing: a success, or a failure that the stored count makes reopen. */
  predicate Ends(h: seq<Event>, cfg: Config, j: nat)
    requires j < |h|
  {
    h[j].Succeeded? || (h[j].Failed? && FailureRun(h[..j + 1]) % U32 >= cfg.failureThreshold)
  }

  predicate Admits(h: seq<Event>, cfg: Config, i: nat)
    requires i < |h|
  {
    && h[i].Began? && FailureRun(h[..i]) >= 1 && FailureRun(h[..i]) >= cfg.failureThreshold
    && (h[i].now >= LastFailure(h[..i]) + cfg.recoveryMs || cfg.recoveryMs == 0)
  }

  /** A call that began at `i` was let through to probe, and nothing ended its probing. */
  ghost predicate LetThrough(h: seq<Event>, cfg: Config, i: nat) {
    i < |h| && Admits(h, cfg, i) && forall j :: i < j < |h| ==> !Ends(h, cfg, j)
  }

  lemma SameInFront(h: seq<Event>, cfg: Config, j: nat)
    requires j < |h| - 1
    ensures Ends(h, cfg, j) == Ends(h[..|h| - 1], cfg, j) && Admits(h, cfg, j) == Admits(h[..|h| - 1], cfg, j)
  {
    assert h[..|h| - 1][..j + 1] == h[..j + 1] && h[..|h| - 1][..j] == h[..j];
  }

  lemma LetThroughPush(h: seq<Event>, cfg: Config, i: nat)
    requires h != []
    ensures LetThrough(h, cfg, i) <==>
      if i < |h| - 1 then LetThrough(h[..|h| - 1], cfg, i) && !Ends(h, cfg, |h| - 1)
      else i == |h| - 1 && Admits(h, cfg, i)
  {
    forall j | 0 <= j < |h| - 1
      ensures Ends(h, cfg, j) == Ends(h[..|h| - 1], cfg, j) && Admits(h, cfg, j) == Admits(h[..|h| - 1], cfg, j)
    {
      SameInFront(h, cfg, j);
    }
    var front, n := h[..|h| - 1], |h| - 1;
    if i < n && LetThrough(front, cfg, i) && !Ends(h, cfg, n) {
      forall j | i < j < |h| ensures !Ends(h, cfg, j) {
        if j < n { assert !Ends(front, cfg, j); }
      }
    }
    if i < n && LetThrough(h, cfg, i) {
      forall j | i < j < |front| ensures !Ends(front, cfg, j) { assert !Ends(h, cfg, j); }
    }
  }

  lemma ProbingStep(h: seq<Event>, cfg: Config)
    requires h != []
    ensures Probing(h, cfg) <==> (Probing(h[..|h| - 1], cfg) && !Ends(h, cfg, |h| - 1)) || Admits(h, cfg, |h| - 1)
  {
    assert h[..|h|] == h;
  }

  /** Probing, read off the whole history. */
  lemma {:induction false} ProbingExactly(h: seq<Event>, cfg: Config)
    ensures Probing(h, cfg) <==> exists i :: LetThrough(h, cfg, i)
  {
    if h != [] {
      var front, n := h[..|h| - 1], |h| - 1;
      ProbingExactly(front, cfg);
      ProbingStep(h, cfg);
      forall i: nat ensures LetThrough(h, cfg, i) <==>
        (if i < n then LetThrough(front, cfg, i) && !Ends(h, cfg, n) else i == n && Admits(h, cfg, n))
      {
        LetThroughPush(h, cfg, i);
      }
      if Admits(h, cfg, n) {
        assert LetThrough(h, cfg, n);
      } else if Probing(h, cfg) {
        var i :| LetThrough(front, cfg, i);
        assert LetThrough(h, cfg, i);
      }
    }
  }

  /** A rejection names its cause in the history: enough failures since the last
      success, the last one less than `recoveryMs` ago, and no call let through to
      probe whose probing lasts. */
  lemma RejectsExactly(h: seq<Event>, cfg: Config, now: nat)
    ensures Rejects(h, cfg, now) <==>
      && FailureRun(h) >= 1 && FailureRun(h) >= cfg.failureThreshold
      && now < LastFailure(h) + cfg.recoveryMs && cfg.recoveryMs > 0
      && !exists i :: LetThrough(h, cfg, i)
  {
    ProbingExactly(h, cfg);
  }

  function Calls(times: seq<nat>): seq<Event> {
    seq(|times|, i requires 0 <= i < |times| => Began(times[i]))
  }

  lemma CallsPush(h: seq<Event>, times: seq<nat>)
    requires times != []
    ensures h + Calls(times) == (h + Calls(times[..|times| - 1])) + [Began(times[|times| - 1])]
  {
  }

  /** Any number of rejected calls leave no trace: all later verdicts are what they were. */
  lemma {:induction false} RejectionsLeaveNoTrace(h: seq<Event>, cfg: Config, times: seq<nat>, now: nat)
    requires forall i :: 0 <= i < |times| ==> Rejects(h, cfg, times[i])
    ensures StateOf(h + Calls(times), cfg) == StateOf(h, cfg) && LastFailure(h + Calls(times)) == LastFailure(h)
    ensures FailureRun(h + Calls(times)) == FailureRun(h)
    ensures Rejects(h + Calls(times), cfg, now) <==> Rejects(h, cfg, now)
  {
    if times == [] {
      assert h + Calls(times) == h;
    } else {
      var before, last := h + Calls(times[..|times| - 1]), times[|times| - 1];
      RejectionsLeaveNoTrace(h, cfg, times[..|times| - 1], last);
      CallsPush(h, times);
      assert (before + [Began(last)])[..|before|] == before;
    }
  }

  /** While half open any number of calls pass: there is no single-probe limit. */
  lemma {:induction false} HalfOpenAdmitsAll(h: seq<Event>, cfg: Config, times: seq<nat>, now: nat)
    requires StateOf(h, cfg) == HalfOpen
    ensures StateOf(h + Calls(times), cfg) == HalfOpen && !Rejects(h + Calls(times), cfg, now)
    ensures FailureRun(h + Calls(times)) == FailureRun(h)
  {
    if times == [] {
      assert h + Calls(times) == h;
    } else {
      var before, last := h + Calls(times[..|times| - 1]), times[|times| - 1];
      HalfOpenAdmitsAll(h, cfg, times[..|times| - 1], last);
      CallsPush(h, times);
      assert (before + [Began(last)])[..|before|] == before;
    }
  }

  function Failures(n: nat): seq<Event> {
    seq(n, _ => Failed(0))
  }

  lemma {:induction false} FailuresRun(n: nat)
    ensures FailureRun(Failures(n)) == n && LastFailure(Failures(n)) == 0 && !Probing(Failures(n), Config(2, 0))
  {
    if n > 0 {
      FailuresRun(n - 1);
      assert Failures(n)[..n - 1] == Failures(n - 1);
    }
  }

  /** Two failures and a call that begins when the recovery time is over. */
  lemma HalfOpenAfter(n: nat)
    requires n >= 2
    ensures StateOf(Failures(n) + [Began(0)], Config(2, 0)) == HalfOpen && FailureRun(Failures(n) + [Began(0)]) == n
  {
    FailuresRun(n);
    assert (Failures(n) + [Began(0)])[..n] == Failures(n);
  }

  /** A second and a third call pass beside the probe. */
  lemma ThreeCallsPass()
    ensures var h := Failures(2) + [Began(0)];
      && StateOf(h, Config(2, 0)) == HalfOpen
      && !Rejects(h, Config(2, 0), 0) && !Rejects(h + Calls([0]), Config(2, 0), 0)
  {
    HalfOpenAfter(2);
    HalfOpenAdmitsAll(Failures(2) + [Began(0)], Config(2, 0), [], 0);
    HalfOpenAdmitsAll(Failures(2) + [Began(0)], Config(2, 0), [0], 0);
    assert Failures(2) + [Began(0)] + Calls([]) == Failures(2) + [Began(0)];
  }

  /** With one failure short of the 32-bit range counted, a failed probe leaves the
      breaker half open. */
  lemma ProbeFailsAtTheWrap()
    ensures var h := Failures(U32 - 1) + [Began(0)];
      && StateOf(h, Config(2, 0)) == HalfOpen
      && StateOf(h + [Failed(0)], Config(2, 0)) == HalfOpen
  {
    HalfOpenAfter(U32 - 1);
    var h := Failures(U32 - 1) + [Began(0)];
    AfterFailure(h, Config(2, 0), 0);
  }

  /** One failing probe reopens the breaker, except at the 32-bit wrap of the
      failure counter. */
  lemma FailedProbeReopens(h: seq<Event>, cfg: Config, now: nat)
    requires StateOf(h, cfg) == HalfOpen
    ensures StateOf(h + [Failed(now)], cfg) == Open <==> (FailureRun(h) + 1) % U32 >= cfg.failureThreshold
    ensures FailureTotal(h) + 1 < U32 ==> StateOf(h + [Failed(now)], cfg) == Open
  {
    assert (h + [Failed(now)])[..|h|] == h;
    RunAtMostTotal(h);
  }

  /** Closed to Open to HalfOpen and back: every state change is one of the five
      the state machine has. */
  lemma OnlyListedTransitions(h: seq<Event>, cfg: Config, e: Event)
    ensures var before, after := StateOf(h, cfg), StateOf(h + [e], cfg);
      || after == before
      || (before == Closed && after == Open && e.Failed?)
      || (before == Open && after == HalfOpen && e.Began? && Elapsed(e.now, LastFailure(h), cfg.recoveryMs))
      || (before == HalfOpen && after == Open && e.Failed?)
      || (before != Closed && after == Closed && e == Succeeded)
  {
    assert (h + [e])[..|h|] == h;
    ProbingTripped(h, cfg);
  }
}
