/**
 The circuit breaker (crates/uniko-pipes/src/circuit_breaker.rs) with each call
 split into its beginning and its end, so that any number of calls overlap.
 `BreakerInterleavings` splits further, into single atomic operations.
 */
module CircuitBreaker {

  datatype State = Closed | Open | HalfOpen

  const U32: nat := 0x1_0000_0000

  /** Addition on the 32-bit counter. */
  function Increment(count: nat): nat { if count + 1 == U32 then 0 else count + 1 }

  /** Clock readings are milliseconds; the clock may go back. */
  datatype Event = Began(now: nat) | Succeeded | Failed(now: nat)

  datatype Config = Config(failureThreshold: nat, recoveryMs: nat)

  // ----- what a history of events says -----

  /** Failures recorded since the last success. */
  function FailureRun(h: seq<Event>): nat {
    if h == [] then 0
    else match h[|h| - 1]
      case Succeeded => 0
      case Failed(_) => FailureRun(h[..|h| - 1]) + 1
      case Began(_) => FailureRun(h[..|h| - 1])
  }

  function LastFailure(h: seq<Event>): nat {
    if h == [] then 0
    else if h[|h| - 1].Failed? then h[|h| - 1].now
    else LastFailure(h[..|h| - 1])
  }

  predicate Elapsed(now: nat, last: nat, recoveryMs: nat) {
    (if now >= last then now - last else 0) >= recoveryMs
  }

  /** The failure run is long enough.  A threshold of zero acts like one. */
  predicate Tripped(h: seq<Event>, cfg: Config) {
    FailureRun(h) >= 1 && FailureRun(h) >= cfg.failureThreshold
  }

  /** A call was let through to probe, and no failure has closed the door since.
      The stored counter is 32 bits wide: a failure that wraps it below the
      threshold does not. */
  predicate Probing(h: seq<Event>, cfg: Config) {
    h != [] &&
    var front := h[..|h| - 1];
    match h[|h| - 1]
    case Began(now) => Probing(front, cfg) || (Tripped(front, cfg) && Elapsed(now, LastFailure(front), cfg.recoveryMs))
    case Succeeded => false
    case Failed(_) => Probing(front, cfg) && FailureRun(h) % U32 < cfg.failureThreshold
  }

  function StateOf(h: seq<Event>, cfg: Config): State {
    if !Tripped(h, cfg) then Closed else if Probing(h, cfg) then HalfOpen else Open
  }

  /** The breaker turns away a call that begins now. */
  predicate Rejects(h: seq<Event>, cfg: Config, now: nat) {
    StateOf(h, cfg) == Open && !Elapsed(now, LastFailure(h), cfg.recoveryMs)
  }

  // ----- the breaker -----

  class CircuitBreaker {
    var state: State
    var failureCount: nat
    var lastFailureMs: nat
    const cfg: Config
    ghost var history: seq<Event>

    ghost predicate Valid()
      reads this
    {
      && cfg.failureThreshold < U32
      && state == StateOf(history, cfg)
      && failureCount == FailureRun(history) % U32
      && lastFailureMs == LastFailure(history)
    }

    constructor (failureThreshold: nat, recoveryMs: nat)
      requires failureThreshold < U32
      ensures Valid() && history == [] && cfg == Config(failureThreshold, recoveryMs)
    {
      state, failureCount, lastFailureMs := Closed, 0, 0;
      cfg := Config(failureThreshold, recoveryMs);
      history := [];
    }

    method CheckRecovery(now: nat) returns (elapsed: bool)
      requires Valid()
      ensures elapsed == Elapsed(now, LastFailure(history), cfg.recoveryMs)
    {
      elapsed := (if now >= lastFailureMs then now - lastFailureMs else 0) >= cfg.recoveryMs;
    }

    method IsAvailable(now: nat) returns (available: bool)
      requires Valid()
      ensures available <==> !Rejects(history, cfg, now)
    {
      if state == Closed || state == HalfOpen { return true; }
      available := CheckRecovery(now);
    }

    /** The part of `call` before the wrapped future runs. */
    method BeginCall(now: nat) returns (admitted: bool)
      requires Valid()
      modifies `state, `history
      ensures Valid() && history == old(history) + [Began(now)]
      ensures admitted <==> !Rejects(old(history), cfg, now)
      ensures !admitted ==> state == old(state)
    {
      admitted := true;
      if state == Open {
        admitted := CheckRecovery(now);
        if admitted { state := HalfOpen; }
      }
      history := history + [Began(now)];
      assert history[..|history| - 1] == old(history);
      TrippedStays(old(history), cfg);
    }

    /** A call ends well. */
    method RecordSuccess()
      requires Valid()
      modifies `state, `failureCount, `history
      ensures Valid() && history == old(history) + [Succeeded] && state == Closed
    {
      state := Closed;
      failureCount := 0;
      history := history + [Succeeded];
      assert history[..|history| - 1] == old(history);
    }

    /** A call ends badly. */
    method RecordFailure(now: nat)
      requires Valid()
      modifies this
      ensures Valid() && history == old(history) + [Failed(now)]
    {
      WrappedAdd(FailureRun(history));
      failureCount := Increment(failureCount);
      var count := failureCount;
      lastFailureMs := now;
      if count >= cfg.failureThreshold { state := Open; }
      AfterFailure(history, cfg, now);
      history := history + [Failed(now)];
    }
  }

  lemma WrappedAdd(n: nat)
    ensures Increment(n % U32) == (n + 1) % U32
  {
  }

  /** A failure opens the breaker when the stored count reaches the threshold, and
      otherwise leaves the state alone. */
  lemma AfterFailure(h: seq<Event>, cfg: Config, now: nat)
    requires cfg.failureThreshold < U32
    ensures var after := h + [Failed(now)];
      && FailureRun(after) == FailureRun(h) + 1 && LastFailure(after) == now
      && StateOf(after, cfg) == if (FailureRun(h) + 1) % U32 >= cfg.failureThreshold then Open else StateOf(h, cfg)
  {
    var after := h + [Failed(now)];
    assert after[..|h|] == h;
    ProbingTripped(h, cfg);
    var run := FailureRun(h) + 1;
    assert run < U32 ==> run % U32 == run;
    assert run % U32 <= run;
  }

  lemma {:induction false} ProbingTripped(h: seq<Event>, cfg: Config)
    ensures Probing(h, cfg) ==> Tripped(h, cfg)
  {
    if h != [] { ProbingTripped(h[..|h| - 1], cfg); }
  }

  lemma TrippedStays(h: seq<Event>, cfg: Config)
    ensures forall now :: Tripped(h + [Began(now)], cfg) == Tripped(h, cfg)
  {
    forall now ensures Tripped(h + [Began(now)], cfg) == Tripped(h, cfg) {
      assert (h + [Began(now)])[..|h|] == h;
    }
  }
}
