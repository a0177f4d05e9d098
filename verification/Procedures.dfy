/**
 The procedure lifecycle (crates/uniko-cortex/src/procedures.rs): counters,
 status and effectiveness of one stored procedure, driven by two operations
 that do not know of each other.
 */
module Procedures {
  import opened Wrappers

  /** `Unset` is a node stored without a status, read back as the empty string;
      `Unknown` is any other text. */
  datatype Status = Candidate | Active | Deprecated | Unset | Unknown(text: string)

  datatype Procedure = Procedure(
    name: string, preconditionRule: string,
    useCount: int, success: int, failure: int, status: Status, effectiveness: real)

  datatype LifecycleConfig = LifecycleConfig(promoteThreshold: int, demoteEffectiveness: real, repromoteEffectiveness: real)

  const DEFAULT_CONFIG := LifecycleConfig(3, 0.4, 0.6)

  function Ratio(success: int, failure: int, otherwise: real): real {
    if success + failure > 0 then success as real / (success + failure) as real else otherwise
  }

  // ----- record_procedure_use -----

  function StatusAfterUse(status: Status, effectiveness: real, cfg: LifecycleConfig): Status {
    match status
    case Active => if effectiveness < cfg.demoteEffectiveness then Deprecated else Active
    case Deprecated => if effectiveness >= cfg.repromoteEffectiveness then Active else Deprecated
    case _ => status
  }

  function AfterUse(p: Procedure, succeeded: bool, cfg: LifecycleConfig): Procedure {
    var success := p.success + if succeeded then 1 else 0;
    var failure := p.failure + if succeeded then 0 else 1;
    var effectiveness := Ratio(success, failure, 0.0);
    p.(useCount := p.useCount + 1, success := success, failure := failure, effectiveness := effectiveness,
       status := StatusAfterUse(p.status, effectiveness, cfg))
  }

  // ----- upsert_procedure -----

  function Max(a: int, b: int): int { if a >= b then a else b }

  function StatusAfterUpsert(existing: Option<Status>, support: int, cfg: LifecycleConfig): Status {
    match existing
    case None => if support >= cfg.promoteThreshold then Active else Candidate
    case Some(Candidate) => if support >= cfg.promoteThreshold then Active else Candidate
    case Some(Unset) => Candidate
    case Some(status) => status
  }

  function StatusOf(existing: Option<Procedure>): Option<Status> {
    match existing case None => None case Some(p) => Some(p.status)
  }

  function AfterUpsert(existing: Option<Procedure>, a: string, b: string, support: int, cfg: LifecycleConfig): Procedure {
    var stored := match existing case Some(p) => p case None => Procedure("", "", 0, 0, 0, Unset, 0.0);
    var success := Max(stored.success, support);
    Procedure(a + " → " + b, "last_action_type=" + a,
              Max(stored.useCount, support), success, stored.failure,
              StatusAfterUpsert(StatusOf(existing), support, cfg), Ratio(success, stored.failure, 1.0))
  }

  // ----- every run of the two operations -----

  datatype Operation = Use(succeeded: bool) | Upsert(a: string, b: string, support: int)

  function Apply(p: Procedure, op: Operation, cfg: LifecycleConfig): Procedure {
    match op
    case Use(succeeded) => AfterUse(p, succeeded, cfg)
    case Upsert(a, b, support) => AfterUpsert(Some(p), a, b, support, cfg)
  }

  function ApplyAll(p: Procedure, ops: seq<Operation>, cfg: LifecycleConfig): Procedure {
    if ops == [] then p else Apply(ApplyAll(p, ops[..|ops| - 1], cfg), ops[|ops| - 1], cfg)
  }

  predicate Counted(op: Operation) { op.Upsert? ==> op.support >= 0 }

  predicate Consistent(p: Procedure) {
    && 0 <= p.success && 0 <= p.failure
    && Max(p.success, p.failure) <= p.useCount <= p.success + p.failure
    && 0.0 <= p.effectiveness <= 1.0
    && (p.success + p.failure > 0 ==> p.effectiveness == p.success as real / (p.success + p.failure) as real)
    && (p.status == Candidate || p.status == Active || p.status == Deprecated)
  }

  lemma RatioInUnit(success: int, failure: int, otherwise: real)
    requires success >= 0 && failure >= 0 && success + failure > 0
    ensures 0.0 <= Ratio(success, failure, otherwise) <= 1.0
  {
    var n := (success + failure) as real;
    var r := success as real / n;
    assert r * n == success as real <= n;
  }

  lemma UpsertStartsConsistent(a: string, b: string, support: int, cfg: LifecycleConfig)
    requires support >= 0
    ensures Consistent(AfterUpsert(None, a, b, support, cfg))
  {
    if support > 0 { RatioInUnit(support, 0, 1.0); }
  }

  lemma OperationKeepsConsistent(p: Procedure, op: Operation, cfg: LifecycleConfig)
    requires Consistent(p) && Counted(op)
    ensures Consistent(Apply(p, op, cfg))
    ensures p.status != Candidate ==> Apply(p, op, cfg).status != Candidate
  {
    var q := Apply(p, op, cfg);
    if q.success + q.failure > 0 { RatioInUnit(q.success, q.failure, if op.Use? then 0.0 else 1.0); }
  }

  /** From the upsert that created it, a procedure's counters, effectiveness and
      status stay consistent through any interleaving of uses and upserts. */
  lemma {:induction false} RunsStayConsistent(a: string, b: string, support: int, ops: seq<Operation>, cfg: LifecycleConfig)
    requires support >= 0 && forall i :: 0 <= i < |ops| ==> Counted(ops[i])
    ensures Consistent(ApplyAll(AfterUpsert(None, a, b, support, cfg), ops, cfg))
  {
    if ops == [] {
      UpsertStartsConsistent(a, b, support, cfg);
    } else {
      RunsStayConsistent(a, b, support, ops[..|ops| - 1], cfg);
      OperationKeepsConsistent(ApplyAll(AfterUpsert(None, a, b, support, cfg), ops[..|ops| - 1], cfg), ops[|ops| - 1], cfg);
    }
  }

  /** A procedure that left the candidate status never returns to it. */
  lemma {:induction false} NeverBackToCandidate(p: Procedure, ops: seq<Operation>, cfg: LifecycleConfig)
    requires Consistent(p) && p.status != Candidate && forall i :: 0 <= i < |ops| ==> Counted(ops[i])
    ensures Consistent(ApplyAll(p, ops, cfg)) && ApplyAll(p, ops, cfg).status != Candidate
  {
    if ops != [] {
      NeverBackToCandidate(p, ops[..|ops| - 1], cfg);
      OperationKeepsConsistent(ApplyAll(p, ops[..|ops| - 1], cfg), ops[|ops| - 1], cfg);
    }
  }

  // ----- hysteresis: how often uses alone can flip the status -----

  /** One status flip: the status left and the counters at that use. */
  datatype Flip = Flip(from: Status, success: int, failure: int) {
    function Total(): int { success + failure }
  }

  /** The flips of a run of uses with no upsert in between. */
  function Flips(p: Procedure, outcomes: seq<bool>, cfg: LifecycleConfig): seq<Flip>
    decreases |outcomes|
  {
    if outcomes == [] then []
    else
      var q := AfterUse(p, outcomes[0], cfg);
      (if q.status != p.status then [Flip(p.status, q.success, q.failure)] else []) + Flips(q, outcomes[1..], cfg)
  }

  lemma RatioBelow(success: int, failure: int, threshold: real)
    requires success + failure > 0
    ensures Ratio(success, failure, 0.0) < threshold <==> success as real < threshold * (success + failure) as real
  {
    var n := (success + failure) as real;
    var r := success as real / n;
    assert r * n == success as real;
    if r < threshold { assert (threshold - r) * n > 0.0; } else { assert (r - threshold) * n >= 0.0; }
  }

  /** What the counters must be like at a flip: few successes for a demotion, few
      failures for a promotion. */
  ghost predicate Justified(flip: Flip, cfg: LifecycleConfig) {
    var d, r, n := cfg.demoteEffectiveness, cfg.repromoteEffectiveness, flip.Total() as real;
    if flip.from == Active then
      flip.success as real < d * n && (1.0 - d) * n < flip.failure as real
    else
      flip.from == Deprecated && r * n <= flip.success as real && flip.failure as real <= (1.0 - r) * n
  }

  lemma FlipIsJustified(p: Procedure, succeeded: bool, cfg: LifecycleConfig)
    requires p.success >= 0 && p.failure >= 0 && AfterUse(p, succeeded, cfg).status != p.status
    ensures var q := AfterUse(p, succeeded, cfg);
      && q.status == (if p.status == Active then Deprecated else Active)
      && Justified(Flip(p.status, q.success, q.failure), cfg)
  {
    var q := AfterUse(p, succeeded, cfg);
    var n := (q.success + q.failure) as real;
    var d, r := cfg.demoteEffectiveness, cfg.repromoteEffectiveness;
    RatioBelow(q.success, q.failure, d);
    RatioBelow(q.success, q.failure, r);
    assert (1.0 - d) * n == n - d * n && (1.0 - r) * n == n - r * n;
  }

  lemma {:induction false} FirstFlip(p: Procedure, outcomes: seq<bool>, cfg: LifecycleConfig)
    requires p.success >= 0 && p.failure >= 0 && Flips(p, outcomes, cfg) != []
    ensures var flip := Flips(p, outcomes, cfg)[0];
      && flip.from == p.status && p.success <= flip.success && p.failure <= flip.failure
      && flip.Total() <= p.success + p.failure + |outcomes|
      && Justified(flip, cfg)
    decreases |outcomes|
  {
    var q := AfterUse(p, outcomes[0], cfg);
    if q.status != p.status { FlipIsJustified(p, outcomes[0], cfg); } else { FirstFlip(q, outcomes[1..], cfg); }
  }

  ghost predicate Follows(next: Flip, flip: Flip) {
    && next.from == (if flip.from == Active then Deprecated else Active)
    && flip.success <= next.success && flip.failure <= next.failure
  }

  lemma {:induction false} NextFlip(p: Procedure, outcomes: seq<bool>, cfg: LifecycleConfig, i: nat)
    requires p.success >= 0 && p.failure >= 0 && i + 1 < |Flips(p, outcomes, cfg)|
    ensures var flips := Flips(p, outcomes, cfg);
      Follows(flips[i + 1], flips[i]) && Justified(flips[i], cfg) && Justified(flips[i + 1], cfg)
    decreases |outcomes|
  {
    var q := AfterUse(p, outcomes[0], cfg);
    if q.status == p.status {
      NextFlip(q, outcomes[1..], cfg, i);
    } else if i > 0 {
      NextFlip(q, outcomes[1..], cfg, i - 1);
    } else {
      FlipIsJustified(p, outcomes[0], cfg);
      FirstFlip(q, outcomes[1..], cfg);
    }
  }

  /** Consecutive flips, for any thresholds.  They alternate; from a demotion to
      the next promotion the total grows by more than (1-d)/(1-r), from a promotion
      to the next demotion by more than r/d. */
  lemma FlipsSpread(p: Procedure, outcomes: seq<bool>, cfg: LifecycleConfig, i: nat)
    requires p.success >= 0 && p.failure >= 0 && i + 1 < |Flips(p, outcomes, cfg)|
    ensures var d, r := cfg.demoteEffectiveness, cfg.repromoteEffectiveness;
      var flip, next := Flips(p, outcomes, cfg)[i], Flips(p, outcomes, cfg)[i + 1];
      if flip.from == Active then
        next.from == Deprecated && (1.0 - d) * flip.Total() as real < (1.0 - r) * next.Total() as real
      else
        next.from == Active && r * flip.Total() as real < d * next.Total() as real
  {
    NextFlip(p, outcomes, cfg, i);
  }

  /** With the default thresholds each flip needs more than half as many uses
      again as there were at the flip before. */
  lemma DefaultFlipsSpread(p: Procedure, outcomes: seq<bool>, i: nat)
    requires p.success >= 0 && p.failure >= 0 && i + 1 < |Flips(p, outcomes, DEFAULT_CONFIG)|
    ensures 2 * Flips(p, outcomes, DEFAULT_CONFIG)[i + 1].Total() > 3 * Flips(p, outcomes, DEFAULT_CONFIG)[i].Total()
  {
    FlipsSpread(p, outcomes, DEFAULT_CONFIG, i);
  }

  function Pow(base: nat, e: nat): (r: nat)
    ensures base > 0 ==> r > 0
  {
    if e == 0 then 1 else base * Pow(base, e - 1)
  }

  lemma {:induction false} TotalsBounded(p: Procedure, outcomes: seq<bool>, cfg: LifecycleConfig, i: nat)
    requires p.success >= 0 && p.failure >= 0 && i < |Flips(p, outcomes, cfg)|
    ensures 1 <= Flips(p, outcomes, cfg)[i].Total() <= p.success + p.failure + |outcomes|
    decreases |outcomes|
  {
    var q := AfterUse(p, outcomes[0], cfg);
    if q.status == p.status {
      TotalsBounded(q, outcomes[1..], cfg, i);
    } else if i > 0 {
      TotalsBounded(q, outcomes[1..], cfg, i - 1);
    }
  }

  lemma GrowStep(two: nat, three: nat, first: int, before: int, now: int)
    requires two * before >= three * first && 2 * now >= 3 * before
    ensures (2 * two) * now >= (3 * three) * first
  {
    assert two * (2 * now - 3 * before) >= 0;
    assert (2 * two) * now == two * (2 * now - 3 * before) + 3 * (two * before);
    assert (3 * three) * first == 3 * (three * first);
  }

  lemma {:induction false} FlipsGrow(p: Procedure, outcomes: seq<bool>, k: nat)
    requires p.success >= 0 && p.failure >= 0 && k < |Flips(p, outcomes, DEFAULT_CONFIG)|
    ensures var flips := Flips(p, outcomes, DEFAULT_CONFIG);
      Pow(2, k) * flips[k].Total() >= Pow(3, k) * flips[0].Total()
  {
    if k > 0 {
      FlipsGrow(p, outcomes, k - 1);
      DefaultFlipsSpread(p, outcomes, k - 1);
      var flips := Flips(p, outcomes, DEFAULT_CONFIG);
      GrowStep(Pow(2, k - 1), Pow(3, k - 1), flips[0].Total(), flips[k - 1].Total(), flips[k].Total());
    }
  }

  lemma ScaleUp(c: nat, x: int, y: int)
    requires x <= y
    ensures c * x <= c * y
  {
    assert c * (y - x) >= 0;
  }

  /** Flips are logarithmic in uses: k flips in a run that ends at a total of N
      force 3^(k-1) <= 2^(k-1) * N. */
  lemma FlipsAreLogarithmic(p: Procedure, outcomes: seq<bool>)
    requires p.success >= 0 && p.failure >= 0
    ensures var k := |Flips(p, outcomes, DEFAULT_CONFIG)|;
      k > 0 ==> Pow(3, k - 1) <= Pow(2, k - 1) * (p.success + p.failure + |outcomes|)
  {
    var flips := Flips(p, outcomes, DEFAULT_CONFIG);
    if flips != [] {
      var k := |flips| - 1;
      FlipsGrow(p, outcomes, k);
      TotalsBounded(p, outcomes, DEFAULT_CONFIG, 0);
      TotalsBounded(p, outcomes, DEFAULT_CONFIG, k);
      ScaleUp(Pow(2, k), flips[k].Total(), p.success + p.failure + |outcomes|);
      ScaleUp(Pow(3, k), 1, flips[0].Total());
    }
  }
}
