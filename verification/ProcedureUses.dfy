/**
 What any mixture of uses and upserts leaves in a procedure's counters and status
 (crates/uniko-cortex/src/procedures.rs, 197-224 and 276-347), read off the outcomes and
 supports themselves.
 */
module ProcedureUses {
  import opened Wrappers
  import opened Procedures

  function Uses(outcomes: seq<bool>): seq<Operation> {
    seq(|outcomes|, i requires 0 <= i < |outcomes| => Use(outcomes[i]))
  }

  lemma UsesPush(outcomes: seq<bool>)
    requires outcomes != []
    ensures var front, last := outcomes[..|outcomes| - 1], outcomes[|outcomes| - 1];
      && outcomes == front + [last] && |Uses(outcomes)| == |outcomes|
      && Uses(outcomes)[..|outcomes| - 1] == Uses(front) && Uses(outcomes)[|outcomes| - 1] == Use(last)
  {
    assert Uses(outcomes)[..|outcomes| - 1] == Uses(outcomes[..|outcomes| - 1]);
  }

  /** Successes count the good outcomes, failures the bad ones, uses both. */
  lemma {:induction false} UsesAreCounted(p: Procedure, outcomes: seq<bool>, cfg: LifecycleConfig)
    ensures var q := ApplyAll(p, Uses(outcomes), cfg);
      && q.success == p.success + multiset(outcomes)[true]
      && q.failure == p.failure + multiset(outcomes)[false]
      && q.useCount == p.useCount + |outcomes|
      && q.name == p.name && q.preconditionRule == p.preconditionRule
  {
    if outcomes != [] {
      UsesAreCounted(p, outcomes[..|outcomes| - 1], cfg);
      UsesPush(outcomes);
    }
  }

  // ----- the status -----

  /** One use at `success` good outcomes of `n`: demoted exactly when active and below
      the one threshold, promoted again exactly when deprecated and at or over the
      other, and otherwise left as it was. */
  ghost predicate Judged(before: Status, after: Status, success: int, n: int, cfg: LifecycleConfig) {
    && (before == Active && after == Deprecated <==> before == Active && success as real < cfg.demoteEffectiveness * n as real)
    && (before == Deprecated && after == Active <==> before == Deprecated && success as real >= cfg.repromoteEffectiveness * n as real)
    && (after == before || (before == Active && after == Deprecated) || (before == Deprecated && after == Active))
  }

  lemma UseIsJudged(p: Procedure, succeeded: bool, cfg: LifecycleConfig)
    requires p.success >= 0 && p.failure >= 0
    ensures Judged(p.status, AfterUse(p, succeeded, cfg).status, p.success + (if succeeded then 1 else 0), p.success + p.failure + 1, cfg)
  {
    var q := AfterUse(p, succeeded, cfg);
    RatioBelow(q.success, q.failure, cfg.demoteEffectiveness);
    RatioBelow(q.success, q.failure, cfg.repromoteEffectiveness);
  }

  lemma UsesTo(p: Procedure, outcomes: seq<bool>, cfg: LifecycleConfig, k: nat)
    requires k < |outcomes|
    ensures ApplyAll(p, Uses(outcomes[..k + 1]), cfg) == AfterUse(ApplyAll(p, Uses(outcomes[..k]), cfg), outcomes[k], cfg)
    ensures multiset(outcomes[..k + 1])[true] == multiset(outcomes[..k])[true] + if outcomes[k] then 1 else 0
    ensures multiset(outcomes[..k])[true] + multiset(outcomes[..k])[false] == k
  {
    UsesPush(outcomes[..k + 1]);
    assert outcomes[..k + 1][..k] == outcomes[..k];
    TrueOrFalse(outcomes[..k]);
  }

  lemma {:induction false} TrueOrFalse(outcomes: seq<bool>)
    ensures multiset(outcomes)[true] + multiset(outcomes)[false] == |outcomes|
  {
    if outcomes != [] {
      var front, last := outcomes[..|outcomes| - 1], outcomes[|outcomes| - 1];
      TrueOrFalse(front);
      assert outcomes == front + [last];
      assert multiset(outcomes)[last] == multiset(front)[last] + 1 && multiset(outcomes)[!last] == multiset(front)[!last];
    }
  }

  /** Over a run of uses, every one of them judges the status by the good outcomes so far. */
  lemma StatusFollowsOutcomes(p: Procedure, outcomes: seq<bool>, cfg: LifecycleConfig, k: nat)
    requires p.success >= 0 && p.failure >= 0 && k < |outcomes|
    ensures Judged(ApplyAll(p, Uses(outcomes[..k]), cfg).status, ApplyAll(p, Uses(outcomes[..k + 1]), cfg).status,
                   p.success + multiset(outcomes[..k + 1])[true], p.success + p.failure + k + 1, cfg)
  {
    UsesAreCounted(p, outcomes[..k], cfg);
    UsesTo(p, outcomes, cfg, k);
    UseIsJudged(ApplyAll(p, Uses(outcomes[..k]), cfg), outcomes[k], cfg);
  }

  // ----- uses and upserts mixed -----

  predicate Counts(op: Operation, goodOnly: bool) {
    op.Use? && (op.succeeded || !goodOnly)
  }

  /** The uses from place `i` on, or the good ones among them. */
  function UsesFrom(ops: seq<Operation>, i: nat, goodOnly: bool): nat
    requires i <= |ops|
    decreases |ops| - i
  {
    if i == |ops| then 0 else UsesFrom(ops, i + 1, goodOnly) + if Counts(ops[i], goodOnly) then 1 else 0
  }

  lemma {:induction false} UsesFromPush(front: seq<Operation>, op: Operation, i: nat, goodOnly: bool)
    requires i <= |front|
    ensures UsesFrom(front + [op], i, goodOnly) == UsesFrom(front, i, goodOnly) + if Counts(op, goodOnly) then 1 else 0
    decreases |front| - i
  {
    if i < |front| { UsesFromPush(front, op, i + 1, goodOnly); }
  }

  /** What the support of upsert `i` grows to by the uses after it. */
  function Grown(ops: seq<Operation>, i: nat, goodOnly: bool): int
    requires i < |ops| && ops[i].Upsert?
  {
    ops[i].support + UsesFrom(ops, i + 1, goodOnly)
  }

  /** The counter starts at `first`, an upsert lifts it to its support, and each use that
      counts adds one: so it is the largest of what the start and the supports grow to. */
  ghost predicate IsLargest(value: int, first: int, ops: seq<Operation>, goodOnly: bool) {
    && value >= first + UsesFrom(ops, 0, goodOnly)
    && (forall i :: 0 <= i < |ops| && ops[i].Upsert? ==> value >= Grown(ops, i, goodOnly))
    && (value == first + UsesFrom(ops, 0, goodOnly) || exists i :: 0 <= i < |ops| && ops[i].Upsert? && value == Grown(ops, i, goodOnly))
  }

  lemma LargestPush(value: int, first: int, front: seq<Operation>, op: Operation, goodOnly: bool)
    requires IsLargest(value, first, front, goodOnly)
    ensures IsLargest(if op.Upsert? then Max(value, op.support) else value + (if Counts(op, goodOnly) then 1 else 0), first, front + [op], goodOnly)
  {
    var ops, n, step := front + [op], |front|, if Counts(op, goodOnly) then 1 else 0;
    UsesFromPush(front, op, 0, goodOnly);
    forall i | 0 <= i < n && front[i].Upsert? ensures Grown(ops, i, goodOnly) == Grown(front, i, goodOnly) + step {
      UsesFromPush(front, op, i + 1, goodOnly);
    }
    if op.Upsert? { assert Grown(ops, n, goodOnly) == op.support; }
    var after := if op.Upsert? then Max(value, op.support) else value + step;
    forall i | 0 <= i < |ops| && ops[i].Upsert? ensures after >= Grown(ops, i, goodOnly) {
      if i < n { assert value >= Grown(front, i, goodOnly); }
    }
    if value != first + UsesFrom(front, 0, goodOnly) {
      var i :| 0 <= i < n && front[i].Upsert? && value == Grown(front, i, goodOnly);
      assert ops[i].Upsert? && value + step == Grown(ops, i, goodOnly);
    }
  }

  /** Through any mixture of uses and upserts: failures count the bad uses, and successes
      and uses are the largest of what the start and each support have grown to. */
  lemma {:induction false} MixtureIsCounted(p: Procedure, ops: seq<Operation>, cfg: LifecycleConfig)
    ensures var q := ApplyAll(p, ops, cfg);
      && q.failure == p.failure + UsesFrom(ops, 0, false) - UsesFrom(ops, 0, true)
      && IsLargest(q.success, p.success, ops, true) && IsLargest(q.useCount, p.useCount, ops, false)
  {
    if ops != [] {
      var front, op := ops[..|ops| - 1], ops[|ops| - 1];
      assert ops == front + [op];
      MixtureIsCounted(p, front, cfg);
      var q := ApplyAll(p, front, cfg);
      UsesFromPush(front, op, 0, true);
      UsesFromPush(front, op, 0, false);
      LargestPush(q.success, p.success, front, op, true);
      LargestPush(q.useCount, p.useCount, front, op, false);
    }
  }

  /** A first use that succeeds leaves an active procedure active, and one that fails
      deprecates it. */
  lemma FirstUse(name: string, rule: string)
    ensures var p := Procedure(name, rule, 0, 0, 0, Active, 0.0);
      && AfterUse(p, true, DEFAULT_CONFIG) == Procedure(name, rule, 1, 1, 0, Active, 1.0)
      && AfterUse(p, false, DEFAULT_CONFIG) == Procedure(name, rule, 1, 0, 1, Deprecated, 0.0)
  {
    assert Ratio(1, 0, 0.0) == 1.0 && Ratio(0, 1, 0.0) == 0.0;
  }

  /** The defaults: three sequences make a new procedure active, fewer than two good uses
      of five deprecate it, three of five bring it back. */
  lemma Defaults(a: string, b: string, support: int, p: Procedure)
    requires p.success >= 0 && p.failure >= 0 && p.success + p.failure == 4
    ensures AfterUpsert(None, a, b, support, DEFAULT_CONFIG).status == if support >= 3 then Active else Candidate
    ensures p.status == Active ==> (AfterUse(p, true, DEFAULT_CONFIG).status == Deprecated <==> p.success + 1 < 2)
    ensures p.status == Deprecated ==> (AfterUse(p, true, DEFAULT_CONFIG).status == Active <==> p.success + 1 >= 3)
  {
    UseIsJudged(p, true, DEFAULT_CONFIG);
  }
}
