/**
 What one promotion pass leaves and reports, read off its rows
 (crates/uniko-cortex/src/procedures.rs, 145-166 and 276-347): the counters and status of
 each procedure, and the three numbers of the report.
 */
module PromotionReports {
  import opened Wrappers
  import opened Procedures
  import opened ProcedureStore
  import opened PromotionIdempotence

  // ----- one procedure -----

  /** The largest of a stored counter and the counts of the rows. */
  ghost predicate IsLargest(value: int, stored: int, rs: seq<Record>)
    requires AllUsable(rs)
  {
    && value >= stored && (forall i :: 0 <= i < |rs| ==> value >= rs[i].count.value)
    && (value == stored || exists i :: 0 <= i < |rs| && value == rs[i].count.value)
  }

  lemma LargestPush(value: int, stored: int, front: seq<Record>, r: Record)
    requires AllUsable(front) && r.Usable() && IsLargest(value, stored, front)
    ensures AllUsable(front + [r]) && IsLargest(Max(value, r.count.value), stored, front + [r])
  {
    var rs := front + [r];
    assert rs[|front|] == r;
    if i :| 0 <= i < |front| && value == front[i].count.value { assert rs[i] == front[i]; }
  }

  /** A missing procedure counts as one of zeros. */
  function Stored(p: Option<Procedure>): Procedure {
    match p case None => Procedure("", "", 0, 0, 0, Unset, 0.0) case Some(q) => q
  }

  /** The rows of a procedure lift its successes and uses to the largest count, leave its
      failures, and its effectiveness is the share of the successes. */
  lemma {:induction false} RowsLift(p: Option<Procedure>, rs: seq<Record>, cfg: LifecycleConfig)
    requires AllUsable(rs) && rs != []
    ensures Fold(p, rs, cfg).Some?
    ensures var q := Fold(p, rs, cfg).value;
      && IsLargest(q.success, Stored(p).success, rs) && IsLargest(q.useCount, Stored(p).useCount, rs)
      && q.failure == Stored(p).failure
      && q.name == rs[|rs| - 1].actionA.value + " → " + rs[|rs| - 1].actionB.value
      && q.preconditionRule == "last_action_type=" + rs[|rs| - 1].actionA.value
      && q.effectiveness == if q.success + q.failure > 0 then q.success as real / (q.success + q.failure) as real else 1.0
  {
    var front, r := rs[..|rs| - 1], rs[|rs| - 1];
    assert rs == front + [r];
    if front == [] {
      assert Fold(p, front, cfg) == p;
      LargestPush(Stored(p).success, Stored(p).success, front, r);
      LargestPush(Stored(p).useCount, Stored(p).useCount, front, r);
    } else {
      RowsLift(p, front, cfg);
      var q := Fold(p, front, cfg).value;
      LargestPush(q.success, Stored(p).success, front, r);
      LargestPush(q.useCount, Stored(p).useCount, front, r);
    }
  }

  ghost predicate Reaches(rs: seq<Record>, first: nat, cfg: LifecycleConfig)
    requires AllUsable(rs)
  {
    exists i :: first <= i < |rs| && rs[i].count.value >= cfg.promoteThreshold
  }

  /** A new procedure and a candidate are active exactly when some row reaches the
      threshold; one without a status spends its first row on becoming a candidate; any
      other status stays. */
  ghost predicate StatusDue(before: Option<Status>, after: Status, rs: seq<Record>, cfg: LifecycleConfig)
    requires AllUsable(rs)
  {
    match before
    case None => after == if Reaches(rs, 0, cfg) then Active else Candidate
    case Some(Candidate) => after == if Reaches(rs, 0, cfg) then Active else Candidate
    case Some(Unset) => after == if Reaches(rs, 1, cfg) then Active else Candidate
    case Some(status) => after == status
  }

  lemma ReachesPush(front: seq<Record>, r: Record, first: nat, cfg: LifecycleConfig)
    requires AllUsable(front) && r.Usable() && first <= |front|
    ensures AllUsable(front + [r])
    ensures Reaches(front + [r], first, cfg) <==> Reaches(front, first, cfg) || r.count.value >= cfg.promoteThreshold
  {
    var rs := front + [r];
    assert rs[|front|] == r;
    if i :| first <= i < |front| && front[i].count.value >= cfg.promoteThreshold { assert rs[i] == front[i]; }
  }

  lemma {:induction false} RowsDecideStatus(p: Option<Procedure>, rs: seq<Record>, cfg: LifecycleConfig)
    requires AllUsable(rs) && rs != []
    ensures Fold(p, rs, cfg).Some? && StatusDue(StatusOf(p), Fold(p, rs, cfg).value.status, rs, cfg)
  {
    var front, r := rs[..|rs| - 1], rs[|rs| - 1];
    assert rs == front + [r];
    ReachesPush(front, r, 0, cfg);
    if front == [] {
      assert Fold(p, front, cfg) == p;
    } else {
      ReachesPush(front, r, 1, cfg);
      RowsDecideStatus(p, front, cfg);
    }
  }

  // ----- the report -----

  ghost function UsedIds(agent: string, rs: seq<Record>): set<string> {
    set i | 0 <= i < |rs| && rs[i].Usable() :: IdOf(agent, rs[i])
  }

  lemma UsedIdsPush(agent: string, front: seq<Record>, r: Record)
    ensures UsedIds(agent, front + [r]) == UsedIds(agent, front) + if r.Usable() then {IdOf(agent, r)} else {}
  {
    var rs := front + [r];
    forall id | id in UsedIds(agent, front) ensures id in UsedIds(agent, rs) {
      var i :| 0 <= i < |front| && front[i].Usable() && IdOf(agent, front[i]) == id;
      assert rs[i] == front[i];
    }
    if r.Usable() { assert rs[|front|] == r; }
  }

  lemma UsedPush(front: seq<Record>, r: Record)
    ensures Used(front + [r]) == Used(front) + if r.Usable() then [r] else []
  {
    assert (front + [r])[..|front|] == front;
  }

  /** A pass stores exactly the procedures it found and those of its rows. */
  lemma {:induction false} PassStores(agent: string, store: Store, rs: seq<Record>, cfg: LifecycleConfig)
    ensures Pass(agent, store, rs, cfg).0.Keys == store.Keys + UsedIds(agent, rs)
  {
    if rs != [] {
      var front, r := rs[..|rs| - 1], rs[|rs| - 1];
      assert rs == front + [r];
      PassStores(agent, store, front, cfg);
      UsedIdsPush(agent, front, r);
    }
  }

  lemma OneMoreNew(ids: set<string>, id: string, known: set<string>)
    ensures |(ids + {id}) - known| == |ids - known| + if id in known + ids then 0 else 1
  {
    assert (ids + {id}) - known == if id in known + ids then ids - known else (ids - known) + {id};
  }

  /** `created` counts the procedures that were not stored, `reinforced` the other rows. */
  lemma {:induction false} ReportCounts(agent: string, store: Store, rs: seq<Record>, cfg: LifecycleConfig)
    ensures var report := Pass(agent, store, rs, cfg).1;
      report.created == |UsedIds(agent, rs) - store.Keys| && report.created + report.reinforced == |Used(rs)|
  {
    if rs == [] {
      assert UsedIds(agent, rs) == {};
    } else {
      var front, r := rs[..|rs| - 1], rs[|rs| - 1];
      assert rs == front + [r];
      ReportCounts(agent, store, front, cfg);
      PassStores(agent, store, front, cfg);
      UsedIdsPush(agent, front, r);
      UsedPush(front, r);
      if r.Usable() { OneMoreNew(UsedIds(agent, front), IdOf(agent, r), store.Keys); }
    }
  }

  /** The pass made the procedure active, and not by creating it. */
  ghost predicate Lifted(agent: string, store: Store, rs: seq<Record>, cfg: LifecycleConfig, id: string) {
    var after, rows := Pass(agent, store, rs, cfg).0, Rows(agent, rs, id);
    && id in after && after[id].status == Active
    && if id in store then store[id].status != Active
       else rows != [] && rows[0].count.Some? && rows[0].count.value < cfg.promoteThreshold
  }

  ghost function LiftedIds(agent: string, store: Store, rs: seq<Record>, cfg: LifecycleConfig): set<string> {
    set id | id in UsedIds(agent, rs) && Lifted(agent, store, rs, cfg, id)
  }

  lemma RowsPush(agent: string, front: seq<Record>, r: Record, id: string)
    ensures Rows(agent, front + [r], id) == Rows(agent, front, id) + if r.Usable() && IdOf(agent, r) == id then [r] else []
  {
    assert (front + [r])[..|front|] == front;
  }

  lemma OthersAreLeft(agent: string, store: Store, front: seq<Record>, r: Record, cfg: LifecycleConfig, id: string)
    requires r.Usable() ==> IdOf(agent, r) != id
    ensures Lifted(agent, store, front + [r], cfg, id) <==> Lifted(agent, store, front, cfg, id)
  {
    assert (front + [r])[..|front|] == front;
    RowsPush(agent, front, r, id);
  }

  /** A procedure that the pass made active stays so. */
  lemma LiftedStays(agent: string, store: Store, front: seq<Record>, r: Record, cfg: LifecycleConfig)
    requires r.Usable()
    ensures var id, before := IdOf(agent, r), Pass(agent, store, front, cfg).0;
      Lifted(agent, store, front + [r], cfg, id) <==> Lifted(agent, store, front, cfg, id) || Promotes(agent, before, r, cfg)
    ensures !(Lifted(agent, store, front, cfg, IdOf(agent, r)) && Promotes(agent, Pass(agent, store, front, cfg).0, r, cfg))
  {
    var id, before := IdOf(agent, r), Pass(agent, store, front, cfg).0;
    assert (front + [r])[..|front|] == front;
    RowsPush(agent, front, r, id);
    PassByProcedure(agent, store, front, cfg, id);
    var rows := Rows(agent, front, id);
    if rows != [] { RowsDecideStatus(Get(store, id), rows, cfg); }
  }

  lemma OneMoreLifted(ids: set<string>, id: string)
    ensures |ids + {id}| == |ids| + if id in ids then 0 else 1
  {
    assert id in ids ==> ids + {id} == ids;
  }

  lemma LiftedPush(agent: string, store: Store, front: seq<Record>, r: Record, cfg: LifecycleConfig)
    ensures LiftedIds(agent, store, front + [r], cfg) == LiftedIds(agent, store, front, cfg) +
      if r.Usable() && Promotes(agent, Pass(agent, store, front, cfg).0, r, cfg) then {IdOf(agent, r)} else {}
    ensures r.Usable() && Promotes(agent, Pass(agent, store, front, cfg).0, r, cfg) ==> IdOf(agent, r) !in LiftedIds(agent, store, front, cfg)
  {
    UsedIdsPush(agent, front, r);
    if r.Usable() { LiftedStays(agent, store, front, r, cfg); }
    forall id | !r.Usable() || IdOf(agent, r) != id
      ensures Lifted(agent, store, front + [r], cfg, id) <==> Lifted(agent, store, front, cfg, id)
    {
      OthersAreLeft(agent, store, front, r, cfg, id);
    }
    if r.Usable() && Lifted(agent, store, front, cfg, IdOf(agent, r)) { LiftedWasUsed(agent, store, front, cfg, IdOf(agent, r)); }
  }

  /** A procedure no row names is not made active. */
  lemma LiftedWasUsed(agent: string, store: Store, rs: seq<Record>, cfg: LifecycleConfig, id: string)
    requires Lifted(agent, store, rs, cfg, id)
    ensures id in UsedIds(agent, rs)
  {
    PassByProcedure(agent, store, rs, cfg, id);
    PassStores(agent, store, rs, cfg);
    if Rows(agent, rs, id) != [] { RowsAreUsed(agent, rs, id); }
  }

  lemma {:induction false} RowsAreUsed(agent: string, rs: seq<Record>, id: string)
    requires Rows(agent, rs, id) != []
    ensures id in UsedIds(agent, rs)
  {
    var front, r := rs[..|rs| - 1], rs[|rs| - 1];
    assert rs == front + [r];
    UsedIdsPush(agent, front, r);
    if !(r.Usable() && IdOf(agent, r) == id) { RowsAreUsed(agent, front, id); }
  }

  /** `promoted` counts the procedures that the pass made active without creating them so:
      each once, however many rows it has. */
  lemma {:induction false} PromotedAreLifted(agent: string, store: Store, rs: seq<Record>, cfg: LifecycleConfig)
    ensures Pass(agent, store, rs, cfg).1.promoted == |LiftedIds(agent, store, rs, cfg)|
  {
    if rs == [] {
      assert LiftedIds(agent, store, rs, cfg) == {};
    } else {
      var front, r := rs[..|rs| - 1], rs[|rs| - 1];
      assert rs == front + [r];
      PromotedAreLifted(agent, store, front, cfg);
      LiftedPush(agent, store, front, r, cfg);
      if r.Usable() { OneMoreLifted(LiftedIds(agent, store, front, cfg), IdOf(agent, r)); }
    }
  }
}
