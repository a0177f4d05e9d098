/**
 When a second promotion pass over the same rows changes nothing
 (crates/uniko-cortex/src/procedures.rs): timestamps apart, always, except for a
 procedure that was stored without a status.
 */
module PromotionIdempotence {
  import opened Wrappers
  import opened Procedures
  import opened ProcedureStore

  // ----- the rows of one procedure -----

  function Rows(agent: string, rs: seq<Record>, id: string): seq<Record>
    ensures forall r :: r in Rows(agent, rs, id) ==> r.Usable()
  {
    if rs == [] then []
    else
      var r := rs[|rs| - 1];
      Rows(agent, rs[..|rs| - 1], id) + if r.Usable() && IdOf(agent, r) == id then [r] else []
  }

  predicate AllUsable(rs: seq<Record>) { forall i :: 0 <= i < |rs| ==> rs[i].Usable() }

  lemma RowsUsable(agent: string, rs: seq<Record>, id: string)
    ensures AllUsable(Rows(agent, rs, id))
  {
    var s := Rows(agent, rs, id);
    forall i | 0 <= i < |s| ensures s[i].Usable() { assert s[i] in s; }
  }

  /** One procedure's state after its rows are upserted in turn. */
  function Fold(p: Option<Procedure>, rs: seq<Record>, cfg: LifecycleConfig): Option<Procedure>
    requires AllUsable(rs)
  {
    if rs == [] then p
    else
      var r := rs[|rs| - 1];
      Some(AfterUpsert(Fold(p, rs[..|rs| - 1], cfg), r.actionA.value, r.actionB.value, r.count.value, cfg))
  }

  lemma FoldPush(p: Option<Procedure>, rs: seq<Record>, r: Record, cfg: LifecycleConfig)
    requires AllUsable(rs) && r.Usable()
    ensures AllUsable(rs + [r])
    ensures Fold(p, rs + [r], cfg) == Some(AfterUpsert(Fold(p, rs, cfg), r.actionA.value, r.actionB.value, r.count.value, cfg))
  {
    assert (rs + [r])[..|rs|] == rs;
  }

  /** A pass acts on each procedure through its own rows alone. */
  lemma {:induction false} PassByProcedure(agent: string, store: Store, rs: seq<Record>, cfg: LifecycleConfig, id: string)
    ensures AllUsable(Rows(agent, rs, id))
    ensures Get(Pass(agent, store, rs, cfg).0, id) == Fold(Get(store, id), Rows(agent, rs, id), cfg)
  {
    RowsUsable(agent, rs, id);
    if rs != [] {
      var front, r := rs[..|rs| - 1], rs[|rs| - 1];
      PassByProcedure(agent, store, front, cfg, id);
      RowsUsable(agent, front, id);
      var before := Pass(agent, store, front, cfg).0;
      if r.Usable() && IdOf(agent, r) == id {
        FoldPush(Get(store, id), Rows(agent, front, id), r, cfg);
        assert Rows(agent, rs, id) == Rows(agent, front, id) + [r];
        assert Pass(agent, store, rs, cfg).0 == Upserted(agent, before, r, cfg);
      } else {
        assert Rows(agent, rs, id) == Rows(agent, front, id);
        assert Get(Pass(agent, store, rs, cfg).0, id) == Get(before, id);
      }
    }
  }

  // ----- what one pass leaves behind -----

  /** Upserting a row again would change at most the name it carries. */
  ghost predicate Absorbs(p: Procedure, r: Record, cfg: LifecycleConfig)
    requires r.Usable()
  {
    && r.count.value <= p.useCount && r.count.value <= p.success
    && p.status != Unset && (p.status == Candidate ==> r.count.value < cfg.promoteThreshold)
    && p.effectiveness == Ratio(p.success, p.failure, 1.0)
  }

  /** A stored procedure without a status: its first row only makes it a
      candidate, and no later row promotes it. */
  ghost predicate PromotedLate(p: Option<Procedure>, rs: seq<Record>, cfg: LifecycleConfig)
    requires AllUsable(rs)
  {
    && p.Some? && p.value.status == Unset && rs != [] && rs[0].count.value >= cfg.promoteThreshold
    && forall i :: 1 <= i < |rs| ==> rs[i].count.value < cfg.promoteThreshold
  }

  lemma {:induction false} FoldCounters(p: Option<Procedure>, rs: seq<Record>, cfg: LifecycleConfig)
    requires AllUsable(rs) && rs != []
    ensures Fold(p, rs, cfg).Some?
    ensures var q := Fold(p, rs, cfg).value;
      && q.effectiveness == Ratio(q.success, q.failure, 1.0)
      && forall i :: 0 <= i < |rs| ==> rs[i].count.value <= q.useCount && rs[i].count.value <= q.success
  {
    if |rs| > 1 { FoldCounters(p, rs[..|rs| - 1], cfg); }
  }

  lemma {:induction false} FoldStatus(p: Option<Procedure>, rs: seq<Record>, cfg: LifecycleConfig)
    requires AllUsable(rs) && rs != []
    ensures Fold(p, rs, cfg).Some? && Fold(p, rs, cfg).value.status != Unset
    ensures Fold(p, rs, cfg).value.status == Candidate <==>
      StatusOf(p) in {None, Some(Candidate), Some(Unset)}
      && (forall i :: 1 <= i < |rs| ==> rs[i].count.value < cfg.promoteThreshold)
      && (rs[0].count.value < cfg.promoteThreshold || StatusOf(p) == Some(Unset))
  {
    var front, r := rs[..|rs| - 1], rs[|rs| - 1];
    var before := Fold(p, front, cfg);
    assert Fold(p, rs, cfg).value.status == StatusAfterUpsert(StatusOf(before), r.count.value, cfg);
    if front == [] {
      assert before == p && rs[0] == r;
    } else {
      FoldStatus(p, front, cfg);
      assert rs[0] == front[0];
      assert (forall i :: 1 <= i < |rs| ==> rs[i].count.value < cfg.promoteThreshold)
        <==> (forall i :: 1 <= i < |front| ==> front[i].count.value < cfg.promoteThreshold) && r.count.value < cfg.promoteThreshold by {
        assert forall i :: 1 <= i < |front| ==> front[i] == rs[i];
        assert rs[|front|] == r;
      }
    }
  }

  lemma {:induction false} CandidateIsPromoted(p: Procedure, rs: seq<Record>, cfg: LifecycleConfig, i: nat)
    requires AllUsable(rs) && p.status == Candidate && i < |rs| && rs[i].count.value >= cfg.promoteThreshold
    ensures Fold(Some(p), rs, cfg).value.status == Active
    decreases |rs|
  {
    var front := rs[..|rs| - 1];
    if i < |front| {
      CandidateIsPromoted(p, front, cfg, i);
    } else {
      StaysKnown(p, front, cfg);
    }
  }

  lemma {:induction false} StaysKnown(p: Procedure, rs: seq<Record>, cfg: LifecycleConfig)
    requires AllUsable(rs) && (p.status == Candidate || p.status == Active)
    ensures var q := Fold(Some(p), rs, cfg); q.Some? && (q.value.status == Candidate || q.value.status == Active)
  {
    if rs != [] { StaysKnown(p, rs[..|rs| - 1], cfg); }
  }

  // ----- the second pass -----

  function Named(p: Procedure, r: Record): Procedure
    requires r.Usable()
  {
    p.(name := r.actionA.value + " → " + r.actionB.value, preconditionRule := "last_action_type=" + r.actionA.value)
  }

  lemma {:induction false} RefoldOnlyRenames(p: Procedure, rs: seq<Record>, cfg: LifecycleConfig)
    requires AllUsable(rs) && rs != [] && forall i :: 0 <= i < |rs| ==> Absorbs(p, rs[i], cfg)
    ensures Fold(Some(p), rs, cfg) == Some(Named(p, rs[|rs| - 1]))
  {
    if |rs| == 1 {
      assert Fold(Some(p), rs[..0], cfg) == Some(p);
    } else {
      RefoldOnlyRenames(p, rs[..|rs| - 1], cfg);
    }
  }

  /** Folding one procedure's rows twice is folding them once, unless it is
      promoted late. */
  lemma RefoldIdle(p: Option<Procedure>, rs: seq<Record>, cfg: LifecycleConfig)
    requires AllUsable(rs)
    ensures Fold(Fold(p, rs, cfg), rs, cfg) == Fold(p, rs, cfg) <==> !PromotedLate(p, rs, cfg)
  {
    if rs != [] {
      FoldStatus(p, rs, cfg);
      FoldCounters(p, rs, cfg);
      var q := Fold(p, rs, cfg).value;
      if PromotedLate(p, rs, cfg) {
        CandidateIsPromoted(q, rs, cfg, 0);
      } else {
        RefoldOnlyRenames(q, rs, cfg);
      }
    }
  }

  /** No procedure of the pass is promoted late. */
  ghost predicate NonePromotedLate(agent: string, store: Store, rs: seq<Record>, cfg: LifecycleConfig) {
    forall id: string :: AllUsable(Rows(agent, rs, id)) && !PromotedLate(Get(store, id), Rows(agent, rs, id), cfg)
  }

  lemma {:induction false} SecondReport(agent: string, store: Store, all: seq<Record>, rs: seq<Record>, cfg: LifecycleConfig)
    requires rs <= all
    requires forall r :: r in all && r.Usable() ==> IdOf(agent, r) in store && Absorbs(store[IdOf(agent, r)], r, cfg)
    ensures var (after, report) := Pass(agent, store, rs, cfg);
      && report.created == 0 && report.promoted == 0 && report.reinforced == |Used(rs)|
      && after.Keys == store.Keys
      && forall r :: r in all && r.Usable() ==> IdOf(agent, r) in after && Absorbs(after[IdOf(agent, r)], r, cfg)
  {
    if rs != [] {
      SecondReport(agent, store, all, rs[..|rs| - 1], cfg);
      assert rs[|rs| - 1] in all;
    }
  }

  function Used(rs: seq<Record>): seq<Record> {
    if rs == [] then []
    else Used(rs[..|rs| - 1]) + if rs[|rs| - 1].Usable() then [rs[|rs| - 1]] else []
  }

  lemma {:induction false} RowIsListed(agent: string, rs: seq<Record>, r: Record) returns (i: nat)
    requires r in rs && r.Usable()
    ensures i < |Rows(agent, rs, IdOf(agent, r))| && Rows(agent, rs, IdOf(agent, r))[i] == r
  {
    var id := IdOf(agent, r);
    if rs[|rs| - 1] == r {
      i := |Rows(agent, rs, id)| - 1;
    } else {
      i := RowIsListed(agent, rs[..|rs| - 1], r);
    }
  }

  lemma FoldAbsorbs(p: Option<Procedure>, rs: seq<Record>, cfg: LifecycleConfig, i: nat)
    requires AllUsable(rs) && !PromotedLate(p, rs, cfg) && i < |rs|
    ensures Fold(p, rs, cfg).Some? && Absorbs(Fold(p, rs, cfg).value, rs[i], cfg)
  {
    FoldCounters(p, rs, cfg);
    FoldStatus(p, rs, cfg);
  }

  lemma FirstPassAbsorbs(agent: string, store: Store, rs: seq<Record>, cfg: LifecycleConfig, r: Record)
    requires NonePromotedLate(agent, store, rs, cfg) && r in rs && r.Usable()
    ensures var after := Pass(agent, store, rs, cfg).0;
      IdOf(agent, r) in after && Absorbs(after[IdOf(agent, r)], r, cfg)
  {
    var id := IdOf(agent, r);
    PassByProcedure(agent, store, rs, cfg, id);
    var i := RowIsListed(agent, rs, r);
    FoldAbsorbs(Get(store, id), Rows(agent, rs, id), cfg, i);
  }

  /** A second pass over the same rows, duplicates and malformed ones included, changes nothing
      and reports nothing created or promoted exactly when no procedure is promoted late. */
  lemma SecondPassIdle(agent: string, store: Store, rs: seq<Record>, cfg: LifecycleConfig)
    ensures var first := Pass(agent, store, rs, cfg).0;
      (Pass(agent, first, rs, cfg) == (first, PromotionReport(0, |Used(rs)|, 0))) <==> NonePromotedLate(agent, store, rs, cfg)
  {
    var first := Pass(agent, store, rs, cfg).0;
    var (second, report) := Pass(agent, first, rs, cfg);
    if NonePromotedLate(agent, store, rs, cfg) {
      forall id ensures Get(second, id) == Get(first, id) {
        PassByProcedure(agent, store, rs, cfg, id);
        PassByProcedure(agent, first, rs, cfg, id);
        RefoldIdle(Get(store, id), Rows(agent, rs, id), cfg);
      }
      SameStore(second, first);
      forall r | r in rs && r.Usable() ensures IdOf(agent, r) in first && Absorbs(first[IdOf(agent, r)], r, cfg) {
        FirstPassAbsorbs(agent, store, rs, cfg, r);
      }
      SecondReport(agent, first, rs, rs, cfg);
    } else {
      forall id ensures AllUsable(Rows(agent, rs, id)) { RowsUsable(agent, rs, id); }
      var id: string :| PromotedLate(Get(store, id), Rows(agent, rs, id), cfg);
      PassByProcedure(agent, store, rs, cfg, id);
      PassByProcedure(agent, first, rs, cfg, id);
      RefoldIdle(Get(store, id), Rows(agent, rs, id), cfg);
    }
  }

  lemma SameStore(s: Store, t: Store)
    requires forall id :: Get(s, id) == Get(t, id)
    ensures s == t
  {
    forall id: string ensures id in s <==> id in t { assert Get(s, id) == Get(t, id); }
    forall id | id in s ensures s[id] == t[id] { assert Get(s, id) == Get(t, id); }
  }

  /** The exception is real: a statusless node and one well-supported row. */
  lemma StatuslessIsPromotedLate()
    ensures var rs := [Record(Some("a"), Some("b"), Some(3))];
      var store: Store := map[ProcedureBytes("agent", "a", "b") := Procedure("", "", 0, 0, 0, Unset, 0.0)];
      var first := Pass("agent", store, rs, DEFAULT_CONFIG);
      && first.1 == PromotionReport(0, 1, 0)
      && Pass("agent", first.0, rs, DEFAULT_CONFIG).1 == PromotionReport(0, 1, 1)
  {
    var r := Record(Some("a"), Some("b"), Some(3));
    var rs := [r];
    var id := ProcedureBytes("agent", "a", "b");
    var store: Store := map[id := Procedure("", "", 0, 0, 0, Unset, 0.0)];
    assert rs[..0] == [];
    var one := Upserted("agent", store, r, DEFAULT_CONFIG);
    assert Pass("agent", store, rs, DEFAULT_CONFIG).0 == one;
    assert one[id].status == Candidate;
    assert Promotes("agent", one, r, DEFAULT_CONFIG);
  }
}
