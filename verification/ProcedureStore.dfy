/**
 Stored procedures and the promotion pass (crates/uniko-cortex/src/procedures.rs).

 A procedure is stored under the bytes its id is hashed from, so two procedures
 share a node here exactly when they are fed to the hash alike.
 */
module ProcedureStore {
  import opened Wrappers
  import opened Procedures

  type Store = map<string, Procedure>

  function ProcedureBytes(agent: string, a: string, b: string): string {
    agent + "\0" + a + "\0" + b
  }

  // ----- the id -----

  predicate HasNul(s: string) { '\0' in s }

  lemma FirstNul(x: string, u: string, y: string, v: string)
    requires !HasNul(x) && !HasNul(y) && x + "\0" + u == y + "\0" + v
    ensures x == y && u == v
  {
    var s, t := x + "\0" + u, y + "\0" + v;
    assert s[|x|] == '\0' && t[|y|] == '\0';
    assert s[..|x|] == x && t[..|y|] == y;
    assert s[|x| + 1..] == u && t[|y| + 1..] == v;
  }

  function NulCount(s: string): nat {
    if s == [] then 0 else (if s[0] == '\0' then 1 else 0) + NulCount(s[1..])
  }

  lemma {:induction false} NulCountAppend(s: string, t: string)
    ensures NulCount(s + t) == NulCount(s) + NulCount(t)
  {
    if s == [] {
      assert s + t == t;
    } else {
      NulCountAppend(s[1..], t);
      assert (s + t)[1..] == s[1..] + t;
    }
  }

  lemma {:induction false} NulCountZero(s: string)
    ensures NulCount(s) == 0 <==> !HasNul(s)
  {
    if s != [] {
      NulCountZero(s[1..]);
      assert s == [s[0]] + s[1..];
    }
  }

  lemma NulsInBytes(agent: string, a: string, b: string)
    ensures NulCount(ProcedureBytes(agent, a, b)) == 2 + NulCount(agent) + NulCount(a) + NulCount(b)
  {
    NulCountAppend(agent + "\0" + a + "\0", b);
    NulCountAppend(agent + "\0" + a, "\0");
    NulCountAppend(agent + "\0", a);
    NulCountAppend(agent, "\0");
    assert NulCount("\0") == 1;
  }

  /** A triple shares its hashed bytes with a different triple exactly when one of
      its three parts contains the separator. */
  lemma AliasExactlyWithNul(agent: string, a: string, b: string)
    ensures (exists agent', a', b' :: (agent', a', b') != (agent, a, b) && ProcedureBytes(agent', a', b') == ProcedureBytes(agent, a, b))
      <==> HasNul(agent) || HasNul(a) || HasNul(b)
  {
    if HasNul(agent) || HasNul(a) || HasNul(b) {
      var agent', a', b' := NulGivesAlias(agent, a, b);
    }
    forall agent', a', b' | !HasNul(agent) && !HasNul(a) && !HasNul(b) && ProcedureBytes(agent', a', b') == ProcedureBytes(agent, a, b)
      ensures (agent', a', b') == (agent, a, b)
    {
      NulFreeIsUnique(agent, a, b, agent', a', b');
    }
  }

  lemma NulFreeIsUnique(agent: string, a: string, b: string, agent': string, a': string, b': string)
    requires !HasNul(agent) && !HasNul(a) && !HasNul(b)
    requires ProcedureBytes(agent', a', b') == ProcedureBytes(agent, a, b)
    ensures agent' == agent && a' == a && b' == b
  {
    NulsInBytes(agent, a, b);
    NulsInBytes(agent', a', b');
    NulCountZero(agent); NulCountZero(a); NulCountZero(b);
    NulCountZero(agent'); NulCountZero(a'); NulCountZero(b');
    assert ProcedureBytes(agent, a, b) == agent + "\0" + (a + "\0" + b);
    assert ProcedureBytes(agent', a', b') == agent' + "\0" + (a' + "\0" + b');
    FirstNul(agent, a + "\0" + b, agent', a' + "\0" + b');
    FirstNul(a, b, a', b');
  }

  lemma NulGivesAlias(agent: string, a: string, b: string) returns (agent': string, a': string, b': string)
    requires HasNul(agent) || HasNul(a) || HasNul(b)
    ensures (agent', a', b') != (agent, a, b) && ProcedureBytes(agent', a', b') == ProcedureBytes(agent, a, b)
  {
    if HasNul(agent) {
      var i :| 0 <= i < |agent| && agent[i] == '\0';
      agent', a', b' := agent[..i], agent[i + 1..] + "\0" + a, b;
      assert agent == agent[..i] + "\0" + agent[i + 1..];
    } else if HasNul(a) {
      var i :| 0 <= i < |a| && a[i] == '\0';
      agent', a', b' := agent, a[..i], a[i + 1..] + "\0" + b;
      assert a == a[..i] + "\0" + a[i + 1..];
    } else {
      var i :| 0 <= i < |b| && b[i] == '\0';
      agent', a', b' := agent, a + "\0" + b[..i], b[i + 1..];
      assert b == b[..i] + "\0" + b[i + 1..];
    }
  }

  // ----- the promotion pass -----

  /** A row of the sequence detector; a missing or mistyped column is `None`. */
  datatype Record = Record(actionA: Option<string>, actionB: Option<string>, count: Option<int>) {
    predicate Usable() { actionA.Some? && actionB.Some? && count.Some? }
  }

  datatype PromotionReport = PromotionReport(created: nat, reinforced: nat, promoted: nat)

  function Get(store: Store, id: string): Option<Procedure> {
    if id in store then Some(store[id]) else None
  }

  function IdOf(agent: string, r: Record): string
    requires r.Usable()
  {
    ProcedureBytes(agent, r.actionA.value, r.actionB.value)
  }

  function Upserted(agent: string, store: Store, r: Record, cfg: LifecycleConfig): Store
    requires r.Usable()
  {
    store[IdOf(agent, r) := AfterUpsert(Get(store, IdOf(agent, r)), r.actionA.value, r.actionB.value, r.count.value, cfg)]
  }

  predicate Promotes(agent: string, store: Store, r: Record, cfg: LifecycleConfig)
    requires r.Usable()
  {
    var id := IdOf(agent, r);
    id in store && store[id].status == Candidate && Upserted(agent, store, r, cfg)[id].status == Active
  }

  function Tallied(agent: string, store: Store, r: Record, cfg: LifecycleConfig, report: PromotionReport): PromotionReport
    requires r.Usable()
  {
    if IdOf(agent, r) !in store then report.(created := report.created + 1)
    else report.(reinforced := report.reinforced + 1, promoted := report.promoted + if Promotes(agent, store, r, cfg) then 1 else 0)
  }

  /** Store and report after the first records of a pass. */
  function Pass(agent: string, store: Store, rs: seq<Record>, cfg: LifecycleConfig): (Store, PromotionReport) {
    if rs == [] then (store, PromotionReport(0, 0, 0))
    else
      var (before, report) := Pass(agent, store, rs[..|rs| - 1], cfg);
      var r := rs[|rs| - 1];
      if r.Usable() then (Upserted(agent, before, r, cfg), Tallied(agent, before, r, cfg, report)) else (before, report)
  }

  class KnowledgeBase {
    var procedures: Store

    constructor ()
      ensures procedures == map[]
    {
      procedures := map[];
    }

    /** False when the procedure is missing: the source's storage error. */
    method RecordProcedureUse(id: string, succeeded: bool, cfg: LifecycleConfig) returns (found: bool)
      modifies this
      ensures found <==> id in old(procedures)
      ensures procedures == if found then old(procedures)[id := AfterUse(old(procedures)[id], succeeded, cfg)] else old(procedures)
    {
      if id !in procedures { return false; }
      var snapshot := procedures[id];
      var success := snapshot.success + if succeeded then 1 else 0;
      var failure := snapshot.failure + if succeeded then 0 else 1;
      var effectiveness := 0.0;
      if success + failure > 0 {
        effectiveness := success as real / (success + failure) as real;
      }
      var status := snapshot.status;
      if status == Active && effectiveness < cfg.demoteEffectiveness {
        status := Deprecated;
      } else if status == Deprecated && effectiveness >= cfg.repromoteEffectiveness {
        status := Active;
      }
      procedures := procedures[id := snapshot.(useCount := snapshot.useCount + 1, success := success, failure := failure,
                                               effectiveness := effectiveness, status := status)];
      return true;
    }

    method UpsertProcedure(agent: string, a: string, b: string, support: int, cfg: LifecycleConfig) returns (created: bool, promoted: bool)
      modifies this
      ensures var r := Record(Some(a), Some(b), Some(support));
        && procedures == Upserted(agent, old(procedures), r, cfg)
        && created == (IdOf(agent, r) !in old(procedures))
        && promoted == Promotes(agent, old(procedures), r, cfg)
    {
      var id := ProcedureBytes(agent, a, b);
      created := id !in procedures;
      var snapshot := if created then Procedure("", "", 0, 0, 0, Unset, 0.0) else procedures[id];
      var next := snapshot.status;
      if created {
        next := if support >= cfg.promoteThreshold then Active else Candidate;
      } else if snapshot.status == Candidate && support >= cfg.promoteThreshold {
        next := Active;
      } else if snapshot.status == Unset {
        next := Candidate;
      }
      promoted := !created && snapshot.status == Candidate && next == Active;
      var success := if snapshot.success >= support then snapshot.success else support;
      var use := if snapshot.useCount >= support then snapshot.useCount else support;
      var effectiveness := 1.0;
      if success + snapshot.failure > 0 {
        effectiveness := success as real / (success + snapshot.failure) as real;
      }
      procedures := procedures[id := Procedure(a + " → " + b, "last_action_type=" + a, use, success, snapshot.failure, next, effectiveness)];
    }

    method PromoteProceduresOnce(agent: string, records: seq<Record>, cfg: LifecycleConfig) returns (report: PromotionReport)
      modifies this
      ensures (procedures, report) == Pass(agent, old(procedures), records, cfg)
    {
      report := PromotionReport(0, 0, 0);
      for i := 0 to |records|
        invariant (procedures, report) == Pass(agent, old(procedures), records[..i], cfg)
      {
        var r := records[i];
        assert records[..i + 1][..i] == records[..i];
        if r.Usable() {
          var created, promoted := UpsertProcedure(agent, r.actionA.value, r.actionB.value, r.count.value, cfg);
          if created {
            report := report.(created := report.created + 1);
          } else {
            report := report.(reinforced := report.reinforced + 1);
            if promoted {
              report := report.(promoted := report.promoted + 1);
            }
          }
        }
      }
      assert records[..|records|] == records;
    }
  }
}
