/**
 The memory a consolidation cycle works on, and the cycle itself (`run_cycle_with`,
 154-593 of crates/uniko-memory/src/consolidation.rs).
 */
module KnowledgeBase {
  import opened Wrappers
  import opened Grouping
  import opened FactStore
  import opened Evidence
  import opened Ledger
  import opened Planning
  import opened Consolidation
  import opened OpenFacts
  import opened CycleStats

  method RefineTriples(obs: seq<Obs>, refined: map<nat, Triple>) returns (r: seq<Obs>)
    ensures r == RefineAll(obs, refined)
  {
    r := obs;
    for i := 0 to |obs|
      invariant |r| == |obs|
      invariant forall j :: 0 <= j < |obs| ==> r[j] == if j < i then Refine(obs[j], refined) else obs[j]
    {
      if r[i].id in refined {
        var t := refined[r[i].id];
        r := r[i := r[i].(subject := t.subject, relation := t.relation, obj := t.obj)];
      }
    }
  }

  ghost predicate PlansSome(obs: seq<Obs>, found: map<Key, seq<Prior>>, env: Env, plans: seq<Plan>, done: set<Key>) {
    && DistinctKeys(PlanKeys(plans))
    && (forall k :: k in PlanKeys(plans) <==> k in done)
    && (forall i :: 0 <= i < |plans| ==> Planned(obs, found, env, plans[i]))
  }

  lemma PlanOne(obs: seq<Obs>, found: map<Key, seq<Prior>>, env: Env, plans: seq<Plan>, done: set<Key>, plan: Plan)
    requires PlansSome(obs, found, env, plans, done) && plan.key !in done && Planned(obs, found, env, plan)
    ensures PlansSome(obs, found, env, plans + [plan], done + {plan.key})
  {
    PushPlanKey(plans, plan);
    PushKey(PlanKeys(plans), plan.key);
  }

  lemma PushPlanKey(plans: seq<Plan>, plan: Plan)
    ensures PlanKeys(plans + [plan]) == PlanKeys(plans) + [plan.key]
  {
  }

  lemma PushKey(keys: seq<Key>, k: Key)
    requires DistinctKeys(keys) && k !in keys
    ensures DistinctKeys(keys + [k])
  {
  }

  /** The groups come out of a hash map in any order. */
  method PlanAll(ghost obs: seq<Obs>, groups: map<Key, Group>, found: map<Key, seq<Prior>>, env: Env) returns (plans: seq<Plan>)
    requires Grouped(obs, groups)
    ensures PlansFor(obs, found, env, plans)
  {
    plans := [];
    var todo := groups.Keys;
    while todo != {}
      invariant todo <= groups.Keys && PlansSome(obs, found, env, plans, groups.Keys - todo)
      decreases todo
    {
      var k :| k in todo;
      var plan := PlanGroup(k, groups[k], PriorsAt(found, k), env.embeddings, env.sim, env.startedAt);
      PlanOne(obs, found, env, plans, groups.Keys - todo, plan);
      assert groups.Keys - (todo - {k}) == (groups.Keys - todo) + {k};
      todo := todo - {k};
      plans := plans + [plan];
    }
  }

  method WireEdges(plans: seq<Plan>, ups: seq<FactUpsert>) returns (edges: seq<Edge>)
    requires |plans| == |ups|
    ensures edges == Stars(ups, Parts(plans))
  {
    edges := [];
    for i := 0 to |plans|
      invariant edges == Stars(ups[..i], Parts(plans[..i]))
    {
      var star: seq<Edge> := [];
      for j := 0 to |plans[i].contributing|
        invariant star == Star(ups[i].node, plans[i].contributing[..j])
      {
        star := star + [Edge(ups[i].node, plans[i].contributing[j])];
      }
      assert plans[i].contributing[..|plans[i].contributing|] == plans[i].contributing;
      assert ups[..i + 1][..i] == ups[..i] && Parts(plans[..i + 1])[..i] == Parts(plans[..i]);
      edges := edges + star;
    }
    assert ups[..|ups|] == ups && plans[..|plans|] == plans;
  }

  ghost predicate ClosedHere(plan: Plan, up: FactUpsert, env: Env, id: string, p: Prior) {
    VotesOut(plan, up, p) && env.outcome(p.node) != Failed && p.fid == id
  }

  /** What closing the stale facts of one plan has done. */
  ghost predicate ClosedOne(plan: Plan, up: FactUpsert, env: Env, closed: map<string, Prior>) {
    && (forall p :: VotesOut(plan, up, p) && env.outcome(p.node) != Failed ==> p.fid in closed)
    && (forall id :: id in closed ==> ClosedHere(plan, up, env, id, closed[id]))
  }

  ghost predicate ClosedSome(plan: Plan, up: FactUpsert, env: Env, n: nat, closed: map<string, Prior>)
    requires n <= |plan.stale|
  {
    && (forall p :: p in plan.stale[..n] && p.node != up.node && env.outcome(p.node) != Failed ==> p.fid in closed)
    && (forall id :: id in closed ==> ClosedHere(plan, up, env, id, closed[id]))
  }

  lemma ClosedNext(plan: Plan, up: FactUpsert, env: Env, n: nat, closed: map<string, Prior>)
    requires n < |plan.stale| && ClosedSome(plan, up, env, n, closed)
    ensures var p := plan.stale[n];
      ClosedSome(plan, up, env, n + 1, if p.node != up.node && env.outcome(p.node) != Failed then closed[p.fid := p] else closed)
  {
    var p := plan.stale[n];
    assert plan.stale[..n + 1] == plan.stale[..n] + [p];
    assert p in plan.stale;
    assert p.node != up.node && env.outcome(p.node) != Failed ==> ClosedHere(plan, up, env, p.fid, p);
  }

  /** Every fact voted out among the first `n` started before now. */
  ghost predicate InTime(plan: Plan, up: FactUpsert, n: nat, now: int) {
    n <= |plan.stale| && forall j :: 0 <= j < n && plan.stale[j].node != up.node ==> plan.stale[j].lo < now
  }

  ghost predicate LateFact(plan: Plan, up: FactUpsert, now: int) {
    exists p :: VotesOut(plan, up, p) && now <= p.lo
  }

  lemma {:induction false} AlertsAppend(a: seq<Prior>, b: seq<Prior>, env: Env)
    ensures Alerts(a + b, env) == Alerts(a, env) + Alerts(b, env)
  {
    if b == [] {
      assert a + b == a;
    } else {
      assert (a + b)[..|a + b| - 1] == a + b[..|b| - 1];
      AlertsAppend(a, b[..|b| - 1], env);
    }
  }

  /** The invalidations and alerts recorded for the first `n` stale facts of a plan. */
  ghost predicate RecordedSome(plan: Plan, up: FactUpsert, env: Env, n: nat, invalidated: seq<Prior>, drift: nat) {
    n <= |plan.stale| && invalidated == InvalidatedIn(plan.stale[..n], up, env) && drift == Alerts(invalidated, env)
  }

  lemma RecordedNext(plan: Plan, up: FactUpsert, env: Env, n: nat, invalidated: seq<Prior>, drift: nat)
    requires n < |plan.stale| && RecordedSome(plan, up, env, n, invalidated, drift)
    ensures var p := plan.stale[n];
      if p.node != up.node && env.outcome(p.node) == Done
      then RecordedSome(plan, up, env, n + 1, invalidated + [p], drift + if env.drift(p.node) then 1 else 0)
      else RecordedSome(plan, up, env, n + 1, invalidated, drift)
  {
    assert plan.stale[..n + 1][..n] == plan.stale[..n];
    AlertsAppend(invalidated, [plan.stale[n]], env);
  }

  lemma OnlyClosedNext(a: map<string, Fact>, c: map<string, Prior>, b: map<string, Fact>, p: Prior)
    requires OnlyClosed(a, c, b) && p.fid in b
    ensures OnlyClosed(a, c[p.fid := p], b[p.fid := b[p.fid].(lo := p.lo, definite := p.definite, open := false)])
  {
    forall id | id in a ensures b[p.fid := b[p.fid].(lo := p.lo, definite := p.definite, open := false)][id] == Shut(a[id], c[p.fid := p], id) {
      assert b[id] == Shut(a[id], c, id);
    }
  }

  /** Close the stale facts of one plan. It panics at the first that starts no earlier
      than now. */
  method InvalidateStale(table: FactTable, plan: Plan, up: FactUpsert, env: Env, now: int)
    returns (panicked: bool, invalidated: seq<Prior>, drift: nat, ghost closed: map<string, Prior>)
    requires forall p :: p in plan.stale ==> p.fid in table.facts
    modifies table
    ensures panicked <==> LateFact(plan, up, now)
    ensures OnlyClosed(old(table.facts), closed, table.facts) && table.nextId == old(table.nextId)
    ensures !panicked ==> ClosedOne(plan, up, env, closed)
    ensures !panicked ==> invalidated == InvalidatedIn(plan.stale, up, env) && drift == Alerts(invalidated, env)
  {
    panicked, invalidated, drift, closed := false, [], 0, map[];
    for j := 0 to |plan.stale|
      invariant ClosedSome(plan, up, env, j, closed) && InTime(plan, up, j, now)
      invariant OnlyClosed(old(table.facts), closed, table.facts) && table.nextId == old(table.nextId)
      invariant RecordedSome(plan, up, env, j, invalidated, drift)
    {
      var p := plan.stale[j];
      ClosedNext(plan, up, env, j, closed);
      RecordedNext(plan, up, env, j, invalidated, drift);
      if p.node == up.node { continue; }
      if now <= p.lo {
        assert VotesOut(plan, up, p);
        panicked := true;
        return;
      }
      if env.outcome(p.node) == Failed { continue; }
      OnlyClosedNext(old(table.facts), closed, table.facts, p);
      var late := table.InvalidateFact(p.fid, p.lo, p.definite, now);
      closed := closed[p.fid := p];
      if env.outcome(p.node) == Done {
        if env.drift(p.node) { drift := drift + 1; }
        invalidated := invalidated + [p];
      }
    }
    assert plan.stale[..|plan.stale|] == plan.stale;
  }

  lemma OnlyClosedTwice(a: map<string, Fact>, c: map<string, Prior>, b: map<string, Fact>, d: map<string, Prior>, e: map<string, Fact>)
    requires OnlyClosed(a, c, b) && OnlyClosed(b, d, e)
    ensures OnlyClosed(a, c + d, e)
  {
    forall id | id in a ensures e[id] == Shut(a[id], c + d, id) {
      assert b[id] == Shut(a[id], c, id) && e[id] == Shut(b[id], d, id);
    }
  }

  lemma ClosedPush(plans: seq<Plan>, ups: seq<FactUpsert>, env: Env, closed: map<string, Prior>, plan: Plan, up: FactUpsert, more: map<string, Prior>)
    requires |plans| == |ups| && ClosedAre(plans, ups, env, closed) && ClosedOne(plan, up, env, more)
    ensures ClosedAre(plans + [plan], ups + [up], env, closed + more)
  {
    var ps, us, all := plans + [plan], ups + [up], closed + more;
    forall i, p | 0 <= i < |ps| && VotesOut(ps[i], us[i], p) && env.outcome(p.node) != Failed
      ensures p.fid in all
    {
      if i < |plans| { assert VotesOut(plans[i], ups[i], p); }
    }
    forall id | id in all ensures ClosedBy(ps, us, env, id, all[id]) {
      if id in more {
        assert ClosedHere(plan, up, env, id, more[id]);
        assert VotesOut(ps[|plans|], us[|plans|], all[id]);
      } else {
        assert ClosedBy(plans, ups, env, id, closed[id]);
        var i :| 0 <= i < |plans| && VotesOut(plans[i], ups[i], closed[id]);
        assert VotesOut(ps[i], us[i], all[id]);
      }
    }
  }

  /** The facts closed by the first `n` plans, and the lists. */
  ghost predicate ClassifiedSome(plans: seq<Plan>, ups: seq<FactUpsert>, env: Env, n: nat, created: seq<nat>, reinforced: seq<nat>,
                                 invalidated: seq<Prior>, drift: nat, closed: map<string, Prior>)
    requires n <= |plans| == |ups|
  {
    && created == Nodes(ups[..n], true) && reinforced == Nodes(ups[..n], false)
    && invalidated == Invalidated(plans[..n], ups[..n], env) && drift == Alerts(invalidated, env)
    && ClosedAre(plans[..n], ups[..n], env, closed)
  }

  lemma ClassifiedNext(plans: seq<Plan>, ups: seq<FactUpsert>, env: Env, n: nat, created: seq<nat>, reinforced: seq<nat>,
                       invalidated: seq<Prior>, drift: nat, closed: map<string, Prior>,
                       gone: seq<Prior>, more: map<string, Prior>)
    requires n < |plans| == |ups| && ClassifiedSome(plans, ups, env, n, created, reinforced, invalidated, drift, closed)
    requires gone == InvalidatedIn(plans[n].stale, ups[n], env) && ClosedOne(plans[n], ups[n], env, more)
    ensures ClassifiedSome(plans, ups, env, n + 1,
                           if ups[n].wasCreated then created + [ups[n].node] else created,
                           if ups[n].wasCreated then reinforced else reinforced + [ups[n].node],
                           invalidated + gone, drift + Alerts(gone, env), closed + more)
  {
    assert plans[..n + 1] == plans[..n] + [plans[n]] && ups[..n + 1] == ups[..n] + [ups[n]];
    assert ups[..n + 1][..n] == ups[..n] && plans[..n + 1][..n] == plans[..n];
    AlertsAppend(invalidated, gone, env);
    ClosedPush(plans[..n], ups[..n], env, closed, plans[n], ups[n], more);
  }

  ghost predicate AllInTime(plans: seq<Plan>, ups: seq<FactUpsert>, env: Env, n: nat)
    requires n <= |plans| == |ups|
  {
    forall i :: 0 <= i < n ==> !LateFact(plans[i], ups[i], env.clock(i))
  }

  /** Classify the upserts and drive the invalidations. */
  method Classify(table: FactTable, plans: seq<Plan>, ups: seq<FactUpsert>, env: Env)
    returns (panicked: bool, created: seq<nat>, reinforced: seq<nat>, invalidated: seq<Prior>, drift: nat, ghost closed: map<string, Prior>)
    requires |plans| == |ups|
    requires forall i, p :: 0 <= i < |plans| && p in plans[i].stale ==> p.fid in table.facts
    modifies table
    ensures panicked <==> !AllInTime(plans, ups, env, |plans|)
    ensures OnlyClosed(old(table.facts), closed, table.facts) && table.nextId == old(table.nextId)
    ensures !panicked ==> ClosedAre(plans, ups, env, closed) && created == Nodes(ups, true) && reinforced == Nodes(ups, false)
    ensures !panicked ==> invalidated == Invalidated(plans, ups, env) && drift == Alerts(invalidated, env)
  {
    panicked, created, reinforced, invalidated, drift, closed := false, [], [], [], 0, map[];
    for i := 0 to |plans|
      invariant ClassifiedSome(plans, ups, env, i, created, reinforced, invalidated, drift, closed) && AllInTime(plans, ups, env, i)
      invariant OnlyClosed(old(table.facts), closed, table.facts) && table.nextId == old(table.nextId)
    {
      var up := ups[i];
      ghost var before, c, r := table.facts, created, reinforced;
      if up.wasCreated { created := created + [up.node]; } else { reinforced := reinforced + [up.node]; }
      ghost var more;
      var late, gone, alerts;
      late, gone, alerts, more := InvalidateStale(table, plans[i], up, env, env.clock(i));
      OnlyClosedTwice(old(table.facts), closed, before, more, table.facts);
      if late {
        closed := closed + more;
        panicked := true;
        return;
      }
      ClassifiedNext(plans, ups, env, i, c, r, invalidated, drift, closed, gone, more);
      invalidated, drift, closed := invalidated + gone, drift + alerts, closed + more;
    }
    assert plans[..|plans|] == plans && ups[..|ups|] == ups;
  }

  class KnowledgeBase {
    /** The observations that carry a triple, in the order of their times. */
    var observations: seq<Obs>
    /** Those some cycle has a PROCESSED edge to. */
    var processed: set<nat>
    /** SUPPORTED_BY. */
    var edges: seq<Edge>
    const table: FactTable

    ghost function Mem(): Memory
      reads this, table
    {
      Memory(observations, processed, edges, table.State())
    }

    ghost predicate Valid()
      reads this, table
    {
      ValidMemory(Mem())
    }

    constructor (observations: seq<Obs>)
      requires DistinctIds(observations)
      ensures Valid() && Mem() == Memory(observations, {}, [], Store(map[], 0)) && fresh(table)
    {
      this.observations, processed, edges := observations, {}, [];
      table := new FactTable();
    }

    /** A cycle up to its invalidations: fetch, refine, group, plan, upsert and wire. */
    method BeginCycle(limit: nat, env: Env) returns (obs: seq<Obs>, plans: seq<Plan>, ups: seq<FactUpsert>, ghost tr: Trace)
      requires Valid()
      modifies `edges, table
      ensures Started(old(Mem()), env, limit, tr) && tr.mid == table.State()
      ensures NodeIds(tr.obs) == NodeIds(obs) && tr.plans == plans && tr.ups == ups
      ensures edges == old(edges) + Stars(ups, Parts(plans))
      ensures forall i, p :: 0 <= i < |plans| && p in plans[i].stale ==> p.fid in table.facts
    {
      ghost var m := Mem();
      var fetched := Fetched(observations, processed, limit);
      obs := RefineTriples(fetched, env.refined);
      var groups := GroupObservations(obs, env.lower);
      ghost var canonical := CanonicalAll(obs, env.lower);
      var found := map[];
      if !env.lookupFails { found := FindOpenFacts(table.facts, groups.Keys); }
      plans := PlanAll(canonical, groups, found, env);
      ups := table.BatchUpsertFacts(Rows(plans));
      var wired := WireEdges(plans, ups);
      edges := edges + wired;
      tr := Trace(canonical, found, plans, ups, table.State(), map[]);
      assert Upserts(m, tr);
      PriorsAreFacts(m, env, canonical, found, plans, tr.mid);
    }

    /** The invalidations of a cycle, and its marks unless they panic. */
    method EndCycle(env: Env, obs: seq<Obs>, plans: seq<Plan>, ups: seq<FactUpsert>, ghost m: Memory, ghost limit: nat, ghost begun: Trace)
      returns (stats: Option<Stats>, ghost tr: Trace)
      requires ValidMemory(m) && Started(m, env, limit, begun) && begun.mid == table.State()
      requires NodeIds(begun.obs) == NodeIds(obs) && begun.plans == plans && begun.ups == ups
      requires observations == m.observations && processed == m.processed && edges == m.edges + Stars(ups, Parts(plans))
      requires forall i, p :: 0 <= i < |plans| && p in plans[i].stale ==> p.fid in table.facts
      modifies `processed, table
      ensures Ended(m, env, limit, tr, Mem(), stats)
    {
      var panicked, created, reinforced, invalidated, drift;
      ghost var closed;
      panicked, created, reinforced, invalidated, drift, closed := Classify(table, plans, ups, env);
      tr := begun.(closed := closed);
      ghost var after := Mem();
      if panicked {
        stats := None;
        EndsInPanic(m, env, limit, begun, closed, after);
      } else {
        processed := processed + Marked(obs);
        stats := Some(Stats(|obs|, |created|, |reinforced|, |invalidated|, drift));
        EndsWell(m, env, limit, begun, closed, after.(processed := processed), stats.value);
      }
    }

    /** One cycle. */
    method RunCycle(batchSize: Option<int>, env: Env) returns (stats: Option<Stats>, ghost tr: Trace)
      requires Valid()
      modifies this, table
      ensures Ended(old(Mem()), env, Limit(batchSize), tr, Mem(), stats)
    {
      ghost var m := Mem();
      var obs, plans, ups;
      ghost var begun;
      obs, plans, ups, begun := BeginCycle(Limit(batchSize), env);
      stats, tr := EndCycle(env, obs, plans, ups, m, Limit(batchSize), begun);
    }
  }

  /** How a cycle ends. There are no statistics when it panics, which it does exactly when
      it is overdue, and then nothing is marked; otherwise it completes. */
  ghost predicate Ended(m: Memory, env: Env, limit: nat, tr: Trace, after: Memory, stats: Option<Stats>) {
    && Started(m, env, limit, tr)
    && (stats == None <==> Overdue(env, tr))
    && match stats
       case None => Abandoned(m, env, limit, tr, after)
       case Some(st) => ValidMemory(after) && IsCycle(m, env, limit, tr, after) && StatsOf(m, env, tr, after, st)
  }

  /** What the invalidations leave untouched. */
  ghost predicate Closing(m: Memory, begun: Trace, closed: map<string, Prior>, after: Memory) {
    && |begun.plans| == |begun.ups|
    && OnlyClosed(begun.mid.facts, closed, after.store.facts) && after.store.nextId == begun.mid.nextId
    && after.observations == m.observations && after.edges == m.edges + Stars(begun.ups, Parts(begun.plans))
  }

  lemma EndsInPanic(m: Memory, env: Env, limit: nat, begun: Trace, closed: map<string, Prior>, after: Memory)
    requires Started(m, env, limit, begun) && Closing(m, begun, closed, after) && after.processed == m.processed
    requires !AllInTime(begun.plans, begun.ups, env, |begun.plans|)
    ensures Ended(m, env, limit, begun.(closed := closed), after, None)
  {
    var tr := begun.(closed := closed);
    OverdueIsLate(env, tr);
    StartedAnyhow(m, env, limit, begun, tr);
  }

  lemma EndsWell(m: Memory, env: Env, limit: nat, begun: Trace, closed: map<string, Prior>, after: Memory, stats: Stats)
    requires ValidMemory(m) && Started(m, env, limit, begun) && Closing(m, begun, closed, after)
    requires AllInTime(begun.plans, begun.ups, env, |begun.plans|) && ClosedAre(begun.plans, begun.ups, env, closed)
    requires after.processed == m.processed + Marked(begun.obs)
    requires var ps := Invalidated(begun.plans, begun.ups, env);
      stats == Stats(|begun.obs|, |Nodes(begun.ups, true)|, |Nodes(begun.ups, false)|, |ps|, Alerts(ps, env))
    ensures Ended(m, env, limit, begun.(closed := closed), after, Some(stats))
  {
    var tr := begun.(closed := closed);
    OverdueIsLate(env, tr);
    StartedAnyhow(m, env, limit, begun, tr);
    CycleKeepsLedger(m, env, limit, tr, after);
    StatsMean(m, env, limit, tr, after, stats);
  }

  lemma StatsMean(m: Memory, env: Env, limit: nat, tr: Trace, after: Memory, stats: Stats)
    requires IsCycle(m, env, limit, tr, after)
    requires var ps := Invalidated(tr.plans, tr.ups, env);
      stats == Stats(|tr.obs|, |Nodes(tr.ups, true)|, |Nodes(tr.ups, false)|, |ps|, Alerts(ps, env))
    ensures StatsOf(m, env, tr, after, stats)
  {
    DistinctLength(PlanKeys(tr.plans), Keys(tr.obs));
    CreatedOnce(Rows(tr.plans), m.store.facts, tr.mid.facts, tr.ups);
    NodesSplit(tr.ups);
    AlertsWithin(Invalidated(tr.plans, tr.ups, env), env);
  }

  lemma StartedAnyhow(m: Memory, env: Env, limit: nat, begun: Trace, tr: Trace)
    requires Started(m, env, limit, begun) && tr == begun.(closed := tr.closed)
    ensures Started(m, env, limit, tr) && |tr.plans| == |tr.ups|
  {
    assert Looked(m, env, tr) && PlansGroups(env, tr) && Upserts(m, tr);
  }

  lemma OverdueIsLate(env: Env, tr: Trace)
    requires |tr.plans| == |tr.ups|
    ensures Overdue(env, tr) <==> !AllInTime(tr.plans, tr.ups, env, |tr.plans|)
  {
    if !AllInTime(tr.plans, tr.ups, env, |tr.plans|) {
      var i :| 0 <= i < |tr.plans| && LateFact(tr.plans[i], tr.ups[i], env.clock(i));
      var p :| VotesOut(tr.plans[i], tr.ups[i], p) && env.clock(i) <= p.lo;
    }
    if Overdue(env, tr) {
      var i, p :| 0 <= i < |tr.plans| && VotesOut(tr.plans[i], tr.ups[i], p) && env.clock(i) <= p.lo;
      assert LateFact(tr.plans[i], tr.ups[i], env.clock(i));
    }
  }

  lemma PriorsAreFacts(m: Memory, env: Env, obs: seq<Obs>, found: map<Key, seq<Prior>>, plans: seq<Plan>, mid: Store)
    requires if env.lookupFails then found == map[] else Found(m.store.facts, m.store.facts.Keys, Keys(obs), found)
    requires PlansFor(obs, found, env, plans) && IsBatch(m.store, Rows(plans), mid)
    ensures forall i, p :: 0 <= i < |plans| && p in plans[i].stale ==> p.fid in mid.facts
  {
    forall i, p | 0 <= i < |plans| && p in plans[i].stale ensures p.fid in mid.facts {
      var k := plans[i].key;
      assert Planned(obs, found, env, plans[i]);
      StaleOfMeans(PriorsAt(found, k), Votes(obs, k), ClustersOf(obs, found, env, k), p);
      assert p.fid in m.store.facts;
    }
  }
}
