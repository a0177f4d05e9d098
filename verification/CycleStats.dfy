/**
 What the counters of a consolidation cycle count (`run_cycle_with`, 508-593 of
 crates/uniko-memory/src/consolidation.rs).
 */
module CycleStats {
  import opened Wrappers
  import opened CanonicalText
  import opened Voting
  import opened Contradiction
  import opened Grouping
  import opened FactStore
  import opened Evidence
  import opened Ledger
  import opened Planning
  import opened Consolidation
  import opened OpenFacts

  /** The facts of one plan that were invalidated and recorded as such. */
  function InvalidatedIn(stale: seq<Prior>, up: FactUpsert, env: Env): seq<Prior> {
    if stale == [] then []
    else
      var p := stale[|stale| - 1];
      InvalidatedIn(stale[..|stale| - 1], up, env) + if p.node != up.node && env.outcome(p.node) == Done then [p] else []
  }

  function Invalidated(plans: seq<Plan>, ups: seq<FactUpsert>, env: Env): seq<Prior>
    requires |plans| == |ups|
  {
    if plans == [] then []
    else
      var n := |plans| - 1;
      Invalidated(plans[..n], ups[..n], env) + InvalidatedIn(plans[n].stale, ups[n], env)
  }

  /** The recorded invalidations that tipped an entity over. */
  function Alerts(ps: seq<Prior>, env: Env): nat {
    if ps == [] then 0 else Alerts(ps[..|ps| - 1], env) + if env.drift(ps[|ps| - 1].node) then 1 else 0
  }

  lemma {:induction false} AlertsWithin(ps: seq<Prior>, env: Env)
    ensures Alerts(ps, env) <= |ps|
  {
    if ps != [] { AlertsWithin(ps[..|ps| - 1], env); }
  }

  lemma {:induction false} InvalidatedInMeans(stale: seq<Prior>, up: FactUpsert, env: Env, p: Prior)
    ensures p in InvalidatedIn(stale, up, env) <==> p in stale && p.node != up.node && env.outcome(p.node) == Done
    ensures DistinctFids(stale) ==> DistinctFids(InvalidatedIn(stale, up, env))
  {
    if stale != [] {
      var front, q := stale[..|stale| - 1], stale[|stale| - 1];
      assert stale == front + [q];
      InvalidatedInMeans(front, up, env, p);
      var some := InvalidatedIn(front, up, env);
      if DistinctFids(stale) {
        assert DistinctFids(front);
        forall i | 0 <= i < |some| ensures some[i].fid != q.fid { InvalidatedInMeans(front, up, env, some[i]); }
      }
    }
  }

  ghost predicate VotedOutSome(plans: seq<Plan>, ups: seq<FactUpsert>, env: Env, p: Prior)
    requires |plans| == |ups|
  {
    exists i :: 0 <= i < |plans| && VotesOut(plans[i], ups[i], p) && env.outcome(p.node) == Done
  }

  lemma VotedOutPush(plans: seq<Plan>, ups: seq<FactUpsert>, env: Env, p: Prior)
    requires |plans| == |ups| > 0
    ensures var n := |plans| - 1;
      VotedOutSome(plans, ups, env, p) <==>
        VotedOutSome(plans[..n], ups[..n], env, p) || (VotesOut(plans[n], ups[n], p) && env.outcome(p.node) == Done)
  {
    var n := |plans| - 1;
    if VotedOutSome(plans, ups, env, p) {
      var i :| 0 <= i < |plans| && VotesOut(plans[i], ups[i], p) && env.outcome(p.node) == Done;
      if i < n { assert VotesOut(plans[..n][i], ups[..n][i], p); }
    }
    if VotedOutSome(plans[..n], ups[..n], env, p) {
      var i :| 0 <= i < n && VotesOut(plans[..n][i], ups[..n][i], p) && env.outcome(p.node) == Done;
      assert VotesOut(plans[i], ups[i], p);
    }
  }

  lemma {:induction false} InvalidatedMeans(plans: seq<Plan>, ups: seq<FactUpsert>, env: Env, p: Prior)
    requires |plans| == |ups|
    ensures p in Invalidated(plans, ups, env) <==> VotedOutSome(plans, ups, env, p)
  {
    if plans != [] {
      var n := |plans| - 1;
      InvalidatedMeans(plans[..n], ups[..n], env, p);
      InvalidatedInMeans(plans[n].stale, ups[n], env, p);
      VotedOutPush(plans, ups, env, p);
    }
  }

  /** Stale facts of one plan are open facts of its key, listed once. */
  ghost predicate StaleOwn(facts: map<string, Fact>, plan: Plan) {
    DistinctFids(plan.stale) && forall p :: p in plan.stale ==> p.fid in facts && FactKey(facts[p.fid]) == plan.key
  }

  lemma {:induction false} InvalidatedDistinct(facts: map<string, Fact>, plans: seq<Plan>, ups: seq<FactUpsert>, env: Env)
    requires |plans| == |ups| && DistinctKeys(PlanKeys(plans)) && forall i :: 0 <= i < |plans| ==> StaleOwn(facts, plans[i])
    ensures DistinctFids(Invalidated(plans, ups, env))
  {
    if plans != [] {
      var n := |plans| - 1;
      assert PlanKeys(plans)[..n] == PlanKeys(plans[..n]);
      InvalidatedDistinct(facts, plans[..n], ups[..n], env);
      var some, more := Invalidated(plans[..n], ups[..n], env), InvalidatedIn(plans[n].stale, ups[n], env);
      assert StaleOwn(facts, plans[n]);
      InvalidatedInMeans(plans[n].stale, ups[n], env, Prior("", 0, "", 0, false));
      forall i, j | 0 <= i < |some| && 0 <= j < |more| ensures some[i].fid != more[j].fid {
        OtherKey(facts, plans, ups, env, some[i], more[j]);
      }
    }
  }

  lemma OtherKey(facts: map<string, Fact>, plans: seq<Plan>, ups: seq<FactUpsert>, env: Env, p: Prior, q: Prior)
    requires plans != [] && |plans| == |ups| && DistinctKeys(PlanKeys(plans))
    requires forall i :: 0 <= i < |plans| ==> StaleOwn(facts, plans[i])
    requires var n := |plans| - 1; p in Invalidated(plans[..n], ups[..n], env) && q in InvalidatedIn(plans[n].stale, ups[n], env)
    ensures p.fid != q.fid
  {
    var n := |plans| - 1;
    InvalidatedMeans(plans[..n], ups[..n], env, p);
    InvalidatedInMeans(plans[n].stale, ups[n], env, q);
    var i :| 0 <= i < n && VotesOut(plans[..n][i], ups[..n][i], p);
    assert StaleOwn(facts, plans[i]) && StaleOwn(facts, plans[n]);
    assert PlanKeys(plans)[i] != PlanKeys(plans)[n];
  }

  lemma PlansStaleOwn(m: Memory, env: Env, tr: Trace, i: nat)
    requires Looked(m, env, tr) && PlansGroups(env, tr) && i < |tr.plans|
    ensures StaleOwn(m.store.facts, tr.plans[i])
  {
    var k := tr.plans[i].key;
    var votes, clusters := Votes(tr.obs, k), ClustersOf(tr.obs, tr.found, env, k);
    assert Planned(tr.obs, tr.found, env, tr.plans[i]);
    assert DistinctFids(PriorsAt(tr.found, k));
    StaleOfDistinct(PriorsAt(tr.found, k), votes, clusters);
    forall p | p in tr.plans[i].stale ensures p.fid in m.store.facts && FactKey(m.store.facts[p.fid]) == k {
      StaleOfMeans(PriorsAt(tr.found, k), votes, clusters, p);
    }
  }

  lemma {:induction false} FidSetSize(ps: seq<Prior>, fids: set<string>)
    requires DistinctFids(ps) && forall id :: id in fids <==> exists i :: 0 <= i < |ps| && ps[i].fid == id
    ensures |ps| == |fids|
  {
    if ps != [] {
      var front, p := ps[..|ps| - 1], ps[|ps| - 1];
      forall id ensures id in fids - {p.fid} <==> exists i :: 0 <= i < |front| && front[i].fid == id {
        if id in fids - {p.fid} {
          var i :| 0 <= i < |ps| && ps[i].fid == id;
          assert front[i].fid == id;
        }
      }
      FidSetSize(front, fids - {p.fid});
    }
  }

  /** When every write goes through, the facts counted as invalidated are the facts that
      were closed, none of them twice. */
  lemma CountedAreClosed(m: Memory, env: Env, tr: Trace, after: Store)
    requires AllDone(env) && Looked(m, env, tr) && PlansGroups(env, tr) && Closes(env, tr, after)
    ensures |Invalidated(tr.plans, tr.ups, env)| == |tr.closed.Keys|
  {
    var ps := Invalidated(tr.plans, tr.ups, env);
    forall i | 0 <= i < |tr.plans| ensures StaleOwn(m.store.facts, tr.plans[i]) { PlansStaleOwn(m, env, tr, i); }
    InvalidatedDistinct(m.store.facts, tr.plans, tr.ups, env);
    forall id ensures id in tr.closed <==> exists i :: 0 <= i < |ps| && ps[i].fid == id {
      if id in tr.closed {
        assert ClosedBy(tr.plans, tr.ups, env, id, tr.closed[id]);
        InvalidatedMeans(tr.plans, tr.ups, env, tr.closed[id]);
      }
      if i :| 0 <= i < |ps| && ps[i].fid == id {
        InvalidatedMeans(tr.plans, tr.ups, env, ps[i]);
      }
    }
    FidSetSize(ps, tr.closed.Keys);
  }

  /** Some plan voted the stored fact out, and its invalidation was recorded. */
  ghost predicate Recorded(m: Memory, env: Env, tr: Trace, id: string)
    requires |tr.plans| == |tr.ups|
  {
    && !env.lookupFails && id in m.store.facts && env.outcome(m.store.facts[id].node) == Done
    && exists i :: 0 <= i < |tr.plans| && Outvoted(m, env, tr, i, id)
  }

  lemma RecordedIsCounted(m: Memory, env: Env, tr: Trace, p: Prior)
    requires Looked(m, env, tr) && PlansGroups(env, tr) && |tr.plans| == |tr.ups|
    ensures p in Invalidated(tr.plans, tr.ups, env) <==>
      p.fid in m.store.facts && p == PriorOf(p.fid, m.store.facts[p.fid]) && Recorded(m, env, tr, p.fid)
  {
    InvalidatedMeans(tr.plans, tr.ups, env, p);
    forall i | 0 <= i < |tr.plans|
      ensures VotesOut(tr.plans[i], tr.ups[i], p) <==>
        !env.lookupFails && p.fid in m.store.facts && p == PriorOf(p.fid, m.store.facts[p.fid]) && Outvoted(m, env, tr, i, p.fid)
    {
      if env.lookupFails { NoPriorsNoVote(env, tr, i, p); } else { OutvotedExactly(m, env, tr, i, p); }
    }
  }

  /** The priors among `ps` whose entity tipped over. */
  function Drifting(ps: seq<Prior>, env: Env): seq<Prior> {
    if ps == [] then []
    else Drifting(ps[..|ps| - 1], env) + if env.drift(ps[|ps| - 1].node) then [ps[|ps| - 1]] else []
  }

  lemma {:induction false} DriftingMeans(ps: seq<Prior>, env: Env, p: Prior)
    ensures p in Drifting(ps, env) <==> p in ps && env.drift(p.node)
    ensures |Drifting(ps, env)| == Alerts(ps, env)
    ensures DistinctFids(ps) ==> DistinctFids(Drifting(ps, env))
  {
    if ps != [] {
      var front, q := ps[..|ps| - 1], ps[|ps| - 1];
      assert ps == front + [q];
      DriftingMeans(front, env, p);
      var some := Drifting(front, env);
      if DistinctFids(ps) {
        assert DistinctFids(front);
        forall i | 0 <= i < |some| ensures some[i].fid != q.fid { DriftingMeans(front, env, some[i]); }
      }
    }
  }

  lemma SizeOfFids(facts: map<string, Fact>, ps: seq<Prior>, fids: set<string>)
    requires DistinctFids(ps) && (forall id :: id in fids ==> id in facts && PriorOf(id, facts[id]) in ps)
    requires forall p :: p in ps ==> p.fid in fids
    ensures |ps| == |fids|
  {
    forall id ensures id in fids <==> exists i :: 0 <= i < |ps| && ps[i].fid == id {
      if id in fids {
        var i :| 0 <= i < |ps| && ps[i] == PriorOf(id, facts[id]);
        assert ps[i].fid == id;
      }
      if i :| 0 <= i < |ps| && ps[i].fid == id { assert ps[i] in ps; }
    }
    FidSetSize(ps, fids);
  }

  /** Whatever fails: the invalidations counted are the stored facts voted out whose
      invalidation was recorded, and the drift alerts those among them that tipped an
      entity over. */
  lemma CountersExactly(m: Memory, env: Env, tr: Trace)
    requires Looked(m, env, tr) && PlansGroups(env, tr) && |tr.plans| == |tr.ups|
    ensures var ps := Invalidated(tr.plans, tr.ups, env);
      && |ps| == |set id | id in m.store.facts && Recorded(m, env, tr, id)|
      && Alerts(ps, env) == |set id | id in m.store.facts && Recorded(m, env, tr, id) && env.drift(m.store.facts[id].node)|
  {
    var facts, ps := m.store.facts, Invalidated(tr.plans, tr.ups, env);
    forall i | 0 <= i < |tr.plans| ensures StaleOwn(facts, tr.plans[i]) { PlansStaleOwn(m, env, tr, i); }
    InvalidatedDistinct(facts, tr.plans, tr.ups, env);
    forall p ensures p in ps <==> p.fid in facts && p == PriorOf(p.fid, facts[p.fid]) && Recorded(m, env, tr, p.fid) {
      RecordedIsCounted(m, env, tr, p);
    }
    SizeOfFids(facts, ps, set id | id in facts && Recorded(m, env, tr, id));
    DriftingMeans(ps, env, Prior("", 0, "", 0, false));
    forall p ensures p in Drifting(ps, env) <==> p in ps && env.drift(p.node) { DriftingMeans(ps, env, p); }
    SizeOfFids(facts, Drifting(ps, env), set id | id in facts && Recorded(m, env, tr, id) && env.drift(facts[id].node));
  }

  /** The nodes of the results that are, or are not, newly created. */
  function Nodes(ups: seq<FactUpsert>, created: bool): seq<nat> {
    if ups == [] then []
    else Nodes(ups[..|ups| - 1], created) + if ups[|ups| - 1].wasCreated == created then [ups[|ups| - 1].node] else []
  }

  lemma {:induction false} NodesSplit(ups: seq<FactUpsert>)
    ensures |Nodes(ups, true)| + |Nodes(ups, false)| == |ups|
  {
    if ups != [] { NodesSplit(ups[..|ups| - 1]); }
  }

  /** Rows reported as created are as many as the facts that are new. */
  lemma {:induction false} CreatedOnce(rows: seq<Row>, facts: map<string, Fact>, after: map<string, Fact>, ups: seq<FactUpsert>)
    requires |ups| == |rows| && forall i :: 0 <= i < |rows| ==> Reports(rows, i, facts.Keys, after, ups[i])
    ensures |Nodes(ups, true)| == |NewIds(facts, FactStore.Ids(rows))|
  {
    if rows != [] {
      var n := |rows| - 1;
      var front, ids := rows[..n], FactStore.Ids(rows[..n]);
      forall i | 0 <= i < n ensures Reports(front, i, facts.Keys, after, ups[..n][i]) {
        assert Reports(rows, i, facts.Keys, after, ups[i]);
        IdsCover(front, i);
        IdsAreMerged(front, front[i].Id());
      }
      CreatedOnce(front, facts, after, ups[..n]);
      assert Reports(rows, n, facts.Keys, after, ups[n]);
      IdsAreMerged(front, rows[n].Id());
      if rows[n].Id() !in ids {
        assert (ids + [rows[n].Id()])[..|ids|] == ids;
      }
    }
  }

  lemma {:induction false} DistinctLength(keys: seq<Key>, ks: set<Key>)
    requires DistinctKeys(keys) && forall k :: k in keys <==> k in ks
    ensures |keys| == |ks|
  {
    if keys != [] {
      var front, k := keys[..|keys| - 1], keys[|keys| - 1];
      assert keys == front + [k];
      DistinctLength(front, ks - {k});
    }
  }

  /** What the counters of a completed cycle count. */
  ghost predicate StatsOf(m: Memory, env: Env, tr: Trace, after: Memory, stats: Stats)
    requires |tr.plans| == |tr.ups|
  {
    && stats.observationsProcessed == |tr.obs|
    && stats.factsCreated + stats.factsReinforced == |Keys(tr.obs)|
    && stats.factsCreated == after.store.nextId - m.store.nextId
    && stats.factsInvalidated == |Invalidated(tr.plans, tr.ups, env)|
    && stats.driftAlerts == Alerts(Invalidated(tr.plans, tr.ups, env), env) <= stats.factsInvalidated
  }
}
