/**
 What a completed consolidation cycle does to open facts: which it closes, which it
 leaves, and when it panics instead (`run_cycle_with`, 355-567 of
 crates/uniko-memory/src/consolidation.rs).
 */
module OpenFacts {
  import opened Wrappers
  import opened CanonicalText
  import opened Voting
  import opened Contradiction
  import opened Grouping
  import opened FactStore
  import opened Evidence
  import opened Ledger
  import opened Planning
  import opened Consolidation

  // ----- open facts -----

  /** A fact the cycle created carries the triple of a plan. */
  lemma CreatedFromPlan(m: Memory, tr: Trace, id: string) returns (n: nat)
    requires Upserts(m, tr) && id in tr.mid.facts && id !in m.store.facts
    ensures n < |tr.plans| && Rows(tr.plans)[n].Id() == id
    ensures FirstIndex(Rows(tr.plans), id) == Some(n) && tr.mid.facts[id].open
    ensures FactKey(tr.mid.facts[id]) == tr.plans[n].key && tr.mid.facts[id].obj == tr.plans[n].canonical
  {
    var rows := Rows(tr.plans);
    assert id in Unseen(m.store, rows);
    var j :| 0 <= j < |Unseen(m.store, rows)| && Unseen(m.store, rows)[j] == id;
    assert CreatedAs(rows, id, m.store.nextId + j, tr.mid.facts);
    IdsAreMerged(rows, id);
    n := FirstIndex(rows, id).value;
  }

  lemma ClosingMeans(env: Env, tr: Trace, after: Store, id: string)
    requires Closes(env, tr, after) && id in tr.mid.facts
    ensures id in after.facts && after.facts[id] == Shut(tr.mid.facts[id], tr.closed, id)
  {
  }

  lemma KnownAreReinforced(m: Memory, tr: Trace, id: string)
    requires Upserts(m, tr) && id in m.store.facts
    ensures id in tr.mid.facts && tr.mid.facts[id] == Reinforce(m.store.facts[id], Added(Rows(tr.plans), id))
  {
  }

  /** The stale fact that is skipped is the canonical fact itself. */
  lemma SkippedIsCanonical(m: Memory, tr: Trace, i: nat, id: string)
    requires OwnIds(m.store.facts) && Ledger.Numbered(m.store, m.edges) && Upserts(m, tr) && i < |tr.plans|
    requires OpenFor(m.store.facts, id, tr.plans[i].key) && m.store.facts[id].node == tr.ups[i].node
    ensures Rows(tr.plans)[i].Id() == id
    ensures NormalizeObject(ObjectText(m.store.facts[id].obj)) == NormalizeObject(ObjectText(tr.plans[i].canonical))
  {
    var rows, plan, f := Rows(tr.plans), tr.plans[i], m.store.facts[id];
    assert Reports(rows, i, m.store.facts.Keys, tr.mid.facts, tr.ups[i]);
    BatchNumbers(m.store, rows, tr.mid, m.edges);
    assert rows[i].Id() == id;
    SameIdSameObject(f.subject, f.relation, f.obj, plan.canonical);
    KeyIgnoresCase(ObjectText(f.obj), ObjectText(plan.canonical));
  }

  ghost predicate AllDone(env: Env) {
    !env.lookupFails && forall n :: env.outcome(n) == Done
  }

  /** Plan `i` finds the fact stale and is not about to reinforce it. */
  ghost predicate Outvoted(m: Memory, env: Env, tr: Trace, i: nat, id: string)
    requires i < |tr.plans| == |tr.ups| && id in m.store.facts
  {
    var k := tr.plans[i].key;
    && OpenFor(m.store.facts, id, k)
    && Stale(ObjectText(m.store.facts[id].obj), Votes(tr.obs, k), ClustersOf(tr.obs, tr.found, env, k))
    && m.store.facts[id].node != tr.ups[i].node
  }

  /** What the plan votes out is what the lookup found open and stale. */
  lemma OutvotedExactly(m: Memory, env: Env, tr: Trace, i: nat, p: Prior)
    requires !env.lookupFails && Looked(m, env, tr) && PlansGroups(env, tr) && i < |tr.plans| == |tr.ups|
    ensures VotesOut(tr.plans[i], tr.ups[i], p) <==>
      p.fid in m.store.facts && p == PriorOf(p.fid, m.store.facts[p.fid]) && Outvoted(m, env, tr, i, p.fid)
  {
    var k := tr.plans[i].key;
    assert Planned(tr.obs, tr.found, env, tr.plans[i]);
    StaleOfMeans(PriorsAt(tr.found, k), Votes(tr.obs, k), ClustersOf(tr.obs, tr.found, env, k), p);
  }

  /** A fact is closed exactly when it was open under the key of a group that gave more
      than 40% of its votes to other clusters, and it is not that group's own fact. */
  lemma ClosedExactly(m: Memory, env: Env, limit: nat, tr: Trace, after: Memory, id: string)
    requires IsCycle(m, env, limit, tr, after) && id in m.store.facts && AllDone(env)
    ensures id in after.store.facts
    ensures after.store.facts[id].open <==>
      m.store.facts[id].open && !exists i :: 0 <= i < |tr.plans| && Outvoted(m, env, tr, i, id)
  {
    KnownAreReinforced(m, tr, id);
    ClosingMeans(env, tr, after.store, id);
    if id in tr.closed {
      var i := CloserOf(m, env, tr, id);
    } else {
      forall i | 0 <= i < |tr.plans| ensures !Outvoted(m, env, tr, i, id) { NotClosed(m, env, tr, i, id); }
    }
  }

  lemma CloserOf(m: Memory, env: Env, tr: Trace, id: string) returns (i: nat)
    requires !env.lookupFails && Looked(m, env, tr) && PlansGroups(env, tr) && |tr.plans| == |tr.ups|
    requires ClosedAre(tr.plans, tr.ups, env, tr.closed) && id in tr.closed
    ensures i < |tr.plans| && id in m.store.facts && Outvoted(m, env, tr, i, id)
    ensures tr.closed[id] == PriorOf(id, m.store.facts[id])
  {
    assert ClosedBy(tr.plans, tr.ups, env, id, tr.closed[id]);
    i :| 0 <= i < |tr.plans| && VotesOut(tr.plans[i], tr.ups[i], tr.closed[id]);
    OutvotedExactly(m, env, tr, i, tr.closed[id]);
  }

  lemma NotClosed(m: Memory, env: Env, tr: Trace, i: nat, id: string)
    requires AllDone(env) && Looked(m, env, tr) && PlansGroups(env, tr) && i < |tr.plans| == |tr.ups|
    requires ClosedAre(tr.plans, tr.ups, env, tr.closed) && id in m.store.facts && id !in tr.closed
    ensures !Outvoted(m, env, tr, i, id)
  {
    OutvotedExactly(m, env, tr, i, PriorOf(id, m.store.facts[id]));
  }

  /** A fact that was open before and was not voted out agrees with the canonical object. */
  lemma KeptAgrees(m: Memory, env: Env, tr: Trace, i: nat, id: string)
    requires OwnIds(m.store.facts) && Ledger.Numbered(m.store, m.edges)
    requires PlansGroups(env, tr) && Upserts(m, tr) && i < |tr.plans|
    requires Total(Votes(tr.obs, tr.plans[i].key)) > 0 && OpenFor(m.store.facts, id, tr.plans[i].key) && !Outvoted(m, env, tr, i, id)
    ensures tr.plans[i].canonical.Some?
    ensures ClusterOf(ObjectText(m.store.facts[id].obj), ClustersOf(tr.obs, tr.found, env, tr.plans[i].key))
      == ClusterOf(tr.plans[i].canonical.value, ClustersOf(tr.obs, tr.found, env, tr.plans[i].key))
  {
    var k, r := tr.plans[i].key, tr.plans[i].canonical;
    var votes, clusters := Votes(tr.obs, k), ClustersOf(tr.obs, tr.found, env, k);
    var text := ObjectText(m.store.facts[id].obj);
    assert Planned(tr.obs, tr.found, env, tr.plans[i]);
    VotesCovered(votes, PriorsAt(tr.found, k), env.embeddings, env.sim);
    NoneExactlyWhenSilent(votes, clusters, r);
    if Stale(text, votes, clusters) {
      SkippedIsCanonical(m, tr, i, id);
    } else {
      SurvivorsAgree(text, text, votes, clusters, r);
    }
  }

  /** Once a group has voted, the lookup worked and every invalidation went through, all
      open facts of its subject and predicate are in one cluster: that of the canonical
      object. */
  lemma OpenFactsAgree(m: Memory, env: Env, limit: nat, tr: Trace, after: Memory, i: nat, id: string)
    requires ValidMemory(m) && IsCycle(m, env, limit, tr, after) && i < |tr.plans| && AllDone(env)
    requires Total(Votes(tr.obs, tr.plans[i].key)) > 0 && OpenFor(after.store.facts, id, tr.plans[i].key)
    ensures var clusters, r := ClustersOf(tr.obs, tr.found, env, tr.plans[i].key), tr.plans[i].canonical;
      && r.Some? && ClusterOf(r.value, clusters).Some?
      && ClusterOf(ObjectText(after.store.facts[id].obj), clusters) == ClusterOf(r.value, clusters)
  {
    var k := tr.plans[i].key;
    CanonicalHasCluster(env, tr, i);
    if id in m.store.facts {
      OpenBefore(m, env, tr, after.store, i, id);
      KeptAgrees(m, env, tr, i, id);
    } else {
      CreatedIsCanonical(m, env, tr, after.store, i, id);
    }
  }

  lemma OpenBefore(m: Memory, env: Env, tr: Trace, after: Store, i: nat, id: string)
    requires AllDone(env) && Looked(m, env, tr) && PlansGroups(env, tr) && Upserts(m, tr) && Closes(env, tr, after)
    requires i < |tr.plans| && id in m.store.facts && OpenFor(after.facts, id, tr.plans[i].key)
    ensures OpenFor(m.store.facts, id, tr.plans[i].key) && m.store.facts[id].obj == after.facts[id].obj
    ensures !Outvoted(m, env, tr, i, id)
  {
    KnownAreReinforced(m, tr, id);
    ClosingMeans(env, tr, after, id);
    NotClosed(m, env, tr, i, id);
  }

  lemma CreatedIsCanonical(m: Memory, env: Env, tr: Trace, after: Store, i: nat, id: string)
    requires DistinctKeys(PlanKeys(tr.plans)) && Upserts(m, tr) && Closes(env, tr, after)
    requires i < |tr.plans| && id !in m.store.facts && OpenFor(after.facts, id, tr.plans[i].key)
    ensures after.facts[id].obj == tr.plans[i].canonical
  {
    ClosingMeans(env, tr, after, id);
    var n := CreatedFromPlan(m, tr, id);
    assert PlanKeys(tr.plans)[n] == PlanKeys(tr.plans)[i];
  }

  lemma CanonicalHasCluster(env: Env, tr: Trace, i: nat)
    requires PlansGroups(env, tr) && i < |tr.plans| && Total(Votes(tr.obs, tr.plans[i].key)) > 0
    ensures tr.plans[i].canonical.Some? && ClusterOf(tr.plans[i].canonical.value, ClustersOf(tr.obs, tr.found, env, tr.plans[i].key)).Some?
  {
    var k, r := tr.plans[i].key, tr.plans[i].canonical;
    assert Planned(tr.obs, tr.found, env, tr.plans[i]);
    VotesCovered(Votes(tr.obs, k), PriorsAt(tr.found, k), env.embeddings, env.sim);
    NoneExactlyWhenSilent(Votes(tr.obs, k), ClustersOf(tr.obs, tr.found, env, k), r);
    CanonicalIsAVote(Votes(tr.obs, k), ClustersOf(tr.obs, tr.found, env, k), r);
  }

  /** A closed fact is never reopened, reinforced or not. */
  lemma ClosedStaysClosed(m: Memory, env: Env, limit: nat, tr: Trace, after: Memory, id: string)
    requires IsCycle(m, env, limit, tr, after) && id in m.store.facts && !m.store.facts[id].open
    ensures id in after.store.facts && !after.store.facts[id].open
    ensures after.store.facts[id].count == m.store.facts[id].count + Added(Rows(tr.plans), id)
  {
    KnownAreReinforced(m, tr, id);
    ClosingMeans(env, tr, after.store, id);
  }

  // ----- a key left without an open fact -----

  /** The fact of plan `i`. */
  ghost function Own(tr: Trace, i: nat): string
    requires i < |tr.plans|
  {
    Rows(tr.plans)[i].Id()
  }

  ghost predicate StaleFor(m: Memory, env: Env, tr: Trace, i: nat, id: string)
    requires i < |tr.plans| && id in m.store.facts
  {
    var k := tr.plans[i].key;
    Stale(ObjectText(m.store.facts[id].obj), Votes(tr.obs, k), ClustersOf(tr.obs, tr.found, env, k))
  }

  /** An open fact of the group that its votes do not contradict, or that is its own. */
  ghost predicate KeepsOpen(m: Memory, env: Env, tr: Trace, i: nat, id: string)
    requires i < |tr.plans|
  {
    OpenFor(m.store.facts, id, tr.plans[i].key) && (!StaleFor(m, env, tr, i, id) || id == Own(tr, i))
  }

  /** The group's own fact is not stored yet, and no earlier plan creates it. */
  ghost predicate Opens(m: Memory, tr: Trace, i: nat)
    requires i < |tr.plans|
  {
    Own(tr, i) !in m.store.facts && FirstIndex(Rows(tr.plans), Own(tr, i)) == Some(i)
  }

  /** A fact of the group has the node of result `i` exactly when it is the group's own. */
  lemma OwnNode(m: Memory, tr: Trace, i: nat, id: string)
    requires Ledger.Numbered(m.store, m.edges) && Upserts(m, tr) && i < |tr.plans| && id in m.store.facts
    ensures m.store.facts[id].node == tr.ups[i].node <==> id == Own(tr, i)
  {
    assert Reports(Rows(tr.plans), i, m.store.facts.Keys, tr.mid.facts, tr.ups[i]);
    BatchNumbers(m.store, Rows(tr.plans), tr.mid, m.edges);
  }

  /** No other plan touches the open facts of a key. */
  lemma OthersDoNotVote(m: Memory, env: Env, tr: Trace, i: nat, j: nat, id: string)
    requires DistinctKeys(PlanKeys(tr.plans)) && i < |tr.plans| == |tr.ups| && j < |tr.plans|
    requires OpenFor(m.store.facts, id, tr.plans[i].key) && Outvoted(m, env, tr, j, id)
    ensures j == i
  {
    OneKeyOnePlan(tr.plans, j, i);
  }

  lemma KeptStaysOpen(m: Memory, env: Env, tr: Trace, after: Store, i: nat, id: string)
    requires Ledger.Numbered(m.store, m.edges) && AllDone(env) && Looked(m, env, tr) && PlansGroups(env, tr)
    requires Upserts(m, tr) && Closes(env, tr, after) && i < |tr.plans| && KeepsOpen(m, env, tr, i, id)
    ensures OpenFor(after.facts, id, tr.plans[i].key)
  {
    KnownAreReinforced(m, tr, id);
    ClosingMeans(env, tr, after, id);
    OwnNode(m, tr, i, id);
    if id in tr.closed {
      var j := CloserOf(m, env, tr, id);
      OthersDoNotVote(m, env, tr, i, j, id);
    }
  }

  lemma OwnIsOpened(m: Memory, env: Env, tr: Trace, after: Store, i: nat)
    requires AllDone(env) && Looked(m, env, tr) && PlansGroups(env, tr)
    requires Upserts(m, tr) && Closes(env, tr, after) && i < |tr.plans| && Opens(m, tr, i)
    ensures OpenFor(after.facts, Own(tr, i), tr.plans[i].key)
  {
    var own := Own(tr, i);
    assert Reports(Rows(tr.plans), i, m.store.facts.Keys, tr.mid.facts, tr.ups[i]);
    var n := CreatedFromPlan(m, tr, own);
    ClosingMeans(env, tr, after, own);
    if own in tr.closed { var j := CloserOf(m, env, tr, own); }
  }

  lemma OpenIsKeptOrOpened(m: Memory, env: Env, tr: Trace, after: Store, i: nat, id: string)
    requires Ledger.Numbered(m.store, m.edges) && AllDone(env) && Looked(m, env, tr) && PlansGroups(env, tr)
    requires Upserts(m, tr) && Closes(env, tr, after) && i < |tr.plans| && OpenFor(after.facts, id, tr.plans[i].key)
    ensures KeepsOpen(m, env, tr, i, id) || Opens(m, tr, i)
  {
    if id in m.store.facts {
      OpenBefore(m, env, tr, after, i, id);
      OwnNode(m, tr, i, id);
    } else {
      ClosingMeans(env, tr, after, id);
      var n := CreatedFromPlan(m, tr, id);
      OneKeyOnePlan(tr.plans, n, i);
    }
  }

  /** When no call fails, a group's subject and predicate are left with no open fact
      exactly when each open fact they had is contradicted and is not the group's own,
      and the own fact is stored already or an earlier plan creates it. */
  lemma NoneOpenExactly(m: Memory, env: Env, limit: nat, tr: Trace, after: Memory, i: nat)
    requires ValidMemory(m) && IsCycle(m, env, limit, tr, after) && AllDone(env) && i < |tr.plans|
    ensures (forall id :: !OpenFor(after.store.facts, id, tr.plans[i].key))
      <==> (forall id :: !KeepsOpen(m, env, tr, i, id)) && !Opens(m, tr, i)
  {
    if id :| KeepsOpen(m, env, tr, i, id) { KeptStaysOpen(m, env, tr, after.store, i, id); }
    if Opens(m, tr, i) { OwnIsOpened(m, env, tr, after.store, i); }
    if id :| OpenFor(after.store.facts, id, tr.plans[i].key) { OpenIsKeptOrOpened(m, env, tr, after.store, i, id); }
  }

  /** When the evidence swings back to an object whose fact was closed, and outvotes
      every open fact, the subject and predicate are left with no open fact at all. */
  lemma SwingBackLeavesNone(m: Memory, env: Env, limit: nat, tr: Trace, after: Memory, i: nat, id: string)
    requires ValidMemory(m) && IsCycle(m, env, limit, tr, after) && AllDone(env) && i < |tr.plans|
    requires Own(tr, i) in m.store.facts && !m.store.facts[Own(tr, i)].open
    requires forall f :: OpenFor(m.store.facts, f, tr.plans[i].key) ==> StaleFor(m, env, tr, i, f)
    ensures !OpenFor(after.store.facts, id, tr.plans[i].key)
  {
    NoneOpenExactly(m, env, limit, tr, after, i);
  }

  lemma OneKeyOnePlan(plans: seq<Plan>, n: nat, i: nat)
    requires DistinctKeys(PlanKeys(plans)) && n < |plans| && i < |plans| && plans[n].key == plans[i].key
    ensures n == i
  {
    assert PlanKeys(plans)[n] == PlanKeys(plans)[i];
  }

  // ----- what closing writes, and when it panics -----

  lemma NoPriorsNoVote(env: Env, tr: Trace, i: nat, p: Prior)
    requires env.lookupFails && tr.found == map[] && PlansGroups(env, tr) && i < |tr.plans| == |tr.ups|
    ensures !VotesOut(tr.plans[i], tr.ups[i], p)
  {
    assert Planned(tr.obs, tr.found, env, tr.plans[i]);
  }

  /** A fact that is closed keeps the certainty it was read with, even when this very
      cycle lifted its count over the threshold; its start never moves. */
  lemma ClosingUndoesUpgrade(m: Memory, env: Env, tr: Trace, after: Store, id: string)
    requires Looked(m, env, tr) && PlansGroups(env, tr) && Upserts(m, tr) && Closes(env, tr, after) && id in tr.closed
    ensures id in m.store.facts && id in after.facts
    ensures after.facts[id] == Reinforce(m.store.facts[id], Added(Rows(tr.plans), id)).(definite := m.store.facts[id].definite, open := false)
  {
    assert ClosedBy(tr.plans, tr.ups, env, id, tr.closed[id]);
    if env.lookupFails {
      forall i | 0 <= i < |tr.plans| ensures !VotesOut(tr.plans[i], tr.ups[i], tr.closed[id]) { NoPriorsNoVote(env, tr, i, tr.closed[id]); }
    } else {
      var i := CloserOf(m, env, tr, id);
      KnownAreReinforced(m, tr, id);
      ClosingMeans(env, tr, after, id);
    }
  }

  /** A stored fact misses its upgrade exactly when it is closed in the very cycle that
      lifts its count over the threshold. */
  lemma UpgradeLostExactly(m: Memory, env: Env, tr: Trace, after: Store, id: string)
    requires Looked(m, env, tr) && PlansGroups(env, tr) && Upserts(m, tr) && Closes(env, tr, after) && id in m.store.facts
    ensures id in after.facts
    ensures var f, n := m.store.facts[id], Added(Rows(tr.plans), id);
      after.facts[id].definite != Reinforce(f, n).definite <==>
        id in tr.closed && !f.definite && f.count < CERTAINTY_THRESHOLD <= f.count + n
  {
    if id in tr.closed {
      ClosingUndoesUpgrade(m, env, tr, after, id);
    } else {
      KnownAreReinforced(m, tr, id);
      ClosingMeans(env, tr, after, id);
    }
  }

  /** Group `i` contradicts an open fact of its key other than its own, and the fact
      starts no earlier than the clock then reads. */
  ghost predicate NotYetStarted(m: Memory, env: Env, tr: Trace, i: nat, id: string) {
    && i < |tr.plans|
    && OpenFor(m.store.facts, id, tr.plans[i].key) && StaleFor(m, env, tr, i, id)
    && id != Own(tr, i) && env.clock(i) <= m.store.facts[id].lo
  }

  lemma LateFactIsOutvoted(m: Memory, env: Env, tr: Trace) returns (i: nat, id: string)
    requires Ledger.Numbered(m.store, m.edges) && Looked(m, env, tr) && PlansGroups(env, tr) && Upserts(m, tr) && Overdue(env, tr)
    ensures !env.lookupFails && NotYetStarted(m, env, tr, i, id)
  {
    var p;
    i, p :| 0 <= i < |tr.plans| && VotesOut(tr.plans[i], tr.ups[i], p) && env.clock(i) <= p.lo;
    id := p.fid;
    if env.lookupFails {
      NoPriorsNoVote(env, tr, i, p);
    } else {
      OutvotedExactly(m, env, tr, i, p);
      OwnNode(m, tr, i, id);
    }
  }

  lemma OutvotedFactIsLate(m: Memory, env: Env, tr: Trace, i: nat, id: string)
    requires Ledger.Numbered(m.store, m.edges) && Looked(m, env, tr) && PlansGroups(env, tr) && Upserts(m, tr)
    requires !env.lookupFails && NotYetStarted(m, env, tr, i, id)
    ensures Overdue(env, tr)
  {
    OwnNode(m, tr, i, id);
    OutvotedExactly(m, env, tr, i, PriorOf(id, m.store.facts[id]));
    assert VotesOut(tr.plans[i], tr.ups[i], PriorOf(id, m.store.facts[id]));
  }

  /** The cycle panics exactly when the lookup works and it is to close a fact that does
      not start before now: one dated by an anchor in the future, say. */
  lemma PanicsExactly(m: Memory, env: Env, limit: nat, tr: Trace)
    requires ValidMemory(m) && Started(m, env, limit, tr)
    ensures Overdue(env, tr) <==> !env.lookupFails && exists i, id :: NotYetStarted(m, env, tr, i, id)
  {
    if Overdue(env, tr) {
      var i, id := LateFactIsOutvoted(m, env, tr);
    }
    if i, id :| !env.lookupFails && NotYetStarted(m, env, tr, i, id) {
      OutvotedFactIsLate(m, env, tr, i, id);
    }
  }

  /** A cycle that panics breaks the ledger: what it fetched has its edges and is fetched
      again. */
  lemma AbandonedBreaksLedger(m: Memory, env: Env, limit: nat, tr: Trace, after: Memory, o: Obs)
    requires ValidMemory(m) && Abandoned(m, env, limit, tr, after) && o in tr.obs
    ensures ObsEdges(after.edges, o.id) == 1 && o.id !in after.processed
  {
    PartsAreGroups(m, env, tr);
    FetchedAreNew(m, env, limit, tr);
    HasId(tr.obs, o);
    Append(m.edges, Stars(tr.ups, Parts(tr.plans)), o.id);
    CycleWiresOnce(tr.obs, PlanKeys(tr.plans), tr.ups, o.id);
  }
}
