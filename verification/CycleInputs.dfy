/**
 What a cycle takes in and writes, said on the stored observations and the answers of its
 environment (`run_cycle_with`, 154-506 of crates/uniko-memory/src/consolidation.rs): which
 observations it fetches, how it reads them, and what becomes of a new fact.
 */
module CycleInputs {
  import opened Wrappers
  import opened CanonicalText
  import opened Voting
  import opened Grouping
  import opened FactStore
  import opened Evidence
  import opened Ledger
  import opened Planning
  import opened Consolidation
  import opened OpenFacts

  // ----- how many, and which -----

  /** A batch is 500 unless asked for otherwise, and never empty. */
  lemma BatchSizes(asked: int)
    ensures Limit(None) == 500 && Limit(Some(asked)) >= 1
    ensures asked >= 1 ==> Limit(Some(asked)) == asked
    ensures asked < 1 ==> Limit(Some(asked)) == 1
  {
  }

  lemma RoomForEach(r: Run, limit: nat)
    requires limit >= 1
    ensures Room(r, limit) >= Cycles(r)
  {
    if r.More? { RoomForEach(r.run, limit); }
  }

  /** Whatever batch size is asked for: one cycle per waiting or arriving observation
      accounts for all that were there. */
  lemma DrainsInTime(r: Run, batchSize: Option<int>, o: Obs)
    requires CycleRun(r, Limit(batchSize)) && o in First(r).observations
    requires Cycles(r) >= Waiting(First(r)) + |Last(r).observations| - |First(r).observations|
    ensures o.id in Last(r).processed && ObsEdges(Last(r).edges, o.id) == 1
  {
    RoomForEach(r, Limit(batchSize));
    DrainedRunAccountsForAll(r, Limit(batchSize), o);
  }

  /** The unprocessed observations among the first `n`. */
  ghost function WaitingAmong(observations: seq<Obs>, processed: set<nat>, n: nat): set<nat>
    requires n <= |observations|
  {
    set i | 0 <= i < n && observations[i].id !in processed
  }

  lemma {:induction false} BacklogAt(observations: seq<Obs>, processed: set<nat>, i: nat)
    requires i < |observations| && observations[i].id !in processed
    ensures |WaitingAmong(observations, processed, i)| < |Backlog(observations, processed)|
    ensures Backlog(observations, processed)[|WaitingAmong(observations, processed, i)|] == observations[i]
  {
    var front := observations[..|observations| - 1];
    if i < |front| {
      BacklogAt(front, processed, i);
      assert WaitingAmong(front, processed, i) == WaitingAmong(observations, processed, i);
    } else {
      BacklogSize(front, processed);
      assert WaitingAmong(front, processed, |front|) == WaitingAmong(observations, processed, i);
    }
  }

  lemma WaitingPush(front: seq<Obs>, processed: set<nat>, o: Obs)
    ensures WaitingAmong(front + [o], processed, |front| + 1)
         == WaitingAmong(front, processed, |front|) + if o.id in processed then {} else {|front|}
  {
  }

  lemma {:induction false} BacklogSize(observations: seq<Obs>, processed: set<nat>)
    ensures |WaitingAmong(observations, processed, |observations|)| == |Backlog(observations, processed)|
  {
    if observations == [] {
      assert WaitingAmong(observations, processed, 0) == {};
    } else {
      var front, o := observations[..|observations| - 1], observations[|observations| - 1];
      BacklogSize(front, processed);
      WaitingPush(front, processed, o);
      assert observations == front + [o] && |front| !in WaitingAmong(front, processed, |front|);
    }
  }

  /** An unprocessed observation is fetched exactly when fewer than the batch size come
      before it; it then has its place in the order of the observations. */
  lemma FetchesFirst(m: Memory, limit: nat, i: nat)
    requires DistinctIds(m.observations) && i < |m.observations| && m.observations[i].id !in m.processed
    ensures var fetched, k := Fetched(m.observations, m.processed, limit), |WaitingAmong(m.observations, m.processed, i)|;
      && (m.observations[i] in fetched <==> k < limit)
      && (k < limit ==> k < |fetched| && fetched[k] == m.observations[i])
  {
    var backlog, fetched := Backlog(m.observations, m.processed), Fetched(m.observations, m.processed, limit);
    var k := |WaitingAmong(m.observations, m.processed, i)|;
    BacklogAt(m.observations, m.processed, i);
    BacklogDistinct(m.observations, m.processed);
    if j :| 0 <= j < |fetched| && fetched[j] == m.observations[i] { assert backlog[j].id == backlog[k].id; }
  }

  /** Nothing else is fetched. */
  lemma FetchesOnlyWaiting(m: Memory, limit: nat, o: Obs)
    requires o in Fetched(m.observations, m.processed, limit)
    ensures o in m.observations && o.id !in m.processed
  {
    BacklogMembers(m.observations, m.processed, o);
  }

  // ----- how they are read -----

  /** The triple an observation is read with: the refined one, if there is one. */
  ghost predicate ReadAs(raw: Obs, env: Env, o: Obs) {
    && o.id == raw.id && o.content == raw.content && o.observedAt == raw.observedAt && o.anchor == raw.anchor
    && if raw.id in env.refined
       then o.subject == Normalize(env.refined[raw.id].subject, env.lower)
         && o.relation == env.refined[raw.id].relation && o.obj == env.refined[raw.id].obj
       else o.subject == Normalize(raw.subject, env.lower) && o.relation == raw.relation && o.obj == raw.obj
  }

  /** Every fetched observation is read in its place, its subject in canonical form, and
      grouped by subject and predicate. */
  lemma ReadMeans(m: Memory, env: Env, limit: nat, i: nat)
    requires i < |Fetched(m.observations, m.processed, limit)|
    ensures i < |Read(m, env, limit)| && |Read(m, env, limit)| == |Fetched(m.observations, m.processed, limit)|
    ensures var o := Read(m, env, limit)[i];
      ReadAs(Fetched(m.observations, m.processed, limit)[i], env, o) && KeyOf(o) == (o.subject, o.relation)
  {
    assert |NodeIds(Read(m, env, limit))| == |NodeIds(Fetched(m.observations, m.processed, limit))|;
  }

  /** Member `j` of a group, and its vote. */
  lemma {:induction false} GroupMember(obs: seq<Obs>, k: Key, j: nat) returns (i: nat)
    requires j < |GroupOf(obs, k).contributing|
    ensures i < |obs| && KeyOf(obs[i]) == k && obs[i].id == GroupOf(obs, k).contributing[j]
    ensures |GroupOf(obs, k).votes| == |GroupOf(obs, k).contributing|
    ensures GroupOf(obs, k).votes[j] == ObjectVote(obs[i].obj, obs[i].observedAt, obs[i].content)
  {
    VotePerContributor(obs, k);
    VotePerContributor(obs[..|obs| - 1], k);
    var front := GroupOf(obs[..|obs| - 1], k);
    if j < |front.contributing| {
      i := GroupMember(obs[..|obs| - 1], k, j);
    } else {
      i := |obs| - 1;
    }
  }

  /** The group dates its fact by its earliest anchor, or by its earliest observation
      when it has no anchor. */
  lemma PlanDate(obs: seq<Obs>, found: map<Key, seq<Prior>>, env: Env, plan: Plan)
    requires Planned(obs, found, env, plan)
    ensures if exists i :: 0 <= i < |obs| && TimeIn(obs[i], plan.key, true).Some?
      then Earliest(obs, plan.key, true, Some(plan.firstObserved))
      else Earliest(obs, plan.key, false, Some(plan.firstObserved))
  {
    GroupTimes(obs, plan.key);
    VotePerContributor(obs, plan.key);
  }

  // ----- what becomes of a new fact -----

  ghost predicate DatedBy(tr: Trace, id: string, lo: int) {
    && (forall i :: 0 <= i < |tr.plans| && Own(tr, i) == id ==> lo <= tr.plans[i].firstObserved)
    && exists i :: 0 <= i < |tr.plans| && Own(tr, i) == id && tr.plans[i].firstObserved == lo
  }

  lemma RowsDate(tr: Trace, id: string)
    requires Merged(Rows(tr.plans), id).Some?
    ensures DatedBy(tr, id, Merged(Rows(tr.plans), id).value.observedAt)
  {
    var rows := Rows(tr.plans);
    NoneEarlier(rows, id);
    var i := OneAsEarly(rows, id);
    assert Own(tr, i) == id && tr.plans[i].firstObserved == rows[i].observedAt;
    forall k | 0 <= k < |tr.plans| && Own(tr, k) == id ensures rows[i].observedAt <= tr.plans[k].firstObserved { assert rows[k].Id() == id; }
  }

  /** A fact that a cycle adds is open and indefinite, carries subject, predicate and
      canonical object of the first plan with its id, and starts at the earliest date of
      the plans that share it. */
  lemma NewFactMeans(m: Memory, env: Env, tr: Trace, after: Store, id: string) returns (n: nat)
    requires Looked(m, env, tr) && PlansGroups(env, tr) && Upserts(m, tr) && Closes(env, tr, after)
    requires id in after.facts && id !in m.store.facts
    ensures n < |tr.plans| && Own(tr, n) == id && forall i :: 0 <= i < n ==> Own(tr, i) != id
    ensures var f := after.facts[id];
      && FactKey(f) == tr.plans[n].key && f.obj == tr.plans[n].canonical
      && f.open && !f.definite && DatedBy(tr, id, f.lo)
  {
    ClosingMeans(env, tr, after, id);
    n := CreatedFromPlan(m, tr, id);
    NoneBefore(Rows(tr.plans), id, n);
    IsCreated(m, tr, id);
    RowsDate(tr, id);
    if id in tr.closed {
      if env.lookupFails {
        assert ClosedBy(tr.plans, tr.ups, env, id, tr.closed[id]);
        forall i | 0 <= i < |tr.plans| ensures !VotesOut(tr.plans[i], tr.ups[i], tr.closed[id]) { NoPriorsNoVote(env, tr, i, tr.closed[id]); }
      } else {
        var i := CloserOf(m, env, tr, id);
      }
    }
  }

  lemma IsCreated(m: Memory, tr: Trace, id: string)
    requires Upserts(m, tr) && id in tr.mid.facts && id !in m.store.facts
    ensures Merged(Rows(tr.plans), id).Some?
    ensures tr.mid.facts[id] == Create(tr.mid.facts[id].node, Merged(Rows(tr.plans), id).value)
  {
    var rows := Rows(tr.plans);
    assert id in Unseen(m.store, rows);
    var j :| 0 <= j < |Unseen(m.store, rows)| && Unseen(m.store, rows)[j] == id;
    assert CreatedAs(rows, id, m.store.nextId + j, tr.mid.facts);
  }

  lemma {:induction false} NoneBefore(rows: seq<Row>, id: string, n: nat)
    requires FirstIndex(rows, id) == Some(n)
    ensures forall i :: 0 <= i < n ==> rows[i].Id() != id
  {
    var front := rows[..|rows| - 1];
    if FirstIndex(front, id).Some? {
      NoneBefore(front, id, n);
    } else {
      NowhereBefore(front, id);
    }
  }

  lemma {:induction false} NowhereBefore(rows: seq<Row>, id: string)
    requires FirstIndex(rows, id).None?
    ensures forall i :: 0 <= i < |rows| ==> rows[i].Id() != id
  {
    if rows != [] { NowhereBefore(rows[..|rows| - 1], id); }
  }

  /** A fact that was there keeps its node, text and start, is never made uncertain, and
      grows by one for every edge it gets. */
  lemma OldFactMeans(m: Memory, env: Env, limit: nat, tr: Trace, after: Memory, id: string)
    requires ValidMemory(m) && IsCycle(m, env, limit, tr, after) && id in m.store.facts
    ensures id in after.store.facts
    ensures var f, g := m.store.facts[id], after.store.facts[id];
      && g == f.(count := g.count, definite := g.definite, open := g.open)
      && g.count == f.count + FactEdges(after.edges, f.node) - FactEdges(m.edges, f.node)
      && (f.definite ==> g.definite) && (g.open ==> f.open)
  {
    CycleKeepsLedger(m, env, limit, tr, after);
    KnownAreReinforced(m, tr, id);
    ClosingMeans(env, tr, after.store, id);
    if id in tr.closed { ClosingUndoesUpgrade(m, env, tr, after.store, id); }
  }

  lemma ClosedUnlessFailed(m: Memory, env: Env, tr: Trace, i: nat, id: string)
    requires !env.lookupFails && Looked(m, env, tr) && PlansGroups(env, tr) && i < |tr.plans| == |tr.ups|
    requires ClosedAre(tr.plans, tr.ups, env, tr.closed) && id in m.store.facts && Outvoted(m, env, tr, i, id)
    ensures id in tr.closed <==> env.outcome(m.store.facts[id].node) != Failed
  {
    OutvotedExactly(m, env, tr, i, PriorOf(id, m.store.facts[id]));
    if id in tr.closed {
      assert ClosedBy(tr.plans, tr.ups, env, id, tr.closed[id]);
      var j := CloserOf(m, env, tr, id);
    }
  }

  /** Whatever fails: a fact is open after a cycle exactly when it was before and no plan
      that found it voted it out with a write that went through, be it followed by a
      failure. */
  lemma OpenAfterExactly(m: Memory, env: Env, tr: Trace, after: Store, id: string)
    requires Looked(m, env, tr) && PlansGroups(env, tr) && Upserts(m, tr) && Closes(env, tr, after) && id in m.store.facts
    ensures id in after.facts
    ensures after.facts[id].open <==>
      && m.store.facts[id].open
      && (env.lookupFails || env.outcome(m.store.facts[id].node) == Failed || forall i :: 0 <= i < |tr.plans| ==> !Outvoted(m, env, tr, i, id))
  {
    KnownAreReinforced(m, tr, id);
    ClosingMeans(env, tr, after, id);
    if env.lookupFails {
      if id in tr.closed {
        assert ClosedBy(tr.plans, tr.ups, env, id, tr.closed[id]);
        forall i | 0 <= i < |tr.plans| ensures !VotesOut(tr.plans[i], tr.ups[i], tr.closed[id]) { NoPriorsNoVote(env, tr, i, tr.closed[id]); }
      }
    } else if i :| 0 <= i < |tr.plans| && Outvoted(m, env, tr, i, id) {
      ClosedUnlessFailed(m, env, tr, i, id);
    } else if id in tr.closed {
      var j := CloserOf(m, env, tr, id);
    }
  }
}
