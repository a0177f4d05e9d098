/**
 The consolidation cycle (`run_cycle_with` in crates/uniko-memory/src/consolidation.rs):
 what a completed cycle does to the stored observations, facts and edges, and the
 method that does it.

 What the cycle cannot control is an `Env`: refined triples, lower-casing, embeddings, whether the
 open-fact lookup fails, the clock, how each invalidation ends and what drift accounting
 answers.
 */
module Consolidation {
  import opened Wrappers
  import opened CanonicalText
  import opened Voting
  import opened Contradiction
  import opened Grouping
  import opened FactStore
  import opened Evidence
  import opened Ledger
  import opened Planning
  import Clustering

  const DEFAULT_BATCH_SIZE := 500

  datatype Triple = Triple(subject: string, relation: string, obj: Option<string>)

  /** An invalidation writes the closed interval, then an edge; either write can fail. */
  datatype Outcome = Done | Failed | ClosedThenFailed

  datatype Env = Env(refined: map<nat, Triple>, lower: char -> string, embeddings: map<string, Clustering.Vec>, sim: Clustering.Similarity,
                     startedAt: int, lookupFails: bool, clock: nat -> int, outcome: nat -> Outcome, drift: nat -> bool)

  datatype Memory = Memory(observations: seq<Obs>, processed: set<nat>, edges: seq<Edge>, store: Store)

  datatype Stats = Stats(observationsProcessed: nat, factsCreated: nat, factsReinforced: nat, factsInvalidated: nat, driftAlerts: nat)

  /** The intermediate results of a cycle. */
  datatype Trace = Trace(obs: seq<Obs>, found: map<Key, seq<Prior>>, plans: seq<Plan>, ups: seq<FactUpsert>, mid: Store, closed: map<string, Prior>)

  function Limit(batchSize: Option<int>): nat {
    match batchSize case None => DEFAULT_BATCH_SIZE case Some(b) => if b > 1 then b else 1
  }

  function Refine(o: Obs, refined: map<nat, Triple>): Obs {
    if o.id in refined then o.(subject := refined[o.id].subject, relation := refined[o.id].relation, obj := refined[o.id].obj) else o
  }

  function RefineAll(obs: seq<Obs>, refined: map<nat, Triple>): (r: seq<Obs>)
    ensures NodeIds(r) == NodeIds(obs)
  {
    seq(|obs|, i requires 0 <= i < |obs| => Refine(obs[i], refined))
  }

  /** The fetched observations, refined, with their subjects in canonical form. */
  ghost function Read(m: Memory, env: Env, limit: nat): (r: seq<Obs>)
    ensures NodeIds(r) == NodeIds(Fetched(m.observations, m.processed, limit))
  {
    CanonicalAll(RefineAll(Fetched(m.observations, m.processed, limit), env.refined), env.lower)
  }

  function PlanKeys(plans: seq<Plan>): seq<Key> {
    seq(|plans|, i requires 0 <= i < |plans| => plans[i].key)
  }

  function Rows(plans: seq<Plan>): seq<Row> {
    seq(|plans|, i requires 0 <= i < |plans| => plans[i].ToRow())
  }

  function Parts(plans: seq<Plan>): seq<seq<nat>> {
    seq(|plans|, i requires 0 <= i < |plans| => plans[i].contributing)
  }

  ghost function Votes(obs: seq<Obs>, k: Key): seq<ObjectVote> {
    GroupOf(obs, k).votes
  }

  ghost function ClustersOf(obs: seq<Obs>, found: map<Key, seq<Prior>>, env: Env, k: Key): map<string, nat> {
    ClustersFor(Votes(obs, k), PriorsAt(found, k), env.embeddings, env.sim)
  }

  ghost predicate Planned(obs: seq<Obs>, found: map<Key, seq<Prior>>, env: Env, plan: Plan) {
    plan.key in Keys(obs) && IsPlan(plan, plan.key, GroupOf(obs, plan.key), PriorsAt(found, plan.key), ClustersOf(obs, found, env, plan.key))
  }

  /** One plan per group, in any order. */
  ghost predicate PlansFor(obs: seq<Obs>, found: map<Key, seq<Prior>>, env: Env, plans: seq<Plan>) {
    && DistinctKeys(PlanKeys(plans))
    && (forall k :: k in PlanKeys(plans) <==> k in Keys(obs))
    && (forall i :: 0 <= i < |plans| ==> Planned(obs, found, env, plans[i]))
  }

  /** The plan votes fact `id` out: it is stale, and it is not the plan's own fact. */
  ghost predicate VotesOut(plan: Plan, up: FactUpsert, p: Prior) {
    p in plan.stale && p.node != up.node
  }

  /** `closed` are the facts voted out whose interval was written, as they were read. */
  ghost predicate ClosedAre(plans: seq<Plan>, ups: seq<FactUpsert>, env: Env, closed: map<string, Prior>)
    requires |plans| == |ups|
  {
    && (forall i, p :: 0 <= i < |plans| && VotesOut(plans[i], ups[i], p) && env.outcome(p.node) != Failed ==> p.fid in closed)
    && (forall id :: id in closed ==> ClosedBy(plans, ups, env, id, closed[id]))
  }

  ghost predicate ClosedBy(plans: seq<Plan>, ups: seq<FactUpsert>, env: Env, id: string, p: Prior)
    requires |plans| == |ups|
  {
    p.fid == id && env.outcome(p.node) != Failed && exists i :: 0 <= i < |plans| && VotesOut(plans[i], ups[i], p)
  }

  /** A closed fact gets back the start and certainty it was read with, and an end. */
  function Shut(f: Fact, closed: map<string, Prior>, id: string): Fact {
    if id in closed then f.(lo := closed[id].lo, definite := closed[id].definite, open := false) else f
  }

  /** Invalidations touch the validity of facts and nothing else. */
  ghost predicate OnlyClosed(before: map<string, Fact>, closed: map<string, Prior>, after: map<string, Fact>) {
    && after.Keys == before.Keys
    && forall id :: id in before ==> after[id] == Shut(before[id], closed, id)
  }

  /** Some fact that plan `i` votes out starts no earlier than the clock then reads. */
  ghost predicate Overdue(env: Env, tr: Trace) {
    && |tr.ups| == |tr.plans|
    && exists i, p :: 0 <= i < |tr.plans| && VotesOut(tr.plans[i], tr.ups[i], p) && env.clock(i) <= p.lo
  }

  ghost predicate Looked(m: Memory, env: Env, tr: Trace) {
    if env.lookupFails then tr.found == map[] else Found(m.store.facts, m.store.facts.Keys, Keys(tr.obs), tr.found)
  }

  ghost predicate PlansGroups(env: Env, tr: Trace) {
    PlansFor(tr.obs, tr.found, env, tr.plans)
  }

  ghost predicate Upserts(m: Memory, tr: Trace) {
    && IsBatch(m.store, Rows(tr.plans), tr.mid)
    && |tr.ups| == |tr.plans|
    && (forall i :: 0 <= i < |tr.ups| ==> Reports(Rows(tr.plans), i, m.store.facts.Keys, tr.mid.facts, tr.ups[i]))
  }

  ghost predicate Closes(env: Env, tr: Trace, after: Store) {
    && |tr.ups| == |tr.plans|
    && ClosedAre(tr.plans, tr.ups, env, tr.closed)
    && OnlyClosed(tr.mid.facts, tr.closed, after.facts) && after.nextId == tr.mid.nextId
  }

  /** A cycle up to its invalidations. */
  ghost predicate Started(m: Memory, env: Env, limit: nat, tr: Trace) {
    && tr.obs == Read(m, env, limit)
    && Looked(m, env, tr) && PlansGroups(env, tr) && Upserts(m, tr)
  }

  /** A completed cycle. */
  ghost predicate IsCycle(m: Memory, env: Env, limit: nat, tr: Trace, after: Memory) {
    && Started(m, env, limit, tr) && !Overdue(env, tr) && Closes(env, tr, after.store)
    && after.observations == m.observations
    && after.edges == m.edges + Stars(tr.ups, Parts(tr.plans))
    && after.processed == m.processed + Marked(tr.obs)
  }

  /** What a cycle leaves that panics while it invalidates: facts and edges are written,
      and nothing is marked. */
  ghost predicate Abandoned(m: Memory, env: Env, limit: nat, tr: Trace, after: Memory) {
    && Started(m, env, limit, tr) && Overdue(env, tr)
    && OnlyClosed(tr.mid.facts, tr.closed, after.store.facts) && after.store.nextId == tr.mid.nextId
    && after.observations == m.observations && after.processed == m.processed
    && after.edges == m.edges + Stars(tr.ups, Parts(tr.plans))
  }

  ghost predicate ValidMemory(m: Memory) {
    DistinctIds(m.observations) && Sound(m.processed, m.edges, m.store)
  }

  // ----- evidence -----

  lemma PartsAreGroups(m: Memory, env: Env, tr: Trace)
    requires PlansGroups(env, tr) && Upserts(m, tr)
    ensures Parts(tr.plans) == Contributing(tr.obs, PlanKeys(tr.plans))
    ensures Results(Rows(tr.plans), Parts(tr.plans), tr.ups, tr.mid)
  {
    forall i | 0 <= i < |tr.plans|
      ensures Parts(tr.plans)[i] == Contributing(tr.obs, PlanKeys(tr.plans))[i]
      ensures AnswersAt(Rows(tr.plans), Parts(tr.plans), tr.ups, tr.mid.facts, i)
    {
      assert Planned(tr.obs, tr.found, env, tr.plans[i]);
      assert Reports(Rows(tr.plans), i, m.store.facts.Keys, tr.mid.facts, tr.ups[i]);
    }
  }

  lemma FetchedAreNew(m: Memory, env: Env, limit: nat, tr: Trace)
    requires tr.obs == Read(m, env, limit) && DistinctIds(m.observations)
    ensures DistinctIds(tr.obs) && forall id :: id in NodeIds(tr.obs) ==> id !in m.processed
  {
    var fetched := Fetched(m.observations, m.processed, limit);
    BacklogDistinct(m.observations, m.processed);
    forall i, j | 0 <= i < j < |tr.obs| ensures tr.obs[i].id != tr.obs[j].id {
      assert NodeIds(tr.obs)[i] == NodeIds(fetched)[i] && NodeIds(tr.obs)[j] == NodeIds(fetched)[j];
    }
    forall id | id in NodeIds(tr.obs) ensures id !in m.processed {
      var i :| 0 <= i < |NodeIds(fetched)| && NodeIds(fetched)[i] == id;
      BacklogMembers(m.observations, m.processed, fetched[i]);
    }
  }

  lemma ClosingKeepsSound(processed: set<nat>, edges: seq<Edge>, mid: Store, closed: map<string, Prior>, after: Store)
    requires Sound(processed, edges, mid) && OnlyClosed(mid.facts, closed, after.facts) && after.nextId == mid.nextId
    ensures Sound(processed, edges, after)
  {
    forall id | id in after.facts ensures after.facts[id] == Shut(mid.facts[id], closed, id) {}
  }

  /** Every completed cycle keeps the ledger: each processed observation has one edge,
      and the count of every fact is the number of its edges. */
  lemma CycleKeepsLedger(m: Memory, env: Env, limit: nat, tr: Trace, after: Memory)
    requires ValidMemory(m) && IsCycle(m, env, limit, tr, after)
    ensures ValidMemory(after)
  {
    PartsAreGroups(m, env, tr);
    FetchedAreNew(m, env, limit, tr);
    CycleKeepsSound(m.processed, m.edges, m.store, tr.obs, PlanKeys(tr.plans), Rows(tr.plans), tr.ups, tr.mid);
    ClosingKeepsSound(after.processed, after.edges, tr.mid, tr.closed, after.store);
  }

  /** Each fetched observation ends up with one edge. */
  lemma WiredOnce(m: Memory, env: Env, limit: nat, tr: Trace, after: Memory, o: Obs)
    requires ValidMemory(m) && IsCycle(m, env, limit, tr, after) && o in tr.obs
    ensures ObsEdges(after.edges, o.id) == 1
  {
    CycleKeepsLedger(m, env, limit, tr, after);
    HasId(tr.obs, o);
  }

  lemma HasId(obs: seq<Obs>, o: Obs)
    requires o in obs
    ensures o.id in Marked(obs)
  {
    var j :| 0 <= j < |obs| && obs[j] == o;
    assert NodeIds(obs)[j] == o.id;
  }

  ghost predicate LeadsToGroup(tr: Trace, o: Obs, edges: seq<Edge>) {
    |tr.ups| == |tr.plans| && exists i :: 0 <= i < |tr.plans| && tr.plans[i].key == KeyOf(o) && Edge(tr.ups[i].node, o.id) in edges
  }

  /** It leads to the fact of the group the observation falls in. */
  lemma WiredToItsGroup(m: Memory, env: Env, limit: nat, tr: Trace, after: Memory, o: Obs)
    requires ValidMemory(m) && IsCycle(m, env, limit, tr, after) && o in tr.obs
    ensures LeadsToGroup(tr, o, after.edges)
  {
    PartsAreGroups(m, env, tr);
    FetchedAreNew(m, env, limit, tr);
    var i := StarOf(tr, o);
  }

  lemma StarOf(tr: Trace, o: Obs) returns (i: nat)
    requires DistinctIds(tr.obs) && o in tr.obs && |tr.ups| == |tr.plans|
    requires DistinctKeys(PlanKeys(tr.plans)) && forall k :: k in Keys(tr.obs) ==> k in PlanKeys(tr.plans)
    requires Parts(tr.plans) == Contributing(tr.obs, PlanKeys(tr.plans))
    ensures i < |tr.plans| && tr.plans[i].key == KeyOf(o) && Edge(tr.ups[i].node, o.id) in Stars(tr.ups, Parts(tr.plans))
  {
    var j :| 0 <= j < |tr.obs| && tr.obs[j] == o;
    assert NodeIds(tr.obs)[j] == o.id;
    CycleWiresOnce(tr.obs, PlanKeys(tr.plans), tr.ups, o.id);
    var e := ThereIsEdge(Stars(tr.ups, Parts(tr.plans)), o.id);
    var n;
    i, n := EdgeToOwnGroup(tr.obs, PlanKeys(tr.plans), tr.ups, e);
    assert n == j;
  }

  lemma {:induction false} ThereIsEdge(edges: seq<Edge>, obs: nat) returns (e: Edge)
    requires ObsEdges(edges, obs) > 0
    ensures e in edges && e.obs == obs
  {
    if edges[|edges| - 1].obs == obs {
      e := edges[|edges| - 1];
    } else {
      e := ThereIsEdge(edges[..|edges| - 1], obs);
    }
  }

  // ----- runs -----

  /** What happens between two cycles: observations arrive, of any times. */
  ghost predicate Arrives(m: Memory, next: Memory) {
    && DistinctIds(next.observations)
    && AsSet(m.observations) <= AsSet(next.observations)
    && (forall o :: o in next.observations && o !in m.observations ==> o.id !in m.processed)
    && next.processed == m.processed && next.edges == m.edges && next.store == m.store
  }

  /** Completed cycles, and what is in the memory when the next one starts. */
  datatype Run = Start(m: Memory) | More(run: Run, env: Env, tr: Trace, after: Memory, next: Memory)

  function First(r: Run): Memory {
    match r case Start(m) => m case More(run, _, _, _, _) => First(run)
  }

  function Last(r: Run): Memory {
    match r case Start(m) => m case More(_, _, _, _, next) => next
  }

  function Cycles(r: Run): nat {
    match r case Start(_) => 0 case More(run, _, _, _, _) => Cycles(run) + 1
  }

  /** How many observations the cycles have room for. */
  function Room(r: Run, limit: nat): (n: nat)
    ensures n == Cycles(r) * limit
  {
    match r
    case Start(_) => 0
    case More(run, _, _, _, _) =>
      OneMoreBatch(Cycles(run), limit);
      Room(run, limit) + limit
  }

  lemma OneMoreBatch(k: nat, limit: nat)
    ensures (k + 1) * limit == k * limit + limit
  {
  }

  /** Any run of completed cycles with the same batch size. */
  ghost predicate CycleRun(r: Run, limit: nat) {
    match r
    case Start(m) => ValidMemory(m)
    case More(run, env, tr, after, next) => CycleRun(run, limit) && IsCycle(Last(run), env, limit, tr, after) && Arrives(after, next)
  }

  ghost function AsSet(obs: seq<Obs>): set<Obs> {
    set o | o in obs
  }

  lemma {:induction false} SizeAsSet(obs: seq<Obs>)
    requires DistinctIds(obs)
    ensures |AsSet(obs)| == |obs|
  {
    if obs != [] {
      var front, o := obs[..|obs| - 1], obs[|obs| - 1];
      assert obs == front + [o];
      SizeAsSet(front);
      assert AsSet(obs) == AsSet(front) + {o};
    }
  }

  function Waiting(m: Memory): nat {
    |Backlog(m.observations, m.processed)|
  }

  lemma BacklogAsSet(observations: seq<Obs>, processed: set<nat>)
    requires DistinctIds(observations)
    ensures |Backlog(observations, processed)| == |set o | o in AsSet(observations) && o.id !in processed|
  {
    var b := Backlog(observations, processed);
    BacklogDistinct(observations, processed);
    SizeAsSet(b);
    forall o ensures o in b <==> o in observations && o.id !in processed { BacklogMembers(observations, processed, o); }
    assert AsSet(b) == set o | o in AsSet(observations) && o.id !in processed;
  }

  lemma ArrivalsWait(m: Memory, next: Memory)
    requires DistinctIds(m.observations) && Arrives(m, next)
    ensures Waiting(next) + |m.observations| == Waiting(m) + |next.observations|
  {
    BacklogAsSet(m.observations, m.processed);
    BacklogAsSet(next.observations, next.processed);
    SizeAsSet(m.observations);
    SizeAsSet(next.observations);
    var a, b := AsSet(m.observations), AsSet(next.observations);
    var waiting := set o | o in a && o.id !in m.processed;
    assert (set o | o in b && o.id !in m.processed) == waiting + (b - a);
  }

  lemma CycleShortens(m: Memory, env: Env, limit: nat, tr: Trace, after: Memory)
    requires ValidMemory(m) && IsCycle(m, env, limit, tr, after)
    ensures Waiting(after) == if Waiting(m) >= limit then Waiting(m) - limit else 0
  {
    MarkingShortens(m.observations, m.processed, FetchSize(m.observations, m.processed, limit));
    assert Marked(tr.obs) == Marked(Fetched(m.observations, m.processed, limit));
  }

  /** The memory after a run: the ledger is kept, and the backlog is shorter by up to the
      batch size for each cycle, save what arrived. */
  ghost predicate AfterCycles(first: Memory, k: nat, limit: nat, last: Memory) {
    && ValidMemory(last) && |first.observations| <= |last.observations|
    && Left(Waiting(first), k, limit) <= Waiting(last) <= Left(Waiting(first), k, limit) + |last.observations| - |first.observations|
  }

  lemma OneMoreCycle(first: Memory, k: nat, m: Memory, env: Env, limit: nat, tr: Trace, after: Memory, next: Memory)
    requires AfterCycles(first, k, limit, m) && IsCycle(m, env, limit, tr, after) && Arrives(after, next)
    ensures AfterCycles(first, k + 1, limit, next)
  {
    CycleKeepsLedger(m, env, limit, tr, after);
    CycleShortens(m, env, limit, tr, after);
    ArrivalsWait(after, next);
    SizeAsSet(after.observations);
    SizeAsSet(next.observations);
    Subset(AsSet(after.observations), AsSet(next.observations));
    LeftStep(Waiting(first), k, limit);
  }

  lemma Subset<T>(a: set<T>, b: set<T>)
    requires a <= b
    ensures |a| <= |b|
  {
    assert b == a + (b - a);
  }

  /** Every run keeps the ledger, and takes the batch size off the backlog each time: all
      of it as long as nothing arrives. */
  lemma {:induction false} RunKeepsLedger(r: Run, limit: nat)
    requires CycleRun(r, limit)
    ensures AfterCycles(First(r), Cycles(r), limit, Last(r))
  {
    match r
    case Start(_) =>
    case More(run, env, tr, after, next) =>
      RunKeepsLedger(run, limit);
      OneMoreCycle(First(run), Cycles(run), Last(run), env, limit, tr, after, next);
  }

  lemma {:induction false} NothingIsLost(r: Run, limit: nat)
    requires CycleRun(r, limit)
    ensures AsSet(First(r).observations) <= AsSet(Last(r).observations) && First(r).processed <= Last(r).processed
  {
    match r
    case Start(_) =>
    case More(run, _, _, _, _) => NothingIsLost(run, limit);
  }

  /** While an observation is passed over, every cycle fetches a full batch. */
  lemma {:induction false} PassedOver(r: Run, limit: nat, o: Obs)
    requires CycleRun(r, limit) && o in AsSet(First(r).observations) && o.id !in Last(r).processed
    ensures Room(r, limit) + Waiting(Last(r)) + |First(r).observations| == Waiting(First(r)) + |Last(r).observations|
  {
    match r
    case Start(_) =>
    case More(run, env, tr, after, next) =>
      NothingIsLost(run, limit);
      RunKeepsLedger(run, limit);
      PassedOverOnce(Last(run), env, limit, tr, after, next, o);
      PassedOver(run, limit, o);
  }

  lemma PassedOverOnce(m: Memory, env: Env, limit: nat, tr: Trace, after: Memory, next: Memory, o: Obs)
    requires ValidMemory(m) && IsCycle(m, env, limit, tr, after) && Arrives(after, next)
    requires o in AsSet(m.observations) && o.id !in next.processed
    ensures Waiting(next) + limit + |m.observations| == Waiting(m) + |next.observations| && o.id !in m.processed
  {
    CycleShortens(m, env, limit, tr, after);
    BacklogMembers(m.observations, m.processed, o);
    BacklogMembers(after.observations, after.processed, o);
    ArrivalsWait(after, next);
  }

  /** Enough cycles for the backlog and for all that arrives account for everything: each
      observation that was there then supports one fact. */
  lemma DrainedRunAccountsForAll(r: Run, limit: nat, o: Obs)
    requires CycleRun(r, limit) && o in First(r).observations
    requires Room(r, limit) >= Waiting(First(r)) + |Last(r).observations| - |First(r).observations|
    ensures o.id in Last(r).processed && ObsEdges(Last(r).edges, o.id) == 1
  {
    RunKeepsLedger(r, limit);
    NothingIsLost(r, limit);
    if o.id !in Last(r).processed {
      assert o in AsSet(First(r).observations) && o in AsSet(Last(r).observations);
      PassedOver(r, limit, o);
      BacklogMembers(Last(r).observations, Last(r).processed, o);
    }
  }

  /** Some cycle of the run fetched observation `id`, and `edges` has an edge to it from
      the result of the plan of its group. */
  ghost predicate WiredDuring(r: Run, id: nat, edges: seq<Edge>) {
    match r
    case Start(_) => false
    case More(run, _, tr, _, _) => WiredDuring(run, id, edges) || exists o :: o in tr.obs && o.id == id && LeadsToGroup(tr, o, edges)
  }

  lemma {:induction false} WiredStays(r: Run, id: nat, edges: seq<Edge>, more: seq<Edge>)
    requires WiredDuring(r, id, edges)
    ensures WiredDuring(r, id, edges + more)
  {
    match r
    case More(run, _, tr, _, _) =>
      if WiredDuring(run, id, edges) {
        WiredStays(run, id, edges, more);
      } else {
        var o :| o in tr.obs && o.id == id && LeadsToGroup(tr, o, edges);
        assert LeadsToGroup(tr, o, edges + more);
      }
  }

  lemma WiredNow(m: Memory, env: Env, limit: nat, tr: Trace, after: Memory, id: nat) returns (o: Obs)
    requires ValidMemory(m) && IsCycle(m, env, limit, tr, after) && id in after.processed && id !in m.processed
    ensures o in tr.obs && o.id == id && LeadsToGroup(tr, o, after.edges)
  {
    var j :| 0 <= j < |NodeIds(tr.obs)| && NodeIds(tr.obs)[j] == id;
    o := tr.obs[j];
    WiredToItsGroup(m, env, limit, tr, after, o);
  }

  /** Over a whole run: each observation that it processed has one edge in the end, and
      it leads from the fact of the group the observation fell in. */
  lemma {:induction false} RunWiresToGroups(r: Run, limit: nat, id: nat)
    requires CycleRun(r, limit) && id in Last(r).processed && id !in First(r).processed
    ensures WiredDuring(r, id, Last(r).edges) && ObsEdges(Last(r).edges, id) == 1
  {
    RunKeepsLedger(r, limit);
    match r
    case More(run, env, tr, after, next) =>
      RunKeepsLedger(run, limit);
      if id in Last(run).processed {
        RunWiresToGroups(run, limit, id);
        WiredStays(run, id, Last(run).edges, Stars(tr.ups, Parts(tr.plans)));
      } else {
        var o := WiredNow(Last(run), env, limit, tr, after, id);
      }
  }
}
