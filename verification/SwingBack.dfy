/**
 The inputs on which a consolidation cycle fails its reader: a memory with one closed
 fact, one open fact with another object, and one new observation for the closed one.
 The cycle leaves the subject and predicate without an open fact, or panics when the
 open fact does not start before now.
 */
module SwingBack {
  import opened Wrappers
  import opened CanonicalText
  import opened Voting
  import opened Contradiction
  import opened Grouping
  import opened FactStore
  import opened Evidence
  import opened Ledger
  import opened Planning
  import opened Consolidation
  import opened OpenFacts
  import opened CycleStats
  import opened KnowledgeBase
  import Clustering

  const KEY: Key := ("s", "p")
  const NEW_OBS := Obs(2, "s", "p", Some("a"), "", 0, None)
  const CLOSED_ID := "s|p|a"
  const OPEN_ID := "s|p|b"
  const CLOSED_FACT := Fact(0, "s", "p", Some("a"), 1, 0, false, false)
  const OPEN_FACT := Fact(1, "s", "p", Some("b"), 1, 0, false, true)
  const FACTS: map<string, Fact> := map[CLOSED_ID := CLOSED_FACT, OPEN_ID := OPEN_FACT]
  const EDGES := [Edge(0, 0), Edge(1, 1)]
  const MEMORY := Memory([NEW_OBS], {0, 1}, EDGES, Store(FACTS, 2))

  lemma OneEdge(e: Edge, n: nat)
    ensures FactEdges([e], n) == (if e.fact == n then 1 else 0) && ObsEdges([e], n) == if e.obs == n then 1 else 0
  {
    assert [e][..0] == [];
  }

  lemma EdgesOf(n: nat)
    ensures FactEdges(EDGES, n) == (if n < 2 then 1 else 0) && ObsEdges(EDGES, n) == if n < 2 then 1 else 0
  {
    OneEdge(Edge(0, 0), n);
    OneEdge(Edge(1, 1), n);
    Append([Edge(0, 0)], [Edge(1, 1)], n);
    assert EDGES == [Edge(0, 0)] + [Edge(1, 1)];
  }

  lemma IdsOf()
    ensures FactId("s", "p", Some("a")) == CLOSED_ID && FactId("s", "p", Some("b")) == OPEN_ID
  {
    assert LowerAll("s") == "s" && LowerAll("p") == "p" && LowerAll("a") == "a" && LowerAll("b") == "b";
  }

  lemma MemoryIsValid()
    ensures ValidMemory(MEMORY)
  {
    IdsOf();
    forall n: nat ensures FactEdges(EDGES, n) == (if n < 2 then 1 else 0) && ObsEdges(EDGES, n) == if n < 2 then 1 else 0 {
      EdgesOf(n);
    }
  }

  lemma Letters()
    ensures NormalizeObject("a") == "a" && NormalizeObject("b") == "b" && Trim("a", IsSpace) == "a"
  {
    TrimFixes("a", IsSpace);
    TrimFixes("b", IsSpace);
    assert LowerAll("a") == "a" && LowerAll("b") == "b";
  }

  lemma SubjectOfNew()
    ensures Normalize("s", AsciiLower) == "s"
  {
    TrimFixes("s", IsSpace);
    TrimFixes("s", IsPunct);
    assert Stripped("s") == "s";
    assert "s"[..0] == "";
    assert Squeeze("s", AsciiLower).out == "s";
  }

  /** Exact strings only, and nothing fails. */
  ghost predicate Plain(env: Env) {
    env.refined == map[] && env.lower == AsciiLower && env.embeddings == map[] && AllDone(env)
  }

  lemma FetchesOne()
    ensures Fetched(MEMORY.observations, MEMORY.processed, 1) == [NEW_OBS]
  {
    assert [NEW_OBS][..0] == [];
    assert Backlog([NEW_OBS], {0, 1}) == [NEW_OBS];
  }

  lemma GroupsOne()
    ensures Keys([NEW_OBS]) == {KEY} && Votes([NEW_OBS], KEY) == [VoteOf(NEW_OBS)]
  {
    var none: seq<Obs> := [];
    PushKeys(none, NEW_OBS);
    PushObs(none, NEW_OBS, KEY);
    assert none + [NEW_OBS] == [NEW_OBS];
    assert Keys(none) == {} && GroupOf(none, KEY) == EMPTY;
    assert EMPTY.votes + [VoteOf(NEW_OBS)] == [VoteOf(NEW_OBS)];
  }

  lemma OneObservation(env: Env, tr: Trace)
    requires Plain(env) && tr.obs == Read(MEMORY, env, 1)
    ensures tr.obs == [NEW_OBS]
  {
    FetchesOne();
    SubjectOfNew();
    assert RefineAll([NEW_OBS], env.refined) == [NEW_OBS];
    assert CanonicalAll([NEW_OBS], env.lower) == [NEW_OBS];
  }

  lemma OnePlan(env: Env, tr: Trace)
    requires tr.obs == [NEW_OBS] && PlansGroups(env, tr)
    ensures |tr.plans| == 1 && tr.plans[0].key == KEY
  {
    GroupsOne();
    DistinctLength(PlanKeys(tr.plans), Keys(tr.obs));
    assert PlanKeys(tr.plans)[0] in PlanKeys(tr.plans);
  }

  predicate Letter(text: string) { text == "a" || text == "b" }

  lemma LoneVote(v: ObjectVote, text: string, clusters: map<string, nat>)
    requires v.text == Some(text) && Letter(text) && Covered([v], clusters)
    ensures Total([v]) == 1 && text in clusters
  {
    Letters();
    assert [v][..0] == [];
    assert Speaks([v][0]);
  }

  /** A group of one vote takes its object. */
  lemma LoneVoteWins(env: Env, tr: Trace, i: nat, v: ObjectVote, text: string)
    requires PlansGroups(env, tr) && i < |tr.plans| && Votes(tr.obs, tr.plans[i].key) == [v]
    requires v.text == Some(text) && Letter(text)
    ensures tr.plans[i].canonical == Some(text)
  {
    Letters();
    var k, r := tr.plans[i].key, tr.plans[i].canonical;
    var clusters := ClustersOf(tr.obs, tr.found, env, k);
    assert Planned(tr.obs, tr.found, env, tr.plans[i]);
    VotesCovered([v], PriorsAt(tr.found, k), env.embeddings, env.sim);
    LoneVote(v, text, clusters);
    NoneExactlyWhenSilent([v], clusters, r);
    CanonicalIsAVote([v], clusters, r);
  }

  /** The plan is for the closed fact. */
  lemma PlanIsForClosed(env: Env, tr: Trace)
    requires tr.obs == [NEW_OBS] && PlansGroups(env, tr)
    ensures |tr.plans| == 1 && Own(tr, 0) == CLOSED_ID
  {
    OnePlan(env, tr);
    GroupsOne();
    IdsOf();
    LoneVoteWins(env, tr, 0, VoteOf(NEW_OBS), "a");
  }

  lemma OtherClusterIsStale(v: ObjectVote, text: string, other: string, clusters: map<string, nat>)
    requires v.text == Some(text) && Letter(text) && Letter(other) && Covered([v], clusters)
    requires text in clusters && (other in clusters ==> clusters[other] != clusters[text])
    ensures Stale(other, [v], clusters)
  {
    Letters();
    LoneVote(v, text, clusters);
    assert [v][..0] == [];
    assert AgreeCount([v], ClusterOf(other, clusters), clusters) == 0;
  }

  /** A lone vote contradicts every other object when only exact strings agree. */
  lemma LoneVoteContradicts(env: Env, tr: Trace, k: Key, v: ObjectVote, text: string, other: string)
    requires Votes(tr.obs, k) == [v] && v.text == Some(text) && env.embeddings == map[]
    requires Letter(text) && Letter(other) && text != other
    ensures Stale(other, Votes(tr.obs, k), ClustersOf(tr.obs, tr.found, env, k))
  {
    var priors, clusters := PriorsAt(tr.found, k), ClustersOf(tr.obs, tr.found, env, k);
    var keys := VoteKeys([v]) + PriorKeys(priors);
    VotesCovered([v], priors, env.embeddings, env.sim);
    LoneVote(v, text, clusters);
    Clustering.ClusterMapCovers(keys, env.embeddings, env.sim, COSINE_THRESHOLD, text);
    Clustering.ClusterMapCovers(keys, env.embeddings, env.sim, COSINE_THRESHOLD, other);
    if other in clusters {
      Clustering.AloneWithoutEmbedding(keys, env.embeddings, env.sim, COSINE_THRESHOLD, text, other);
    }
    OtherClusterIsStale(v, text, other, clusters);
  }

  /** It finds the open fact stale. */
  lemma OpenIsStale(env: Env, tr: Trace)
    requires Plain(env) && tr.obs == [NEW_OBS] && PlansGroups(env, tr)
    ensures |tr.plans| == 1 && StaleFor(MEMORY, env, tr, 0, OPEN_ID)
  {
    OnePlan(env, tr);
    GroupsOne();
    LoneVoteContradicts(env, tr, KEY, VoteOf(NEW_OBS), "a", "b");
  }

  lemma OnlyTwoFacts(id: string)
    requires id in MEMORY.store.facts
    ensures id == CLOSED_ID || id == OPEN_ID
  {
  }

  /** Every cycle that completes on this memory leaves the key without an open fact,
      although its one vote is for an object the memory knows. */
  lemma SwingBackWitness(env: Env, tr: Trace, after: Memory, id: string)
    requires Plain(env) && IsCycle(MEMORY, env, 1, tr, after)
    ensures !OpenFor(after.store.facts, id, KEY)
  {
    MemoryIsValid();
    OneObservation(env, tr);
    PlanIsForClosed(env, tr);
    OnePlan(env, tr);
    OpenIsStale(env, tr);
    forall f ensures !KeepsOpen(MEMORY, env, tr, 0, f) {
      if f in MEMORY.store.facts { OnlyTwoFacts(f); }
    }
    NoneOpenExactly(MEMORY, env, 1, tr, after, 0);
  }

  /** The one plan finds the open fact stale, and the closed one is its own. */
  lemma OutvotesOpen(env: Env, tr: Trace)
    requires Plain(env) && Started(MEMORY, env, 1, tr)
    ensures |tr.plans| == 1 && tr.plans[0].key == KEY && Own(tr, 0) == CLOSED_ID && StaleFor(MEMORY, env, tr, 0, OPEN_ID)
  {
    OneObservation(env, tr);
    PlanIsForClosed(env, tr);
    OnePlan(env, tr);
    OpenIsStale(env, tr);
  }

  lemma OnlyOpenIsLate(env: Env, tr: Trace, i: nat, f: string)
    requires |tr.plans| == 1 && Own(tr, 0) == CLOSED_ID && NotYetStarted(MEMORY, env, tr, i, f)
    ensures env.clock(0) <= OPEN_FACT.lo
  {
    OnlyTwoFacts(f);
  }

  /** A cycle on this memory panics exactly when its clock is not past the start of the
      open fact. */
  lemma PanicWitness(env: Env, tr: Trace)
    requires Plain(env) && Started(MEMORY, env, 1, tr)
    ensures Overdue(env, tr) <==> env.clock(0) <= OPEN_FACT.lo
  {
    MemoryIsValid();
    OutvotesOpen(env, tr);
    if env.clock(0) <= OPEN_FACT.lo {
      assert NotYetStarted(MEMORY, env, tr, 0, OPEN_ID);
    }
    PanicsExactly(MEMORY, env, 1, tr);
    if i, f :| NotYetStarted(MEMORY, env, tr, i, f) {
      OnlyOpenIsLate(env, tr, i, f);
    }
  }

  /** The cycle itself, at clock `now`: there is one, and it ends as the lemmas say. */
  method RunOnMemory(sim: Clustering.Similarity, now: int) returns (kb: KnowledgeBase, stats: Option<Stats>)
    ensures stats == None <==> now <= OPEN_FACT.lo
    ensures stats.Some? ==> forall id :: !OpenFor(kb.table.facts, id, KEY)
  {
    kb := new KnowledgeBase([NEW_OBS]);
    kb.processed, kb.edges := {0, 1}, EDGES;
    kb.table.facts, kb.table.nextId := FACTS, 2;
    MemoryIsValid();
    var env := Env(map[], AsciiLower, map[], sim, 0, false, _ => now, _ => Done, _ => false);
    ghost var m := kb.Mem();
    ghost var tr;
    stats, tr := kb.RunCycle(Some(1), env);
    PanicWitness(env, tr);
    if stats.Some? {
      ghost var after := kb.Mem();
      forall id ensures !OpenFor(after.store.facts, id, KEY) { SwingBackWitness(env, tr, after, id); }
    }
  }
}
