/**
 A detection pass from end to end (crates/uniko-cortex/src/topics.rs, 101-198): the run of
 labellings it goes through, where the run stops, and what is stored of the last one.
 */
module TopicRuns {
  import opened LabelPropagation
  import opened LpaConvergence
  import opened LpaComponents
  import opened Topics
  import opened TopicStore

  // ----- sweeps, as votes taken in turn -----

  /** The labels when vertex `v` votes: those before it have voted, the others not. */
  ghost function AtTurn(before: seq<nat>, after: seq<nat>, v: nat): seq<nat>
    requires v <= |before| == |after|
  {
    after[..v] + before[v..]
  }

  /** Vertex `v` takes the smallest label of maximal weight among its neighbours, or
      keeps its own when it has none. */
  ghost predicate VotesAs(adj: Graph, before: seq<nat>, after: seq<nat>, v: nat)
    requires InRange(adj) && v < |adj| == |before| == |after|
  {
    if adj[v] == [] then after[v] == before[v] else IsBest(adj[v], AtTurn(before, after, v), after[v])
  }

  ghost predicate Swept(adj: Graph, before: seq<nat>, after: seq<nat>)
    requires InRange(adj)
  {
    |adj| == |before| == |after| && forall v :: 0 <= v < |adj| ==> VotesAs(adj, before, after, v)
  }

  lemma {:induction false} SweepVotes(adj: Graph, before: seq<nat>, after: seq<nat>, k: nat)
    requires InRange(adj) && Swept(adj, before, after) && k <= |adj|
    ensures SweepTo(adj, before, k) == AtTurn(before, after, k)
  {
    if k > 0 {
      SweepVotes(adj, before, after, k - 1);
      assert VotesAs(adj, before, after, k - 1);
      if adj[k - 1] != [] {
        BestIsUnique(adj[k - 1], AtTurn(before, after, k - 1), after[k - 1], Best(adj[k - 1], AtTurn(before, after, k - 1)));
      }
    }
  }

  lemma {:induction false} SweepToPlace(adj: Graph, before: seq<nat>, k: nat)
    requires InRange(adj) && |before| == |adj| && k <= |adj|
    ensures SweepTo(adj, before, k) == AtTurn(before, Sweep(adj, before), k)
  {
    forall u | 0 <= u < k ensures SweepTo(adj, before, k)[u] == Sweep(adj, before)[u] {
      LaterStepsKeep(adj, before, k, |adj|, u);
    }
  }

  /** One sweep is every vertex voting in turn. */
  lemma SweptExactly(adj: Graph, before: seq<nat>, after: seq<nat>)
    requires InRange(adj) && |before| == |adj| == |after|
    ensures Swept(adj, before, after) <==> after == Sweep(adj, before)
  {
    if Swept(adj, before, after) {
      SweepVotes(adj, before, after, |adj|);
    }
    if after == Sweep(adj, before) {
      forall v | 0 <= v < |adj| ensures VotesAs(adj, before, after, v) {
        SweepToPlace(adj, before, v);
        SweepToPlace(adj, before, v + 1);
        assert SweepTo(adj, before, v + 1)[v] == after[v];
      }
    }
  }

  // ----- the run -----

  /** Labellings from own labels on, each swept from the one before. */
  ghost predicate IsRun(adj: Graph, run: seq<seq<nat>>)
    requires InRange(adj)
  {
    && |run| > 0 && |run[0]| == |adj| && (forall v :: 0 <= v < |adj| ==> run[0][v] == v)
    && forall i :: 0 <= i < |run| - 1 ==> Swept(adj, run[i], run[i + 1])
  }

  /** The run ends in `labels`, within the cap, and before it only at a settled labelling. */
  ghost predicate EndsIn(adj: Graph, run: seq<seq<nat>>, cap: nat, labels: seq<nat>)
    requires InRange(adj)
  {
    && IsRun(adj, run) && run[|run| - 1] == labels && |labels| == |adj|
    && |run| - 1 <= cap && (|run| - 1 == cap || Settled(adj, labels))
  }

  ghost predicate LastOfRun(adj: Graph, cap: nat, labels: seq<nat>)
    requires InRange(adj)
  {
    exists run :: EndsIn(adj, run, cap, labels)
  }

  /** One sweep after another. */
  ghost function After(adj: Graph, labels: seq<nat>, n: nat): (r: seq<nat>)
    requires InRange(adj) && |labels| == |adj|
    ensures |r| == |adj|
  {
    if n == 0 then labels else Sweep(adj, After(adj, labels, n - 1))
  }

  lemma {:induction false} AfterOne(adj: Graph, labels: seq<nat>, n: nat)
    requires InRange(adj) && |labels| == |adj|
    ensures After(adj, Sweep(adj, labels), n) == After(adj, labels, n + 1)
  {
    if n > 0 { AfterOne(adj, labels, n - 1); }
  }

  lemma {:induction false} SettledForGood(adj: Graph, labels: seq<nat>, n: nat)
    requires InRange(adj) && |labels| == |adj| && Settled(adj, labels)
    ensures After(adj, labels, n) == labels
  {
    UnchangedSweepIsSettled(adj, labels);
    if n > 0 { SettledForGood(adj, labels, n - 1); }
  }

  /** The loop with its early exit ends where all its sweeps would have. */
  lemma {:induction false} IterateIsAfter(adj: Graph, labels: seq<nat>, cap: nat)
    requires InRange(adj) && |labels| == |adj|
    ensures Iterate(adj, labels, cap) == After(adj, labels, cap)
    decreases cap
  {
    UnchangedSweepIsSettled(adj, labels);
    if Settled(adj, labels) {
      SettledForGood(adj, labels, cap);
    } else if cap > 0 {
      IterateIsAfter(adj, Sweep(adj, labels), cap - 1);
      AfterOne(adj, labels, cap - 1);
    }
  }

  lemma {:induction false} RunIsAfter(adj: Graph, run: seq<seq<nat>>, i: nat)
    requires InRange(adj) && IsRun(adj, run) && i < |run|
    ensures run[i] == After(adj, OwnLabels(|adj|), i)
  {
    if i > 0 {
      RunIsAfter(adj, run, i - 1);
      assert Swept(adj, run[i - 1], run[i - 1 + 1]);
      SweptExactly(adj, run[i - 1], run[i]);
    } else {
      assert run[0] == OwnLabels(|adj|);
    }
  }

  lemma {:induction false} AfterOfSum(adj: Graph, labels: seq<nat>, n: nat, more: nat)
    requires InRange(adj) && |labels| == |adj|
    ensures After(adj, labels, n + more) == After(adj, After(adj, labels, n), more)
  {
    if more > 0 { AfterOfSum(adj, labels, n, more - 1); }
  }

  lemma FullRun(adj: Graph, cap: nat) returns (run: seq<seq<nat>>)
    requires InRange(adj)
    ensures EndsIn(adj, run, cap, After(adj, OwnLabels(|adj|), cap))
  {
    run := seq(cap + 1, i requires 0 <= i <= cap => After(adj, OwnLabels(|adj|), i));
    forall i | 0 <= i < |run| - 1 ensures Swept(adj, run[i], run[i + 1]) {
      SweptExactly(adj, run[i], run[i + 1]);
    }
  }

  /** Exactly one labelling ends a run under a given cap: that of the capped loop. */
  lemma LastIsIterate(adj: Graph, cap: nat, labels: seq<nat>)
    requires InRange(adj)
    ensures LastOfRun(adj, cap, labels) <==> labels == Iterate(adj, OwnLabels(|adj|), cap)
  {
    IterateIsAfter(adj, OwnLabels(|adj|), cap);
    if run :| EndsIn(adj, run, cap, labels) {
      var n := |run| - 1;
      RunIsAfter(adj, run, n);
      AfterOfSum(adj, OwnLabels(|adj|), n, cap - n);
      if n < cap { SettledForGood(adj, labels, cap - n); }
    }
    if labels == Iterate(adj, OwnLabels(|adj|), cap) {
      var run := FullRun(adj, cap);
    }
  }

  // ----- what is stored of the last labelling -----

  ghost function GraphOf(entities: seq<EntityRow>, pairs: seq<CoPair>): (adj: Graph)
    ensures InRange(adj) && |adj| == |entities|
  {
    LinkedInRange(|entities|, IndexOf(entities), pairs);
    Linked(|entities|, IndexOf(entities), pairs)
  }

  /** The indices that hold the label of `i`. */
  ghost function Holders(labels: seq<nat>, i: nat): set<nat>
    requires i < |labels|
  {
    set j | 0 <= j < |labels| && labels[j] == labels[i]
  }

  /** The community of `i` is large enough, and `id` is its topic. */
  ghost predicate InTopic(entities: seq<EntityRow>, labels: seq<nat>, min: nat, i: nat, id: string) {
    && i < |entities| == |labels| && |Holders(labels, i)| >= min
    && id == TopicBytes(Members(labels, entities, labels[i]))
  }

  ghost predicate LinksTo(entities: seq<EntityRow>, labels: seq<nat>, min: nat, node: NodeId, id: string) {
    exists i :: 0 <= i < |entities| && InTopic(entities, labels, min, i, id) && entities[i].nodeId == node
  }

  ghost predicate IsTopic(entities: seq<EntityRow>, labels: seq<nat>, min: nat, id: string) {
    exists i :: 0 <= i < |entities| && InTopic(entities, labels, min, i, id)
  }

  /** Each large enough group of equal labels is stored as a topic, linked to exactly its
      members; nothing else is touched. */
  ghost predicate StoredFrom(before: Stored, after: Stored, entities: seq<EntityRow>, labels: seq<nat>, min: nat, r: TopicReport) {
    && |labels| == |entities|
    && TopicsFrom(before.topics, after.topics, entities, labels, min)
    && EdgesFrom(before.edges, after.edges, entities, labels, min)
    && ReportsFrom(before.topics, after.topics, labels, min, r)
  }

  /** A stored topic has the size of a group with its id. */
  ghost predicate TopicsFrom(before: map<string, nat>, after: map<string, nat>, entities: seq<EntityRow>, labels: seq<nat>, min: nat)
    requires |labels| == |entities|
  {
    && (forall id :: id in after <==> id in before || IsTopic(entities, labels, min, id))
    && (forall id :: id in before && !IsTopic(entities, labels, min, id) ==> after[id] == before[id])
    && (forall id :: IsTopic(entities, labels, min, id) ==> HasSize(entities, labels, min, id, after[id]))
  }

  ghost predicate EdgesFrom(before: set<(NodeId, string)>, after: set<(NodeId, string)>, entities: seq<EntityRow>, labels: seq<nat>, min: nat) {
    forall node, id :: (node, id) in after <==> (node, id) in before || LinksTo(entities, labels, min, node, id)
  }

  ghost predicate HasSize(entities: seq<EntityRow>, labels: seq<nat>, min: nat, id: string, n: nat) {
    exists i :: 0 <= i < |entities| && InTopic(entities, labels, min, i, id) && |Holders(labels, i)| == n
  }

  ghost predicate ReportsFrom(before: map<string, nat>, after: map<string, nat>, labels: seq<nat>, min: nat, r: TopicReport) {
    && r.entitiesAssigned == |set i | 0 <= i < |labels| && |Holders(labels, i)| >= min|
    && r.created + r.updated == |set i | 0 <= i < |labels| && |Holders(labels, i)| >= min :: labels[i]|
    && r.created == |after.Keys - before.Keys|
  }

  lemma SurvivesExactly(entities: seq<EntityRow>, labels: seq<nat>, min: nat, i: nat)
    requires |labels| == |entities| && i < |labels|
    ensures labels[i] in CommunitiesOf(entities, labels)
    ensures labels[i] in Surviving(CommunitiesOf(entities, labels), min) <==> |Holders(labels, i)| >= min
  {
    MembersSize(labels, entities, labels[i]);
    assert labels[i] in LabelSet(labels);
  }

  lemma SurvivorHasHolder(entities: seq<EntityRow>, labels: seq<nat>, min: nat, l: nat) returns (i: nat)
    requires |labels| == |entities| && l in Surviving(CommunitiesOf(entities, labels), min)
    ensures i < |labels| && labels[i] == l && |Holders(labels, i)| >= min
  {
    i :| 0 <= i < |labels| && labels[i] == l;
    SurvivesExactly(entities, labels, min, i);
  }

  lemma TopicIdsAre(entities: seq<EntityRow>, labels: seq<nat>, min: nat, id: string)
    requires |labels| == |entities|
    ensures var cs := CommunitiesOf(entities, labels);
      id in TopicIds(cs, Surviving(cs, min)) <==> IsTopic(entities, labels, min, id)
  {
    var cs := CommunitiesOf(entities, labels);
    if id in TopicIds(cs, Surviving(cs, min)) {
      var l :| l in Surviving(cs, min) && l in cs && TopicBytes(cs[l]) == id;
      var i := SurvivorHasHolder(entities, labels, min, l);
      assert InTopic(entities, labels, min, i, id);
    }
    if i :| 0 <= i < |entities| && InTopic(entities, labels, min, i, id) {
      SurvivesExactly(entities, labels, min, i);
      assert labels[i] in Surviving(cs, min);
    }
  }

  lemma {:induction false} HolderIsMember<T>(labels: seq<nat>, entities: seq<T>, i: nat)
    requires |labels| == |entities| && i < |labels|
    ensures entities[i] in Members(labels, entities, labels[i])
  {
    var k := |labels| - 1;
    if i < k { HolderIsMember(labels[..k], entities[..k], i); }
  }

  lemma MembershipsAre(entities: seq<EntityRow>, labels: seq<nat>, min: nat, node: NodeId, id: string)
    requires |labels| == |entities|
    ensures var cs := CommunitiesOf(entities, labels);
      (node, id) in Memberships(cs, Surviving(cs, min)) <==> LinksTo(entities, labels, min, node, id)
  {
    var cs := CommunitiesOf(entities, labels);
    if (node, id) in Memberships(cs, Surviving(cs, min)) {
      var l :| l in Surviving(cs, min) && l in cs && (node, id) in EdgesTo(cs[l], TopicBytes(cs[l]));
      var m: EntityRow :| m in cs[l] && (m.nodeId, TopicBytes(cs[l])) == (node, id);
      var k := SurvivorHasHolder(entities, labels, min, l);
      var i := MemberIndex(labels, entities, l, m);
      assert Holders(labels, i) == Holders(labels, k);
      assert InTopic(entities, labels, min, i, id);
    }
    if i :| 0 <= i < |entities| && InTopic(entities, labels, min, i, id) && entities[i].nodeId == node {
      SurvivesExactly(entities, labels, min, i);
      HolderIsMember(labels, entities, i);
      var l := labels[i];
      assert l in Surviving(cs, min) && entities[i] in cs[l] && (node, id) in EdgesTo(cs[l], id);
    }
  }

  lemma AssignedAre(entities: seq<EntityRow>, labels: seq<nat>, min: nat)
    requires |labels| == |entities|
    ensures var cs := CommunitiesOf(entities, labels);
      && |Slots(cs, Surviving(cs, min))| == |set i | 0 <= i < |labels| && |Holders(labels, i)| >= min|
      && Surviving(cs, min) == set i | 0 <= i < |labels| && |Holders(labels, i)| >= min :: labels[i]
  {
    var cs := CommunitiesOf(entities, labels);
    var live := Surviving(cs, min);
    SlotsAreHolders(entities, labels, live);
    forall i | 0 <= i < |labels| ensures labels[i] in live <==> |Holders(labels, i)| >= min { SurvivesExactly(entities, labels, min, i); }
    assert (set i | 0 <= i < |labels| && labels[i] in live) == set i | 0 <= i < |labels| && |Holders(labels, i)| >= min;
    forall l | l in live ensures l in (set i | 0 <= i < |labels| && |Holders(labels, i)| >= min :: labels[i]) {
      var i := SurvivorHasHolder(entities, labels, min, l);
    }
  }

  lemma SizeOfTopic(entities: seq<EntityRow>, labels: seq<nat>, min: nat, id: string, n: nat)
    requires |labels| == |entities|
    requires var cs := CommunitiesOf(entities, labels); CountedFrom(cs, Surviving(cs, min), id, n)
    ensures HasSize(entities, labels, min, id, n)
  {
    var cs := CommunitiesOf(entities, labels);
    var l :| l in Surviving(cs, min) && l in cs && TopicBytes(cs[l]) == id && |cs[l]| == n;
    var i := SurvivorHasHolder(entities, labels, min, l);
    MembersSize(labels, entities, l);
    assert InTopic(entities, labels, min, i, id);
  }

  lemma TopicsAreFrom(before: map<string, nat>, after: map<string, nat>, entities: seq<EntityRow>, labels: seq<nat>, min: nat)
    requires |labels| == |entities|
    requires var cs := CommunitiesOf(entities, labels); TopicsUpserted(before, after, cs, Surviving(cs, min))
    ensures TopicsFrom(before, after, entities, labels, min)
  {
    var cs := CommunitiesOf(entities, labels);
    var live := Surviving(cs, min);
    forall id ensures id in TopicIds(cs, live) <==> IsTopic(entities, labels, min, id) { TopicIdsAre(entities, labels, min, id); }
    forall id | IsTopic(entities, labels, min, id) ensures HasSize(entities, labels, min, id, after[id]) {
      assert id in TopicIds(cs, live);
      SizeOfTopic(entities, labels, min, id, after[id]);
    }
  }

  lemma EdgesAreFrom(entities: seq<EntityRow>, labels: seq<nat>, min: nat, before: set<(NodeId, string)>, after: set<(NodeId, string)>)
    requires |labels| == |entities|
    requires var cs := CommunitiesOf(entities, labels); after == before + Memberships(cs, Surviving(cs, min))
    ensures EdgesFrom(before, after, entities, labels, min)
  {
    forall node, id ensures (node, id) in after <==> (node, id) in before || LinksTo(entities, labels, min, node, id) {
      MembershipsAre(entities, labels, min, node, id);
    }
  }

  lemma ReportsAreFrom(before: map<string, nat>, after: map<string, nat>, entities: seq<EntityRow>, labels: seq<nat>, min: nat, r: TopicReport)
    requires |labels| == |entities|
    requires var cs := CommunitiesOf(entities, labels);
      ReportCounts(before.Keys, cs, Surviving(cs, min), r) && after.Keys == before.Keys + TopicIds(cs, Surviving(cs, min))
    ensures ReportsFrom(before, after, labels, min, r)
  {
    var cs := CommunitiesOf(entities, labels);
    AssignedAre(entities, labels, min);
    assert after.Keys - before.Keys == TopicIds(cs, Surviving(cs, min)) - before.Keys;
  }

  lemma UpsertedIsStored(before: Stored, after: Stored, entities: seq<EntityRow>, labels: seq<nat>, min: nat, r: TopicReport)
    requires |labels| == |entities|
    requires var cs := CommunitiesOf(entities, labels); Upserted(before, after, cs, Surviving(cs, min), r)
    ensures StoredFrom(before, after, entities, labels, min, r)
  {
    TopicsAreFrom(before.topics, after.topics, entities, labels, min);
    EdgesAreFrom(entities, labels, min, before.edges, after.edges);
    ReportsAreFrom(before.topics, after.topics, entities, labels, min, r);
  }

  /** A pass takes the co-occurrence graph through a run of sweeps from own labels that
      stops at the cap or at a settled labelling, and stores the groups of the last one. */
  lemma PassMeans(before: Stored, after: Stored, entities: seq<EntityRow>, pairs: seq<CoPair>, cfg: TopicConfig, r: TopicReport)
    requires Detected(before, after, entities, pairs, cfg, r)
    ensures exists labels ::
      LastOfRun(GraphOf(entities, pairs), cfg.maxIterations, labels) && StoredFrom(before, after, entities, labels, cfg.minCommunitySize, r)
  {
    var labels := FinalLabels(entities, pairs, cfg);
    LastIsIterate(GraphOf(entities, pairs), cfg.maxIterations, labels);
    UpsertedIsStored(before, after, entities, labels, cfg.minCommunitySize, r);
  }

  ghost predicate StoresSettled(before: Stored, after: Stored, entities: seq<EntityRow>, pairs: seq<CoPair>, min: nat, r: TopicReport) {
    exists labels :: |labels| == |entities| && Settled(GraphOf(entities, pairs), labels) && StoredFrom(before, after, entities, labels, min, r)
  }

  /** On positive weights, some number of iterations is enough for all: with at least as
      many, the topics are the groups of a labelling in which every entity holds the
      smallest label of maximal weight around it. */
  lemma EnoughIterationsSettle(entities: seq<EntityRow>, pairs: seq<CoPair>) returns (enough: nat)
    requires forall p :: p in pairs ==> p.weight > 0
    ensures forall before, after, cfg: TopicConfig, r | cfg.maxIterations >= enough && Detected(before, after, entities, pairs, cfg, r) ::
      StoresSettled(before, after, entities, pairs, cfg.minCommunitySize, r)
  {
    var adj := GraphOf(entities, pairs);
    CallerBuildsCoOccurrence(entities, pairs);
    RunConverges(adj);
    enough :| SettlesWithin(adj, enough);
    forall before, after, cfg: TopicConfig, r | cfg.maxIterations >= enough && Detected(before, after, entities, pairs, cfg, r)
      ensures StoresSettled(before, after, entities, pairs, cfg.minCommunitySize, r)
    {
      var labels := FinalLabels(entities, pairs, cfg);
      assert Settled(adj, labels);
      UpsertedIsStored(before, after, entities, labels, cfg.minCommunitySize, r);
    }
  }

  // ----- the votes, on the pairs -----

  /** Weight of the pairs between entity `v` and the first `k` entities that hold `l`. */
  ghost function Support(idx: map<NodeId, nat>, pairs: seq<CoPair>, labels: seq<nat>, v: nat, l: nat, k: nat): int
    requires k <= |labels|
  {
    if k == 0 then 0
    else Support(idx, pairs, labels, v, l, k - 1) + if labels[k - 1] == l then PairWeight(idx, pairs, v, k - 1) else 0
  }

  lemma {:induction false} ReachIsSupport(entities: seq<EntityRow>, pairs: seq<CoPair>, labels: seq<nat>, v: nat, l: nat, k: nat)
    requires |labels| == |entities| && v < |entities| && k <= |entities|
    ensures Reach(GraphOf(entities, pairs)[v], labels, l, k) == Support(IndexOf(entities), pairs, labels, v, l, k)
  {
    if k > 0 {
      ReachIsSupport(entities, pairs, labels, v, l, k - 1);
      LinkedWeights(|entities|, IndexOf(entities), pairs, v, k - 1);
    }
  }

  /** The score of a label at an entity is the weight of the co-occurrence pairs between
      it and the entities that hold the label. */
  lemma ScoreIsSupport(entities: seq<EntityRow>, pairs: seq<CoPair>, labels: seq<nat>, v: nat, l: nat)
    requires |labels| == |entities| && v < |entities|
    ensures Score(GraphOf(entities, pairs)[v], labels, l) == Support(IndexOf(entities), pairs, labels, v, l, |entities|)
  {
    ReachIsScore(GraphOf(entities, pairs)[v], labels, l);
    ReachIsSupport(entities, pairs, labels, v, l, |entities|);
  }

  // ----- one pair -----

  const PAIR := [EntityRow(1, "a"), EntityRow(2, "b")]
  const TOGETHER := [CoPair(1, 2, 1)]
  const BOTH := "a|b|"

  lemma PairGraph()
    ensures GraphOf(PAIR, TOGETHER) == [[Edge(1, 1)], [Edge(0, 1)]]
  {
    assert PAIR[..1] == [PAIR[0]] && PAIR[..1][..0] == [];
    assert IndexOf(PAIR) == map[1 := 0, 2 := 1];
    assert TOGETHER[..0] == [];
    var none: Graph := Linked(2, IndexOf(PAIR), []);
    assert none == [[], []] && Usable(IndexOf(PAIR), TOGETHER[0]);
    var adj := Linked(2, IndexOf(PAIR), TOGETHER);
    assert adj == none[0 := none[0] + [Edge(1, 1)]][1 := none[1] + [Edge(0, 1)]];
    assert adj[0] == [Edge(1, 1)] && adj[1] == [Edge(0, 1)];
  }

  lemma OneNeighbour(e: Edge, labels: seq<nat>)
    requires e.to < |labels|
    ensures IsBest([e], labels, labels[e.to])
  {
    var ls := NeighbourLabels([e], labels);
    assert labels[[e][0].to] in ls;
    forall l | l in ls ensures l == labels[e.to] {}
  }

  /** Two entities that occur together end in one group. */
  lemma PairSettles(cap: nat, labels: seq<nat>)
    requires cap >= 1 && LastOfRun(GraphOf(PAIR, TOGETHER), cap, labels)
    ensures labels == [1, 1]
  {
    PairGraph();
    var adj := GraphOf(PAIR, TOGETHER);
    OneNeighbour(adj[0][0], [0, 1]);
    OneNeighbour(adj[1][0], [1, 1]);
    OneNeighbour(adj[0][0], [1, 1]);
    assert AtTurn([0, 1], [1, 1], 0) == [0, 1] && AtTurn([0, 1], [1, 1], 1) == [1, 1];
    assert Swept(adj, [0, 1], [1, 1]);
    assert EndsIn(adj, [[0, 1], [1, 1]], cap, [1, 1]);
    LastIsIterate(adj, cap, [1, 1]);
    LastIsIterate(adj, cap, labels);
  }

  lemma PairIsOneTopic()
    ensures Members([1, 1], PAIR, 1) == PAIR && TopicBytes(PAIR) == BOTH
    ensures Holders([1, 1], 0) == {0, 1} && Holders([1, 1], 1) == {0, 1}
  {
    assert PAIR[..1] == [PAIR[0]] && PAIR[..1][..0] == [];
    assert [1, 1][..1] == [1] && [1][..0] == [];
  }

  lemma PairMembership(node: NodeId, id: string)
    ensures LinksTo(PAIR, [1, 1], 2, node, id) <==> (node == 1 || node == 2) && id == BOTH
    ensures IsTopic(PAIR, [1, 1], 2, id) <==> id == BOTH
  {
    PairIsOneTopic();
    assert InTopic(PAIR, [1, 1], 2, 0, BOTH) && InTopic(PAIR, [1, 1], 2, 1, BOTH);
  }

  lemma PairTopics(after: map<string, nat>)
    requires TopicsFrom(map[], after, PAIR, [1, 1], 2)
    ensures after == map[BOTH := 2]
  {
    PairIsOneTopic();
    forall id ensures id in after <==> id == BOTH { PairMembership(1, id); }
    assert HasSize(PAIR, [1, 1], 2, BOTH, after[BOTH]);
  }

  lemma PairEdges(after: set<(NodeId, string)>)
    requires EdgesFrom({}, after, PAIR, [1, 1], 2)
    ensures after == {(1, BOTH), (2, BOTH)}
  {
    forall e: (NodeId, string) ensures e in after <==> e in {(1, BOTH), (2, BOTH)} {
      PairMembership(e.0, e.1);
      assert e == (e.0, e.1);
    }
  }

  lemma PairReport(after: map<string, nat>, r: TopicReport)
    requires ReportsFrom(map[], after, [1, 1], 2, r) && after == map[BOTH := 2]
    ensures r == TopicReport(1, 0, 2)
  {
    PairIsOneTopic();
    var labels := [1, 1];
    assert (set i | 0 <= i < |labels| && |Holders(labels, i)| >= 2) == {0, 1};
    assert labels[0] == 1;
    assert (set i | 0 <= i < |labels| && |Holders(labels, i)| >= 2 :: labels[i]) == {1};
    var none: map<string, nat> := map[];
    assert after.Keys - none.Keys == {BOTH};
  }

  /** Two entities that occur together become one topic of two. */
  lemma PairBecomesTopic(after: Stored, r: TopicReport)
    requires Detected(Stored(map[], {}), after, PAIR, TOGETHER, TopicConfig(2, 10), r)
    ensures after.topics == map[BOTH := 2] && after.edges == {(1, BOTH), (2, BOTH)} && r == TopicReport(1, 0, 2)
  {
    PassMeans(Stored(map[], {}), after, PAIR, TOGETHER, TopicConfig(2, 10), r);
    var labels :| LastOfRun(GraphOf(PAIR, TOGETHER), 10, labels) && StoredFrom(Stored(map[], {}), after, PAIR, labels, 2, r);
    PairSettles(10, labels);
    PairTopics(after.topics);
    PairEdges(after.edges);
    PairReport(after.topics, r);
  }
}
