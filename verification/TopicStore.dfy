/** The topic upserts of one detection pass (crates/uniko-cortex/src/topics.rs). */
module TopicStore {
  import opened LabelPropagation
  import opened LpaComponents
  import opened Topics

  type Communities = map<nat, seq<EntityRow>>

  /** The labels whose community is large enough to become a topic. */
  ghost function Surviving(cs: Communities, min: nat): set<nat> {
    set l | l in cs && |cs[l]| >= min
  }

  ghost function TopicIds(cs: Communities, ls: set<nat>): set<string> {
    set l | l in ls && l in cs :: TopicBytes(cs[l])
  }

  function EdgesTo(members: seq<EntityRow>, id: string): set<(NodeId, string)> {
    set m | m in members :: (m.nodeId, id)
  }

  ghost function Memberships(cs: Communities, ls: set<nat>): set<(NodeId, string)> {
    set l, e | l in ls && l in cs && e in EdgesTo(cs[l], TopicBytes(cs[l])) :: e
  }

  /** One slot per member of the communities in `ls`. */
  ghost function Slots(cs: Communities, ls: set<nat>): set<(nat, nat)> {
    set l, k | l in ls && l in cs && 0 <= k < |cs[l]| :: (l, k)
  }

  /** Topic id -> entity_count, and the membership edges. */
  datatype Stored = Stored(topics: map<string, nat>, edges: set<(NodeId, string)>)

  /** The count stored for `id` is the size of a community of `ls` with that id. */
  ghost predicate CountedFrom(cs: Communities, ls: set<nat>, id: string, n: nat) {
    exists l :: l in ls && l in cs && TopicBytes(cs[l]) == id && |cs[l]| == n
  }

  ghost predicate TopicsUpserted(before: map<string, nat>, after: map<string, nat>, cs: Communities, done: set<nat>) {
    && after.Keys == before.Keys + TopicIds(cs, done)
    && (forall id :: id in before && id !in TopicIds(cs, done) ==> after[id] == before[id])
    && (forall id :: id in TopicIds(cs, done) ==> CountedFrom(cs, done, id, after[id]))
  }

  /** What is stored once the communities in `done` are upserted. */
  ghost predicate Upserted(before: Stored, after: Stored, cs: Communities, done: set<nat>, r: TopicReport) {
    && TopicsUpserted(before.topics, after.topics, cs, done)
    && after.edges == before.edges + Memberships(cs, done)
    && ReportCounts(before.topics.Keys, cs, done, r)
  }

  ghost predicate ReportCounts(before: set<string>, cs: Communities, done: set<nat>, r: TopicReport) {
    && r.created == |TopicIds(cs, done) - before|
    && r.created + r.updated == |done|
    && r.entitiesAssigned == |Slots(cs, done)|
  }

  function Counted(r: TopicReport, created: bool, size: nat): TopicReport {
    if created then TopicReport(r.created + 1, r.updated, r.entitiesAssigned + size)
    else TopicReport(r.created, r.updated + 1, r.entitiesAssigned + size)
  }

  lemma CountNew(ids: set<string>, id: string, before: set<string>)
    ensures |ids + {id} - before| == |ids - before| + if id in before + ids then 0 else 1
  {
    assert ids + {id} - before == if id in before + ids then ids - before else (ids - before) + {id};
  }

  lemma {:induction false} SlotsOfOne(l: nat, n: nat)
    ensures |set k | 0 <= k < n :: (l, k)| == n
  {
    var s := set k: nat | 0 <= k < n :: (l, k);
    if n == 0 {
      assert s == {};
    } else {
      var t := set k: nat | 0 <= k < n - 1 :: (l, k);
      SlotsOfOne(l, n - 1);
      assert s == t + {(l, n - 1)};
      assert s == set k | 0 <= k < n :: (l, k);
      assert t == set k | 0 <= k < n - 1 :: (l, k);
    }
  }

  lemma AssignOneMore(cs: Communities, ls: set<nat>, l: nat)
    requires l in cs && l !in ls
    ensures |Slots(cs, ls + {l})| == |Slots(cs, ls)| + |cs[l]|
  {
    var n := |cs[l]|;
    var t := set k | 0 <= k < n :: (l, k);
    SlotsOfOne(l, n);
    assert Slots(cs, ls + {l}) == Slots(cs, ls) + t;
    assert Slots(cs, ls) * t == {};
  }

  lemma TopicOneMore(before: map<string, nat>, mid: map<string, nat>, cs: Communities, done: set<nat>, l: nat)
    requires l in cs && l !in done && TopicsUpserted(before, mid, cs, done)
    ensures TopicIds(cs, done + {l}) == TopicIds(cs, done) + {TopicBytes(cs[l])}
    ensures TopicsUpserted(before, mid[TopicBytes(cs[l]) := |cs[l]|], cs, done + {l})
  {
    var id, all := TopicBytes(cs[l]), done + {l};
    var after := mid[id := |cs[l]|];
    assert TopicIds(cs, all) == TopicIds(cs, done) + {id};
    forall j | j in TopicIds(cs, all) ensures CountedFrom(cs, all, j, after[j]) {
      if j == id {
        assert l in all;
      } else {
        assert CountedFrom(cs, done, j, mid[j]);
        var k :| k in done && k in cs && TopicBytes(cs[k]) == j && |cs[k]| == mid[j];
        assert k in all;
      }
    }
  }

  lemma EdgesOneMore(cs: Communities, done: set<nat>, l: nat)
    requires l in cs
    ensures Memberships(cs, done + {l}) == Memberships(cs, done) + EdgesTo(cs[l], TopicBytes(cs[l]))
  {
  }

  lemma ReportOneMore(before: set<string>, cs: Communities, done: set<nat>, l: nat, r: TopicReport)
    requires l in cs && l !in done && ReportCounts(before, cs, done, r)
    requires TopicIds(cs, done + {l}) == TopicIds(cs, done) + {TopicBytes(cs[l])}
    ensures ReportCounts(before, cs, done + {l}, Counted(r, TopicBytes(cs[l]) !in before + TopicIds(cs, done), |cs[l]|))
  {
    CountNew(TopicIds(cs, done), TopicBytes(cs[l]), before);
    AssignOneMore(cs, done, l);
  }

  lemma UpsertOneMore(before: Stored, mid: Stored, cs: Communities, done: set<nat>, l: nat, r: TopicReport)
    requires l in cs && l !in done && Upserted(before, mid, cs, done, r)
    ensures var id := TopicBytes(cs[l]);
      Upserted(before, Stored(mid.topics[id := |cs[l]|], mid.edges + EdgesTo(cs[l], id)), cs, done + {l}, Counted(r, id !in mid.topics, |cs[l]|))
  {
    TopicOneMore(before.topics, mid.topics, cs, done, l);
    EdgesOneMore(cs, done, l);
    ReportOneMore(before.topics.Keys, cs, done, l, r);
  }

  // ----- one pass -----

  ghost function FinalLabels(entities: seq<EntityRow>, pairs: seq<CoPair>, cfg: TopicConfig): (labels: seq<nat>)
    ensures |labels| == |entities|
  {
    LinkedInRange(|entities|, IndexOf(entities), pairs);
    Iterate(Linked(|entities|, IndexOf(entities), pairs), OwnLabels(|entities|), cfg.maxIterations)
  }

  ghost function CommunitiesOf(entities: seq<EntityRow>, labels: seq<nat>): Communities
    requires |labels| == |entities|
  {
    map l | l in LabelSet(labels) :: Members(labels, entities, l)
  }

  /** What one pass does: it upserts every surviving community once. */
  ghost predicate Detected(before: Stored, after: Stored, entities: seq<EntityRow>, pairs: seq<CoPair>, cfg: TopicConfig, r: TopicReport) {
    var cs := CommunitiesOf(entities, FinalLabels(entities, pairs, cfg));
    Upserted(before, after, cs, Surviving(cs, cfg.minCommunitySize), r)
  }

  /** The surviving communities among some labels. */
  ghost function Among(cs: Communities, min: nat, ls: set<nat>): set<nat> {
    set l | l in ls && l in cs && |cs[l]| >= min
  }

  lemma OneMoreAmong(cs: Communities, min: nat, todo: set<nat>, l: nat)
    requires todo <= cs.Keys && l in todo
    ensures l !in Among(cs, min, cs.Keys - todo)
    ensures Among(cs, min, cs.Keys - (todo - {l})) == Among(cs, min, cs.Keys - todo) + if |cs[l]| >= min then {l} else {}
  {
  }

  lemma NextCommunity(before: Stored, mid: Stored, cs: Communities, min: nat, todo: set<nat>, l: nat, r: TopicReport)
    requires todo <= cs.Keys && l in todo && Upserted(before, mid, cs, Among(cs, min, cs.Keys - todo), r)
    ensures var id, done := TopicBytes(cs[l]), Among(cs, min, cs.Keys - (todo - {l}));
      if |cs[l]| >= min
      then Upserted(before, Stored(mid.topics[id := |cs[l]|], mid.edges + EdgesTo(cs[l], id)), cs, done, Counted(r, id !in mid.topics, |cs[l]|))
      else Upserted(before, mid, cs, done, r)
  {
    OneMoreAmong(cs, min, todo, l);
    if |cs[l]| >= min { UpsertOneMore(before, mid, cs, Among(cs, min, cs.Keys - todo), l, r); }
  }

  lemma NothingUpserted(now: Stored, cs: Communities, min: nat)
    ensures Upserted(now, now, cs, Among(cs, min, {}), TopicReport(0, 0, 0))
  {
    assert Among(cs, min, {}) == {};
    assert TopicIds(cs, {}) == {} && Memberships(cs, {}) == {} && Slots(cs, {}) == {};
  }

  lemma AllAmong(cs: Communities, min: nat, todo: set<nat>)
    requires todo == {}
    ensures Among(cs, min, cs.Keys - todo) == Surviving(cs, min)
  {
  }

  class TopicGraph {
    var topics: map<string, nat>             // topic id -> entity_count
    var belongsTo: set<(NodeId, string)>

    constructor ()
      ensures topics == map[] && belongsTo == {}
    {
      topics, belongsTo := map[], {};
    }

    ghost function Now(): Stored
      reads this
    {
      Stored(topics, belongsTo)
    }

    /** Merge one topic node and its member edges; true when the node is new. */
    method UpsertTopic(id: string, members: seq<EntityRow>) returns (created: bool)
      modifies this
      ensures created == (id !in old(topics))
      ensures topics == old(topics)[id := |members|]
      ensures belongsTo == old(belongsTo) + EdgesTo(members, id)
      ensures Now() == Stored(old(topics)[id := |members|], old(belongsTo) + EdgesTo(members, id))
    {
      created := id !in topics;
      topics := topics[id := |members|];
      belongsTo := belongsTo + EdgesTo(members, id);
    }

    method UpsertCommunities(cs: Communities, min: nat) returns (r: TopicReport)
      modifies this
      ensures Upserted(old(Now()), Now(), cs, Surviving(cs, min), r)
    {
      r := TopicReport(0, 0, 0);
      var todo := cs.Keys;
      assert cs.Keys - todo == {};
      NothingUpserted(Now(), cs, min);
      while todo != {}
        invariant todo <= cs.Keys
        invariant Upserted(old(Now()), Now(), cs, Among(cs, min, cs.Keys - todo), r)
        decreases todo
      {
        var l :| l in todo;  // the values of a hash map come in no particular order
        NextCommunity(old(Now()), Now(), cs, min, todo, l, r);
        todo := todo - {l};
        var community := cs[l];
        if |community| >= min {
          var created := UpsertTopic(TopicBytes(community), community);
          r := Counted(r, created, |community|);
        }
      }
      AllAmong(cs, min, todo);
    }

    method DetectTopics(entities: seq<EntityRow>, pairs: seq<CoPair>, cfg: TopicConfig) returns (r: TopicReport)
      modifies this
      ensures Detected(old(Now()), Now(), entities, pairs, cfg, r)
    {
      ghost var cs := CommunitiesOf(entities, FinalLabels(entities, pairs, cfg));
      if entities == [] {
        assert cs == map[];
        r := TopicReport(0, 0, 0);
        return;
      }
      LinkedInRange(|entities|, IndexOf(entities), pairs);
      var adj := BuildAdjacency(entities, pairs);
      var labels := RunLpa(adj, cfg.maxIterations);
      var communities := GroupByLabel(labels, entities);
      assert communities == cs;
      r := UpsertCommunities(communities, cfg.minCommunitySize);
    }
  }

  lemma {:induction false} MemberIndex<T>(labels: seq<nat>, entities: seq<T>, l: nat, e: T) returns (i: nat)
    requires |labels| == |entities| && e in Members(labels, entities, l)
    ensures i < |labels| && labels[i] == l && entities[i] == e
  {
    var k := |labels| - 1;
    if labels[k] == l && entities[k] == e {
      i := k;
    } else {
      i := MemberIndex(labels[..k], entities[..k], l, e);
    }
  }

  /** Communities of bar-free entities with one id are of one size. */
  lemma SameIdSameSize(entities: seq<EntityRow>, labels: seq<nat>, l: nat, k: nat)
    requires |labels| == |entities| && forall e :: e in entities ==> '|' !in e.entityId
    requires var cs := CommunitiesOf(entities, labels); l in cs && k in cs && TopicBytes(cs[l]) == TopicBytes(cs[k])
    ensures var cs := CommunitiesOf(entities, labels); |cs[l]| == |cs[k]|
  {
    var c, d := Members(labels, entities, l), Members(labels, entities, k);
    forall e | e in c || e in d ensures '|' !in e.entityId {
      var i := MemberIndex(labels, entities, if e in c then l else k, e);
      assert entities[i] in entities;
    }
    TopicBytesIdentifyMembers(c, d);
    assert |multiset(EntityIds(c))| == |c| && |multiset(EntityIds(d))| == |d|;
  }

  lemma SameCounts(entities: seq<EntityRow>, labels: seq<nat>, live: set<nat>,
                   t0: map<string, nat>, t1: map<string, nat>, t2: map<string, nat>)
    requires |labels| == |entities| && forall e :: e in entities ==> '|' !in e.entityId
    requires var cs := CommunitiesOf(entities, labels); TopicsUpserted(t0, t1, cs, live) && TopicsUpserted(t1, t2, cs, live)
    ensures t2 == t1
  {
    var cs := CommunitiesOf(entities, labels);
    forall id | id in t1 ensures id in t2 && t2[id] == t1[id] {
      if id in TopicIds(cs, live) {
        assert CountedFrom(cs, live, id, t1[id]) && CountedFrom(cs, live, id, t2[id]);
        var l :| l in live && l in cs && TopicBytes(cs[l]) == id && |cs[l]| == t1[id];
        var k :| k in live && k in cs && TopicBytes(cs[k]) == id && |cs[k]| == t2[id];
        SameIdSameSize(entities, labels, l, k);
      }
    }
  }

  /** A second pass over the same data changes nothing: it creates no topic, adds
      no edge, and refreshes exactly the topics the first one touched, to the counts
      they have unless an entity id with a bar makes two communities one topic. */
  lemma SecondPassIsIdle(s0: Stored, s1: Stored, s2: Stored, entities: seq<EntityRow>, pairs: seq<CoPair>, cfg: TopicConfig,
                         r1: TopicReport, r2: TopicReport)
    requires Detected(s0, s1, entities, pairs, cfg, r1) && Detected(s1, s2, entities, pairs, cfg, r2)
    ensures s2.topics.Keys == s1.topics.Keys && s2.edges == s1.edges
    ensures (forall e :: e in entities ==> '|' !in e.entityId) ==> s2 == s1
    ensures r2 == TopicReport(0, r1.created + r1.updated, r1.entitiesAssigned)
  {
    var labels := FinalLabels(entities, pairs, cfg);
    var cs := CommunitiesOf(entities, labels);
    var live := Surviving(cs, cfg.minCommunitySize);
    assert TopicIds(cs, live) - s1.topics.Keys == {};
    if forall e :: e in entities ==> '|' !in e.entityId {
      SameCounts(entities, labels, live, s0.topics, s1.topics, s2.topics);
    }
  }

  // ----- no entity is assigned twice -----

  ghost function HolderCount(labels: seq<nat>, ls: set<nat>): nat {
    |set i | 0 <= i < |labels| && labels[i] in ls|
  }

  lemma {:induction false} MembersSize<T>(labels: seq<nat>, entities: seq<T>, l: nat)
    requires |labels| == |entities|
    ensures |Members(labels, entities, l)| == |set i | 0 <= i < |labels| && labels[i] == l|
  {
    var s := set i | 0 <= i < |labels| && labels[i] == l;
    if labels == [] {
      assert s == {};
    } else {
      var k := |labels| - 1;
      var front := labels[..k];
      var t := set i | 0 <= i < |front| && front[i] == l;
      MembersSize(front, entities[..k], l);
      assert s == t + if labels[k] == l then {k} else {};
    }
  }

  lemma {:induction false} SlotsAreHolders(entities: seq<EntityRow>, labels: seq<nat>, ls: set<nat>)
    requires |labels| == |entities| && ls <= LabelSet(labels)
    ensures |Slots(CommunitiesOf(entities, labels), ls)| == HolderCount(labels, ls)
    decreases ls
  {
    var cs := CommunitiesOf(entities, labels);
    if ls == {} {
      assert Slots(cs, ls) == {};
      assert (set i | 0 <= i < |labels| && labels[i] in ls) == {};
    } else {
      var l :| l in ls;
      var rest := ls - {l};
      SlotsAreHolders(entities, labels, rest);
      AssignOneMore(cs, rest, l);
      MembersSize(labels, entities, l);
      assert rest + {l} == ls;
      var one := set i | 0 <= i < |labels| && labels[i] == l;
      var others := set i | 0 <= i < |labels| && labels[i] in rest;
      assert (set i | 0 <= i < |labels| && labels[i] in ls) == others + one;
      assert others * one == {};
    }
  }

  lemma {:induction false} IndexCount(n: nat, s: set<nat>)
    requires forall i :: i in s ==> i < n
    ensures |s| <= n
    decreases n
  {
    if n == 0 {
      assert s == {};
    } else {
      IndexCount(n - 1, s - {n - 1});
    }
  }

  /** `entities_assigned` counts distinct entities: those whose community survives. */
  lemma AssignedAtMostOnce(s0: Stored, s1: Stored, entities: seq<EntityRow>, pairs: seq<CoPair>, cfg: TopicConfig, r: TopicReport)
    requires Detected(s0, s1, entities, pairs, cfg, r)
    ensures var labels := FinalLabels(entities, pairs, cfg);
      r.entitiesAssigned == HolderCount(labels, Surviving(CommunitiesOf(entities, labels), cfg.minCommunitySize)) <= |entities|
  {
    var labels := FinalLabels(entities, pairs, cfg);
    var live := Surviving(CommunitiesOf(entities, labels), cfg.minCommunitySize);
    SlotsAreHolders(entities, labels, live);
    IndexCount(|labels|, set i | 0 <= i < |labels| && labels[i] in live);
  }

  // ----- a topic stays in one component -----

  ghost predicate LinkedAs(entities: seq<EntityRow>, pairs: seq<CoPair>, u: nat, v: nat, e: EntityRow, f: EntityRow) {
    && u < |entities| && v < |entities| && entities[u] == e && entities[v] == f
    && Connected(Linked(|entities|, IndexOf(entities), pairs), u, v)
  }

  /** A stored topic never spans two components: any two members of a community that
      is upserted are linked by a walk through the co-occurrence pairs. */
  lemma TopicInOneComponent(entities: seq<EntityRow>, pairs: seq<CoPair>, cfg: TopicConfig, l: nat, e: EntityRow, f: EntityRow)
    requires forall p :: p in pairs ==> p.weight > 0
    requires var cs := CommunitiesOf(entities, FinalLabels(entities, pairs, cfg));
      l in Surviving(cs, cfg.minCommunitySize) && e in cs[l] && f in cs[l]
    ensures exists u, v :: LinkedAs(entities, pairs, u, v, e, f)
  {
    var labels := FinalLabels(entities, pairs, cfg);
    var u := MemberIndex(labels, entities, l, e);
    var v := MemberIndex(labels, entities, l, f);
    CallerBuildsCoOccurrence(entities, pairs);
    SameLabelConnected(Linked(|entities|, IndexOf(entities), pairs), cfg.maxIterations, u, v);
    assert LinkedAs(entities, pairs, u, v, e, f);
  }
}
