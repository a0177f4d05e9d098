/**
 Topic detection (crates/uniko-cortex/src/topics.rs): the co-occurrence graph,
 the id of a community, and the topic upserts of one pass.
 */
module Topics {
  import opened LabelPropagation
  import opened LpaComponents
  import Ordering

  type NodeId = int
  datatype EntityRow = EntityRow(nodeId: NodeId, entityId: string)
  datatype CoPair = CoPair(a: NodeId, b: NodeId, weight: int)
  datatype TopicConfig = TopicConfig(minCommunitySize: nat, maxIterations: nat)
  datatype TopicReport = TopicReport(created: nat, updated: nat, entitiesAssigned: nat)

  // ----- the graph -----

  /** Index of the last entity carrying each node id. */
  function IndexOf(entities: seq<EntityRow>): (m: map<NodeId, nat>)
    ensures forall id :: id in m ==> m[id] < |entities| && entities[m[id]].nodeId == id
    ensures forall i :: 0 <= i < |entities| ==> entities[i].nodeId in m
  {
    if entities == [] then map[]
    else IndexOf(entities[..|entities| - 1])[entities[|entities| - 1].nodeId := |entities| - 1]
  }

  ghost predicate Usable(idx: map<NodeId, nat>, p: CoPair) {
    p.a in idx && p.b in idx && idx[p.a] != idx[p.b]
  }

  /** Total weight of the pairs that link `u` and `v`, in either orientation. */
  ghost function PairWeight(idx: map<NodeId, nat>, pairs: seq<CoPair>, u: nat, v: nat): int {
    if pairs == [] then 0
    else
      var p := pairs[|pairs| - 1];
      PairWeight(idx, pairs[..|pairs| - 1], u, v) +
      if Usable(idx, p) && ((idx[p.a] == u && idx[p.b] == v) || (idx[p.a] == v && idx[p.b] == u)) then p.weight else 0
  }

  ghost function Linked(n: nat, idx: map<NodeId, nat>, pairs: seq<CoPair>): (adj: Graph)
    requires forall id :: id in idx ==> idx[id] < n
    ensures |adj| == n
  {
    if pairs == [] then seq(n, _ => [])
    else
      var p := pairs[|pairs| - 1];
      var adj := Linked(n, idx, pairs[..|pairs| - 1]);
      if Usable(idx, p) then
        adj[idx[p.a] := adj[idx[p.a]] + [Edge(idx[p.b], p.weight)]][idx[p.b] := adj[idx[p.b]] + [Edge(idx[p.a], p.weight)]]
      else adj
  }

  method BuildAdjacency(entities: seq<EntityRow>, pairs: seq<CoPair>) returns (adj: Graph)
    ensures adj == Linked(|entities|, IndexOf(entities), pairs)
  {
    var idx: map<NodeId, nat> := map[];
    for i := 0 to |entities|
      invariant idx == IndexOf(entities[..i])
    {
      assert entities[..i + 1][..i] == entities[..i];
      idx := idx[entities[i].nodeId := i];
    }
    assert entities[..|entities|] == entities;
    var rows := new seq<Edge>[|entities|](_ => []);
    for k := 0 to |pairs|
      invariant rows[..] == Linked(|entities|, idx, pairs[..k])
    {
      var p := pairs[k];
      assert pairs[..k + 1][..k] == pairs[..k];
      if p.a in idx && p.b in idx && idx[p.a] != idx[p.b] {
        var ia, ib := idx[p.a], idx[p.b];
        rows[ia] := rows[ia] + [Edge(ib, p.weight)];
        rows[ib] := rows[ib] + [Edge(ia, p.weight)];
      }
    }
    assert pairs[..|pairs|] == pairs;
    adj := rows[..];
  }

  lemma WeightOfPush(row: seq<Edge>, e: Edge, u: nat)
    ensures Weight(row + [e], u) == Weight(row, u) + if e.to == u then e.weight else 0
  {
    assert (row + [e])[..|row|] == row;
  }

  /** Each entry of the graph carries exactly the weight of the pairs between its
      two ends. */
  lemma {:induction false} LinkedWeights(n: nat, idx: map<NodeId, nat>, pairs: seq<CoPair>, u: nat, v: nat)
    requires (forall id :: id in idx ==> idx[id] < n) && u < n
    ensures Weight(Linked(n, idx, pairs)[u], v) == PairWeight(idx, pairs, u, v)
  {
    if pairs != [] {
      var p := pairs[|pairs| - 1];
      LinkedWeights(n, idx, pairs[..|pairs| - 1], u, v);
      if Usable(idx, p) {
        var row := Linked(n, idx, pairs[..|pairs| - 1])[u];
        WeightOfPush(row, Edge(idx[p.a], p.weight), v);
        WeightOfPush(row, Edge(idx[p.b], p.weight), v);
      }
    }
  }

  lemma {:induction false} PairWeightSymmetric(idx: map<NodeId, nat>, pairs: seq<CoPair>, u: nat, v: nat)
    ensures PairWeight(idx, pairs, u, v) == PairWeight(idx, pairs, v, u)
  {
    if pairs != [] { PairWeightSymmetric(idx, pairs[..|pairs| - 1], u, v); }
  }

  /** Whatever the pairs, every edge of the graph names an entity. */
  lemma {:induction false} LinkedInRange(n: nat, idx: map<NodeId, nat>, pairs: seq<CoPair>)
    requires forall id :: id in idx ==> idx[id] < n
    ensures InRange(Linked(n, idx, pairs))
  {
    if pairs != [] { LinkedInRange(n, idx, pairs[..|pairs| - 1]); }
  }

  ghost predicate GoodRow(row: seq<Edge>, n: nat, v: nat) {
    forall i :: 0 <= i < |row| ==> row[i].to < n && row[i].to != v && row[i].weight > 0
  }

  lemma {:induction false} LinkedEdges(n: nat, idx: map<NodeId, nat>, pairs: seq<CoPair>, v: nat)
    requires (forall id :: id in idx ==> idx[id] < n) && v < n
    requires forall p :: p in pairs ==> p.weight > 0
    ensures GoodRow(Linked(n, idx, pairs)[v], n, v)
  {
    if pairs != [] { LinkedEdges(n, idx, pairs[..|pairs| - 1], v); }
  }

  /** The graph handed to `RunLpa` is one that label propagation settles on. */
  lemma CallerBuildsCoOccurrence(entities: seq<EntityRow>, pairs: seq<CoPair>)
    requires forall p :: p in pairs ==> p.weight > 0
    ensures CoOccurrence(Linked(|entities|, IndexOf(entities), pairs))
  {
    var n, idx := |entities|, IndexOf(entities);
    var adj := Linked(n, idx, pairs);
    forall v | 0 <= v < n ensures GoodRow(adj[v], n, v) { LinkedEdges(n, idx, pairs, v); }
    forall u, v | 0 <= u < n && 0 <= v < n ensures Weight(adj[u], v) == Weight(adj[v], u) {
      LinkedWeights(n, idx, pairs, u, v);
      LinkedWeights(n, idx, pairs, v, u);
      PairWeightSymmetric(idx, pairs, u, v);
    }
  }

  // ----- the id of a community -----

  /** The bytes hashed for a topic id: each id followed by a terminator. */
  function Framed(ids: seq<string>): string {
    if ids == [] then "" else ids[0] + "|" + Framed(ids[1..])
  }

  function EntityIds(community: seq<EntityRow>): seq<string> {
    seq(|community|, i requires 0 <= i < |community| => community[i].entityId)
  }

  function TopicBytes(community: seq<EntityRow>): string {
    Framed(Ordering.Sort(EntityIds(community)))
  }

  lemma SplitAtBar(a: string, x: string, b: string, y: string)
    requires '|' !in a && '|' !in b && a + "|" + x == b + "|" + y
    ensures a == b && x == y
  {
    var s, t := a + "|" + x, b + "|" + y;
    assert s[|a|] == '|' && t[|b|] == '|';
    assert s[..|a|] == a && t[..|b|] == b;
    assert s[|a| + 1..] == x && t[|b| + 1..] == y;
  }

  lemma {:induction false} FramedInjective(a: seq<string>, b: seq<string>)
    requires forall s :: s in a || s in b ==> '|' !in s
    requires Framed(a) == Framed(b)
    ensures a == b
  {
    if a != [] && b != [] {
      assert a[0] in a && b[0] in b;
      SplitAtBar(a[0], Framed(a[1..]), b[0], Framed(b[1..]));
      FramedInjective(a[1..], b[1..]);
      assert a == [a[0]] + a[1..] && b == [b[0]] + b[1..];
    }
  }

  /** Two communities hash the same bytes exactly when they have the same
      members, in whatever order those are listed. */
  lemma TopicBytesIdentifyMembers(c: seq<EntityRow>, d: seq<EntityRow>)
    requires forall e :: e in c || e in d ==> '|' !in e.entityId
    ensures TopicBytes(c) == TopicBytes(d) <==> multiset(EntityIds(c)) == multiset(EntityIds(d))
  {
    var a, b := Ordering.Sort(EntityIds(c)), Ordering.Sort(EntityIds(d));
    Ordering.SortSorts(EntityIds(c));
    Ordering.SortSorts(EntityIds(d));
    if TopicBytes(c) == TopicBytes(d) {
      forall s | s in a || s in b ensures '|' !in s {
        assert s in multiset(a) || s in multiset(b);
        assert s in EntityIds(c) || s in EntityIds(d);
      }
      FramedInjective(a, b);
    }
    if multiset(EntityIds(c)) == multiset(EntityIds(d)) {
      Ordering.SortedIsUnique(a, b);
    }
  }

  // ----- which communities share their bytes -----

  /** The hashed bytes without the last terminator. */
  lemma FramedBody(ids: seq<string>) returns (body: string)
    requires ids != []
    ensures Framed(ids) == body + "|" && Ordering.Le(ids[0], body)
  {
    if |ids| == 1 {
      body := ids[0];
      assert ids[1..] == [];
      LePrefix(ids[0], "");
      assert ids[0] + "" == ids[0];
    } else {
      var rest := FramedBody(ids[1..]);
      body := ids[0] + "|" + rest;
      LePrefix(ids[0], "|" + rest);
      assert ids[0] + ("|" + rest) == body;
    }
  }

  lemma {:induction false} LePrefix(a: string, b: string)
    ensures Ordering.Le(a, a + b)
  {
    if a != "" {
      LePrefix(a[1..], b);
      assert (a + b)[1..] == a[1..] + b;
    }
  }

  lemma BytesOfOne(e: EntityRow)
    ensures EntityIds([e]) == [e.entityId] && Ordering.Sort([e.entityId]) == [e.entityId] && TopicBytes([e]) == e.entityId + "|"
  {
    var ids := [e.entityId];
    assert EntityIds([e]) == ids && ids[1..] == [];
    assert Framed(ids) == e.entityId + "|" + Framed(ids[1..]);
  }

  lemma BytesOfTwo(x: EntityRow, y: EntityRow)
    requires Ordering.Le(x.entityId, y.entityId)
    ensures TopicBytes([x, y]) == x.entityId + "|" + (y.entityId + "|")
  {
    var ids := [x.entityId, y.entityId];
    BytesOfOne(y);
    assert EntityIds([x, y]) == ids && ids[1..] == [y.entityId];
    assert Ordering.Sort(ids) == ids;
    assert EntityIds([y]) == [y.entityId];
    assert Framed(ids) == x.entityId + "|" + Framed([y.entityId]);
  }

  /** The id falls at a bar into two ids that sort in that order. */
  ghost predicate FallsInTwo(id: string) {
    exists i :: 0 <= i < |id| && id[i] == '|' && Ordering.Le(id[..i], id[i + 1..])
  }

  /** One entity whose id is the joined ids of two or more. */
  lemma ManyLookLikeOne(c: seq<EntityRow>) returns (d: seq<EntityRow>)
    requires |c| >= 2
    ensures TopicBytes(d) == TopicBytes(c) && |d| == 1
  {
    Ordering.SortSorts(EntityIds(c));
    var sorted := Ordering.Sort(EntityIds(c));
    assert |sorted| == |multiset(sorted)| == |multiset(EntityIds(c))| == |c|;
    var body := FramedBody(sorted);
    d := [EntityRow(0, body)];
    BytesOfOne(d[0]);
  }

  lemma OneLooksLikeTwo(id: string) returns (d: seq<EntityRow>)
    requires FallsInTwo(id)
    ensures TopicBytes(d) == id + "|" && |d| == 2
  {
    var i :| 0 <= i < |id| && id[i] == '|' && Ordering.Le(id[..i], id[i + 1..]);
    var x, y := id[..i], id[i + 1..];
    d := [EntityRow(0, x), EntityRow(1, y)];
    BytesOfTwo(d[0], d[1]);
    assert id == x + "|" + y;
    assert x + "|" + (y + "|") == (x + "|" + y) + "|";
  }

  lemma DropLast(a: string, b: string)
    requires a + "|" == b + "|"
    ensures a == b
  {
    assert |a| == |b|;
    assert (a + "|")[..|a|] == a && (b + "|")[..|b|] == b;
  }

  /** Sorted ids that frame to the bytes of one id are that id, or split it at a bar. */
  lemma FramedLikeOne(ids: seq<string>, id: string)
    requires Ordering.Sorted(ids) && Framed(ids) == id + "|"
    ensures ids == [id] || FallsInTwo(id)
  {
    if |ids| == 1 {
      assert ids == [ids[0]];
      BytesOfOne(EntityRow(0, ids[0]));
      DropLast(ids[0], id);
    } else {
      var rest := FramedBody(ids[1..]);
      assert Framed(ids) == ids[0] + "|" + (rest + "|") == (ids[0] + "|" + rest) + "|";
      DropLast(ids[0] + "|" + rest, id);
      Ordering.Transitive(ids[0], ids[1], rest);
      assert id[..|ids[0]|] == ids[0] && id[|ids[0]| + 1..] == rest && id[|ids[0]|] == '|';
    }
  }

  lemma OneSharesOnlyIfSplit(c: seq<EntityRow>, d: seq<EntityRow>)
    requires |c| <= 1 && TopicBytes(d) == TopicBytes(c)
    ensures multiset(EntityIds(d)) == multiset(EntityIds(c)) || (|c| == 1 && FallsInTwo(c[0].entityId))
  {
    Ordering.SortSorts(EntityIds(d));
    var ids := Ordering.Sort(EntityIds(d));
    if c == [] {
      assert EntityIds(c) == [] && Ordering.Sort([]) == [];
      if ids != [] { var body := FramedBody(ids); }
    } else {
      assert c == [c[0]];
      BytesOfOne(c[0]);
      FramedLikeOne(ids, c[0].entityId);
    }
  }

  ghost predicate SharesBytes(c: seq<EntityRow>) {
    exists d :: TopicBytes(d) == TopicBytes(c) && multiset(EntityIds(d)) != multiset(EntityIds(c))
  }

  lemma OtherSize(c: seq<EntityRow>, d: seq<EntityRow>)
    requires TopicBytes(d) == TopicBytes(c) && |d| != |c|
    ensures SharesBytes(c)
  {
    assert |multiset(EntityIds(d))| == |d| && |multiset(EntityIds(c))| == |c|;
  }

  /** A community shares its bytes with one of other members exactly when it has two or
      more members, or its one id falls in two at a bar. */
  lemma SharedBytesExactly(c: seq<EntityRow>)
    ensures SharesBytes(c) <==> |c| >= 2 || (|c| == 1 && FallsInTwo(c[0].entityId))
  {
    if |c| >= 2 {
      var d := ManyLookLikeOne(c);
      OtherSize(c, d);
    } else {
      if |c| == 1 && FallsInTwo(c[0].entityId) {
        var d := OneLooksLikeTwo(c[0].entityId);
        assert c == [c[0]];
        BytesOfOne(c[0]);
        OtherSize(c, d);
      }
      if SharesBytes(c) {
        var d :| TopicBytes(d) == TopicBytes(c) && multiset(EntityIds(d)) != multiset(EntityIds(c));
        OneSharesOnlyIfSplit(c, d);
      }
    }
  }

  /** One of any two different communities with the same bytes holds an id with a bar. */
  lemma SharedBytesNeedABar(c: seq<EntityRow>, d: seq<EntityRow>)
    requires TopicBytes(c) == TopicBytes(d) && multiset(EntityIds(c)) != multiset(EntityIds(d))
    ensures exists e :: (e in c || e in d) && '|' in e.entityId
  {
    if forall e :: e in c || e in d ==> '|' !in e.entityId { TopicBytesIdentifyMembers(c, d); }
  }

  /** Without that condition the terminator does not separate: one entity whose id
      contains the bar hashes like two. */
  lemma BarInIdAliases()
    ensures TopicBytes([EntityRow(0, "a|b")]) == TopicBytes([EntityRow(1, "a"), EntityRow(2, "b")])
    ensures EntityIds([EntityRow(0, "a|b")]) != EntityIds([EntityRow(1, "a"), EntityRow(2, "b")])
  {
    var one, two := ["a|b"], ["a", "b"];
    assert EntityIds([EntityRow(0, "a|b")]) == one;
    assert EntityIds([EntityRow(1, "a"), EntityRow(2, "b")]) == two;
    assert one[1..] == [] && two[1..] == ["b"] && ["b"][1..] == [];
    assert Ordering.Sort(one) == one;
    assert Ordering.Le("a", "b");
    assert Ordering.Sort(["b"]) == ["b"];
    assert Ordering.Sort(two) == two;
    assert Framed(["b"]) == "b|";
    assert Framed(two) == "a|b|" == Framed(one);
  }
}
