/**
 Label propagation never joins disconnected parts of the graph, and grouping by
 label partitions the entities (crates/uniko-cortex/src/topics.rs).
 */
module LpaComponents {
  import opened LabelPropagation

  ghost predicate Adjacent(adj: Graph, u: nat, v: nat)
    requires u < |adj|
  {
    exists i :: 0 <= i < |adj[u]| && adj[u][i].to == v
  }

  ghost predicate IsWalk(adj: Graph, p: seq<nat>) {
    && |p| > 0
    && (forall i :: 0 <= i < |p| ==> p[i] < |adj|)
    && (forall i :: 0 <= i < |p| - 1 ==> Adjacent(adj, p[i], p[i + 1]))
  }

  ghost predicate WalkBetween(adj: Graph, p: seq<nat>, u: nat, v: nat) {
    IsWalk(adj, p) && p[0] == u && p[|p| - 1] == v
  }

  ghost predicate Connected(adj: Graph, u: nat, v: nat) {
    exists p: seq<nat> :: WalkBetween(adj, p, u, v)
  }

  lemma Here(adj: Graph, u: nat)
    requires u < |adj|
    ensures Connected(adj, u, u)
  {
    assert WalkBetween(adj, [u], u, u);
  }

  lemma OneStepFurther(adj: Graph, u: nat, v: nat, w: nat)
    requires u < |adj| && Adjacent(adj, u, v) && Connected(adj, v, w)
    ensures Connected(adj, u, w)
  {
    var p: seq<nat> :| WalkBetween(adj, p, v, w);
    var q := [u] + p;
    forall i | 0 <= i < |q| - 1 ensures Adjacent(adj, q[i], q[i + 1]) {
      if i > 0 { assert Adjacent(adj, p[i - 1], p[i]); }
    }
    assert WalkBetween(adj, q, u, w);
  }

  lemma Joined(adj: Graph, u: nat, v: nat, w: nat)
    requires Connected(adj, u, v) && Connected(adj, v, w)
    ensures Connected(adj, u, w)
  {
    var p: seq<nat> :| WalkBetween(adj, p, u, v);
    var q: seq<nat> :| WalkBetween(adj, q, v, w);
    var r := p + q[1..];
    forall i | 0 <= i < |r| - 1 ensures Adjacent(adj, r[i], r[i + 1]) {
      if i < |p| - 1 {
        assert Adjacent(adj, p[i], p[i + 1]);
      } else {
        assert Adjacent(adj, q[i - |p| + 1], q[i - |p| + 2]);
      }
    }
    assert WalkBetween(adj, r, u, w);
  }

  lemma {:induction false} WeightMeansEdge(row: seq<Edge>, v: nat)
    requires forall i :: 0 <= i < |row| ==> row[i].weight > 0
    ensures Weight(row, v) >= 0
    ensures Weight(row, v) > 0 <==> exists i :: 0 <= i < |row| && row[i].to == v
  {
    if row != [] {
      WeightMeansEdge(row[..|row| - 1], v);
      var k := |row| - 1;
      if exists i :: 0 <= i < |row| && row[i].to == v {
        var i :| 0 <= i < |row| && row[i].to == v;
        if i < k { assert row[..k][i].to == v; }
      }
      if row[k].to == v { assert Weight(row, v) > 0; }
    }
  }

  lemma AdjacentBothWays(adj: Graph, u: nat, v: nat)
    requires CoOccurrence(adj) && u < |adj| && v < |adj| && Adjacent(adj, u, v)
    ensures Adjacent(adj, v, u)
  {
    WeightMeansEdge(adj[u], v);
    WeightMeansEdge(adj[v], u);
  }

  lemma {:induction false} WalkBack(adj: Graph, p: seq<nat>, u: nat, v: nat)
    requires CoOccurrence(adj) && WalkBetween(adj, p, u, v)
    ensures Connected(adj, v, u)
    decreases |p|
  {
    if |p| == 1 {
      Here(adj, u);
    } else {
      var rest := p[1..];
      forall i | 0 <= i < |rest| - 1 ensures Adjacent(adj, rest[i], rest[i + 1]) {
        assert Adjacent(adj, p[i + 1], p[i + 1 + 1]);
      }
      WalkBack(adj, rest, p[1], v);
      assert Adjacent(adj, p[0], p[0 + 1]);
      AdjacentBothWays(adj, u, p[1]);
      Here(adj, u);
      OneStepFurther(adj, p[1], u, u);
      Joined(adj, v, p[1], u);
    }
  }

  lemma ConnectedBothWays(adj: Graph, u: nat, v: nat)
    requires CoOccurrence(adj) && Connected(adj, u, v)
    ensures Connected(adj, v, u)
  {
    var p: seq<nat> :| WalkBetween(adj, p, u, v);
    WalkBack(adj, p, u, v);
  }

  // ----- the invariant of every update -----

  /** Each label names a vertex that its holder can reach. */
  ghost predicate LabelsReachable(adj: Graph, labels: seq<nat>) {
    |labels| == |adj| && forall v :: 0 <= v < |adj| ==> Connected(adj, v, labels[v])
  }

  lemma StepKeepsReachable(adj: Graph, labels: seq<nat>, v: nat)
    requires InRange(adj) && LabelsReachable(adj, labels) && v < |adj|
    ensures LabelsReachable(adj, Step(adj, labels, v))
  {
    if adj[v] != [] {
      var b := Best(adj[v], labels);
      var i :| 0 <= i < |adj[v]| && labels[adj[v][i].to] == b;
      OneStepFurther(adj, v, adj[v][i].to, b);
    }
  }

  lemma {:induction false} SweepKeepsReachable(adj: Graph, labels: seq<nat>, k: nat)
    requires InRange(adj) && LabelsReachable(adj, labels) && k <= |adj|
    ensures LabelsReachable(adj, SweepTo(adj, labels, k))
  {
    if k > 0 {
      SweepKeepsReachable(adj, labels, k - 1);
      StepKeepsReachable(adj, SweepTo(adj, labels, k - 1), k - 1);
    }
  }

  lemma {:induction false} IterateKeepsReachable(adj: Graph, labels: seq<nat>, k: nat)
    requires InRange(adj) && LabelsReachable(adj, labels)
    ensures LabelsReachable(adj, Iterate(adj, labels, k))
    decreases k
  {
    if k > 0 && Sweep(adj, labels) != labels {
      SweepKeepsReachable(adj, labels, |adj|);
      IterateKeepsReachable(adj, Sweep(adj, labels), k - 1);
    }
  }

  /** However many sweeps are allowed, two entities with one label lie in one
      connected component of the co-occurrence graph. */
  lemma SameLabelConnected(adj: Graph, maxIter: nat, u: nat, v: nat)
    requires CoOccurrence(adj) && u < |adj| && v < |adj|
    requires Iterate(adj, OwnLabels(|adj|), maxIter)[u] == Iterate(adj, OwnLabels(|adj|), maxIter)[v]
    ensures Connected(adj, u, v)
  {
    var own := OwnLabels(|adj|);
    forall w | 0 <= w < |adj| ensures Connected(adj, w, own[w]) { Here(adj, w); }
    IterateKeepsReachable(adj, own, maxIter);
    var l := Iterate(adj, own, maxIter)[u];
    ConnectedBothWays(adj, v, l);
    Joined(adj, u, l, v);
  }

  // ----- grouping -----

  /** The entities holding label `l`, in order. */
  function Members<T>(labels: seq<nat>, entities: seq<T>, l: nat): seq<T>
    requires |labels| == |entities|
  {
    if labels == [] then []
    else
      var k := |labels| - 1;
      Members(labels[..k], entities[..k], l) + if labels[k] == l then [entities[k]] else []
  }

  ghost function LabelSet(labels: seq<nat>): set<nat> {
    set i | 0 <= i < |labels| :: labels[i]
  }

  lemma MembersOfPrefix<T>(labels: seq<nat>, entities: seq<T>, i: nat, l: nat)
    requires i < |labels| == |entities|
    ensures Members(labels[..i + 1], entities[..i + 1], l)
         == Members(labels[..i], entities[..i], l) + if labels[i] == l then [entities[i]] else []
  {
    assert labels[..i + 1][..i] == labels[..i] && entities[..i + 1][..i] == entities[..i];
  }

  lemma {:induction false} NoMembers<T>(labels: seq<nat>, entities: seq<T>, l: nat)
    requires |labels| == |entities| && l !in LabelSet(labels)
    ensures Members(labels, entities, l) == []
  {
    if labels != [] {
      assert labels[|labels| - 1] in LabelSet(labels);
      NoMembers(labels[..|labels| - 1], entities[..|labels| - 1], l);
    }
  }

  lemma NewGroup<T>(groups: map<nat, seq<T>>, labels: seq<nat>, entities: seq<T>, i: nat)
    requires i < |labels| == |entities|
    requires groups.Keys == LabelSet(labels[..i])
    requires forall l :: l in groups ==> groups[l] == Members(labels[..i], entities[..i], l)
    ensures LabelSet(labels[..i + 1]) == LabelSet(labels[..i]) + {labels[i]}
    ensures var l := labels[i];
      (if l in groups then groups[l] else []) + [entities[i]] == Members(labels[..i + 1], entities[..i + 1], l)
    ensures forall l :: l in groups && l != labels[i] ==> groups[l] == Members(labels[..i + 1], entities[..i + 1], l)
  {
    if labels[i] !in groups { NoMembers(labels[..i], entities[..i], labels[i]); }
    forall l ensures Members(labels[..i + 1], entities[..i + 1], l)
        == Members(labels[..i], entities[..i], l) + if labels[i] == l then [entities[i]] else []
    {
      MembersOfPrefix(labels, entities, i, l);
    }
  }

  method GroupByLabel<T>(labels: seq<nat>, entities: seq<T>) returns (groups: map<nat, seq<T>>)
    requires |labels| == |entities|
    ensures groups.Keys == LabelSet(labels)
    ensures forall l :: l in groups ==> groups[l] == Members(labels, entities, l)
  {
    groups := map[];
    for i := 0 to |labels|
      invariant groups.Keys == LabelSet(labels[..i])
      invariant forall l :: l in groups ==> groups[l] == Members(labels[..i], entities[..i], l)
    {
      var l := labels[i];
      NewGroup(groups, labels, entities, i);
      groups := groups[l := (if l in groups then groups[l] else []) + [entities[i]]];
    }
    assert labels[..|labels|] == labels && entities[..|labels|] == entities;
  }

  function Indices(n: nat): seq<nat> {
    seq(n, i => i)
  }

  ghost predicate Increasing(s: seq<nat>) {
    forall j, k :: 0 <= j < k < |s| ==> s[j] < s[k]
  }

  /** The groups partition the entities: index `i` lands in the group of its own
      label and in no other, and a group lists its members once each, in order. */
  lemma {:induction false} GroupsPartition(labels: seq<nat>, l: nat)
    ensures forall i: nat :: i in Members(labels, Indices(|labels|), l) <==> i < |labels| && labels[i] == l
    ensures Increasing(Members(labels, Indices(|labels|), l))
  {
    if labels != [] {
      var n := |labels| - 1;
      var front := labels[..n];
      assert Indices(|labels|)[..n] == Indices(n);
      GroupsPartition(front, l);
      var s := Members(front, Indices(n), l);
      forall j | 0 <= j < |s| ensures s[j] < n { assert s[j] in s; }
      var t := s + if labels[n] == l then [n] else [];
      assert Members(labels, Indices(|labels|), l) == t;
      assert Increasing(s);
      forall i: nat ensures i in Members(labels, Indices(|labels|), l) <==> i < |labels| && labels[i] == l {
        assert i in s <==> i < n && front[i] == l;
      }
    }
  }

  /** A group never spans two components. */
  lemma GroupInOneComponent(adj: Graph, maxIter: nat, l: nat, u: nat, v: nat)
    requires CoOccurrence(adj)
    requires var members := Members(Iterate(adj, OwnLabels(|adj|), maxIter), Indices(|adj|), l); u in members && v in members
    ensures u < |adj| && v < |adj| && Connected(adj, u, v)
  {
    GroupsPartition(Iterate(adj, OwnLabels(|adj|), maxIter), l);
    SameLabelConnected(adj, maxIter, u, v);
  }
}
