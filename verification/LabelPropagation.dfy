/**
 Weighted label propagation over the entity co-occurrence graph
 (crates/uniko-cortex/src/topics.rs).

 The graph is an adjacency list.  Weights are co-occurrence counts, so they are
 integers here and sums are exact.
 */
module LabelPropagation {

  datatype Edge = Edge(to: nat, weight: int)
  type Graph = seq<seq<Edge>>

  /** Every edge names a vertex: what the indexing in `RunLpa` needs. */
  predicate InRange(adj: Graph) {
    forall v, i :: 0 <= v < |adj| && 0 <= i < |adj[v]| ==> adj[v][i].to < |adj|
  }

  predicate RowInRange(row: seq<Edge>, labels: seq<nat>) {
    forall i :: 0 <= i < |row| ==> row[i].to < |labels|
  }

  /** Total weight of the edges of `row` that lead to `u`. */
  ghost function Weight(row: seq<Edge>, u: nat): int {
    if row == [] then 0
    else
      var e := row[|row| - 1];
      Weight(row[..|row| - 1], u) + if e.to == u then e.weight else 0
  }

  /** The graph the caller builds: positive weights, no self-loops, and as much
      weight from u to v as back. */
  ghost predicate CoOccurrence(adj: Graph) {
    && InRange(adj)
    && (forall v, i :: 0 <= v < |adj| && 0 <= i < |adj[v]| ==> adj[v][i].weight > 0 && adj[v][i].to != v)
    && (forall u, v :: 0 <= u < |adj| && 0 <= v < |adj| ==> Weight(adj[u], v) == Weight(adj[v], u))
  }

  // ----- the vote of one vertex -----

  /** Total weight of the neighbours in `row` that carry label `l`. */
  ghost function Score(row: seq<Edge>, labels: seq<nat>, l: nat): int
    requires RowInRange(row, labels)
  {
    if row == [] then 0
    else
      var e := row[|row| - 1];
      Score(row[..|row| - 1], labels, l) + if labels[e.to] == l then e.weight else 0
  }

  ghost function NeighbourLabels(row: seq<Edge>, labels: seq<nat>): set<nat>
    requires RowInRange(row, labels)
  {
    set i | 0 <= i < |row| :: labels[row[i].to]
  }

  ghost predicate Beats(row: seq<Edge>, labels: seq<nat>, a: nat, b: nat)
    requires RowInRange(row, labels)
  {
    Score(row, labels, a) > Score(row, labels, b) || (Score(row, labels, a) == Score(row, labels, b) && a <= b)
  }

  /** `b` is the smallest label of maximal weight among the neighbours. */
  ghost predicate IsBest(row: seq<Edge>, labels: seq<nat>, b: nat)
    requires RowInRange(row, labels)
  {
    b in NeighbourLabels(row, labels) && forall l :: l in NeighbourLabels(row, labels) ==> Beats(row, labels, b, l)
  }

  lemma BestOfSet(row: seq<Edge>, labels: seq<nat>, s: set<nat>) returns (b: nat)
    requires RowInRange(row, labels) && s != {}
    ensures b in s && forall l :: l in s ==> Beats(row, labels, b, l)
  {
    b :| b in s;
    if s != {b} {
      var rest := s - {b};
      var c := BestOfSet(row, labels, rest);
      forall l | l in s ensures Beats(row, labels, if Beats(row, labels, c, b) then c else b, l) {
        assert l == b || l in rest;
      }
      if Beats(row, labels, c, b) { b := c; }
    }
  }

  lemma BestExists(row: seq<Edge>, labels: seq<nat>)
    requires RowInRange(row, labels) && row != []
    ensures exists b :: IsBest(row, labels, b)
  {
    assert labels[row[0].to] in NeighbourLabels(row, labels);
    var b := BestOfSet(row, labels, NeighbourLabels(row, labels));
    assert IsBest(row, labels, b);
  }

  ghost function Best(row: seq<Edge>, labels: seq<nat>): (b: nat)
    requires RowInRange(row, labels) && row != []
    ensures IsBest(row, labels, b)
  {
    BestExists(row, labels);
    var b :| IsBest(row, labels, b);
    b
  }

  /** One vertex's vote.  The tally is scanned in an arbitrary order, as a hash
      map is; the outcome does not depend on it. */
  method Vote(row: seq<Edge>, labels: seq<nat>, own: nat) returns (best: nat)
    requires RowInRange(row, labels) && row != []
    ensures IsBest(row, labels, best)
  {
    var tally: map<nat, int> := map[];
    for i := 0 to |row|
      invariant tally.Keys == NeighbourLabels(row[..i], labels)
      invariant forall l :: l in tally ==> tally[l] == Score(row[..i], labels, l)
      invariant forall l :: l !in tally ==> Score(row[..i], labels, l) == 0
    {
      var l := labels[row[i].to];
      tally := tally[l := (if l in tally then tally[l] else 0) + row[i].weight];
      assert row[..i + 1][..i] == row[..i];
      assert NeighbourLabels(row[..i + 1], labels) == NeighbourLabels(row[..i], labels) + {l};
    }
    assert row[..|row|] == row;
    assert labels[row[0].to] in tally.Keys;
    best := own;
    var bestWeight := 0;
    var unset := true;  // stands for a best weight of minus infinity
    var todo := tally.Keys;
    while todo != {}
      invariant todo <= tally.Keys
      invariant unset <==> todo == tally.Keys
      invariant !unset ==> best in tally.Keys - todo && bestWeight == tally[best]
      invariant !unset ==> forall l :: l in tally && l !in todo ==> Beats(row, labels, best, l)
      decreases todo
    {
      var l :| l in todo;
      todo := todo - {l};
      if unset || tally[l] > bestWeight || (tally[l] == bestWeight && l < best) {
        bestWeight, best := tally[l], l;
      }
      unset := false;
    }
  }

  lemma BestIsUnique(row: seq<Edge>, labels: seq<nat>, a: nat, b: nat)
    requires RowInRange(row, labels) && IsBest(row, labels, a) && IsBest(row, labels, b)
    ensures a == b
  {
    assert Beats(row, labels, a, b) && Beats(row, labels, b, a);
  }

  // ----- sweeps -----

  ghost function Step(adj: Graph, labels: seq<nat>, v: nat): (r: seq<nat>)
    requires InRange(adj) && |labels| == |adj| && v < |adj|
    ensures |r| == |adj| && forall u :: 0 <= u < |adj| && u != v ==> r[u] == labels[u]
  {
    if adj[v] == [] then labels else labels[v := Best(adj[v], labels)]
  }

  /** The labels after vertices 0..k of one sweep have voted in place. */
  ghost function SweepTo(adj: Graph, labels: seq<nat>, k: nat): (r: seq<nat>)
    requires InRange(adj) && |labels| == |adj| && k <= |adj|
    ensures |r| == |adj| && forall u :: k <= u < |adj| ==> r[u] == labels[u]
  {
    if k == 0 then labels else Step(adj, SweepTo(adj, labels, k - 1), k - 1)
  }

  ghost function Sweep(adj: Graph, labels: seq<nat>): (r: seq<nat>)
    requires InRange(adj) && |labels| == |adj|
    ensures |r| == |adj|
  {
    SweepTo(adj, labels, |adj|)
  }

  /** At most `k` sweeps, stopping early after one that changes nothing. */
  ghost function Iterate(adj: Graph, labels: seq<nat>, k: nat): (r: seq<nat>)
    requires InRange(adj) && |labels| == |adj|
    ensures |r| == |adj|
    decreases k
  {
    if k == 0 || Sweep(adj, labels) == labels then labels
    else Iterate(adj, Sweep(adj, labels), k - 1)
  }

  /** Whether `k` sweeps are enough for one of them to change nothing. */
  ghost predicate ExitsUnchanged(adj: Graph, labels: seq<nat>, k: nat)
    requires InRange(adj) && |labels| == |adj|
    decreases k
  {
    k > 0 && (Sweep(adj, labels) == labels || ExitsUnchanged(adj, Sweep(adj, labels), k - 1))
  }

  ghost function OwnLabels(n: nat): (r: seq<nat>)
    ensures |r| == n && forall i :: 0 <= i < n ==> r[i] == i
  {
    seq(n, i => i)
  }

  /** One sweep in place. */
  method SweepInPlace(adj: Graph, labels: array<nat>) returns (changed: bool)
    requires InRange(adj) && labels.Length == |adj|
    modifies labels
    ensures labels[..] == Sweep(adj, old(labels[..]))
    ensures changed <==> labels[..] != old(labels[..])
  {
    changed := false;
    ghost var start := labels[..];
    for v := 0 to |adj|
      invariant labels[..] == SweepTo(adj, start, v)
      invariant changed <==> exists u :: 0 <= u < v && labels[u] != start[u]
    {
      if adj[v] != [] {
        var best := Vote(adj[v], labels[..], labels[v]);
        BestIsUnique(adj[v], labels[..], best, Best(adj[v], labels[..]));
        if best != labels[v] {
          labels[v] := best;
          changed := true;
        }
      }
    }
  }

  method RunLpa(adj: Graph, maxIter: nat) returns (out: seq<nat>)
    requires InRange(adj)
    ensures out == Iterate(adj, OwnLabels(|adj|), maxIter)
  {
    var n := |adj|;
    var labels := new nat[n](i => i);
    assert labels[..] == OwnLabels(n);
    var changed := true;
    var iter := 0;
    while iter < maxIter && changed
      invariant 0 <= iter <= maxIter
      invariant changed ==> Iterate(adj, labels[..], maxIter - iter) == Iterate(adj, OwnLabels(n), maxIter)
      invariant !changed ==> labels[..] == Iterate(adj, OwnLabels(n), maxIter)
      decreases maxIter - iter
    {
      changed := SweepInPlace(adj, labels);
      iter := iter + 1;
    }
    out := labels[..];
  }

  // ----- what an unchanged sweep means -----

  lemma {:induction false} LaterStepsKeep(adj: Graph, labels: seq<nat>, j: nat, k: nat, u: nat)
    requires InRange(adj) && |labels| == |adj| && u < j <= k <= |adj|
    ensures SweepTo(adj, labels, k)[u] == SweepTo(adj, labels, j)[u]
    decreases k
  {
    if j < k { LaterStepsKeep(adj, labels, j, k - 1, u); }
  }

  lemma UnchangedPrefix(adj: Graph, labels: seq<nat>, k: nat)
    requires InRange(adj) && |labels| == |adj| && k <= |adj| && Sweep(adj, labels) == labels
    ensures SweepTo(adj, labels, k) == labels
  {
    forall u | 0 <= u < |adj| ensures SweepTo(adj, labels, k)[u] == labels[u] {
      if u < k { LaterStepsKeep(adj, labels, k, |adj|, u); }
    }
  }

  ghost predicate Settled(adj: Graph, labels: seq<nat>)
    requires InRange(adj) && |labels| == |adj|
  {
    forall v :: 0 <= v < |adj| && adj[v] != [] ==> IsBest(adj[v], labels, labels[v])
  }

  lemma {:induction false} SettledSweep(adj: Graph, labels: seq<nat>, k: nat)
    requires InRange(adj) && |labels| == |adj| && k <= |adj| && Settled(adj, labels)
    ensures SweepTo(adj, labels, k) == labels
  {
    if k > 0 {
      SettledSweep(adj, labels, k - 1);
      if adj[k - 1] != [] {
        BestIsUnique(adj[k - 1], labels, labels[k - 1], Best(adj[k - 1], labels));
      }
    }
  }

  /** A sweep changes nothing exactly when every vertex with neighbours already
      holds the smallest label of maximal weight, all with respect to the same
      final labelling. */
  lemma UnchangedSweepIsSettled(adj: Graph, labels: seq<nat>)
    requires InRange(adj) && |labels| == |adj|
    ensures Sweep(adj, labels) == labels <==> Settled(adj, labels)
  {
    if Sweep(adj, labels) == labels {
      forall v | 0 <= v < |adj| && adj[v] != [] ensures IsBest(adj[v], labels, labels[v]) {
        UnchangedPrefix(adj, labels, v);
        UnchangedPrefix(adj, labels, v + 1);
      }
    }
    if Settled(adj, labels) { SettledSweep(adj, labels, |adj|); }
  }
}
