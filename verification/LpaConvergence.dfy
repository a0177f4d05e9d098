/**
 Why label propagation stops on its own: every label change on a co-occurrence
 graph moves a lexicographic potential down, so the sweeps settle without the
 `max_iterations` cap of crates/uniko-cortex/src/topics.rs.
 */
module LpaConvergence {
  import opened LabelPropagation

  // ----- the same-label weight -----

  ghost predicate LabelsInRange(adj: Graph, labels: seq<nat>) {
    |labels| == |adj| && forall v :: 0 <= v < |labels| ==> labels[v] < |adj|
  }

  /** Weight, over the first `k` vertices, of the edges whose ends share a label. */
  ghost function Agreement(adj: Graph, labels: seq<nat>, k: nat): int
    requires InRange(adj) && |labels| == |adj| && k <= |adj|
  {
    if k == 0 then 0 else Agreement(adj, labels, k - 1) + Score(adj[k - 1], labels, labels[k - 1])
  }

  ghost function RowTotal(row: seq<Edge>): int {
    if row == [] then 0 else RowTotal(row[..|row| - 1]) + row[|row| - 1].weight
  }

  ghost function TotalWeight(adj: Graph, k: nat): int
    requires k <= |adj|
  {
    if k == 0 then 0 else TotalWeight(adj, k - 1) + RowTotal(adj[k - 1])
  }

  ghost function LabelSum(labels: seq<nat>): nat {
    if labels == [] then 0 else LabelSum(labels[..|labels| - 1]) + labels[|labels| - 1]
  }

  /** Weight into `x` from the first `k` vertices carrying `l`. */
  ghost function Pull(adj: Graph, labels: seq<nat>, x: nat, l: nat, k: nat): int
    requires |labels| == |adj| && k <= |adj|
  {
    if k == 0 then 0
    else Pull(adj, labels, x, l, k - 1) + if labels[k - 1] == l then Weight(adj[k - 1], x) else 0
  }

  /** Weight out of `row` to the first `k` vertices carrying `l`. */
  ghost function Reach(row: seq<Edge>, labels: seq<nat>, l: nat, k: nat): int
    requires k <= |labels|
  {
    if k == 0 then 0
    else Reach(row, labels, l, k - 1) + if labels[k - 1] == l then Weight(row, k - 1) else 0
  }

  lemma {:induction false} ScoreAfterMove(row: seq<Edge>, labels: seq<nat>, x: nat, b: nat, l: nat)
    requires RowInRange(row, labels) && x < |labels|
    ensures Score(row, labels[x := b], l)
         == Score(row, labels, l) + (if b == l then Weight(row, x) else 0) - (if labels[x] == l then Weight(row, x) else 0)
  {
    if row != [] { ScoreAfterMove(row[..|row| - 1], labels, x, b, l); }
  }

  lemma {:induction false} NoLoopNoWeight(row: seq<Edge>, x: nat)
    requires forall i :: 0 <= i < |row| ==> row[i].to != x
    ensures Weight(row, x) == 0
  {
    if row != [] { NoLoopNoWeight(row[..|row| - 1], x); }
  }

  lemma {:induction false} AgreementAfterMove(adj: Graph, labels: seq<nat>, x: nat, b: nat, k: nat)
    requires InRange(adj) && |labels| == |adj| && x < |adj| && k <= |adj|
    requires forall i :: 0 <= i < |adj[x]| ==> adj[x][i].to != x
    requires labels[x] != b
    ensures Agreement(adj, labels[x := b], k)
         == Agreement(adj, labels, k) + Pull(adj, labels, x, b, k) - Pull(adj, labels, x, labels[x], k)
          + if x < k then Score(adj[x], labels, b) - Score(adj[x], labels, labels[x]) else 0
  {
    if k > 0 {
      AgreementAfterMove(adj, labels, x, b, k - 1);
      ScoreAfterMove(adj[k - 1], labels, x, b, labels[x := b][k - 1]);
      if k - 1 == x { NoLoopNoWeight(adj[x], x); }
    }
  }

  lemma {:induction false} PullIsReach(adj: Graph, labels: seq<nat>, x: nat, l: nat, k: nat)
    requires |labels| == |adj| && x < |adj| && k <= |adj|
    requires forall u :: 0 <= u < |adj| ==> Weight(adj[u], x) == Weight(adj[x], u)
    ensures Pull(adj, labels, x, l, k) == Reach(adj[x], labels, l, k)
  {
    if k > 0 { PullIsReach(adj, labels, x, l, k - 1); }
  }

  lemma {:induction false} ReachOfEdge(row: seq<Edge>, labels: seq<nat>, l: nat, k: nat)
    requires row != [] && k <= |labels|
    ensures var e := row[|row| - 1];
      Reach(row, labels, l, k)
      == Reach(row[..|row| - 1], labels, l, k) + if e.to < k && labels[e.to] == l then e.weight else 0
  {
    if k > 0 { ReachOfEdge(row, labels, l, k - 1); }
  }

  lemma {:induction false} NothingReached(labels: seq<nat>, l: nat, k: nat)
    requires k <= |labels|
    ensures Reach([], labels, l, k) == 0
  {
    if k > 0 { NothingReached(labels, l, k - 1); }
  }

  lemma {:induction false} ReachIsScore(row: seq<Edge>, labels: seq<nat>, l: nat)
    requires RowInRange(row, labels)
    ensures Reach(row, labels, l, |labels|) == Score(row, labels, l)
  {
    if row == [] {
      NothingReached(labels, l, |labels|);
    } else {
      ReachOfEdge(row, labels, l, |labels|);
      ReachIsScore(row[..|row| - 1], labels, l);
    }
  }

  /** Relabelling one vertex moves the same-label weight by exactly twice the
      difference of the two labels' scores at that vertex. */
  lemma MoveChangesAgreement(adj: Graph, labels: seq<nat>, x: nat, b: nat)
    requires CoOccurrence(adj) && |labels| == |adj| && x < |adj| && labels[x] != b
    ensures Agreement(adj, labels[x := b], |adj|) - Agreement(adj, labels, |adj|)
         == 2 * (Score(adj[x], labels, b) - Score(adj[x], labels, labels[x]))
  {
    AgreementAfterMove(adj, labels, x, b, |adj|);
    PullIsReach(adj, labels, x, b, |adj|);
    PullIsReach(adj, labels, x, labels[x], |adj|);
    ReachIsScore(adj[x], labels, b);
    ReachIsScore(adj[x], labels, labels[x]);
  }

  // ----- the potential -----

  ghost predicate Lower(adj: Graph, after: seq<nat>, before: seq<nat>)
    requires InRange(adj) && |after| == |adj| == |before|
  {
    var a, b := TotalWeight(adj, |adj|) - Agreement(adj, after, |adj|), TotalWeight(adj, |adj|) - Agreement(adj, before, |adj|);
    a < b || (a == b && LabelSum(after) < LabelSum(before))
  }

  lemma {:induction false} ScoreBounds(row: seq<Edge>, labels: seq<nat>, l: nat)
    requires RowInRange(row, labels)
    requires forall i :: 0 <= i < |row| ==> row[i].weight > 0
    ensures 0 <= Score(row, labels, l) <= RowTotal(row)
    ensures l in NeighbourLabels(row, labels) <==> Score(row, labels, l) > 0
  {
    if row != [] {
      var front, e := row[..|row| - 1], row[|row| - 1];
      ScoreBounds(front, labels, l);
      assert NeighbourLabels(row, labels) == NeighbourLabels(front, labels) + {labels[e.to]};
    }
  }

  lemma {:induction false} AgreementBounds(adj: Graph, labels: seq<nat>, k: nat)
    requires CoOccurrence(adj) && |labels| == |adj| && k <= |adj|
    ensures 0 <= Agreement(adj, labels, k) <= TotalWeight(adj, k)
  {
    if k > 0 {
      AgreementBounds(adj, labels, k - 1);
      ScoreBounds(adj[k - 1], labels, labels[k - 1]);
    }
  }

  lemma {:induction false} LabelSumAfterMove(labels: seq<nat>, x: nat, b: nat)
    requires x < |labels|
    ensures LabelSum(labels[x := b]) == LabelSum(labels) - labels[x] + b
  {
    var front := labels[..|labels| - 1];
    if x < |front| {
      LabelSumAfterMove(front, x, b);
      assert labels[x := b][..|labels| - 1] == front[x := b];
    } else {
      assert labels[x := b][..|labels| - 1] == front;
    }
  }

  lemma {:induction false} LabelSumBound(labels: seq<nat>, n: nat)
    requires forall v :: 0 <= v < |labels| ==> labels[v] < n
    ensures LabelSum(labels) <= |labels| * n
  {
    if labels != [] { LabelSumBound(labels[..|labels| - 1], n); }
  }

  /** Every label change strictly lowers (unshared weight, sum of labels) in the
      lexicographic order. */
  lemma ChangeLowers(adj: Graph, labels: seq<nat>, v: nat)
    requires CoOccurrence(adj) && LabelsInRange(adj, labels) && v < |adj|
    ensures LabelsInRange(adj, Step(adj, labels, v))
    ensures Step(adj, labels, v) == labels || Lower(adj, Step(adj, labels, v), labels)
  {
    if adj[v] != [] {
      var b := Best(adj[v], labels);
      var row := adj[v];
      if b == labels[v] {
        assert labels[v := b] == labels;
      } else {
        MoveChangesAgreement(adj, labels, v, b);
        LabelSumAfterMove(labels, v, b);
        ScoreBounds(row, labels, labels[v]);
        ScoreBounds(row, labels, b);
        if labels[v] in NeighbourLabels(row, labels) { assert Beats(row, labels, b, labels[v]); }
      }
    }
  }

  lemma {:induction false} SweepLowers(adj: Graph, labels: seq<nat>, k: nat)
    requires CoOccurrence(adj) && LabelsInRange(adj, labels) && k <= |adj|
    ensures LabelsInRange(adj, SweepTo(adj, labels, k))
    ensures SweepTo(adj, labels, k) == labels || Lower(adj, SweepTo(adj, labels, k), labels)
  {
    if k > 0 {
      SweepLowers(adj, labels, k - 1);
      ChangeLowers(adj, SweepTo(adj, labels, k - 1), k - 1);
    }
  }

  // ----- convergence without a bound on sweeps -----

  ghost function Lex(high: nat, low: nat, base: nat): nat {
    high * base + low
  }

  /** The potential as one number: how many more changing sweeps there can be. */
  ghost function Measure(adj: Graph, labels: seq<nat>): (m: nat)
    requires CoOccurrence(adj) && LabelsInRange(adj, labels)
  {
    AgreementBounds(adj, labels, |adj|);
    Lex(TotalWeight(adj, |adj|) - Agreement(adj, labels, |adj|), LabelSum(labels), |adj| * |adj| + 1)
  }

  lemma LowerMeasure(adj: Graph, after: seq<nat>, before: seq<nat>)
    requires CoOccurrence(adj) && LabelsInRange(adj, after) && LabelsInRange(adj, before)
    requires Lower(adj, after, before)
    ensures Measure(adj, after) < Measure(adj, before)
  {
    AgreementBounds(adj, after, |adj|);
    AgreementBounds(adj, before, |adj|);
    LabelSumBound(after, |adj|);
    var t := TotalWeight(adj, |adj|);
    LexDrop(t - Agreement(adj, after, |adj|), t - Agreement(adj, before, |adj|), |adj| * |adj| + 1, LabelSum(after), LabelSum(before));
  }

  lemma {:induction false} OneMoreBase(a: nat, b: nat, c: nat)
    requires a < b
    ensures b * c >= a * c + c
  {
    if b > a + 1 {
      OneMoreBase(a, b - 1, c);
      assert b * c == (b - 1) * c + c;
    } else {
      assert (a + 1) * c == a * c + c;
    }
  }

  lemma LexDrop(a: nat, b: nat, c: nat, low: nat, high: nat)
    requires a < b || (a == b && low < high)
    requires low < c
    ensures Lex(a, low, c) < Lex(b, high, c)
  {
    if a < b { OneMoreBase(a, b, c); }
  }

  /** From any labelling, `Measure + 1` sweeps always reach one that changes
      nothing; the result is settled and more sweeps allowed change nothing. */
  lemma {:induction false} Converges(adj: Graph, labels: seq<nat>, k: nat, more: nat)
    requires CoOccurrence(adj) && LabelsInRange(adj, labels)
    requires Measure(adj, labels) < k <= more
    ensures ExitsUnchanged(adj, labels, k)
    ensures Settled(adj, Iterate(adj, labels, k))
    ensures Iterate(adj, labels, more) == Iterate(adj, labels, k)
    decreases k
  {
    var next := Sweep(adj, labels);
    if next == labels {
      UnchangedSweepIsSettled(adj, labels);
    } else {
      SweepLowers(adj, labels, |adj|);
      LowerMeasure(adj, next, labels);
      Converges(adj, next, k - 1, more - 1);
    }
  }

  /** Any cap of at least `k` sweeps ends through an unchanged sweep, in one and
      the same settled labelling. */
  ghost predicate SettlesWithin(adj: Graph, k: nat)
    requires InRange(adj)
  {
    forall maxIter: nat :: maxIter >= k ==>
      && ExitsUnchanged(adj, OwnLabels(|adj|), maxIter)
      && Iterate(adj, OwnLabels(|adj|), maxIter) == Iterate(adj, OwnLabels(|adj|), k)
      && Settled(adj, Iterate(adj, OwnLabels(|adj|), maxIter))
  }

  /** The run of the source: from own labels, the cap stops mattering once it
      exceeds some number of sweeps. */
  lemma RunConverges(adj: Graph)
    requires CoOccurrence(adj)
    ensures exists k :: SettlesWithin(adj, k)
  {
    var own := OwnLabels(|adj|);
    var k := Measure(adj, own) + 1;
    forall maxIter: nat | maxIter >= k
      ensures ExitsUnchanged(adj, own, maxIter)
      ensures Iterate(adj, own, maxIter) == Iterate(adj, own, k) && Settled(adj, Iterate(adj, own, maxIter))
    {
      Converges(adj, own, k, maxIter);
      Converges(adj, own, maxIter, maxIter);
    }
    assert SettlesWithin(adj, k);
  }

  /** A run that stopped through an unchanged sweep is settled, whatever the cap
      and on any in-range graph. */
  lemma {:induction false} UnchangedExitIsSettled(adj: Graph, labels: seq<nat>, k: nat)
    requires InRange(adj) && |labels| == |adj| && ExitsUnchanged(adj, labels, k)
    ensures Settled(adj, Iterate(adj, labels, k))
    decreases k
  {
    if Sweep(adj, labels) == labels {
      UnchangedSweepIsSettled(adj, labels);
    } else {
      UnchangedExitIsSettled(adj, Sweep(adj, labels), k - 1);
    }
  }
}
