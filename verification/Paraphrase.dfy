/**
 An input on which a mere paraphrase is invalidated, with the clusters that the greedy
 pass builds: "a" and "d" have embeddings that are alike, "b" and "c" have none. The
 votes are for a, a, b and c, and the open fact says d.
 */
module Paraphrase {
  import opened Wrappers
  import opened CanonicalText
  import opened Voting
  import opened Contradiction
  import opened Grouping
  import opened Planning
  import Clustering
  import ClusterRule

  const PRIOR := Prior("s|p|d", 0, "d", 0, false)
  const EMBEDDINGS: map<string, Clustering.Vec> := map["a" := [1.0], "d" := [1.0]]

  function Alike(x: Clustering.Vec, y: Clustering.Vec): real { 1.0 }

  lemma Letter(c: char)
    requires 'a' <= c <= 'd'
    ensures NormalizeObject([c]) == [c]
  {
    TrimFixes([c], IsSpace);
    assert LowerAll([c]) == [c];
  }

  lemma FourKeys()
    ensures VoteKeys(FOUR_VOTES) + PriorKeys([PRIOR]) == {"a", "b", "c", "d"}
  {
    Letter('a');
    Letter('b');
    Letter('c');
    Letter('d');
    assert FOUR_VOTES[0].text == Some("a") && FOUR_VOTES[2].text == Some("b") && FOUR_VOTES[3].text == Some("c");
    forall i | 0 <= i < 4 ensures Speaks(FOUR_VOTES[i]) && NormalizeObject(FOUR_VOTES[i].text.value) in {"a", "b", "c"} {}
    assert [PRIOR][0].text == "d";
  }

  lemma BuiltClusters()
    ensures JoinsAandD(ClustersFor(FOUR_VOTES, [PRIOR], EMBEDDINGS, Alike))
  {
    FourKeys();
    var keys := {"a", "b", "c", "d"};
    Clustering.AlikeShareCluster(keys, EMBEDDINGS, Alike, COSINE_THRESHOLD, "a", "d");
    Clustering.AloneWithoutEmbedding(keys, EMBEDDINGS, Alike, COSINE_THRESHOLD, "b", "a");
    Clustering.AloneWithoutEmbedding(keys, EMBEDDINGS, Alike, COSINE_THRESHOLD, "b", "c");
    Clustering.AloneWithoutEmbedding(keys, EMBEDDINGS, Alike, COSINE_THRESHOLD, "c", "a");
  }

  /** Every plan for these votes is to close the fact, although its own object is in the
      cluster of the fact. */
  lemma ParaphraseWitness(plan: Plan, key: Key, group: Group)
    requires group.votes == FOUR_VOTES
    requires IsPlan(plan, key, group, [PRIOR], ClustersFor(group.votes, [PRIOR], EMBEDDINGS, Alike))
    ensures PRIOR in plan.stale && plan.canonical.Some?
    ensures var clusters := ClustersFor(group.votes, [PRIOR], EMBEDDINGS, Alike);
      ClusterOf(PRIOR.text, clusters).Some? && ClusterOf(plan.canonical.value, clusters) == ClusterOf(PRIOR.text, clusters)
  {
    var clusters := ClustersFor(group.votes, [PRIOR], EMBEDDINGS, Alike);
    BuiltClusters();
    ParaphraseGoesStale(clusters, plan.canonical);
    StaleOfMeans([PRIOR], group.votes, clusters, PRIOR);
  }

  /** Two embedded objects share a cluster from a cosine of 0.88 on. */
  lemma SharedFrom(x: real)
    ensures var clusters := ClustersFor(FOUR_VOTES, [PRIOR], EMBEDDINGS, (u, v) => x);
      "a" in clusters && "d" in clusters && (clusters["a"] == clusters["d"] <==> x >= 0.88)
  {
    FourKeys();
    var keys, sim := {"a", "b", "c", "d"}, (u: Clustering.Vec, v: Clustering.Vec) => x;
    if x >= 0.88 {
      Clustering.AlikeShareCluster(keys, EMBEDDINGS, sim, COSINE_THRESHOLD, "a", "d");
    } else {
      ClusterRule.UnlikeShareNothing(keys, EMBEDDINGS, sim, COSINE_THRESHOLD, "a", "d");
    }
  }
}
