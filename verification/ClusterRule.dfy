/**
 Which cluster a key joins (`build_clusters`, 722-771 of
 crates/uniko-memory/src/consolidation.rs), read off the finished clusters: the means of
 the lesser keys' clusters, the similarities to them, and the threshold.
 */
module ClusterRule {
  import opened Wrappers
  import opened Clustering
  import Ordering

  /** The mean of the members' embeddings. */
  ghost function Mean(members: seq<string>, embeddings: map<string, Vec>, dim: nat): Vec
    requires members != []
  {
    seq(dim, j requires 0 <= j < dim => Sum(members, embeddings, j) / |members| as real)
  }

  ghost predicate UsedBefore(s: seq<string>, ids: map<string, nat>, n: nat, c: nat)
    requires n <= |s|
  {
    exists j :: 0 <= j < n && s[j] in ids && ids[s[j]] == c
  }

  /** Among the first `n` keys, cluster `c` has members, and they have embeddings. */
  ghost predicate Comparable(s: seq<string>, ids: map<string, nat>, embeddings: map<string, Vec>, n: nat, c: nat)
    requires n <= |s|
  {
    Members(s[..n], ids, c) != [] && Members(s[..n], ids, c)[0] in embeddings
  }

  /** How like key `n` is to the mean of cluster `c` so far. */
  ghost function Likeness(s: seq<string>, ids: map<string, nat>, embeddings: map<string, Vec>, sim: Similarity, dim: nat, n: nat, c: nat): real
    requires n < |s| && s[n] in embeddings && Comparable(s, ids, embeddings, n, c)
  {
    sim(embeddings[s[n]], Mean(Members(s[..n], ids, c), embeddings, dim))
  }

  /** Cluster `c` is the first of the most alike, and alike enough. */
  ghost predicate Attracts(s: seq<string>, ids: map<string, nat>, embeddings: map<string, Vec>, sim: Similarity, threshold: real, dim: nat, n: nat, c: nat)
    requires n < |s| && s[n] in embeddings
  {
    && Comparable(s, ids, embeddings, n, c)
    && Likeness(s, ids, embeddings, sim, dim, n, c) >= threshold
    && Likeness(s, ids, embeddings, sim, dim, n, c) > F32_MIN
    && forall d: nat :: Comparable(s, ids, embeddings, n, d) ==>
         Likeness(s, ids, embeddings, sim, dim, n, d) <= Likeness(s, ids, embeddings, sim, dim, n, c)
         && (d < c ==> Likeness(s, ids, embeddings, sim, dim, n, d) < Likeness(s, ids, embeddings, sim, dim, n, c))
  }

  // ----- the state before the key, read off the finished ids -----

  lemma {:induction false} MembersAgree(keys: seq<string>, a: map<string, nat>, b: map<string, nat>, c: nat)
    requires forall i :: 0 <= i < |keys| ==> keys[i] in a && keys[i] in b && a[keys[i]] == b[keys[i]]
    ensures Members(keys, a, c) == Members(keys, b, c)
  {
    if keys != [] { MembersAgree(keys[..|keys| - 1], a, b, c); }
  }

  lemma MeanIs(members: seq<string>, centroid: Vec, count: nat, embeddings: map<string, Vec>, dim: nat)
    requires MeanOf(members, centroid, count, embeddings, dim) && count == |members| >= 1
    ensures centroid == Mean(members, embeddings, dim)
  {
    forall j | 0 <= j < dim ensures centroid[j] == Sum(members, embeddings, j) / count as real {
      Divided(centroid[j], count as real, Sum(members, embeddings, j));
    }
  }

  lemma Divided(x: real, n: real, sum: real)
    requires n > 0.0 && x * n == sum
    ensures x == sum / n
  {
  }

  /** The state before key `n`: its ids are the final ones. */
  lemma StateBefore(s: seq<string>, embeddings: map<string, Vec>, sim: Similarity, threshold: real, n: nat, c: nat)
    requires Distinct(s) && n < |s|
    ensures var ids, st := Clusters(s, embeddings, sim, threshold).ids, Clusters(s[..n], embeddings, sim, threshold);
      && Members(s[..n], ids, c) == Members(s[..n], st.ids, c)
      && (UsedBefore(s, ids, n, c) <==> c < |st.counts|)
      && Counted(s[..n], st)
  {
    var front := s[..n];
    var ids, st := Clusters(s, embeddings, sim, threshold).ids, Clusters(front, embeddings, sim, threshold);
    assert Distinct(front);
    ClustersCounted(front, embeddings, sim, threshold);
    forall i | 0 <= i < n ensures front[i] in ids && front[i] in st.ids && ids[front[i]] == st.ids[front[i]] {
      assert front[i] in front;
      IdsStay(s, embeddings, sim, threshold, n, i);
    }
    MembersAgree(front, ids, st.ids, c);
    if c < |st.counts| {
      var j := SomeMember(front, st.ids, c);
      assert s[j] == front[j];
    }
    if j :| 0 <= j < n && s[j] in ids && ids[s[j]] == c { assert front[j] == s[j]; }
  }

  /** Its centroids are the means of the clusters that have embeddings. */
  lemma CentroidBefore(front: seq<string>, st: State, embeddings: map<string, Vec>, dim: nat, c: nat)
    requires Counted(front, st) && MeansOrAlone(front, st, embeddings, dim) && dim > 0 && c < |st.counts|
    ensures Members(front, st.ids, c) != []
    ensures Members(front, st.ids, c)[0] in embeddings <==> st.centroids[c] != []
    ensures st.centroids[c] != [] ==> st.centroids[c] == Mean(Members(front, st.ids, c), embeddings, dim)
  {
    assert IsMean(front, st, embeddings, dim, c) || Alone(front, st, embeddings, c);
    if IsMean(front, st, embeddings, dim, c) {
      MeanIs(Members(front, st.ids, c), st.centroids[c], st.counts[c], embeddings, dim);
    }
  }

  lemma NoneBeyond(front: seq<string>, st: State, c: nat)
    requires Counted(front, st) && c >= |st.counts|
    ensures Members(front, st.ids, c) == []
  {
    NoMembers(front, st.ids, c);
  }

  /** The clusters the key is compared with, and how like they are. */
  ghost predicate Mirrors(s: seq<string>, ids: map<string, nat>, embeddings: map<string, Vec>, sim: Similarity, dim: nat, n: nat, centroids: seq<Vec>)
    requires n < |s| && s[n] in embeddings
  {
    forall c: nat :: CompareAt(s, ids, embeddings, sim, dim, n, centroids, c)
  }

  ghost predicate CompareAt(s: seq<string>, ids: map<string, nat>, embeddings: map<string, Vec>, sim: Similarity, dim: nat, n: nat, centroids: seq<Vec>, c: nat)
    requires n < |s| && s[n] in embeddings
  {
    && (Comparable(s, ids, embeddings, n, c) <==> c < |centroids| && centroids[c] != [])
    && (c < |centroids| && centroids[c] != [] ==> Likeness(s, ids, embeddings, sim, dim, n, c) == sim(embeddings[s[n]], centroids[c]))
  }

  lemma StateMirrors(s: seq<string>, embeddings: map<string, Vec>, sim: Similarity, threshold: real, dim: nat, n: nat)
    requires Distinct(s) && dim > 0 && (forall k :: k in embeddings ==> |embeddings[k]| == dim) && n < |s| && s[n] in embeddings
    ensures Mirrors(s, Clusters(s, embeddings, sim, threshold).ids, embeddings, sim, dim, n, Clusters(s[..n], embeddings, sim, threshold).centroids)
  {
    var ids, st := Clusters(s, embeddings, sim, threshold).ids, Clusters(s[..n], embeddings, sim, threshold);
    assert Distinct(s[..n]);
    CentroidsAreMeans(s[..n], embeddings, sim, threshold, dim);
    forall c: nat ensures CompareAt(s, ids, embeddings, sim, dim, n, st.centroids, c) {
      StateBefore(s, embeddings, sim, threshold, n, c);
      if c < |st.counts| { CentroidBefore(s[..n], st, embeddings, dim, c); } else { NoneBeyond(s[..n], st, c); }
    }
  }

  /** The cluster the scan finds is the one that attracts, if any does. */
  lemma TargetAttracts(s: seq<string>, ids: map<string, nat>, embeddings: map<string, Vec>, sim: Similarity, threshold: real, dim: nat, n: nat,
                       st: State, c: nat)
    requires n < |s| && s[n] in embeddings && Mirrors(s, ids, embeddings, sim, dim, n, st.centroids)
    ensures Target(st, embeddings[s[n]], sim, threshold) == Some(c) <==> Attracts(s, ids, embeddings, sim, threshold, dim, n, c)
  {
    var e := embeddings[s[n]];
    NearestMeans(e, st.centroids, sim, |st.centroids|);
    assert CompareAt(s, ids, embeddings, sim, dim, n, st.centroids, c);
    if Attracts(s, ids, embeddings, sim, threshold, dim, n, c) {
      var b := Nearest(e, st.centroids, sim, |st.centroids|).value.0;
      assert CompareAt(s, ids, embeddings, sim, dim, n, st.centroids, b);
    }
    if Target(st, e, sim, threshold) == Some(c) {
      forall d: nat | Comparable(s, ids, embeddings, n, d)
        ensures Likeness(s, ids, embeddings, sim, dim, n, d) <= Likeness(s, ids, embeddings, sim, dim, n, c)
        ensures d < c ==> Likeness(s, ids, embeddings, sim, dim, n, d) < Likeness(s, ids, embeddings, sim, dim, n, c)
      {
        assert CompareAt(s, ids, embeddings, sim, dim, n, st.centroids, d);
      }
    }
  }

  /** The id of key `n` is decided when its turn comes. */
  lemma IdAtTurn(s: seq<string>, embeddings: map<string, Vec>, sim: Similarity, threshold: real, n: nat)
    requires Distinct(s) && n < |s| && s[n] in embeddings
    ensures var st := Clusters(s[..n], embeddings, sim, threshold);
      && s[n] in Clusters(s, embeddings, sim, threshold).ids
      && Clusters(s, embeddings, sim, threshold).ids[s[n]]
         == match Target(st, embeddings[s[n]], sim, threshold) case Some(c) => c case None => |st.counts|
  {
    assert s[..n + 1][..n] == s[..n];
    NearestMeans(embeddings[s[n]], Clusters(s[..n], embeddings, sim, threshold).centroids, sim, |Clusters(s[..n], embeddings, sim, threshold).centroids|);
    IdsStay(s, embeddings, sim, threshold, n + 1, n);
  }

  /** A key with an embedding joins an older cluster exactly when that cluster attracts
      it, and gets an id of its own exactly when none does. */
  lemma JoinsExactly(s: seq<string>, embeddings: map<string, Vec>, sim: Similarity, threshold: real, dim: nat, n: nat, c: nat)
    requires Distinct(s) && dim > 0 && (forall k :: k in embeddings ==> |embeddings[k]| == dim) && n < |s| && s[n] in embeddings
    ensures s[n] in Clusters(s, embeddings, sim, threshold).ids
    ensures var ids := Clusters(s, embeddings, sim, threshold).ids;
      && (ids[s[n]] == c && UsedBefore(s, ids, n, c) <==> Attracts(s, ids, embeddings, sim, threshold, dim, n, c))
      && (!UsedBefore(s, ids, n, ids[s[n]]) <==> forall d: nat :: !Attracts(s, ids, embeddings, sim, threshold, dim, n, d))
  {
    var ids, st := Clusters(s, embeddings, sim, threshold).ids, Clusters(s[..n], embeddings, sim, threshold);
    StateMirrors(s, embeddings, sim, threshold, dim, n);
    IdAtTurn(s, embeddings, sim, threshold, n);
    StateBefore(s, embeddings, sim, threshold, n, ids[s[n]]);
    forall d: nat
      ensures Target(st, embeddings[s[n]], sim, threshold) == Some(d) <==> Attracts(s, ids, embeddings, sim, threshold, dim, n, d)
    {
      TargetAttracts(s, ids, embeddings, sim, threshold, dim, n, st, d);
    }
    NearestMeans(embeddings[s[n]], st.centroids, sim, |st.centroids|);
  }

  /** The rule for the clusters of a key set, whose sorted listing is `s`. */
  lemma ClusterRuleOfSet(keys: set<string>, s: seq<string>, embeddings: map<string, Vec>, sim: Similarity, threshold: real, dim: nat, n: nat, c: nat)
    requires Lists(s, keys) && dim > 0 && (forall k :: k in embeddings ==> |embeddings[k]| == dim) && n < |s| && s[n] in embeddings
    ensures s[n] in ClusterMap(keys, embeddings, sim, threshold)
    ensures var ids := ClusterMap(keys, embeddings, sim, threshold);
      && (ids[s[n]] == c && UsedBefore(s, ids, n, c) <==> Attracts(s, ids, embeddings, sim, threshold, dim, n, c))
      && (!UsedBefore(s, ids, n, ids[s[n]]) <==> forall d: nat :: !Attracts(s, ids, embeddings, sim, threshold, dim, n, d))
  {
    Ordering.SortedIsUnique(s, Listing(keys));
    ListingDistinct(s, keys);
    JoinsExactly(s, embeddings, sim, threshold, dim, n, c);
  }

  // ----- unlike keys -----

  /** Every cluster has one member. */
  ghost predicate AllLone(s: State) {
    |s.centroids| == |s.counts| && forall c :: 0 <= c < |s.counts| ==> s.counts[c] == 1
  }

  lemma {:induction false} UnlikeStayApart(keys: seq<string>, embeddings: map<string, Vec>, sim: Similarity, threshold: real)
    requires forall x: Vec, y: Vec :: sim(x, y) < threshold
    ensures AllLone(Clusters(keys, embeddings, sim, threshold))
  {
    if keys != [] {
      var front, key := keys[..|keys| - 1], keys[|keys| - 1];
      UnlikeStayApart(front, embeddings, sim, threshold);
      var s := Clusters(front, embeddings, sim, threshold);
      if key in embeddings { NearestMeans(embeddings[key], s.centroids, sim, |s.centroids|); }
    }
  }

  /** Where no similarity reaches the threshold, no two keys share a cluster. */
  lemma UnlikeShareNothing(keys: set<string>, embeddings: map<string, Vec>, sim: Similarity, threshold: real, k: string, j: string)
    requires forall x: Vec, y: Vec :: sim(x, y) < threshold
    requires k in keys && j in keys
    ensures k in ClusterMap(keys, embeddings, sim, threshold) && j in ClusterMap(keys, embeddings, sim, threshold)
    ensures ClusterMap(keys, embeddings, sim, threshold)[k] == ClusterMap(keys, embeddings, sim, threshold)[j] ==> k == j
  {
    MapCounted(keys, embeddings, sim, threshold);
    UnlikeStayApart(Listing(keys), embeddings, sim, threshold);
    var f := Final(keys, embeddings, sim, threshold);
    if f.ids[k] == f.ids[j] { OneMember(InCluster(keys, f.ids, f.ids[k]), k, j); }
  }
}
