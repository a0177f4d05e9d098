/**
 Greedy clustering of object strings around running-mean centroids
 (`build_clusters` in crates/uniko-memory/src/consolidation.rs).

 Embeddings are exact reals, and the similarity is any function of two of them.
 */
module Clustering {
  import opened Wrappers
  import Ordering

  type Vec = seq<real>
  type Similarity = (Vec, Vec) -> real

  /** The least finite 32-bit float, the score to beat before any is seen. */
  const F32_MIN: real := -340282346638528859811704183484516925440.0

  /** Cluster i has centroid i and counts[i] members; a centroid is empty when the
      cluster was founded without an embedding. */
  datatype State = State(centroids: seq<Vec>, counts: seq<nat>, ids: map<string, nat>)

  const START := State([], [], map[])

  // ----- one key -----

  /** The first non-empty centroid of the highest similarity among the first k. */
  function Nearest(emb: Vec, centroids: seq<Vec>, sim: Similarity, k: nat): Option<(nat, real)>
    requires k <= |centroids|
  {
    if k == 0 then None
    else
      var best := Nearest(emb, centroids, sim, k - 1);
      var c := centroids[k - 1];
      if c != [] && sim(emb, c) > (match best case None => F32_MIN case Some((_, x)) => x) then Some((k - 1, sim(emb, c))) else best
  }

  lemma {:induction false} NearestMeans(emb: Vec, centroids: seq<Vec>, sim: Similarity, k: nat)
    requires k <= |centroids|
    ensures match Nearest(emb, centroids, sim, k)
      case None => forall i :: 0 <= i < k && centroids[i] != [] ==> sim(emb, centroids[i]) <= F32_MIN
      case Some((b, s)) =>
        && b < k && centroids[b] != [] && s == sim(emb, centroids[b]) > F32_MIN
        && (forall i :: 0 <= i < k && centroids[i] != [] ==> sim(emb, centroids[i]) <= s)
        && (forall i :: 0 <= i < b && centroids[i] != [] ==> sim(emb, centroids[i]) < s)
  {
    if k > 0 { NearestMeans(emb, centroids, sim, k - 1); }
  }

  /** Fold `emb` into the mean `c` of `n` vectors. */
  function MoveMean(c: Vec, n: nat, emb: Vec): (r: Vec)
    ensures |r| == |c|
  {
    seq(|c|, j requires 0 <= j < |c| => if j < |emb| then (c[j] * n as real + emb[j]) / (n as real + 1.0) else c[j])
  }

  function Found(s: State, key: string, centroid: Vec): State {
    State(s.centroids + [centroid], s.counts + [1], s.ids[key := |s.centroids|])
  }

  function Join(s: State, key: string, emb: Vec, i: nat): State
    requires i < |s.centroids| == |s.counts|
  {
    State(s.centroids[i := MoveMean(s.centroids[i], s.counts[i], emb)], s.counts[i := s.counts[i] + 1], s.ids[key := i])
  }

  /** The cluster a key joins, if any. */
  function Target(s: State, emb: Vec, sim: Similarity, threshold: real): (r: Option<nat>)
  {
    match Nearest(emb, s.centroids, sim, |s.centroids|)
    case Some((i, x)) => if x >= threshold then Some(i) else None
    case None => None
  }

  function Assign(s: State, key: string, embeddings: map<string, Vec>, sim: Similarity, threshold: real): (r: State)
    requires |s.centroids| == |s.counts|
    ensures |r.centroids| == |r.counts| >= |s.counts|
  {
    if key !in embeddings then Found(s, key, [])
    else
      NearestMeans(embeddings[key], s.centroids, sim, |s.centroids|);
      match Target(s, embeddings[key], sim, threshold)
      case Some(i) => Join(s, key, embeddings[key], i)
      case None => Found(s, key, embeddings[key])
  }

  function Clusters(keys: seq<string>, embeddings: map<string, Vec>, sim: Similarity, threshold: real): (r: State)
    ensures |r.centroids| == |r.counts|
  {
    if keys == [] then START
    else Assign(Clusters(keys[..|keys| - 1], embeddings, sim, threshold), keys[|keys| - 1], embeddings, sim, threshold)
  }

  // ----- the method -----

  ghost predicate Lists(s: seq<string>, keys: set<string>) {
    Ordering.Sorted(s) && multiset(s) == multiset(keys)
  }

  method SortedKeys(keys: set<string>) returns (s: seq<string>)
    ensures Lists(s, keys)
  {
    s := [];
    var todo := keys;
    while todo != {}
      invariant todo <= keys && multiset(s) == multiset(keys - todo)
      decreases todo
    {
      var k :| k in todo;
      assert keys - (todo - {k}) == (keys - todo) + {k};
      todo := todo - {k};
      s := s + [k];
    }
    assert keys - {} == keys;
    Ordering.SortSorts(s);
    s := Ordering.Sort(s);
  }

  method FindNearest(emb: Vec, centroids: seq<Vec>, sim: Similarity) returns (best: Option<(nat, real)>)
    ensures best == Nearest(emb, centroids, sim, |centroids|)
  {
    best := None;
    for i := 0 to |centroids|
      invariant best == Nearest(emb, centroids, sim, i)
    {
      if centroids[i] != [] {
        var s := sim(emb, centroids[i]);
        if s > (match best case None => F32_MIN case Some((_, x)) => x) {
          best := Some((i, s));
        }
      }
    }
  }

  /** The ids depend on nothing but the key set, the embeddings, the similarity and
      the threshold: one sorted listing decides them. */
  method BuildClusters(keys: set<string>, embeddings: map<string, Vec>, sim: Similarity, threshold: real)
    returns (ids: map<string, nat>)
    ensures forall s :: Lists(s, keys) ==> ids == Clusters(s, embeddings, sim, threshold).ids
  {
    var sorted := SortedKeys(keys);
    var centroids: seq<Vec>, counts: seq<nat> := [], [];
    ids := map[];
    for k := 0 to |sorted|
      invariant State(centroids, counts, ids) == Clusters(sorted[..k], embeddings, sim, threshold)
    {
      var key := sorted[k];
      assert sorted[..k + 1][..k] == sorted[..k];
      if key !in embeddings {
        ids := ids[key := |centroids|];
        centroids, counts := centroids + [[]], counts + [1];
      } else {
        var emb := embeddings[key];
        var best := FindNearest(emb, centroids, sim);
        NearestMeans(emb, centroids, sim, |centroids|);
        if best.Some? && best.value.1 >= threshold {
          var i := best.value.0;
          centroids := centroids[i := MoveMean(centroids[i], counts[i], emb)];
          counts := counts[i := counts[i] + 1];
          ids := ids[key := i];
        } else {
          ids := ids[key := |centroids|];
          centroids, counts := centroids + [emb], counts + [1];
        }
      }
    }
    assert sorted[..|sorted|] == sorted;
    forall s | Lists(s, keys) ensures s == sorted { Ordering.SortedIsUnique(s, sorted); }
  }

  // ----- the result as a function of the key set -----

  lemma SomeListing(keys: set<string>) returns (s: seq<string>)
    ensures Lists(s, keys)
  {
    if keys == {} {
      s := [];
    } else {
      var k :| k in keys;
      s := SomeListing(keys - {k});
      Ordering.InsertKeeps(k, s);
      s := Ordering.Insert(k, s);
    }
  }

  ghost function Listing(keys: set<string>): (s: seq<string>)
    ensures Lists(s, keys)
  {
    assert exists s :: Lists(s, keys) by {
      var s := SomeListing(keys);
    }
    var s :| Lists(s, keys);
    s
  }

  ghost function ClusterMap(keys: set<string>, embeddings: map<string, Vec>, sim: Similarity, threshold: real): map<string, nat> {
    Clusters(Listing(keys), embeddings, sim, threshold).ids
  }

  lemma {:induction false} IdsAreKeys(keys: seq<string>, embeddings: map<string, Vec>, sim: Similarity, threshold: real, k: string)
    ensures k in Clusters(keys, embeddings, sim, threshold).ids <==> k in keys
  {
    if keys != [] {
      assert keys == keys[..|keys| - 1] + [keys[|keys| - 1]];
      IdsAreKeys(keys[..|keys| - 1], embeddings, sim, threshold, k);
    }
  }

  /** Every key has a cluster, and nothing else has. */
  lemma ClusterMapCovers(keys: set<string>, embeddings: map<string, Vec>, sim: Similarity, threshold: real, k: string)
    ensures k in ClusterMap(keys, embeddings, sim, threshold) <==> k in keys
  {
    var s := Listing(keys);
    IdsAreKeys(s, embeddings, sim, threshold, k);
    assert k in s <==> k in multiset(s);
    assert k in multiset(keys) <==> k in keys;
  }

  // ----- what the clusters are -----

  ghost predicate Distinct(keys: seq<string>) {
    forall i, j :: 0 <= i < j < |keys| ==> keys[i] != keys[j]
  }

  /** Members of cluster `c` among the keys, in order. */
  function Members(keys: seq<string>, ids: map<string, nat>, c: nat): seq<string> {
    if keys == [] then []
    else
      var k := keys[|keys| - 1];
      Members(keys[..|keys| - 1], ids, c) + if k in ids && ids[k] == c then [k] else []
  }

  lemma {:induction false} MembersIgnoreOthers(keys: seq<string>, ids: map<string, nat>, key: string, i: nat, c: nat)
    requires forall k :: 0 <= k < |keys| ==> keys[k] != key
    ensures Members(keys, ids[key := i], c) == Members(keys, ids, c)
  {
    if keys != [] { MembersIgnoreOthers(keys[..|keys| - 1], ids, key, i, c); }
  }

  lemma MembersPush(keys: seq<string>, ids: map<string, nat>, key: string, i: nat, c: nat)
    requires forall k :: 0 <= k < |keys| ==> keys[k] != key
    ensures Members(keys + [key], ids[key := i], c) == Members(keys, ids, c) + if c == i then [key] else []
  {
    MembersIgnoreOthers(keys, ids, key, i, c);
    assert (keys + [key])[..|keys|] == keys;
  }

  lemma {:induction false} NoMembers(keys: seq<string>, ids: map<string, nat>, c: nat)
    requires forall k :: k in ids ==> ids[k] != c
    ensures Members(keys, ids, c) == []
  {
    if keys != [] { NoMembers(keys[..|keys| - 1], ids, c); }
  }

  /** Ids are dense and every count is the size of its cluster. */
  ghost predicate Counted(keys: seq<string>, s: State) {
    && |s.centroids| == |s.counts|
    && (forall k :: k in s.ids <==> k in keys)
    && (forall k :: k in s.ids ==> s.ids[k] < |s.counts|)
    && (forall c :: 0 <= c < |s.counts| ==> s.counts[c] == |Members(keys, s.ids, c)| >= 1)
  }

  lemma AssignCounted(keys: seq<string>, s: State, key: string, i: nat, s': State)
    requires Counted(keys, s) && key !in keys
    requires |s'.centroids| == |s'.counts| && s'.ids == s.ids[key := i]
    requires (i < |s.counts| && s'.counts == s.counts[i := s.counts[i] + 1]) || (i == |s.counts| && s'.counts == s.counts + [1])
    ensures Counted(keys + [key], s')
  {
    forall c | 0 <= c < |s'.counts| ensures s'.counts[c] == |Members(keys + [key], s'.ids, c)| >= 1 {
      MembersPush(keys, s.ids, key, i, c);
      if c == |s.counts| { NoMembers(keys, s.ids, c); }
    }
  }

  /** Every key gets exactly one id, ids are dense, and `counts` tells the number of
      keys of each id. */
  lemma {:induction false} ClustersCounted(keys: seq<string>, embeddings: map<string, Vec>, sim: Similarity, threshold: real)
    requires Distinct(keys)
    ensures Counted(keys, Clusters(keys, embeddings, sim, threshold))
  {
    if keys != [] {
      var front, key := keys[..|keys| - 1], keys[|keys| - 1];
      assert Distinct(front) && key !in front && keys == front + [key];
      ClustersCounted(front, embeddings, sim, threshold);
      var s := Clusters(front, embeddings, sim, threshold);
      var s' := Clusters(keys, embeddings, sim, threshold);
      if key in embeddings { NearestMeans(embeddings[key], s.centroids, sim, |s.centroids|); }
      AssignCounted(front, s, key, s'.ids[key], s');
    }
  }

  // ----- centroids are means -----

  function Sum(keys: seq<string>, embeddings: map<string, Vec>, j: nat): real {
    if keys == [] then 0.0
    else
      var k := keys[|keys| - 1];
      Sum(keys[..|keys| - 1], embeddings, j) + if k in embeddings && j < |embeddings[k]| then embeddings[k][j] else 0.0
  }

  lemma SumPush(keys: seq<string>, key: string, embeddings: map<string, Vec>, j: nat)
    requires key in embeddings && j < |embeddings[key]|
    ensures Sum(keys + [key], embeddings, j) == Sum(keys, embeddings, j) + embeddings[key][j]
  {
    assert (keys + [key])[..|keys|] == keys;
  }

  /** `centroid` is the exact mean of the members' embeddings. */
  ghost predicate MeanOf(members: seq<string>, centroid: Vec, count: nat, embeddings: map<string, Vec>, dim: nat) {
    && |centroid| == dim
    && (forall k :: 0 <= k < |members| ==> members[k] in embeddings)
    && forall j :: 0 <= j < dim ==> centroid[j] * count as real == Sum(members, embeddings, j)
  }

  ghost predicate IsMean(keys: seq<string>, s: State, embeddings: map<string, Vec>, dim: nat, c: nat)
    requires c < |s.centroids| == |s.counts|
  {
    MeanOf(Members(keys, s.ids, c), s.centroids[c], s.counts[c], embeddings, dim)
  }

  /** A cluster founded without an embedding has no centroid and stays alone. */
  ghost predicate Alone(keys: seq<string>, s: State, embeddings: map<string, Vec>, c: nat)
    requires c < |s.centroids| == |s.counts|
  {
    var members := Members(keys, s.ids, c);
    s.centroids[c] == [] && s.counts[c] == 1 && |members| == 1 && members[0] !in embeddings
  }

  ghost predicate MeansOrAlone(keys: seq<string>, s: State, embeddings: map<string, Vec>, dim: nat) {
    && |s.centroids| == |s.counts|
    && forall c :: 0 <= c < |s.centroids| ==> IsMean(keys, s, embeddings, dim, c) || Alone(keys, s, embeddings, c)
  }

  lemma MoveMeanStep(c: real, n: nat, x: real, sum: real)
    requires n >= 1 && c * n as real == sum
    ensures (c * n as real + x) / (n as real + 1.0) * (n + 1) as real == sum + x
  {
  }

  lemma MeanMoves(members: seq<string>, centroid: Vec, count: nat, key: string, embeddings: map<string, Vec>, dim: nat)
    requires count >= 1 && key in embeddings && |embeddings[key]| == dim && MeanOf(members, centroid, count, embeddings, dim)
    ensures MeanOf(members + [key], MoveMean(centroid, count, embeddings[key]), count + 1, embeddings, dim)
  {
    var moved := MoveMean(centroid, count, embeddings[key]);
    forall j | 0 <= j < dim ensures moved[j] * (count + 1) as real == Sum(members + [key], embeddings, j) {
      SumPush(members, key, embeddings, j);
      MoveMeanStep(centroid[j], count, embeddings[key][j], Sum(members, embeddings, j));
    }
  }

  lemma JoinKeepsMean(keys: seq<string>, s: State, key: string, i: nat, embeddings: map<string, Vec>, dim: nat)
    requires Counted(keys, s) && key !in keys && i < |s.counts| && key in embeddings && |embeddings[key]| == dim
    requires IsMean(keys, s, embeddings, dim, i)
    ensures IsMean(keys + [key], Join(s, key, embeddings[key], i), embeddings, dim, i)
  {
    MembersPush(keys, s.ids, key, i, i);
    MeanMoves(Members(keys, s.ids, i), s.centroids[i], s.counts[i], key, embeddings, dim);
  }

  lemma MeanOfOne(key: string, embeddings: map<string, Vec>, dim: nat)
    requires key in embeddings && |embeddings[key]| == dim
    ensures MeanOf([key], embeddings[key], 1, embeddings, dim)
  {
    forall j | 0 <= j < dim ensures Sum([key], embeddings, j) == embeddings[key][j] {
      SumPush([], key, embeddings, j);
      assert [] + [key] == [key];
    }
  }

  lemma FoundIsMean(keys: seq<string>, s: State, key: string, embeddings: map<string, Vec>, dim: nat)
    requires Counted(keys, s) && key !in keys && key in embeddings && |embeddings[key]| == dim
    ensures IsMean(keys + [key], Found(s, key, embeddings[key]), embeddings, dim, |s.counts|)
  {
    NoMembers(keys, s.ids, |s.counts|);
    MembersPush(keys, s.ids, key, |s.counts|, |s.counts|);
    assert [] + [key] == [key];
    MeanOfOne(key, embeddings, dim);
  }

  lemma FoundAlone(keys: seq<string>, s: State, key: string, embeddings: map<string, Vec>)
    requires Counted(keys, s) && key !in keys && key !in embeddings
    ensures Alone(keys + [key], Found(s, key, []), embeddings, |s.counts|)
  {
    NoMembers(keys, s.ids, |s.counts|);
    MembersPush(keys, s.ids, key, |s.counts|, |s.counts|);
  }

  lemma OthersUntouched(keys: seq<string>, s: State, key: string, i: nat, s': State, embeddings: map<string, Vec>, dim: nat, c: nat)
    requires key !in keys && c != i && c < |s.centroids| == |s.counts| && c < |s'.centroids| == |s'.counts|
    requires s'.ids == s.ids[key := i] && s'.centroids[c] == s.centroids[c] && s'.counts[c] == s.counts[c]
    ensures IsMean(keys, s, embeddings, dim, c) ==> IsMean(keys + [key], s', embeddings, dim, c)
    ensures Alone(keys, s, embeddings, c) ==> Alone(keys + [key], s', embeddings, c)
  {
    MembersPush(keys, s.ids, key, i, c);
    assert Members(keys + [key], s'.ids, c) == Members(keys, s.ids, c);
  }

  /** With embeddings of one dimension, each centroid is at every moment the exact
      mean of its members, and a key without an embedding is its own cluster. */
  lemma {:induction false} CentroidsAreMeans(keys: seq<string>, embeddings: map<string, Vec>, sim: Similarity, threshold: real, dim: nat)
    requires Distinct(keys) && dim > 0 && forall k :: k in embeddings ==> |embeddings[k]| == dim
    ensures MeansOrAlone(keys, Clusters(keys, embeddings, sim, threshold), embeddings, dim)
  {
    if keys != [] {
      var front, key := keys[..|keys| - 1], keys[|keys| - 1];
      assert Distinct(front) && key !in front && keys == front + [key];
      var s, s' := Clusters(front, embeddings, sim, threshold), Clusters(keys, embeddings, sim, threshold);
      CentroidsAreMeans(front, embeddings, sim, threshold, dim);
      ClustersCounted(front, embeddings, sim, threshold);
      if key !in embeddings {
        FoundAlone(front, s, key, embeddings);
      } else {
        NearestMeans(embeddings[key], s.centroids, sim, |s.centroids|);
        if Target(s, embeddings[key], sim, threshold).Some? {
          JoinKeepsMean(front, s, key, s'.ids[key], embeddings, dim);
        } else {
          FoundIsMean(front, s, key, embeddings, dim);
        }
      }
      forall c | 0 <= c < |s'.centroids| && c != s'.ids[key]
        ensures IsMean(keys, s', embeddings, dim, c) || Alone(keys, s', embeddings, c)
      {
        OthersUntouched(front, s, key, s'.ids[key], s', embeddings, dim, c);
      }
    }
  }

  /** Each id is either the next new one or was given to a smaller key before. */
  ghost predicate NewOrUsed(keys: seq<string>, s: State, next: nat, k: nat)
    requires k < |keys|
  {
    keys[k] in s.ids &&
    (s.ids[keys[k]] == next ||
     (s.ids[keys[k]] < next && exists j :: 0 <= j < k && keys[j] in s.ids && s.ids[keys[j]] == s.ids[keys[k]]))
  }

  lemma LastNewOrUsed(front: seq<string>, key: string, embeddings: map<string, Vec>, sim: Similarity, threshold: real)
    requires Distinct(front) && key !in front
    ensures var s := Clusters(front, embeddings, sim, threshold);
      NewOrUsed(front + [key], Assign(s, key, embeddings, sim, threshold), |s.counts|, |front|)
  {
    var s := Clusters(front, embeddings, sim, threshold);
    var s' := Assign(s, key, embeddings, sim, threshold);
    ClustersCounted(front, embeddings, sim, threshold);
    if key in embeddings { NearestMeans(embeddings[key], s.centroids, sim, |s.centroids|); }
    var c := s'.ids[key];
    if c < |s.counts| {
      var j := SomeMember(front, s.ids, c);
      assert (front + [key])[j] == front[j];
    }
  }

  /** Clusters are numbered by their founders, smallest key first. */
  lemma {:induction false} FoundedInOrder(keys: seq<string>, embeddings: map<string, Vec>, sim: Similarity, threshold: real, k: nat)
    requires Distinct(keys) && k < |keys|
    ensures NewOrUsed(keys, Clusters(keys, embeddings, sim, threshold), |Clusters(keys[..k], embeddings, sim, threshold).counts|, k)
    decreases |keys|
  {
    var front, key := keys[..|keys| - 1], keys[|keys| - 1];
    assert Distinct(front) && key !in front && keys == front + [key];
    if k < |front| {
      FoundedInOrder(front, embeddings, sim, threshold, k);
      assert front[..k] == keys[..k];
      OlderIdsStay(front, key, embeddings, sim, threshold);
    } else {
      LastNewOrUsed(front, key, embeddings, sim, threshold);
    }
  }

  lemma OlderIdsStay(front: seq<string>, key: string, embeddings: map<string, Vec>, sim: Similarity, threshold: real)
    requires key !in front
    ensures var ids, ids' := Clusters(front, embeddings, sim, threshold).ids, Clusters(front + [key], embeddings, sim, threshold).ids;
      forall k :: 0 <= k < |front| && front[k] in ids ==> front[k] in ids' && ids'[front[k]] == ids[front[k]]
  {
    var s := Clusters(front, embeddings, sim, threshold);
    assert (front + [key])[..|front|] == front;
    if key in embeddings { NearestMeans(embeddings[key], s.centroids, sim, |s.centroids|); }
  }

  lemma {:induction false} SomeMember(keys: seq<string>, ids: map<string, nat>, c: nat) returns (j: nat)
    requires Members(keys, ids, c) != []
    ensures j < |keys| && keys[j] in ids && ids[keys[j]] == c
  {
    var k := keys[|keys| - 1];
    if k in ids && ids[k] == c { j := |keys| - 1; } else { j := SomeMember(keys[..|keys| - 1], ids, c); }
  }

  // ----- the clusters of a key set -----

  lemma TwiceListed(s: seq<string>, i: nat, j: nat)
    requires i < j < |s| && s[i] == s[j]
    ensures multiset(s)[s[j]] >= 2
  {
    assert s == s[..j] + [s[j]] + s[j + 1..] && s[i] in s[..j];
  }

  lemma ListingDistinct(s: seq<string>, keys: set<string>)
    requires Lists(s, keys)
    ensures Distinct(s) && forall k :: k in s <==> k in keys
  {
    forall k ensures k in s <==> k in keys {
      assert k in s <==> k in multiset(s);
      assert k in multiset(keys) <==> k in keys;
    }
    forall i, j | 0 <= i < j < |s| ensures s[i] != s[j] {
      assert multiset(keys)[s[j]] <= 1;
      if s[i] == s[j] { TwiceListed(s, i, j); }
    }
  }

  /** The whole result of the greedy pass: ids, counts and centroids. */
  ghost function Final(keys: set<string>, embeddings: map<string, Vec>, sim: Similarity, threshold: real): (r: State)
    ensures |r.centroids| == |r.counts|
  {
    Clusters(Listing(keys), embeddings, sim, threshold)
  }

  ghost function InCluster(keys: set<string>, ids: map<string, nat>, c: nat): set<string> {
    set k | k in keys && k in ids && ids[k] == c
  }

  lemma {:induction false} MembersAre(s: seq<string>, ids: map<string, nat>, c: nat, k: string)
    ensures k in Members(s, ids, c) <==> k in s && k in ids && ids[k] == c
  {
    if s != [] {
      assert s == s[..|s| - 1] + [s[|s| - 1]];
      MembersAre(s[..|s| - 1], ids, c, k);
    }
  }

  lemma {:induction false} MembersDistinct(s: seq<string>, ids: map<string, nat>, c: nat)
    requires Distinct(s)
    ensures Distinct(Members(s, ids, c))
  {
    if s != [] {
      var front, k := s[..|s| - 1], s[|s| - 1];
      assert s == front + [k] && k !in front;
      MembersDistinct(front, ids, c);
      var some := Members(front, ids, c);
      forall i | 0 <= i < |some| ensures some[i] != k { MembersAre(front, ids, c, some[i]); }
    }
  }

  lemma {:induction false} DistinctSize(s: seq<string>, keys: set<string>)
    requires Distinct(s) && forall k :: k in s <==> k in keys
    ensures |s| == |keys|
  {
    if s != [] {
      var front, k := s[..|s| - 1], s[|s| - 1];
      assert s == front + [k] && k !in front;
      DistinctSize(front, keys - {k});
    }
  }

  lemma MembersAsSet(s: seq<string>, keys: set<string>, ids: map<string, nat>, c: nat)
    requires Distinct(s) && forall k :: k in s <==> k in keys
    ensures |Members(s, ids, c)| == |InCluster(keys, ids, c)|
  {
    MembersDistinct(s, ids, c);
    forall k ensures k in Members(s, ids, c) <==> k in InCluster(keys, ids, c) { MembersAre(s, ids, c, k); }
    DistinctSize(Members(s, ids, c), InCluster(keys, ids, c));
  }

  /** Ids are dense, and each count is the number of keys with the id. */
  lemma MapCounted(keys: set<string>, embeddings: map<string, Vec>, sim: Similarity, threshold: real)
    ensures var f := Final(keys, embeddings, sim, threshold);
      && f.ids == ClusterMap(keys, embeddings, sim, threshold) && f.ids.Keys == keys
      && (forall k :: k in keys ==> f.ids[k] < |f.counts|)
      && (forall c :: 0 <= c < |f.counts| ==> f.counts[c] == |InCluster(keys, f.ids, c)| >= 1)
  {
    var s, f := Listing(keys), Final(keys, embeddings, sim, threshold);
    ListingDistinct(s, keys);
    ClustersCounted(s, embeddings, sim, threshold);
    forall c | 0 <= c < |f.counts| ensures f.counts[c] == |InCluster(keys, f.ids, c)| >= 1 {
      MembersAsSet(s, keys, f.ids, c);
    }
  }

  /** With embeddings of one dimension, the final centroids are the exact means of
      their members, clusters without an embedding apart. */
  lemma MapMeans(keys: set<string>, embeddings: map<string, Vec>, sim: Similarity, threshold: real, dim: nat)
    requires dim > 0 && forall k :: k in embeddings ==> |embeddings[k]| == dim
    ensures MeansOrAlone(Listing(keys), Final(keys, embeddings, sim, threshold), embeddings, dim)
    ensures Distinct(Listing(keys)) && forall k :: k in Listing(keys) <==> k in keys
  {
    ListingDistinct(Listing(keys), keys);
    CentroidsAreMeans(Listing(keys), embeddings, sim, threshold, dim);
  }

  /** A cluster without a centroid has one member, and keys without an embedding are in such. */
  ghost predicate Lonely(keys: seq<string>, s: State, embeddings: map<string, Vec>) {
    && |s.centroids| == |s.counts|
    && (forall c :: 0 <= c < |s.centroids| && s.centroids[c] == [] ==> s.counts[c] == 1)
    && (forall k :: k in keys && k !in embeddings ==> k in s.ids && s.ids[k] < |s.centroids| && s.centroids[s.ids[k]] == [])
  }

  lemma {:induction false} ClustersLonely(keys: seq<string>, embeddings: map<string, Vec>, sim: Similarity, threshold: real)
    requires Distinct(keys)
    ensures Lonely(keys, Clusters(keys, embeddings, sim, threshold), embeddings)
  {
    if keys != [] {
      var front, key := keys[..|keys| - 1], keys[|keys| - 1];
      assert Distinct(front) && key !in front && keys == front + [key];
      ClustersLonely(front, embeddings, sim, threshold);
      var s := Clusters(front, embeddings, sim, threshold);
      if key in embeddings { NearestMeans(embeddings[key], s.centroids, sim, |s.centroids|); }
    }
  }

  lemma OneMember(s: set<string>, a: string, b: string)
    requires |s| == 1 && a in s && b in s
    ensures a == b
  {
    assert |s - {a}| == 0;
  }

  /** A key without an embedding shares its cluster with no other: exact strings are the fallback. */
  lemma AloneWithoutEmbedding(keys: set<string>, embeddings: map<string, Vec>, sim: Similarity, threshold: real, k: string, j: string)
    requires k in keys && j in keys && k !in embeddings
    ensures k in ClusterMap(keys, embeddings, sim, threshold) && j in ClusterMap(keys, embeddings, sim, threshold)
    ensures ClusterMap(keys, embeddings, sim, threshold)[k] == ClusterMap(keys, embeddings, sim, threshold)[j] ==> k == j
  {
    MapCounted(keys, embeddings, sim, threshold);
    ListingDistinct(Listing(keys), keys);
    ClustersLonely(Listing(keys), embeddings, sim, threshold);
    var f := Final(keys, embeddings, sim, threshold);
    if f.ids[k] == f.ids[j] { OneMember(InCluster(keys, f.ids, f.ids[k]), k, j); }
  }

  /** No two clusters have a centroid, and embedded keys are in one that has. */
  ghost predicate OneCentroid(keys: seq<string>, s: State, embeddings: map<string, Vec>) {
    && (forall i, j :: 0 <= i < |s.centroids| && 0 <= j < |s.centroids| && s.centroids[i] != [] && s.centroids[j] != [] ==> i == j)
    && (forall k :: k in keys && k in embeddings ==> k in s.ids && s.ids[k] < |s.centroids| && s.centroids[s.ids[k]] != [])
  }

  lemma {:induction false} AlikeShareCentroid(keys: seq<string>, embeddings: map<string, Vec>, sim: Similarity, threshold: real)
    requires threshold > F32_MIN && forall x: Vec, y: Vec :: sim(x, y) >= threshold
    requires forall k :: k in embeddings ==> embeddings[k] != []
    ensures OneCentroid(keys, Clusters(keys, embeddings, sim, threshold), embeddings)
  {
    if keys != [] {
      var front, key := keys[..|keys| - 1], keys[|keys| - 1];
      assert keys == front + [key];
      AlikeShareCentroid(front, embeddings, sim, threshold);
      var s := Clusters(front, embeddings, sim, threshold);
      if key in embeddings { NearestMeans(embeddings[key], s.centroids, sim, |s.centroids|); }
    }
  }

  /** Where every similarity is high enough, all embedded keys share one cluster. */
  lemma AlikeShareCluster(keys: set<string>, embeddings: map<string, Vec>, sim: Similarity, threshold: real, k: string, j: string)
    requires threshold > F32_MIN && forall x: Vec, y: Vec :: sim(x, y) >= threshold
    requires forall i :: i in embeddings ==> embeddings[i] != []
    requires k in keys && j in keys && k in embeddings && j in embeddings
    ensures k in ClusterMap(keys, embeddings, sim, threshold) && j in ClusterMap(keys, embeddings, sim, threshold)
    ensures ClusterMap(keys, embeddings, sim, threshold)[k] == ClusterMap(keys, embeddings, sim, threshold)[j]
  {
    ListingDistinct(Listing(keys), keys);
    AlikeShareCentroid(Listing(keys), embeddings, sim, threshold);
  }

  /** The id at place `k` of a listing is new there, or an earlier place has it. */
  lemma PlaceOfId(s: seq<string>, embeddings: map<string, Vec>, sim: Similarity, threshold: real, k: nat, c: nat)
    requires Distinct(s) && k < |s| && c < |Clusters(s[..k], embeddings, sim, threshold).counts|
    ensures exists j :: 0 <= j < k && s[j] in Clusters(s, embeddings, sim, threshold).ids && Clusters(s, embeddings, sim, threshold).ids[s[j]] == c
  {
    var front := s[..k];
    assert Distinct(front);
    ClustersCounted(front, embeddings, sim, threshold);
    var ids := Clusters(front, embeddings, sim, threshold).ids;
    var j := SomeMember(front, ids, c);
    IdsStay(s, embeddings, sim, threshold, k, j);
  }

  lemma {:induction false} IdsStay(s: seq<string>, embeddings: map<string, Vec>, sim: Similarity, threshold: real, k: nat, j: nat)
    requires Distinct(s) && j < k <= |s| && s[j] in Clusters(s[..k], embeddings, sim, threshold).ids
    ensures s[j] in Clusters(s, embeddings, sim, threshold).ids
    ensures Clusters(s, embeddings, sim, threshold).ids[s[j]] == Clusters(s[..k], embeddings, sim, threshold).ids[s[j]]
    decreases |s|
  {
    if k < |s| {
      var front, key := s[..|s| - 1], s[|s| - 1];
      assert Distinct(front) && key !in front && s == front + [key] && front[..k] == s[..k] && front[j] == s[j];
      IdsStay(front, embeddings, sim, threshold, k, j);
      OlderIdsStay(front, key, embeddings, sim, threshold);
    } else {
      assert s[..k] == s;
    }
  }

  lemma FirstWith(s: seq<string>, ids: map<string, nat>, k: nat) returns (i: nat)
    requires k < |s| && forall j :: 0 <= j < |s| ==> s[j] in ids
    ensures i <= k && ids[s[i]] == ids[s[k]] && forall j :: 0 <= j < i ==> ids[s[j]] != ids[s[k]]
  {
    i := 0;
    while ids[s[i]] != ids[s[k]]
      invariant i <= k && forall j :: 0 <= j < i ==> ids[s[j]] != ids[s[k]]
      decreases k - i
    {
      i := i + 1;
    }
  }

  /** The key that opens cluster `c`: its least member, and not before a member of
      every older cluster. */
  ghost predicate Founds(keys: set<string>, ids: map<string, nat>, f: string, c: nat) {
    && f in InCluster(keys, ids, c)
    && (forall j :: j in InCluster(keys, ids, c) ==> Ordering.Le(f, j))
    && (forall b :: 0 <= b < c ==> exists j :: j in InCluster(keys, ids, b) && Ordering.Le(j, f))
  }

  /** Clusters are numbered by their least members: whichever key of a cluster is given,
      its founder is the least of the cluster, and older clusters hold lesser keys. */
  lemma FoundedByLeast(keys: set<string>, embeddings: map<string, Vec>, sim: Similarity, threshold: real, k: string)
    requires k in keys
    ensures k in ClusterMap(keys, embeddings, sim, threshold)
    ensures exists f :: Founds(keys, ClusterMap(keys, embeddings, sim, threshold), f, ClusterMap(keys, embeddings, sim, threshold)[k])
  {
    var s, ids := Listing(keys), ClusterMap(keys, embeddings, sim, threshold);
    ListingDistinct(s, keys);
    ClustersCounted(s, embeddings, sim, threshold);
    var n :| 0 <= n < |s| && s[n] == k;
    var i := FirstWith(s, ids, n);
    FoundedInOrder(s, embeddings, sim, threshold, i);
    FounderIsLeast(keys, s, embeddings, sim, threshold, i);
  }

  lemma FounderIsLeast(keys: set<string>, s: seq<string>, embeddings: map<string, Vec>, sim: Similarity, threshold: real, i: nat)
    requires Lists(s, keys) && Distinct(s) && (forall k :: k in s <==> k in keys) && i < |s|
    requires var ids := Clusters(s, embeddings, sim, threshold).ids;
      && (forall k :: k in ids <==> k in s)
      && ids[s[i]] == |Clusters(s[..i], embeddings, sim, threshold).counts|
      && (forall j :: 0 <= j < i ==> ids[s[j]] != ids[s[i]])
    ensures var ids := Clusters(s, embeddings, sim, threshold).ids; Founds(keys, ids, s[i], ids[s[i]])
  {
    var ids := Clusters(s, embeddings, sim, threshold).ids;
    forall j | j in InCluster(keys, ids, ids[s[i]]) ensures Ordering.Le(s[i], j) {
      var p :| 0 <= p < |s| && s[p] == j;
      if p == i { Ordering.Total(j, j); }
    }
    forall b | 0 <= b < ids[s[i]] ensures exists j :: j in InCluster(keys, ids, b) && Ordering.Le(j, s[i]) {
      PlaceOfId(s, embeddings, sim, threshold, i, b);
      var p :| 0 <= p < i && s[p] in ids && ids[s[p]] == b;
      assert s[p] in InCluster(keys, ids, b);
    }
  }
}
