/**
 Votes on the object of a fact: tallies, the canonical object and the
 contradiction rule (`vote_tallies`, `canonical_object` and F38 in
 crates/uniko-memory/src/consolidation.rs).
 */
module Voting {
  import opened Wrappers
  import opened CanonicalText

  datatype ObjectVote = ObjectVote(text: Option<string>, observedAt: int, content: string)

  // ----- keyed tallies: count and latest time -----

  datatype Entry<T> = Entry(key: T, at: int)

  function Count<T(==)>(xs: seq<Entry<T>>, k: T): nat {
    if xs == [] then 0 else Count(xs[..|xs| - 1], k) + if xs[|xs| - 1].key == k then 1 else 0
  }

  /** The latest time at key `k`; 0 when there is none. */
  function Latest<T(==)>(xs: seq<Entry<T>>, k: T): int {
    if xs == [] then 0
    else
      var front, x := xs[..|xs| - 1], xs[|xs| - 1];
      if x.key != k then Latest(front, k)
      else if Count(front, k) == 0 || x.at > Latest(front, k) then x.at
      else Latest(front, k)
  }

  lemma Push<T>(xs: seq<Entry<T>>, x: Entry<T>, k: T)
    ensures Count(xs + [x], k) == Count(xs, k) + if x.key == k then 1 else 0
    ensures Latest(xs + [x], k) ==
      if x.key != k then Latest(xs, k) else if Count(xs, k) == 0 || x.at > Latest(xs, k) then x.at else Latest(xs, k)
  {
    assert (xs + [x])[..|xs|] == xs;
  }

  datatype Score = Score(count: nat, latest: int)

  predicate Less(a: Score, b: Score) {
    a.count < b.count || (a.count == b.count && a.latest < b.latest)
  }

  function ScoreOf<T(==)>(xs: seq<Entry<T>>, k: T): Score {
    Score(Count(xs, k), Latest(xs, k))
  }

  /** `k` has votes, and no key scores higher. */
  ghost predicate Wins<T(!new)>(xs: seq<Entry<T>>, k: T) {
    Count(xs, k) > 0 && forall j :: Count(xs, j) > 0 ==> !Less(ScoreOf(xs, k), ScoreOf(xs, j))
  }

  ghost predicate Tallied<T(!new)>(m: map<T, Score>, xs: seq<Entry<T>>) {
    && (forall k :: k in m <==> Count(xs, k) > 0)
    && (forall k :: k in m ==> m[k] == ScoreOf(xs, k))
  }

  function Bump<T(==)>(m: map<T, Score>, x: Entry<T>): map<T, Score> {
    var before := if x.key in m then m[x.key] else Score(0, x.at);
    m[x.key := Score(before.count + 1, if x.at > before.latest then x.at else before.latest)]
  }

  lemma BumpTallies<T(!new)>(m: map<T, Score>, xs: seq<Entry<T>>, x: Entry<T>)
    requires Tallied(m, xs)
    ensures Tallied(Bump(m, x), xs + [x])
  {
    forall k: T ensures k in Bump(m, x) <==> Count(xs + [x], k) > 0 { Push(xs, x, k); }
    forall k: T | k in Bump(m, x) ensures Bump(m, x)[k] == ScoreOf(xs + [x], k) { Push(xs, x, k); }
  }

  /** The entry of the highest score; a hash map yields its entries in any order. */
  method MaxEntry<T(==, !new)>(m: map<T, Score>) returns (best: Option<T>)
    ensures best == None <==> m == map[]
    ensures best.Some? ==> best.value in m && forall j :: j in m ==> !Less(m[best.value], m[j])
  {
    best := None;
    var todo := m.Keys;
    while todo != {}
      invariant todo <= m.Keys
      invariant best == None <==> todo == m.Keys
      invariant best.Some? ==> best.value in m && best.value !in todo
      invariant best.Some? ==> forall j :: j in m && j !in todo ==> !Less(m[best.value], m[j])
      decreases todo
    {
      var k :| k in todo;
      todo := todo - {k};
      if best == None || !Less(m[k], m[best.value]) {
        best := Some(k);
      }
    }
  }

  // ----- votes as entries -----

  /** The cluster and the trimmed text a vote counts for. */
  function Ballot(v: ObjectVote, clusters: map<string, nat>): Option<(nat, string)> {
    match v.text
    case None => None
    case Some(text) =>
      var trimmed := Trim(text, IsSpace);
      if trimmed != "" && LowerAll(trimmed) in clusters then Some((clusters[LowerAll(trimmed)], trimmed)) else None
  }

  /** The counted votes, keyed by cluster and surface form. */
  function SurfaceVotes(votes: seq<ObjectVote>, clusters: map<string, nat>): seq<Entry<(nat, string)>> {
    if votes == [] then []
    else
      var front, v := SurfaceVotes(votes[..|votes| - 1], clusters), votes[|votes| - 1];
      if Ballot(v, clusters).Some? then front + [Entry(Ballot(v, clusters).value, v.observedAt)] else front
  }

  /** The same votes keyed by cluster alone. */
  function PerCluster(xs: seq<Entry<(nat, string)>>): (r: seq<Entry<nat>>)
    ensures |r| == |xs| && forall i :: 0 <= i < |xs| ==> r[i] == Entry(xs[i].key.0, xs[i].at)
  {
    seq(|xs|, i requires 0 <= i < |xs| => Entry(xs[i].key.0, xs[i].at))
  }

  function ClusterVotes(votes: seq<ObjectVote>, clusters: map<string, nat>): seq<Entry<nat>> {
    PerCluster(SurfaceVotes(votes, clusters))
  }

  lemma PerClusterPush(xs: seq<Entry<(nat, string)>>, x: Entry<(nat, string)>)
    ensures PerCluster(xs + [x]) == PerCluster(xs) + [Entry(x.key.0, x.at)]
  {
  }

  // ----- canonical_object -----

  function InCluster(xs: seq<Entry<(nat, string)>>, c: nat): seq<Entry<(nat, string)>> {
    if xs == [] then []
    else InCluster(xs[..|xs| - 1], c) + if xs[|xs| - 1].key.0 == c then [xs[|xs| - 1]] else []
  }

  /** The winning surface form within the winning cluster, by count then recency. */
  ghost predicate IsCanonical(votes: seq<ObjectVote>, clusters: map<string, nat>, r: Option<string>) {
    match r
    case None => ClusterVotes(votes, clusters) == []
    case Some(text) => exists c: nat :: WinsAs(votes, clusters, c, text)
  }

  ghost predicate WinsAs(votes: seq<ObjectVote>, clusters: map<string, nat>, c: nat, text: string) {
    && Wins(ClusterVotes(votes, clusters), c)
    && Wins(InCluster(SurfaceVotes(votes, clusters), c), (c, text))
  }

  lemma {:induction false} CountInCluster(xs: seq<Entry<(nat, string)>>, c: nat, k: (nat, string))
    ensures Count(InCluster(xs, c), k) == (if k.0 == c then Count(xs, k) else 0)
    ensures k.0 == c ==> Latest(InCluster(xs, c), k) == Latest(xs, k)
  {
    if xs != [] {
      var front, x := xs[..|xs| - 1], xs[|xs| - 1];
      CountInCluster(front, c, k);
      assert xs == front + [x];
      Push(front, x, k);
      assert InCluster(xs, c) == if x.key.0 == c then InCluster(front, c) + [x] else InCluster(front, c);
      Push(InCluster(front, c), x, k);
    }
  }

  lemma {:induction false} SurfacesOfCluster(xs: seq<Entry<(nat, string)>>, c: nat)
    ensures |InCluster(xs, c)| == Count(PerCluster(xs), c)
  {
    if xs != [] {
      var front, x := xs[..|xs| - 1], xs[|xs| - 1];
      SurfacesOfCluster(front, c);
      assert xs == front + [x];
      PerClusterPush(front, x);
      Push(PerCluster(front), Entry(x.key.0, x.at), c);
    }
  }

  lemma {:induction false} SomeCounted<T>(xs: seq<Entry<T>>)
    requires xs != []
    ensures Count(xs, xs[|xs| - 1].key) > 0
  {
  }

  /** The two tallies of the votes counted so far, one more vote later. */
  lemma TallyNext(front: seq<ObjectVote>, v: ObjectVote, clusters: map<string, nat>,
                  clusterCount: map<nat, Score>, surfaceCount: map<(nat, string), Score>)
    requires Tallied(clusterCount, ClusterVotes(front, clusters)) && Tallied(surfaceCount, SurfaceVotes(front, clusters))
    ensures var votes, ballot := front + [v], Ballot(v, clusters);
      if ballot.Some? then
        && Tallied(Bump(clusterCount, Entry(ballot.value.0, v.observedAt)), ClusterVotes(votes, clusters))
        && Tallied(Bump(surfaceCount, Entry(ballot.value, v.observedAt)), SurfaceVotes(votes, clusters))
      else Tallied(clusterCount, ClusterVotes(votes, clusters)) && Tallied(surfaceCount, SurfaceVotes(votes, clusters))
  {
    assert (front + [v])[..|front|] == front;
    var ballot := Ballot(v, clusters);
    if ballot.Some? {
      PerClusterPush(SurfaceVotes(front, clusters), Entry(ballot.value, v.observedAt));
      BumpTallies(clusterCount, ClusterVotes(front, clusters), Entry(ballot.value.0, v.observedAt));
      BumpTallies(surfaceCount, SurfaceVotes(front, clusters), Entry(ballot.value, v.observedAt));
    }
  }

  method TallyVotes(votes: seq<ObjectVote>, clusters: map<string, nat>)
    returns (clusterCount: map<nat, Score>, surfaceCount: map<(nat, string), Score>)
    ensures Tallied(clusterCount, ClusterVotes(votes, clusters)) && Tallied(surfaceCount, SurfaceVotes(votes, clusters))
  {
    clusterCount, surfaceCount := map[], map[];
    for i := 0 to |votes|
      invariant Tallied(clusterCount, ClusterVotes(votes[..i], clusters))
      invariant Tallied(surfaceCount, SurfaceVotes(votes[..i], clusters))
    {
      var v := votes[i];
      assert votes[..i + 1] == votes[..i] + [v];
      TallyNext(votes[..i], v, clusters, clusterCount, surfaceCount);
      var ballot := Ballot(v, clusters);
      if ballot.Some? {
        clusterCount := Bump(clusterCount, Entry(ballot.value.0, v.observedAt));
        surfaceCount := Bump(surfaceCount, Entry(ballot.value, v.observedAt));
      }
    }
    assert votes[..|votes|] == votes;
  }

  function OfCluster(surfaceCount: map<(nat, string), Score>, c: nat): map<(nat, string), Score> {
    map k | k in surfaceCount && k.0 == c :: surfaceCount[k]
  }

  lemma ClusterTallied(ss: seq<Entry<(nat, string)>>, surfaceCount: map<(nat, string), Score>, c: nat)
    requires Tallied(surfaceCount, ss)
    ensures Tallied(OfCluster(surfaceCount, c), InCluster(ss, c))
  {
    var surfaces := OfCluster(surfaceCount, c);
    forall k: (nat, string)
      ensures k in surfaces <==> Count(InCluster(ss, c), k) > 0
      ensures k in surfaces ==> surfaces[k] == ScoreOf(InCluster(ss, c), k)
    {
      CountInCluster(ss, c, k);
    }
  }

  lemma HighestWins<T(!new)>(xs: seq<Entry<T>>, m: map<T, Score>, best: T)
    requires Tallied(m, xs) && best in m && forall j :: j in m ==> !Less(m[best], m[j])
    ensures Wins(xs, best)
  {
  }

  method CanonicalObject(votes: seq<ObjectVote>, clusters: map<string, nat>) returns (r: Option<string>)
    ensures IsCanonical(votes, clusters, r)
  {
    var clusterCount, surfaceCount := TallyVotes(votes, clusters);
    ghost var cs, ss := ClusterVotes(votes, clusters), SurfaceVotes(votes, clusters);
    var winner := MaxEntry(clusterCount);
    if winner == None {
      if cs != [] { SomeCounted(cs); }
      return None;
    }
    var c := winner.value;
    HighestWins(cs, clusterCount, c);
    var surfaces := OfCluster(surfaceCount, c);
    ClusterTallied(ss, surfaceCount, c);
    SurfacesOfCluster(ss, c);
    SomeCounted(InCluster(ss, c));
    assert InCluster(ss, c)[|InCluster(ss, c)| - 1].key in surfaces;
    var best := MaxEntry(surfaces);
    HighestWins(InCluster(ss, c), surfaces, best.value);
    assert best.value == (c, best.value.1);
    r := Some(best.value.1);
    assert WinsAs(votes, clusters, c, best.value.1);
  }

  // ----- vote_tallies -----

  /** The vote has an object. */
  predicate Speaks(v: ObjectVote) { v.text.Some? && NormalizeObject(v.text.value) != "" }

  function Total(votes: seq<ObjectVote>): nat {
    if votes == [] then 0 else Total(votes[..|votes| - 1]) + if Speaks(votes[|votes| - 1]) then 1 else 0
  }

  predicate Agrees(v: ObjectVote, target: Option<nat>, clusters: map<string, nat>) {
    Speaks(v) && NormalizeObject(v.text.value) in clusters && target == Some(clusters[NormalizeObject(v.text.value)])
  }

  function AgreeCount(votes: seq<ObjectVote>, target: Option<nat>, clusters: map<string, nat>): nat {
    if votes == [] then 0
    else AgreeCount(votes[..|votes| - 1], target, clusters) + if Agrees(votes[|votes| - 1], target, clusters) then 1 else 0
  }

  method VoteTallies(votes: seq<ObjectVote>, target: Option<nat>, clusters: map<string, nat>) returns (total: nat, agree: nat)
    ensures total == Total(votes) && agree == AgreeCount(votes, target, clusters) <= total
  {
    total, agree := 0, 0;
    for i := 0 to |votes|
      invariant total == Total(votes[..i]) && agree == AgreeCount(votes[..i], target, clusters) <= total
    {
      var v := votes[i];
      assert votes[..i + 1][..i] == votes[..i];
      if v.text.Some? {
        var key := NormalizeObject(v.text.value);
        if key != "" {
          total := total + 1;
          if target.Some? && key in clusters && clusters[key] == target.value {
            agree := agree + 1;
          }
        }
      }
    }
    assert votes[..|votes|] == votes;
  }

  /** `agree` is the vote count of the cluster in the canonical choice. */
  lemma {:induction false} AgreeIsClusterCount(votes: seq<ObjectVote>, clusters: map<string, nat>, c: nat)
    ensures AgreeCount(votes, Some(c), clusters) == Count(ClusterVotes(votes, clusters), c)
  {
    if votes != [] {
      var front, v := votes[..|votes| - 1], votes[|votes| - 1];
      AgreeIsClusterCount(front, clusters, c);
      if Ballot(v, clusters).Some? {
        var x := Entry(Ballot(v, clusters).value, v.observedAt);
        PerClusterPush(SurfaceVotes(front, clusters), x);
        Push(ClusterVotes(front, clusters), Entry(x.key.0, x.at), c);
      }
    }
  }

  /** Every object voted for has a cluster: how the cycle builds them. */
  ghost predicate Covered(votes: seq<ObjectVote>, clusters: map<string, nat>) {
    forall i :: 0 <= i < |votes| && Speaks(votes[i]) ==> NormalizeObject(votes[i].text.value) in clusters
  }

  lemma {:induction false} TotalIsAllVotes(votes: seq<ObjectVote>, clusters: map<string, nat>)
    requires Covered(votes, clusters)
    ensures |ClusterVotes(votes, clusters)| == Total(votes)
  {
    if votes != [] {
      var front := votes[..|votes| - 1];
      assert forall i :: 0 <= i < |front| ==> front[i] == votes[i];
      TotalIsAllVotes(front, clusters);
      assert Speaks(votes[|votes| - 1]) ==> NormalizeObject(votes[|votes| - 1].text.value) in clusters;
    }
  }

  function SumCounts(xs: seq<Entry<nat>>, n: nat): nat {
    if n == 0 then 0 else SumCounts(xs, n - 1) + Count(xs, n - 1)
  }

  lemma {:induction false} SumCountsPush(xs: seq<Entry<nat>>, n: nat)
    requires xs != []
    ensures SumCounts(xs, n) == SumCounts(xs[..|xs| - 1], n) + if xs[|xs| - 1].key < n then 1 else 0
  {
    if n > 0 { SumCountsPush(xs, n - 1); }
  }

  lemma {:induction false} CountsSum(xs: seq<Entry<nat>>, n: nat)
    requires forall i :: 0 <= i < |xs| ==> xs[i].key < n
    ensures SumCounts(xs, n) == |xs|
  {
    if xs == [] {
      EmptySums(n);
    } else {
      SumCountsPush(xs, n);
      CountsSum(xs[..|xs| - 1], n);
    }
  }

  lemma {:induction false} EmptySums(n: nat)
    ensures SumCounts([], n) == 0
  {
    if n > 0 { EmptySums(n - 1); }
  }

  lemma {:induction false} SurfacesInRange(votes: seq<ObjectVote>, clusters: map<string, nat>, n: nat)
    requires forall k :: k in clusters ==> clusters[k] < n
    ensures forall i :: 0 <= i < |SurfaceVotes(votes, clusters)| ==> SurfaceVotes(votes, clusters)[i].key.0 < n
  {
    if votes != [] { SurfacesInRange(votes[..|votes| - 1], clusters, n); }
  }

  /** The agree counts of all clusters add up to the total. */
  lemma AgreeCountsSumToTotal(votes: seq<ObjectVote>, clusters: map<string, nat>, n: nat)
    requires Covered(votes, clusters) && forall k :: k in clusters ==> clusters[k] < n
    ensures SumCounts(ClusterVotes(votes, clusters), n) == Total(votes)
    ensures forall c :: AgreeCount(votes, Some(c), clusters) == Count(ClusterVotes(votes, clusters), c)
  {
    SurfacesInRange(votes, clusters, n);
    CountsSum(ClusterVotes(votes, clusters), n);
    TotalIsAllVotes(votes, clusters);
    forall c ensures AgreeCount(votes, Some(c), clusters) == Count(ClusterVotes(votes, clusters), c) {
      AgreeIsClusterCount(votes, clusters, c);
    }
  }

  /** With clusters covering the votes, there is no canonical object exactly when no
      vote has one. */
  lemma NoneExactlyWhenSilent(votes: seq<ObjectVote>, clusters: map<string, nat>, r: Option<string>)
    requires Covered(votes, clusters) && IsCanonical(votes, clusters, r)
    ensures r == None <==> Total(votes) == 0
  {
    TotalIsAllVotes(votes, clusters);
    if r.Some? {
      var c :| WinsAs(votes, clusters, c, r.value);
      assert Count(ClusterVotes(votes, clusters), c) > 0;
    }
  }
}
