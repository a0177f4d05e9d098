/**
 What a vote decides: the contradiction rule for prior facts (F38) against the
 canonical object (crates/uniko-memory/src/consolidation.rs, 23-29 and 386-404),
 and what the choice depends on.
 */
module Contradiction {
  import opened Wrappers
  import opened CanonicalText
  import opened Voting

  /** More than 40% of the votes are outside the prior's cluster; no votes decide nothing. */
  predicate Contradicted(total: nat, agree: nat)
    requires agree <= total
  {
    total > 0 && 5 * (total - agree) > 2 * total
  }

  function ClusterOf(text: string, clusters: map<string, nat>): Option<nat> {
    if NormalizeObject(text) in clusters then Some(clusters[NormalizeObject(text)]) else None
  }

  lemma {:induction false} AgreeWithinTotal(votes: seq<ObjectVote>, target: Option<nat>, clusters: map<string, nat>)
    ensures AgreeCount(votes, target, clusters) <= Total(votes)
  {
    if votes != [] { AgreeWithinTotal(votes[..|votes| - 1], target, clusters); }
  }

  predicate Stale(prior: string, votes: seq<ObjectVote>, clusters: map<string, nat>) {
    AgreeWithinTotal(votes, ClusterOf(prior, clusters), clusters);
    Contradicted(Total(votes), AgreeCount(votes, ClusterOf(prior, clusters), clusters))
  }

  lemma {:induction false} TwoCounts(xs: seq<Entry<nat>>, c: nat, d: nat)
    requires c != d
    ensures Count(xs, c) + Count(xs, d) <= |xs|
  {
    if xs != [] { TwoCounts(xs[..|xs| - 1], c, d); }
  }

  lemma {:induction false} CountedIsThere<T>(xs: seq<Entry<T>>, k: T) returns (i: nat)
    requires Count(xs, k) > 0
    ensures i < |xs| && xs[i].key == k
  {
    if xs[|xs| - 1].key == k {
      i := |xs| - 1;
    } else {
      i := CountedIsThere(xs[..|xs| - 1], k);
    }
  }

  /** Every counted surface form is trimmed and belongs to its cluster. */
  lemma {:induction false} SurfaceIsTrimmed(votes: seq<ObjectVote>, clusters: map<string, nat>, i: nat)
    requires i < |SurfaceVotes(votes, clusters)|
    ensures var (c, text) := SurfaceVotes(votes, clusters)[i].key;
      && Trim(text, IsSpace) == text
      && ClusterOf(text, clusters) == Some(c)
      && exists j :: 0 <= j < |votes| && votes[j].text.Some? && Trim(votes[j].text.value, IsSpace) == text
  {
    var front, v := votes[..|votes| - 1], votes[|votes| - 1];
    if i < |SurfaceVotes(front, clusters)| {
      SurfaceIsTrimmed(front, clusters, i);
      var text := SurfaceVotes(front, clusters)[i].key.1;
      var j :| 0 <= j < |front| && front[j].text.Some? && Trim(front[j].text.value, IsSpace) == text;
      assert votes[j] == front[j];
    } else {
      var text := Trim(v.text.value, IsSpace);
      TrimmedEnds(v.text.value, IsSpace);
      TrimFixes(text, IsSpace);
    }
  }

  /** The canonical object is the trimmed text of a vote, in a winning cluster. */
  lemma CanonicalIsAVote(votes: seq<ObjectVote>, clusters: map<string, nat>, r: Option<string>)
    requires IsCanonical(votes, clusters, r) && r.Some?
    ensures exists j :: 0 <= j < |votes| && votes[j].text.Some? && Trim(votes[j].text.value, IsSpace) == r.value
    ensures Trim(r.value, IsSpace) == r.value
    ensures ClusterOf(r.value, clusters).Some? && Wins(ClusterVotes(votes, clusters), ClusterOf(r.value, clusters).value)
  {
    var c :| WinsAs(votes, clusters, c, r.value);
    CountInCluster(SurfaceVotes(votes, clusters), c, (c, r.value));
    var i := CountedIsThere(SurfaceVotes(votes, clusters), (c, r.value));
    SurfaceIsTrimmed(votes, clusters, i);
  }

  /** A prior fact that is not stale holds at least 60% of the votes, so its cluster is
      the only one that can win. */
  lemma SurvivorHoldsMajority(prior: string, votes: seq<ObjectVote>, clusters: map<string, nat>)
    requires Covered(votes, clusters) && Total(votes) > 0 && !Stale(prior, votes, clusters)
    ensures ClusterOf(prior, clusters).Some?
    ensures var xs, c := ClusterVotes(votes, clusters), ClusterOf(prior, clusters).value;
      5 * Count(xs, c) >= 3 * Total(votes) && forall d :: Wins(xs, d) <==> d == c
  {
    var xs := ClusterVotes(votes, clusters);
    TotalIsAllVotes(votes, clusters);
    NobodyAgreesWithNone(votes, clusters);
    AgreeWithinTotal(votes, ClusterOf(prior, clusters), clusters);
    var c := ClusterOf(prior, clusters).value;
    AgreeIsClusterCount(votes, clusters, c);
    forall d: nat | d != c ensures Count(xs, d) < Count(xs, c) { TwoCounts(xs, c, d); }
    forall d: nat | d != c ensures !Wins(xs, d) { assert Less(ScoreOf(xs, d), ScoreOf(xs, c)); }
    assert Wins(xs, c);
  }

  lemma {:induction false} NobodyAgreesWithNone(votes: seq<ObjectVote>, clusters: map<string, nat>)
    ensures AgreeCount(votes, None, clusters) == 0
  {
    if votes != [] { NobodyAgreesWithNone(votes[..|votes| - 1], clusters); }
  }

  /** All prior facts that survive share one cluster, and the canonical object is in it. */
  lemma SurvivorsAgree(p: string, q: string, votes: seq<ObjectVote>, clusters: map<string, nat>, r: Option<string>)
    requires Covered(votes, clusters) && Total(votes) > 0 && IsCanonical(votes, clusters, r)
    requires !Stale(p, votes, clusters) && !Stale(q, votes, clusters)
    ensures ClusterOf(p, clusters).Some? && ClusterOf(p, clusters) == ClusterOf(q, clusters)
    ensures r.Some? && ClusterOf(r.value, clusters) == ClusterOf(p, clusters)
  {
    SurvivorHoldsMajority(p, votes, clusters);
    SurvivorHoldsMajority(q, votes, clusters);
    assert Wins(ClusterVotes(votes, clusters), ClusterOf(p, clusters).value);
    NoneExactlyWhenSilent(votes, clusters, r);
    CanonicalIsAVote(votes, clusters, r);
  }

  /** A prior in the cluster of the canonical object is stale exactly when that
      cluster wins with less than 60% of the votes: winning alone does not save it. */
  lemma ParaphraseStaleExactly(prior: string, votes: seq<ObjectVote>, clusters: map<string, nat>, r: Option<string>)
    requires Covered(votes, clusters) && IsCanonical(votes, clusters, r) && r.Some?
    requires ClusterOf(prior, clusters).Some? && ClusterOf(prior, clusters) == ClusterOf(r.value, clusters)
    ensures Stale(prior, votes, clusters) <==>
      5 * Count(ClusterVotes(votes, clusters), ClusterOf(prior, clusters).value) < 3 * Total(votes)
  {
    CanonicalIsAVote(votes, clusters, r);
    NoneExactlyWhenSilent(votes, clusters, r);
    AgreeIsClusterCount(votes, clusters, ClusterOf(prior, clusters).value);
    AgreeWithinTotal(votes, ClusterOf(prior, clusters), clusters);
  }

  function Said(c: char, at: int): ObjectVote {
    ObjectVote(Some([c]), at, "")
  }

  lemma OneMoreVote(front: seq<ObjectVote>, c: char, at: int, clusters: map<string, nat>)
    requires 'a' <= c <= 'z' && [c] in clusters
    ensures var votes := front + [Said(c, at)];
      && SurfaceVotes(votes, clusters) == SurfaceVotes(front, clusters) + [Entry((clusters[[c]], [c]), at)]
      && Total(votes) == Total(front) + 1
      && (Covered(front, clusters) ==> Covered(votes, clusters))
    ensures NormalizeObject([c]) == [c]
  {
    var votes := front + [Said(c, at)];
    assert votes[..|front|] == front;
    TrimFixes([c], IsSpace);
    assert LowerAll([c]) == [c];
  }

  const FOUR_VOTES := [Said('a', 1), Said('a', 2), Said('b', 3), Said('c', 4)]

  lemma FourVotes(clusters: map<string, nat>)
    requires "a" in clusters && "b" in clusters && "c" in clusters
    ensures Covered(FOUR_VOTES, clusters) && Total(FOUR_VOTES) == 4
    ensures SurfaceVotes(FOUR_VOTES, clusters) ==
      [Entry((clusters["a"], "a"), 1), Entry((clusters["a"], "a"), 2), Entry((clusters["b"], "b"), 3), Entry((clusters["c"], "c"), 4)]
  {
    var none: seq<ObjectVote> := [];
    OneMoreVote(none, 'a', 1, clusters);
    var one := none + [Said('a', 1)];
    OneMoreVote(one, 'a', 2, clusters);
    var two := one + [Said('a', 2)];
    OneMoreVote(two, 'b', 3, clusters);
    var three := two + [Said('b', 3)];
    OneMoreVote(three, 'c', 4, clusters);
    assert FOUR_VOTES == three + [Said('c', 4)];
  }

  lemma CountOfTwo<T>(a: Entry<T>, b: Entry<T>, k: T)
    ensures Count([a, b], k) == (if a.key == k then 1 else 0) + if b.key == k then 1 else 0
  {
    var none: seq<Entry<T>> := [];
    Push(none, a, k);
    Push([a], b, k);
    assert none + [a] == [a] && [a] + [b] == [a, b];
  }

  lemma CountOfFour<T>(a: Entry<T>, b: Entry<T>, c: Entry<T>, d: Entry<T>, k: T)
    ensures Count([a, b, c, d], k) ==
      (if a.key == k then 1 else 0) + (if b.key == k then 1 else 0) + (if c.key == k then 1 else 0) + if d.key == k then 1 else 0
  {
    CountOfTwo(a, b, k);
    CountOfTwo(c, d, k);
    CountAppend([a, b], [c, d], k);
    assert [a, b] + [c, d] == [a, b, c, d];
  }

  lemma TwoOfFourWin(cs: seq<Entry<nat>>, x: nat, y: nat, z: nat)
    requires cs == [Entry(x, 1), Entry(x, 2), Entry(y, 3), Entry(z, 4)] && x != y && y != z && x != z
    ensures Count(cs, x) == 2 && forall d :: Wins(cs, d) <==> d == x
  {
    forall d: nat ensures Count(cs, d) == if d == x then 2 else if d == y || d == z then 1 else 0 {
      CountOfFour(cs[0], cs[1], cs[2], cs[3], d);
    }
    forall d: nat | d != x ensures !Wins(cs, d) { assert Less(ScoreOf(cs, d), ScoreOf(cs, x)); }
  }

  lemma OnlySurfaceWins(xs: seq<Entry<(nat, string)>>, x: nat, y: nat, z: nat)
    requires xs == [Entry((x, "a"), 1), Entry((x, "a"), 2), Entry((y, "b"), 3), Entry((z, "c"), 4)] && x != y && x != z
    ensures Wins(InCluster(xs, x), (x, "a"))
  {
    forall k: (nat, string) ensures Count(InCluster(xs, x), k) == if k == (x, "a") then 2 else 0 {
      CountOfFour(xs[0], xs[1], xs[2], xs[3], k);
      CountInCluster(xs, x, k);
    }
  }

  /** Clusters in which d goes with a, and b and c are apart. */
  ghost predicate JoinsAandD(clusters: map<string, nat>) {
    && "a" in clusters && "b" in clusters && "c" in clusters && "d" in clusters
    && clusters["a"] == clusters["d"] && clusters["a"] != clusters["b"] && clusters["a"] != clusters["c"] && clusters["b"] != clusters["c"]
  }

  /** The documentation says that a mere paraphrase is never invalidated. Two votes of
      four elect a cluster and still outvote a prior fact that belongs to it. */
  lemma ParaphraseGoesStale(clusters: map<string, nat>, r: Option<string>)
    requires JoinsAandD(clusters)
    ensures Covered(FOUR_VOTES, clusters) && IsCanonical(FOUR_VOTES, clusters, Some("a")) && Stale("d", FOUR_VOTES, clusters)
    ensures IsCanonical(FOUR_VOTES, clusters, r) ==>
      r.Some? && ClusterOf(r.value, clusters).Some? && ClusterOf(r.value, clusters) == ClusterOf("d", clusters)
  {
    OneMoreVote([], 'd', 0, clusters);
    OneMoreVote([], 'a', 0, clusters);
    FourVotes(clusters);
    var xs, x := SurfaceVotes(FOUR_VOTES, clusters), clusters["a"];
    TwoOfFourWin(PerCluster(xs), x, clusters["b"], clusters["c"]);
    OnlySurfaceWins(xs, x, clusters["b"], clusters["c"]);
    assert WinsAs(FOUR_VOTES, clusters, x, "a");
    ParaphraseStaleExactly("d", FOUR_VOTES, clusters, Some("a"));
    if IsCanonical(FOUR_VOTES, clusters, r) {
      NoneExactlyWhenSilent(FOUR_VOTES, clusters, r);
      CanonicalIsAVote(FOUR_VOTES, clusters, r);
    }
  }

  // ----- the order of the votes -----

  lemma {:induction false} SurfaceAppend(a: seq<ObjectVote>, b: seq<ObjectVote>, clusters: map<string, nat>)
    ensures SurfaceVotes(a + b, clusters) == SurfaceVotes(a, clusters) + SurfaceVotes(b, clusters)
  {
    if b == [] {
      assert a + b == a;
    } else {
      assert (a + b)[..|a + b| - 1] == a + b[..|b| - 1];
      SurfaceAppend(a, b[..|b| - 1], clusters);
    }
  }

  /** The last element of `v` has a place in every permutation of it. */
  lemma TakeOut<T>(v: seq<T>, w: seq<T>) returns (a: seq<T>, b: seq<T>)
    requires multiset(v) == multiset(w) && v != []
    ensures w == a + [v[|v| - 1]] + b && multiset(v[..|v| - 1]) == multiset(a + b)
  {
    var front, x := v[..|v| - 1], v[|v| - 1];
    assert v == front + [x];
    assert x in multiset(w);
    var i :| 0 <= i < |w| && w[i] == x;
    a, b := w[..i], w[i + 1..];
    assert w == a + [x] + b;
    assert multiset(v) == multiset(front) + multiset{x};
    assert multiset(a + [x] + b) == multiset(a + b) + multiset{x};
    assert multiset(front) == multiset(v) - multiset{x} == multiset(a + b);
  }

  lemma PutBack<T>(a: seq<T>, m: seq<T>, b: seq<T>, front: seq<T>)
    requires multiset(front) == multiset(a + b)
    ensures multiset(front + m) == multiset(a + m + b)
  {
  }

  /** The counted votes are the same ones, whatever the order of the votes. */
  lemma {:induction false} SurfacePermute(v: seq<ObjectVote>, w: seq<ObjectVote>, clusters: map<string, nat>)
    requires multiset(v) == multiset(w)
    ensures multiset(SurfaceVotes(v, clusters)) == multiset(SurfaceVotes(w, clusters))
    decreases |v|
  {
    if v == [] {
      assert |w| == |multiset(w)| == 0;
    } else {
      var front, x := v[..|v| - 1], v[|v| - 1];
      assert v == front + [x];
      var a, b := TakeOut(v, w);
      SurfacePermute(front, a + b, clusters);
      SurfaceAppend(front, [x], clusters);
      SurfaceAppend(a + [x], b, clusters);
      SurfaceAppend(a, [x], clusters);
      SurfaceAppend(a, b, clusters);
      PutBack(SurfaceVotes(a, clusters), SurfaceVotes([x], clusters), SurfaceVotes(b, clusters), SurfaceVotes(front, clusters));
    }
  }

  lemma {:induction false} PerClusterPermute(x: seq<Entry<(nat, string)>>, y: seq<Entry<(nat, string)>>)
    requires multiset(x) == multiset(y)
    ensures multiset(PerCluster(x)) == multiset(PerCluster(y))
    decreases |x|
  {
    if x == [] {
      assert |y| == |multiset(y)| == 0;
    } else {
      var front, e := x[..|x| - 1], x[|x| - 1];
      assert x == front + [e];
      var a, b := TakeOut(x, y);
      PerClusterPermute(front, a + b);
      assert PerCluster(x) == PerCluster(front) + PerCluster([e]);
      assert PerCluster(y) == PerCluster(a) + PerCluster([e]) + PerCluster(b);
      assert PerCluster(a + b) == PerCluster(a) + PerCluster(b);
      PutBack(PerCluster(a), PerCluster([e]), PerCluster(b), PerCluster(front));
    }
  }

  lemma {:induction false} CountAppend<T>(a: seq<Entry<T>>, b: seq<Entry<T>>, k: T)
    ensures Count(a + b, k) == Count(a, k) + Count(b, k)
  {
    if b == [] {
      assert a + b == a;
    } else {
      assert (a + b)[..|a + b| - 1] == a + b[..|b| - 1];
      CountAppend(a, b[..|b| - 1], k);
    }
  }

  lemma {:induction false} CountPermute<T>(x: seq<Entry<T>>, y: seq<Entry<T>>, k: T)
    requires multiset(x) == multiset(y)
    ensures Count(x, k) == Count(y, k)
    decreases |x|
  {
    if x == [] {
      assert |y| == |multiset(y)| == 0;
    } else {
      var front, e := x[..|x| - 1], x[|x| - 1];
      assert x == front + [e];
      var a, b := TakeOut(x, y);
      CountPermute(front, a + b, k);
      CountAppend(front, [e], k);
      CountAppend(a + [e], b, k);
      CountAppend(a, [e], k);
      CountAppend(a, b, k);
    }
  }

  /** The latest time is a time of the key, and none is later. */
  lemma {:induction false} LatestMeans<T(!new)>(xs: seq<Entry<T>>, k: T)
    requires Count(xs, k) > 0
    ensures Entry(k, Latest(xs, k)) in xs
    ensures forall t :: Entry(k, t) in xs ==> t <= Latest(xs, k)
  {
    var front, x := xs[..|xs| - 1], xs[|xs| - 1];
    assert xs == front + [x];
    if Count(front, k) > 0 {
      LatestMeans(front, k);
    } else {
      forall t | Entry(k, t) in front ensures false { ThereIsCounted(front, Entry(k, t)); }
    }
  }

  lemma {:induction false} ThereIsCounted<T>(xs: seq<Entry<T>>, e: Entry<T>)
    requires e in xs
    ensures Count(xs, e.key) > 0
  {
    if xs[|xs| - 1] != e {
      assert xs == xs[..|xs| - 1] + [xs[|xs| - 1]];
      ThereIsCounted(xs[..|xs| - 1], e);
    }
  }

  lemma ScorePermute<T(!new)>(x: seq<Entry<T>>, y: seq<Entry<T>>, k: T)
    requires multiset(x) == multiset(y) && Count(x, k) > 0
    ensures ScoreOf(x, k) == ScoreOf(y, k)
  {
    CountPermute(x, y, k);
    LatestMeans(x, k);
    LatestMeans(y, k);
    assert Entry(k, Latest(x, k)) in multiset(x) && Entry(k, Latest(y, k)) in multiset(y);
  }

  lemma WinsPermute<T(!new)>(x: seq<Entry<T>>, y: seq<Entry<T>>, k: T)
    requires multiset(x) == multiset(y) && Wins(x, k)
    ensures Wins(y, k)
  {
    ScorePermute(x, y, k);
    forall j | Count(y, j) > 0 ensures !Less(ScoreOf(y, k), ScoreOf(y, j)) {
      CountPermute(x, y, j);
      ScorePermute(x, y, j);
    }
  }

  lemma WinsInCluster(xs: seq<Entry<(nat, string)>>, ys: seq<Entry<(nat, string)>>, c: nat, k: (nat, string))
    requires multiset(xs) == multiset(ys) && Wins(InCluster(xs, c), k)
    ensures Wins(InCluster(ys, c), k)
  {
    var inX, inY := InCluster(xs, c), InCluster(ys, c);
    forall j: (nat, string)
      ensures Count(inX, j) == Count(inY, j) && (Count(inX, j) > 0 ==> ScoreOf(inX, j) == ScoreOf(inY, j))
    {
      CountInCluster(xs, c, j);
      CountInCluster(ys, c, j);
      CountPermute(xs, ys, j);
      if Count(inX, j) > 0 { ScorePermute(xs, ys, j); }
    }
  }

  /** Permuting the votes does not change which objects may be chosen. */
  lemma ChoicesPermute(v: seq<ObjectVote>, w: seq<ObjectVote>, clusters: map<string, nat>, r: Option<string>)
    requires multiset(v) == multiset(w) && IsCanonical(v, clusters, r)
    ensures IsCanonical(w, clusters, r)
  {
    var xs, ys := SurfaceVotes(v, clusters), SurfaceVotes(w, clusters);
    SurfacePermute(v, w, clusters);
    PerClusterPermute(xs, ys);
    if r.Some? {
      var c :| WinsAs(v, clusters, c, r.value);
      WinsPermute(PerCluster(xs), PerCluster(ys), c);
      WinsInCluster(xs, ys, c, (c, r.value));
      assert WinsAs(w, clusters, c, r.value);
    } else {
      assert |ys| == |multiset(ys)| == |multiset(xs)| == |xs|;
    }
  }

  /** No two counted keys agree on both measures. */
  ghost predicate NoTies<T(!new)>(xs: seq<Entry<T>>) {
    forall j, k :: Count(xs, j) > 0 && Count(xs, k) > 0 && ScoreOf(xs, j) == ScoreOf(xs, k) ==> j == k
  }

  /** Without ties the choice is one, and the same for every order of the votes and
      every order in which the hash maps yield their entries. */
  lemma ChoiceIsUnique(v: seq<ObjectVote>, w: seq<ObjectVote>, clusters: map<string, nat>,
                       r: Option<string>, q: Option<string>)
    requires multiset(v) == multiset(w) && IsCanonical(v, clusters, r) && IsCanonical(w, clusters, q)
    requires NoTies(ClusterVotes(v, clusters)) && forall c :: NoTies(InCluster(SurfaceVotes(v, clusters), c))
    ensures r == q
  {
    ChoicesPermute(w, v, clusters, q);
    if r.Some? && q.Some? {
      var c :| WinsAs(v, clusters, c, r.value);
      var d :| WinsAs(v, clusters, d, q.value);
      OneWinner(ClusterVotes(v, clusters), c, d);
      OneWinner(InCluster(SurfaceVotes(v, clusters), c), (c, r.value), (c, q.value));
    }
  }

  lemma OneWinner<T(!new)>(xs: seq<Entry<T>>, j: T, k: T)
    requires NoTies(xs) && Wins(xs, j) && Wins(xs, k)
    ensures j == k
  {
    assert !Less(ScoreOf(xs, j), ScoreOf(xs, k)) && !Less(ScoreOf(xs, k), ScoreOf(xs, j));
  }
}
