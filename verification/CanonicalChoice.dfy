/**
 What the canonical object is, said on the votes themselves (`canonical_object`, 808-853 of
 crates/uniko-memory/src/consolidation.rs): how many votes each cluster and each spelling
 has, and when they were cast.
 */
module CanonicalChoice {
  import opened Wrappers
  import opened CanonicalText
  import opened Voting
  import opened Contradiction

  // ----- who votes for what -----

  /** The vote has an object, and its key is in cluster `c`. */
  predicate VotesIn(v: ObjectVote, clusters: map<string, nat>, c: nat) {
    && v.text.Some? && NormalizeObject(v.text.value) != ""
    && NormalizeObject(v.text.value) in clusters && clusters[NormalizeObject(v.text.value)] == c
  }

  /** It spells the object `text`, white space around it apart. */
  predicate Spells(v: ObjectVote, text: string) {
    v.text.Some? && Trim(v.text.value, IsSpace) == text
  }

  ghost function Camp(votes: seq<ObjectVote>, clusters: map<string, nat>, c: nat): set<nat> {
    set i | 0 <= i < |votes| && VotesIn(votes[i], clusters, c)
  }

  ghost function Spellers(votes: seq<ObjectVote>, clusters: map<string, nat>, c: nat, text: string): set<nat> {
    set i | 0 <= i < |votes| && VotesIn(votes[i], clusters, c) && Spells(votes[i], text)
  }

  lemma BallotMeans(v: ObjectVote, clusters: map<string, nat>, c: nat, text: string)
    ensures Ballot(v, clusters) == Some((c, text)) <==> VotesIn(v, clusters, c) && Spells(v, text)
    ensures Ballot(v, clusters).Some? && Ballot(v, clusters).value.0 == c <==> VotesIn(v, clusters, c)
  {
    if v.text.Some? { assert |NormalizeObject(v.text.value)| == |Trim(v.text.value, IsSpace)|; }
  }

  // ----- tallies are sizes -----

  ghost predicate CastAt(votes: seq<ObjectVote>, camp: set<nat>, t: int) {
    exists i :: i in camp && i < |votes| && votes[i].observedAt == t
  }

  lemma CampPush(front: seq<ObjectVote>, v: ObjectVote, clusters: map<string, nat>, c: nat, text: string)
    ensures Camp(front + [v], clusters, c) == Camp(front, clusters, c) + if VotesIn(v, clusters, c) then {|front|} else {}
    ensures Spellers(front + [v], clusters, c, text)
         == Spellers(front, clusters, c, text) + if VotesIn(v, clusters, c) && Spells(v, text) then {|front|} else {}
  {
  }

  lemma {:induction false} SpellersCounted(votes: seq<ObjectVote>, clusters: map<string, nat>, c: nat, text: string)
    ensures Count(SurfaceVotes(votes, clusters), (c, text)) == |Spellers(votes, clusters, c, text)|
  {
    if votes == [] {
      assert Spellers(votes, clusters, c, text) == {};
    } else {
      var front, v := votes[..|votes| - 1], votes[|votes| - 1];
      assert votes == front + [v];
      SpellersCounted(front, clusters, c, text);
      CampPush(front, v, clusters, c, text);
      BallotMeans(v, clusters, c, text);
      if Ballot(v, clusters).Some? { Push(SurfaceVotes(front, clusters), Entry(Ballot(v, clusters).value, v.observedAt), (c, text)); }
    }
  }

  lemma {:induction false} CampCounted(votes: seq<ObjectVote>, clusters: map<string, nat>, c: nat)
    ensures Count(ClusterVotes(votes, clusters), c) == |Camp(votes, clusters, c)|
  {
    if votes == [] {
      assert Camp(votes, clusters, c) == {};
    } else {
      var front, v := votes[..|votes| - 1], votes[|votes| - 1];
      assert votes == front + [v];
      CampCounted(front, clusters, c);
      CampPush(front, v, clusters, c, "");
      BallotMeans(v, clusters, c, "");
      if Ballot(v, clusters).Some? {
        PerClusterPush(SurfaceVotes(front, clusters), Entry(Ballot(v, clusters).value, v.observedAt));
        Push(ClusterVotes(front, clusters), Entry(Ballot(v, clusters).value.0, v.observedAt), c);
      }
    }
  }

  lemma {:induction false} SurfaceTimes(votes: seq<ObjectVote>, clusters: map<string, nat>, c: nat, text: string, t: int)
    ensures Entry((c, text), t) in SurfaceVotes(votes, clusters) <==> CastAt(votes, Spellers(votes, clusters, c, text), t)
  {
    if votes != [] {
      var front, v := votes[..|votes| - 1], votes[|votes| - 1];
      assert votes == front + [v];
      SurfaceTimes(front, clusters, c, text, t);
      CampPush(front, v, clusters, c, text);
      BallotMeans(v, clusters, c, text);
      CastPush(front, v, Spellers(front, clusters, c, text), VotesIn(v, clusters, c) && Spells(v, text), t);
    }
  }

  lemma {:induction false} CampTimes(votes: seq<ObjectVote>, clusters: map<string, nat>, c: nat, t: int)
    ensures Entry(c, t) in ClusterVotes(votes, clusters) <==> CastAt(votes, Camp(votes, clusters, c), t)
  {
    if votes != [] {
      var front, v := votes[..|votes| - 1], votes[|votes| - 1];
      assert votes == front + [v];
      CampTimes(front, clusters, c, t);
      CampPush(front, v, clusters, c, "");
      BallotMeans(v, clusters, c, "");
      CastPush(front, v, Camp(front, clusters, c), VotesIn(v, clusters, c), t);
      if Ballot(v, clusters).Some? { PerClusterPush(SurfaceVotes(front, clusters), Entry(Ballot(v, clusters).value, v.observedAt)); }
    }
  }

  lemma CastPush(front: seq<ObjectVote>, v: ObjectVote, camp: set<nat>, joins: bool, t: int)
    requires forall i :: i in camp ==> i < |front|
    ensures CastAt(front + [v], camp + (if joins then {|front|} else {}), t) <==> CastAt(front, camp, t) || (joins && v.observedAt == t)
  {
    var all := front + [v];
    if i :| i in camp && i < |front| && front[i].observedAt == t { assert all[i].observedAt == t; }
    if joins { assert all[|front|] == v; }
  }

  // ----- preference -----

  /** More votes, or as many and none of the others is later than all of them. */
  ghost predicate Preferred(votes: seq<ObjectVote>, a: set<nat>, b: set<nat>) {
    |a| > |b| || (|a| == |b| && forall t :: CastAt(votes, b, t) ==> exists u :: CastAt(votes, a, u) && t <= u)
  }

  /** `a` and `b` are the votes that the tally holds for `j` and `k`. */
  ghost predicate Tells<T(!new)>(xs: seq<Entry<T>>, k: T, votes: seq<ObjectVote>, a: set<nat>) {
    Count(xs, k) == |a| && forall t :: Entry(k, t) in xs <==> CastAt(votes, a, t)
  }

  lemma NotLessExactly<T(!new)>(xs: seq<Entry<T>>, k: T, j: T, votes: seq<ObjectVote>, a: set<nat>, b: set<nat>)
    requires Tells(xs, k, votes, a) && Tells(xs, j, votes, b) && a != {} && b != {}
    ensures !Less(ScoreOf(xs, k), ScoreOf(xs, j)) <==> Preferred(votes, a, b)
  {
    assert |a| > 0 && |b| > 0;
    LatestMeans(xs, k);
    LatestMeans(xs, j);
    assert CastAt(votes, a, Latest(xs, k)) && CastAt(votes, b, Latest(xs, j));
    forall t | CastAt(votes, b, t) ensures t <= Latest(xs, j) { assert Entry(j, t) in xs; }
    forall t | CastAt(votes, a, t) ensures t <= Latest(xs, k) { assert Entry(k, t) in xs; }
  }

  lemma CampTold(votes: seq<ObjectVote>, clusters: map<string, nat>, c: nat)
    ensures Tells(ClusterVotes(votes, clusters), c, votes, Camp(votes, clusters, c))
  {
    CampCounted(votes, clusters, c);
    forall t ensures Entry(c, t) in ClusterVotes(votes, clusters) <==> CastAt(votes, Camp(votes, clusters, c), t) { CampTimes(votes, clusters, c, t); }
  }

  lemma InClusterHolds(xs: seq<Entry<(nat, string)>>, c: nat, e: Entry<(nat, string)>)
    ensures e in InCluster(xs, c) <==> e in xs && e.key.0 == c
  {
    if xs != [] {
      assert xs == xs[..|xs| - 1] + [xs[|xs| - 1]];
      InClusterHolds(xs[..|xs| - 1], c, e);
    }
  }

  lemma SpellersTold(votes: seq<ObjectVote>, clusters: map<string, nat>, c: nat, text: string)
    ensures Tells(InCluster(SurfaceVotes(votes, clusters), c), (c, text), votes, Spellers(votes, clusters, c, text))
  {
    var xs := SurfaceVotes(votes, clusters);
    SpellersCounted(votes, clusters, c, text);
    CountInCluster(xs, c, (c, text));
    forall t ensures Entry((c, text), t) in InCluster(xs, c) <==> CastAt(votes, Spellers(votes, clusters, c, text), t) {
      InClusterHolds(xs, c, Entry((c, text), t));
      SurfaceTimes(votes, clusters, c, text, t);
    }
  }

  /** No cluster with votes is preferred to `c`. */
  ghost predicate LeadingCamp(votes: seq<ObjectVote>, clusters: map<string, nat>, c: nat) {
    && Camp(votes, clusters, c) != {}
    && forall d :: Camp(votes, clusters, d) != {} ==> Preferred(votes, Camp(votes, clusters, c), Camp(votes, clusters, d))
  }

  /** Nor is any spelling within it to `text`. */
  ghost predicate LeadingSpelling(votes: seq<ObjectVote>, clusters: map<string, nat>, c: nat, text: string) {
    && Spellers(votes, clusters, c, text) != {}
    && forall u :: Spellers(votes, clusters, c, u) != {} ==>
         Preferred(votes, Spellers(votes, clusters, c, text), Spellers(votes, clusters, c, u))
  }

  lemma CampLeadsExactly(votes: seq<ObjectVote>, clusters: map<string, nat>, c: nat)
    ensures Wins(ClusterVotes(votes, clusters), c) <==> LeadingCamp(votes, clusters, c)
  {
    var xs := ClusterVotes(votes, clusters);
    CampTold(votes, clusters, c);
    forall d: nat
      ensures Count(xs, d) > 0 <==> Camp(votes, clusters, d) != {}
      ensures Camp(votes, clusters, c) != {} && Camp(votes, clusters, d) != {} ==>
        (!Less(ScoreOf(xs, c), ScoreOf(xs, d)) <==> Preferred(votes, Camp(votes, clusters, c), Camp(votes, clusters, d)))
    {
      CampTold(votes, clusters, d);
      if Camp(votes, clusters, c) != {} && Camp(votes, clusters, d) != {} {
        NotLessExactly(xs, c, d, votes, Camp(votes, clusters, c), Camp(votes, clusters, d));
      }
    }
  }

  lemma SpellingLeadsExactly(votes: seq<ObjectVote>, clusters: map<string, nat>, c: nat, text: string)
    ensures Wins(InCluster(SurfaceVotes(votes, clusters), c), (c, text)) <==> LeadingSpelling(votes, clusters, c, text)
  {
    var xs := InCluster(SurfaceVotes(votes, clusters), c);
    SpellersTold(votes, clusters, c, text);
    forall k: (nat, string)
      ensures Count(xs, k) > 0 <==> k.0 == c && Spellers(votes, clusters, c, k.1) != {}
      ensures Spellers(votes, clusters, c, text) != {} && k.0 == c && Spellers(votes, clusters, c, k.1) != {} ==>
        (!Less(ScoreOf(xs, (c, text)), ScoreOf(xs, k)) <==> Preferred(votes, Spellers(votes, clusters, c, text), Spellers(votes, clusters, c, k.1)))
    {
      CountInCluster(SurfaceVotes(votes, clusters), c, k);
      SpellersTold(votes, clusters, c, k.1);
      if Spellers(votes, clusters, c, text) != {} && k.0 == c && Spellers(votes, clusters, c, k.1) != {} {
        NotLessExactly(xs, (c, text), k, votes, Spellers(votes, clusters, c, text), Spellers(votes, clusters, c, k.1));
      }
    }
    forall u ensures Count(xs, (c, u)) > 0 <==> Spellers(votes, clusters, c, u) != {} {}
  }

  /** The canonical object is the leading spelling of a leading cluster: most votes first,
      then the latest vote. There is none exactly when no vote is in a cluster. */
  lemma CanonicalExactly(votes: seq<ObjectVote>, clusters: map<string, nat>, r: Option<string>)
    ensures IsCanonical(votes, clusters, r) <==>
      match r
      case Some(text) => exists c: nat :: LeadingCamp(votes, clusters, c) && LeadingSpelling(votes, clusters, c, text)
      case None => forall c :: Camp(votes, clusters, c) == {}
  {
    match r
    case Some(text) =>
      forall c: nat ensures WinsAs(votes, clusters, c, text) <==> LeadingCamp(votes, clusters, c) && LeadingSpelling(votes, clusters, c, text) {
        CampLeadsExactly(votes, clusters, c);
        SpellingLeadsExactly(votes, clusters, c, text);
      }
    case None =>
      var xs := ClusterVotes(votes, clusters);
      if xs != [] {
        SomeCounted(xs);
        CampCounted(votes, clusters, xs[|xs| - 1].key);
      }
      forall c: nat ensures xs == [] ==> Camp(votes, clusters, c) == {} { CampCounted(votes, clusters, c); }
  }

  ghost function Speaking(votes: seq<ObjectVote>): set<nat> {
    set i | 0 <= i < |votes| && votes[i].text.Some? && NormalizeObject(votes[i].text.value) != ""
  }

  /** `total` is the number of votes with an object. */
  lemma {:induction false} TotalIsSize(votes: seq<ObjectVote>)
    ensures Total(votes) == |Speaking(votes)|
  {
    if votes == [] {
      assert Speaking(votes) == {};
    } else {
      var front, v := votes[..|votes| - 1], votes[|votes| - 1];
      assert votes == front + [v];
      TotalIsSize(front);
      assert Speaking(votes) == Speaking(front) + if Speaks(v) then {|front|} else {};
    }
  }

  /** `agree` is the number of votes in the cluster. */
  lemma {:induction false} AgreeIsSize(votes: seq<ObjectVote>, clusters: map<string, nat>, c: nat)
    ensures AgreeCount(votes, Some(c), clusters) == |Camp(votes, clusters, c)|
  {
    if votes == [] {
      assert Camp(votes, clusters, c) == {};
    } else {
      var front, v := votes[..|votes| - 1], votes[|votes| - 1];
      assert votes == front + [v];
      AgreeIsSize(front, clusters, c);
      CampPush(front, v, clusters, c, "");
    }
  }

  /** A prior fact is stale exactly when more than two votes of five are outside its camp. */
  lemma StaleExactly(prior: string, votes: seq<ObjectVote>, clusters: map<string, nat>)
    ensures var k := NormalizeObject(prior);
      var inside := if k in clusters then |Camp(votes, clusters, clusters[k])| else 0;
      Stale(prior, votes, clusters) <==> 5 * (|Speaking(votes)| - inside) > 2 * |Speaking(votes)|
  {
    TotalIsSize(votes);
    AgreeWithinTotal(votes, ClusterOf(prior, clusters), clusters);
    if NormalizeObject(prior) in clusters {
      AgreeIsSize(votes, clusters, clusters[NormalizeObject(prior)]);
    } else {
      NobodyAgreesWithNone(votes, clusters);
    }
  }
}
