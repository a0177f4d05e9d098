/**
 From a group of observations to a plan for its fact: the open facts it may
 contradict, their clusters, the canonical object and the stale facts
 (`run_cycle_with`, 274-430 of crates/uniko-memory/src/consolidation.rs, and
 `find_stale_open_facts_batched`, 745-809 of crates/uniko-store/src/operations/facts.rs).
 */
module Planning {
  import opened Wrappers
  import opened CanonicalText
  import opened Voting
  import opened Contradiction
  import opened Grouping
  import opened FactStore
  import Clustering

  const COSINE_THRESHOLD: real := 0.88

  /** An open fact as it was read: its validity is what an invalidation will close. */
  datatype Prior = Prior(fid: string, node: nat, text: string, lo: int, definite: bool)

  datatype Plan = Plan(key: Key, canonical: Option<string>, contributing: seq<nat>, stale: seq<Prior>, firstObserved: int) {
    function ToRow(): Row {
      Row(key.0, key.1, canonical, |contributing|, firstObserved)
    }
  }

  // ----- open facts -----

  function FactKey(f: Fact): Key {
    (f.subject, f.relation)
  }

  function PriorOf(fid: string, f: Fact): Prior {
    Prior(fid, f.node, ObjectText(f.obj), f.lo, f.definite)
  }

  predicate OpenFor(facts: map<string, Fact>, fid: string, k: Key) {
    fid in facts && facts[fid].open && FactKey(facts[fid]) == k
  }

  function PriorsAt(found: map<Key, seq<Prior>>, k: Key): seq<Prior> {
    if k in found then found[k] else []
  }

  ghost predicate DistinctFids(ps: seq<Prior>) {
    forall i, j :: 0 <= i < j < |ps| ==> ps[i].fid != ps[j].fid
  }

  /** Among the facts `done`, exactly the open ones are listed under their key, once. */
  ghost predicate Found(facts: map<string, Fact>, done: set<string>, keys: set<Key>, found: map<Key, seq<Prior>>) {
    && found.Keys <= keys
    && (forall k, p :: k in keys && p in PriorsAt(found, k) ==> p.fid in done && OpenFor(facts, p.fid, k) && p == PriorOf(p.fid, facts[p.fid]))
    && (forall k, fid :: k in keys && fid in done && OpenFor(facts, fid, k) ==> PriorOf(fid, facts[fid]) in PriorsAt(found, k))
    && (forall k :: k in keys ==> DistinctFids(PriorsAt(found, k)))
  }

  method FindOpenFacts(facts: map<string, Fact>, keys: set<Key>) returns (found: map<Key, seq<Prior>>)
    ensures Found(facts, facts.Keys, keys, found)
  {
    found := map[];
    var todo := facts.Keys;
    while todo != {}
      invariant todo <= facts.Keys && Found(facts, facts.Keys - todo, keys, found)
      decreases todo
    {
      var fid :| fid in todo;
      var k := FactKey(facts[fid]);
      ghost var before := found;
      if facts[fid].open && k in keys {
        found := found[k := PriorsAt(found, k) + [PriorOf(fid, facts[fid])]];
      }
      Listed(facts, facts.Keys - todo, fid, keys, before, found);
      assert facts.Keys - (todo - {fid}) == (facts.Keys - todo) + {fid};
      todo := todo - {fid};
    }
    assert facts.Keys - {} == facts.Keys;
  }

  lemma Listed(facts: map<string, Fact>, done: set<string>, fid: string, keys: set<Key>,
               before: map<Key, seq<Prior>>, after: map<Key, seq<Prior>>)
    requires fid in facts && fid !in done && Found(facts, done, keys, before)
    requires var k := FactKey(facts[fid]);
      after == if facts[fid].open && k in keys then before[k := PriorsAt(before, k) + [PriorOf(fid, facts[fid])]] else before
    ensures Found(facts, done + {fid}, keys, after)
  {
    forall j, p | j in keys && p in PriorsAt(after, j)
      ensures p.fid in done + {fid} && OpenFor(facts, p.fid, j) && p == PriorOf(p.fid, facts[p.fid])
    {
      if p !in PriorsAt(before, j) { assert p == PriorOf(fid, facts[fid]); }
    }
    forall j, id | j in keys && id in done + {fid} && OpenFor(facts, id, j)
      ensures PriorOf(id, facts[id]) in PriorsAt(after, j)
    {
      if id != fid { assert PriorOf(id, facts[id]) in PriorsAt(before, j); }
    }
    forall j | j in keys ensures DistinctFids(PriorsAt(after, j)) {
      assert DistinctFids(PriorsAt(before, j));
      assert forall i :: 0 <= i < |PriorsAt(before, j)| ==> PriorsAt(before, j)[i] in PriorsAt(before, j);
    }
  }

  // ----- object keys -----

  function VoteKeys(votes: seq<ObjectVote>): set<string> {
    set i | 0 <= i < |votes| && Speaks(votes[i]) :: NormalizeObject(votes[i].text.value)
  }

  function PriorKeys(priors: seq<Prior>): set<string> {
    set i | 0 <= i < |priors| && NormalizeObject(priors[i].text) != "" :: NormalizeObject(priors[i].text)
  }

  method CollectKeys(votes: seq<ObjectVote>, priors: seq<Prior>) returns (keys: set<string>)
    ensures keys == VoteKeys(votes) + PriorKeys(priors)
  {
    keys := {};
    for i := 0 to |votes|
      invariant forall k :: k in keys <==> exists j :: 0 <= j < i && Speaks(votes[j]) && NormalizeObject(votes[j].text.value) == k
    {
      if votes[i].text.Some? {
        var k := NormalizeObject(votes[i].text.value);
        if k != "" { keys := keys + {k}; }
      }
    }
    assert keys == VoteKeys(votes);
    for i := 0 to |priors|
      invariant forall k :: k in keys <==>
        (k in VoteKeys(votes) || exists j :: 0 <= j < i && NormalizeObject(priors[j].text) != "" && NormalizeObject(priors[j].text) == k)
    {
      var k := NormalizeObject(priors[i].text);
      if k != "" { keys := keys + {k}; }
    }
    assert forall k :: k in keys <==> k in VoteKeys(votes) + PriorKeys(priors);
  }

  // ----- the plan -----

  function StaleOf(priors: seq<Prior>, votes: seq<ObjectVote>, clusters: map<string, nat>): seq<Prior> {
    if priors == [] then []
    else
      var p := priors[|priors| - 1];
      StaleOf(priors[..|priors| - 1], votes, clusters) + if Stale(p.text, votes, clusters) then [p] else []
  }

  lemma {:induction false} StaleOfMeans(priors: seq<Prior>, votes: seq<ObjectVote>, clusters: map<string, nat>, p: Prior)
    ensures p in StaleOf(priors, votes, clusters) <==> p in priors && Stale(p.text, votes, clusters)
  {
    if priors != [] {
      assert priors == priors[..|priors| - 1] + [priors[|priors| - 1]];
      StaleOfMeans(priors[..|priors| - 1], votes, clusters, p);
    }
  }

  lemma {:induction false} StaleOfDistinct(priors: seq<Prior>, votes: seq<ObjectVote>, clusters: map<string, nat>)
    requires DistinctFids(priors)
    ensures DistinctFids(StaleOf(priors, votes, clusters))
  {
    if priors != [] {
      var front, p := priors[..|priors| - 1], priors[|priors| - 1];
      StaleOfDistinct(front, votes, clusters);
      var stale := StaleOf(front, votes, clusters);
      forall i | 0 <= i < |stale| ensures stale[i].fid != p.fid {
        StaleOfMeans(front, votes, clusters, stale[i]);
      }
    }
  }

  ghost predicate IsPlan(plan: Plan, key: Key, group: Group, priors: seq<Prior>, clusters: map<string, nat>) {
    && plan.key == key
    && plan.contributing == group.contributing
    && IsCanonical(group.votes, clusters, plan.canonical)
    && plan.stale == StaleOf(priors, group.votes, clusters)
    && (group.firstAnchor.Some? ==> plan.firstObserved == group.firstAnchor.value)
    && (group.firstAnchor.None? && group.firstObserved.Some? ==> plan.firstObserved == group.firstObserved.value)
  }

  ghost function ClustersFor(votes: seq<ObjectVote>, priors: seq<Prior>, embeddings: map<string, Clustering.Vec>, sim: Clustering.Similarity)
    : map<string, nat>
  {
    Clustering.ClusterMap(VoteKeys(votes) + PriorKeys(priors), embeddings, sim, COSINE_THRESHOLD)
  }

  lemma VotesCovered(votes: seq<ObjectVote>, priors: seq<Prior>, embeddings: map<string, Clustering.Vec>, sim: Clustering.Similarity)
    ensures Covered(votes, ClustersFor(votes, priors, embeddings, sim))
  {
    forall i | 0 <= i < |votes| && Speaks(votes[i])
      ensures NormalizeObject(votes[i].text.value) in ClustersFor(votes, priors, embeddings, sim)
    {
      Clustering.ClusterMapCovers(VoteKeys(votes) + PriorKeys(priors), embeddings, sim, COSINE_THRESHOLD, NormalizeObject(votes[i].text.value));
    }
  }

  method PlanGroup(key: Key, group: Group, priors: seq<Prior>, embeddings: map<string, Clustering.Vec>,
                   sim: Clustering.Similarity, startedAt: int) returns (plan: Plan)
    ensures IsPlan(plan, key, group, priors, ClustersFor(group.votes, priors, embeddings, sim))
  {
    var keys := CollectKeys(group.votes, priors);
    var clusters := Clustering.BuildClusters(keys, embeddings, sim, COSINE_THRESHOLD);
    assert clusters == ClustersFor(group.votes, priors, embeddings, sim) by {
      assert Clustering.Lists(Clustering.Listing(keys), keys);
    }
    var canonical := CanonicalObject(group.votes, clusters);
    var stale: seq<Prior> := [];
    for i := 0 to |priors|
      invariant stale == StaleOf(priors[..i], group.votes, clusters)
    {
      var prior := priors[i];
      assert priors[..i + 1][..i] == priors[..i];
      var total, agree := VoteTallies(group.votes, ClusterOf(prior.text, clusters), clusters);
      if total > 0 && Contradicted(total, agree) {
        stale := stale + [prior];
      }
    }
    assert priors[..|priors|] == priors;
    var first := match group.firstAnchor
      case Some(at) => at
      case None => (match group.firstObserved case Some(at) => at case None => startedAt);
    plan := Plan(key, canonical, group.contributing, stale, first);
  }
}
