/**
 What every consolidation cycle keeps: the evidence ledger, as an invariant over the
 stored observations, facts and SUPPORTED_BY edges.
 */
module Ledger {
  import opened Wrappers
  import opened Grouping
  import opened FactStore
  import opened Evidence

  /** One edge per processed observation, none for the others. */
  ghost predicate OneEdgeEach(processed: set<nat>, edges: seq<Edge>) {
    forall id: nat :: ObsEdges(edges, id) == if id in processed then 1 else 0
  }

  /** The count of a fact is the number of its edges. */
  ghost predicate CountsAreEdges(facts: map<string, Fact>, edges: seq<Edge>) {
    forall id :: id in facts ==> FactEdges(edges, facts[id].node) == facts[id].count
  }

  /** Nodes are handed out in order, so a new one has no edges. */
  ghost predicate Numbered(s: Store, edges: seq<Edge>) {
    && OneNodeEach(s.facts)
    && (forall id :: id in s.facts ==> s.facts[id].node < s.nextId)
    && (forall n :: n >= s.nextId ==> FactEdges(edges, n) == 0)
  }

  /** Facts are stored under the id of their triple. */
  ghost predicate OwnIds(facts: map<string, Fact>) {
    forall id :: id in facts ==> FactId(facts[id].subject, facts[id].relation, facts[id].obj) == id
  }

  ghost predicate Sound(processed: set<nat>, edges: seq<Edge>, s: Store) {
    OneEdgeEach(processed, edges) && CountsAreEdges(s.facts, edges) && Numbered(s, edges) && OwnIds(s.facts)
  }

  function Marked(obs: seq<Obs>): set<nat> {
    set id | id in NodeIds(obs)
  }

  // ----- a batch upsert keeps it -----

  /** The results of a batch point at the facts of its rows. */
  ghost predicate Results(rows: seq<Row>, contributing: seq<seq<nat>>, ups: seq<FactUpsert>, t: Store) {
    && |rows| == |contributing| == |ups|
    && forall i :: 0 <= i < |rows| ==> AnswersAt(rows, contributing, ups, t.facts, i)
  }

  lemma BatchNumbers(s: Store, rows: seq<Row>, t: Store, edges: seq<Edge>)
    requires Numbered(s, edges) && IsBatch(s, rows, t)
    ensures OneNodeEach(t.facts) && t.nextId >= s.nextId
    ensures forall id :: id in t.facts ==> t.facts[id].node < t.nextId
    ensures forall id :: id in t.facts && id !in s.facts ==> t.facts[id].node >= s.nextId
    ensures forall id :: id in s.facts ==> id in t.facts && t.facts[id].node == s.facts[id].node
  {
    var unseen := Unseen(s, rows);
    forall id | id in t.facts && id !in s.facts
      ensures exists j :: 0 <= j < |unseen| && unseen[j] == id && t.facts[id].node == s.nextId + j
    {
      assert id in unseen;
      var j :| 0 <= j < |unseen| && unseen[j] == id;
      assert CreatedAs(rows, id, s.nextId + j, t.facts);
    }
  }

  lemma BatchOwnIds(s: Store, rows: seq<Row>, t: Store)
    requires OwnIds(s.facts) && IsBatch(s, rows, t)
    ensures OwnIds(t.facts)
  {
    forall id | id in t.facts ensures FactId(t.facts[id].subject, t.facts[id].relation, t.facts[id].obj) == id {
      if id !in s.facts {
        assert id in Unseen(s, rows);
        var j :| 0 <= j < |Unseen(s, rows)| && Unseen(s, rows)[j] == id;
        assert CreatedAs(rows, id, s.nextId + j, t.facts);
        IdsAreMerged(rows, id);
      }
    }
  }

  /** Upserting a batch and wiring its contributors keeps every count equal to its edges. */
  lemma BatchKeepsCounts(s: Store, rows: seq<Row>, t: Store, contributing: seq<seq<nat>>, ups: seq<FactUpsert>, edges: seq<Edge>)
    requires CountsAreEdges(s.facts, edges) && Numbered(s, edges) && IsBatch(s, rows, t) && Results(rows, contributing, ups, t)
    ensures CountsAreEdges(t.facts, edges + Stars(ups, contributing)) && Numbered(t, edges + Stars(ups, contributing))
  {
    BatchNumbers(s, rows, t, edges);
    forall id | id in t.facts
      ensures FactEdges(edges + Stars(ups, contributing), t.facts[id].node) == t.facts[id].count
    {
      Append(edges, Stars(ups, contributing), t.facts[id].node);
      StarsPerFact(rows, contributing, ups, t.facts, id);
      if id !in s.facts {
        assert id in Unseen(s, rows);
        var j :| 0 <= j < |Unseen(s, rows)| && Unseen(s, rows)[j] == id;
        assert CreatedAs(rows, id, s.nextId + j, t.facts);
      }
    }
    forall n | n >= t.nextId ensures FactEdges(edges + Stars(ups, contributing), n) == 0 {
      Append(edges, Stars(ups, contributing), n);
      forall i | 0 <= i < |ups| ensures ups[i].node != n { assert AnswersAt(rows, contributing, ups, t.facts, i); }
      StarsElsewhere(ups, contributing, n);
    }
  }

  function Contributing(obs: seq<Obs>, keys: seq<Key>): seq<seq<nat>> {
    seq(|keys|, i requires 0 <= i < |keys| => GroupOf(obs, keys[i]).contributing)
  }

  lemma {:induction false} TimesIsOccurs(obs: seq<Obs>, keys: seq<Key>, id: nat)
    ensures Times(Contributing(obs, keys), id) == OccursIn(obs, keys, id)
  {
    if keys != [] {
      var n := |keys| - 1;
      TimesIsOccurs(obs, keys[..n], id);
      assert Contributing(obs, keys)[..n] == Contributing(obs, keys[..n]);
    }
  }

  /** Every fetched observation gets exactly one edge, and no other gets any. */
  lemma CycleWiresOnce(obs: seq<Obs>, keys: seq<Key>, ups: seq<FactUpsert>, id: nat)
    requires DistinctIds(obs) && DistinctKeys(keys) && |ups| == |keys|
    requires forall k :: k in Keys(obs) ==> k in keys
    ensures ObsEdges(Stars(ups, Contributing(obs, keys)), id) == if id in NodeIds(obs) then 1 else 0
  {
    StarsPerObs(ups, Contributing(obs, keys), id);
    TimesIsOccurs(obs, keys, id);
    GroupsPartition(obs, keys, id);
    DistinctOccursOnce(obs, id);
  }

  /** The edge of an observation leads to the fact of its own group. */
  lemma {:induction false} EdgeToOwnGroup(obs: seq<Obs>, keys: seq<Key>, ups: seq<FactUpsert>, e: Edge) returns (i: nat, j: nat)
    requires |ups| == |keys| && e in Stars(ups, Contributing(obs, keys))
    ensures i < |keys| && j < |obs| && obs[j].id == e.obs && KeyOf(obs[j]) == keys[i] && ups[i].node == e.fact
  {
    var n := |keys| - 1;
    var all := Contributing(obs, keys);
    assert all[..n] == Contributing(obs, keys[..n]);
    if e in Star(ups[n].node, all[n]) {
      i := n;
      j := MemberOfGroup(obs, keys[n], e.obs);
    } else {
      i, j := EdgeToOwnGroup(obs, keys[..n], ups[..n], e);
    }
  }

  lemma {:induction false} MemberOfGroup(obs: seq<Obs>, k: Key, id: nat) returns (j: nat)
    requires id in GroupOf(obs, k).contributing
    ensures j < |obs| && obs[j].id == id && KeyOf(obs[j]) == k
  {
    var o := obs[|obs| - 1];
    if KeyOf(o) == k && o.id == id {
      j := |obs| - 1;
    } else {
      j := MemberOfGroup(obs[..|obs| - 1], k, id);
    }
  }

  /** A completed cycle: its batch upsert, its edges and its processed marks together
      keep the ledger sound. */
  lemma CycleKeepsSound(processed: set<nat>, edges: seq<Edge>, s: Store, obs: seq<Obs>, keys: seq<Key>,
                        rows: seq<Row>, ups: seq<FactUpsert>, t: Store)
    requires Sound(processed, edges, s) && IsBatch(s, rows, t) && Results(rows, Contributing(obs, keys), ups, t)
    requires DistinctIds(obs) && DistinctKeys(keys) && forall k :: k in Keys(obs) ==> k in keys
    requires forall id :: id in NodeIds(obs) ==> id !in processed
    ensures Sound(processed + Marked(obs), edges + Stars(ups, Contributing(obs, keys)), t)
  {
    var stars := Stars(ups, Contributing(obs, keys));
    BatchKeepsCounts(s, rows, t, Contributing(obs, keys), ups, edges);
    BatchOwnIds(s, rows, t);
    forall id: nat
      ensures ObsEdges(edges + stars, id) == if id in processed + Marked(obs) then 1 else 0
    {
      Append(edges, stars, id);
      CycleWiresOnce(obs, keys, ups, id);
    }
  }

  // ----- fetching and draining -----

  function Backlog(observations: seq<Obs>, processed: set<nat>): seq<Obs> {
    if observations == [] then []
    else
      var o := observations[|observations| - 1];
      Backlog(observations[..|observations| - 1], processed) + if o.id in processed then [] else [o]
  }

  function FetchSize(observations: seq<Obs>, processed: set<nat>, limit: nat): nat {
    var n := |Backlog(observations, processed)|;
    if limit < n then limit else n
  }

  function Fetched(observations: seq<Obs>, processed: set<nat>, limit: nat): seq<Obs> {
    Backlog(observations, processed)[..FetchSize(observations, processed, limit)]
  }

  lemma {:induction false} BacklogMembers(observations: seq<Obs>, processed: set<nat>, o: Obs)
    ensures o in Backlog(observations, processed) <==> o in observations && o.id !in processed
  {
    if observations != [] {
      assert observations == observations[..|observations| - 1] + [observations[|observations| - 1]];
      BacklogMembers(observations[..|observations| - 1], processed, o);
    }
  }

  lemma {:induction false} BacklogDistinct(observations: seq<Obs>, processed: set<nat>)
    requires DistinctIds(observations)
    ensures DistinctIds(Backlog(observations, processed))
  {
    if observations != [] {
      var front, o := observations[..|observations| - 1], observations[|observations| - 1];
      BacklogDistinct(front, processed);
      forall i | 0 <= i < |Backlog(front, processed)| ensures Backlog(front, processed)[i].id != o.id {
        BacklogMembers(front, processed, Backlog(front, processed)[i]);
        var b := Backlog(front, processed)[i];
        var j :| 0 <= j < |front| && front[j] == b;
        assert observations[j] == front[j];
      }
    }
  }

  /** Marking observations that come first leaves the rest of the backlog. */
  lemma {:induction false} MarkingShortens(observations: seq<Obs>, processed: set<nat>, n: nat)
    requires DistinctIds(observations) && n <= |Backlog(observations, processed)|
    ensures Backlog(observations, processed + Marked(Backlog(observations, processed)[..n])) == Backlog(observations, processed)[n..]
  {
    if observations != [] {
      var front, o := observations[..|observations| - 1], observations[|observations| - 1];
      var b, all := Backlog(front, processed), Backlog(observations, processed);
      var marks := Marked(all[..n]);
      BacklogDistinct(observations, processed);
      if n <= |b| {
        MarkingShortens(front, processed, n);
        assert all[..n] == b[..n];
        assert o.id !in processed ==> o.id !in marks by {
          assert o.id !in processed ==> all[|b|] == o;
        }
      } else {
        MarkingShortens(front, processed, |b|);
        assert b[..|b|] == b && all == b + [o] && all[..n] == all;
        assert NodeIds(all) == NodeIds(b) + [o.id];
        assert marks == Marked(b) + {o.id};
        MoreMarksNoMore(front, processed + Marked(b), o.id);
        assert processed + marks == (processed + Marked(b)) + {o.id};
      }
    }
  }

  lemma {:induction false} MoreMarksNoMore(observations: seq<Obs>, processed: set<nat>, id: nat)
    requires Backlog(observations, processed) == []
    ensures Backlog(observations, processed + {id}) == []
  {
    if observations != [] { MoreMarksNoMore(observations[..|observations| - 1], processed, id); }
  }

  /** What is left of a backlog of `n` after `k` fetches of up to `b`. */
  function Left(n: nat, k: nat, b: nat): nat {
    if k * b >= n then 0 else n - k * b
  }

  lemma LeftStep(n: nat, k: nat, b: nat)
    ensures Left(n, k + 1, b) == if Left(n, k, b) >= b then Left(n, k, b) - b else 0
  {
    assert (k + 1) * b == k * b + b;
  }
}
