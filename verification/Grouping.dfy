/**
 Grouping observations by subject and predicate (`run_cycle_with`, 240-262 of
 crates/uniko-memory/src/consolidation.rs), and the object keys a group clusters.
 */
module Grouping {
  import opened Wrappers
  import opened CanonicalText
  import opened Voting

  /** An observation that carries a triple. */
  datatype Obs = Obs(id: nat, subject: string, relation: string, obj: Option<string>,
                     content: string, observedAt: int, anchor: Option<int>)

  type Key = (string, string)

  datatype Group = Group(contributing: seq<nat>, firstObserved: Option<int>, firstAnchor: Option<int>, votes: seq<ObjectVote>)

  const EMPTY := Group([], None, None, [])

  /** The observation with its subject in canonical form, for some lower-casing. */
  function Canonical(o: Obs, lower: char -> string): Obs {
    o.(subject := Normalize(o.subject, lower))
  }

  function CanonicalAll(obs: seq<Obs>, lower: char -> string): (r: seq<Obs>)
    ensures NodeIds(r) == NodeIds(obs)
  {
    seq(|obs|, i requires 0 <= i < |obs| => Canonical(obs[i], lower))
  }

  /** The group of an observation in canonical form. */
  function KeyOf(o: Obs): Key {
    (o.subject, o.relation)
  }

  function MinOr(prev: Option<int>, x: int): Option<int> {
    match prev case None => Some(x) case Some(p) => Some(if x < p then x else p)
  }

  function VoteOf(o: Obs): ObjectVote {
    ObjectVote(o.obj, o.observedAt, o.content)
  }

  function Add(g: Group, o: Obs): Group {
    Group(g.contributing + [o.id],
          MinOr(g.firstObserved, o.observedAt),
          if o.anchor.Some? then MinOr(g.firstAnchor, o.anchor.value) else g.firstAnchor,
          g.votes + [VoteOf(o)])
  }

  function GroupOf(obs: seq<Obs>, k: Key): Group {
    if obs == [] then EMPTY
    else if KeyOf(obs[|obs| - 1]) == k then Add(GroupOf(obs[..|obs| - 1], k), obs[|obs| - 1])
    else GroupOf(obs[..|obs| - 1], k)
  }

  function Keys(obs: seq<Obs>): set<Key> {
    set i | 0 <= i < |obs| :: KeyOf(obs[i])
  }

  lemma PushObs(front: seq<Obs>, o: Obs, k: Key)
    ensures GroupOf(front + [o], k) == if KeyOf(o) == k then Add(GroupOf(front, k), o) else GroupOf(front, k)
  {
    assert (front + [o])[..|front|] == front;
  }

  lemma PushKeys(front: seq<Obs>, o: Obs)
    ensures Keys(front + [o]) == Keys(front) + {KeyOf(o)}
  {
    var all := front + [o];
    forall k | k in Keys(front) ensures k in Keys(all) {
      var i :| 0 <= i < |front| && KeyOf(front[i]) == k;
      assert all[i] == front[i];
    }
    assert all[|front|] == o;
  }

  lemma {:induction false} NoKeyNoGroup(obs: seq<Obs>, k: Key)
    requires k !in Keys(obs)
    ensures GroupOf(obs, k) == EMPTY
  {
    if obs != [] {
      var front, o := obs[..|obs| - 1], obs[|obs| - 1];
      assert obs == front + [o];
      PushKeys(front, o);
      NoKeyNoGroup(front, k);
    }
  }

  ghost predicate Grouped(obs: seq<Obs>, groups: map<Key, Group>) {
    groups.Keys == Keys(obs) && forall k :: k in groups ==> groups[k] == GroupOf(obs, k)
  }

  function Entry(groups: map<Key, Group>, k: Key): Group {
    if k in groups then groups[k] else EMPTY
  }

  lemma PushEntry(front: seq<Obs>, o: Obs, groups: map<Key, Group>, k: Key)
    requires Grouped(front, groups)
    ensures GroupOf(front + [o], k) == if k == KeyOf(o) then Add(Entry(groups, k), o) else Entry(groups, k)
  {
    PushObs(front, o, k);
    if k !in groups { NoKeyNoGroup(front, k); }
  }

  lemma PushGrouped(front: seq<Obs>, o: Obs, groups: map<Key, Group>)
    requires Grouped(front, groups)
    ensures Grouped(front + [o], groups[KeyOf(o) := Add(Entry(groups, KeyOf(o)), o)])
  {
    PushKeys(front, o);
    forall k | k in Keys(front + [o])
      ensures GroupOf(front + [o], k) == if k == KeyOf(o) then Add(Entry(groups, k), o) else Entry(groups, k)
    {
      PushEntry(front, o, groups, k);
    }
  }

  method GroupObservations(obs: seq<Obs>, lower: char -> string) returns (groups: map<Key, Group>)
    ensures Grouped(CanonicalAll(obs, lower), groups)
  {
    groups := map[];
    ghost var all := CanonicalAll(obs, lower);
    for n := 0 to |obs|
      invariant Grouped(all[..n], groups)
    {
      var o := obs[n];
      var subject := NormalizeCanonical(o.subject, lower);
      var k := (subject, o.relation);
      assert all[..n + 1] == all[..n] + [Canonical(o, lower)];
      PushGrouped(all[..n], Canonical(o, lower), groups);
      groups := groups[k := Add(Entry(groups, k), o)];
    }
    assert all[..|obs|] == all;
  }

  // ----- each observation is in one group -----

  function Occurs(ids: seq<nat>, id: nat): nat {
    multiset(ids)[id]
  }

  function NodeIds(obs: seq<Obs>): seq<nat> {
    seq(|obs|, i requires 0 <= i < |obs| => obs[i].id)
  }

  ghost predicate DistinctIds(obs: seq<Obs>) {
    forall i, j :: 0 <= i < j < |obs| ==> obs[i].id != obs[j].id
  }

  /** Times `id` is listed in the groups of `keys`. */
  function OccursIn(obs: seq<Obs>, keys: seq<Key>, id: nat): nat {
    if keys == [] then 0
    else OccursIn(obs, keys[..|keys| - 1], id) + Occurs(GroupOf(obs, keys[|keys| - 1]).contributing, id)
  }

  ghost predicate DistinctKeys(keys: seq<Key>) {
    forall i, j :: 0 <= i < j < |keys| ==> keys[i] != keys[j]
  }

  lemma {:induction false} OccursPush(front: seq<Obs>, o: Obs, keys: seq<Key>, id: nat)
    requires DistinctKeys(keys)
    ensures OccursIn(front + [o], keys, id) == OccursIn(front, keys, id) + if KeyOf(o) in keys && o.id == id then 1 else 0
  {
    if keys != [] {
      var last := keys[|keys| - 1];
      assert keys == keys[..|keys| - 1] + [last];
      OccursPush(front, o, keys[..|keys| - 1], id);
      PushObs(front, o, last);
    }
  }

  lemma {:induction false} OccursNowhere(keys: seq<Key>, id: nat)
    ensures OccursIn([], keys, id) == 0
  {
    if keys != [] { OccursNowhere(keys[..|keys| - 1], id); }
  }

  /** Listing every group once lists every observation as often as it was fetched. */
  lemma {:induction false} GroupsPartition(obs: seq<Obs>, keys: seq<Key>, id: nat)
    requires DistinctKeys(keys) && forall k :: k in Keys(obs) ==> k in keys
    ensures OccursIn(obs, keys, id) == Occurs(NodeIds(obs), id)
  {
    if obs == [] {
      OccursNowhere(keys, id);
    } else {
      var front, o := obs[..|obs| - 1], obs[|obs| - 1];
      assert obs == front + [o];
      PushKeys(front, o);
      GroupsPartition(front, keys, id);
      OccursPush(front, o, keys, id);
      assert NodeIds(obs) == NodeIds(front) + [o.id];
    }
  }

  lemma {:induction false} DistinctOccursOnce(obs: seq<Obs>, id: nat)
    requires DistinctIds(obs)
    ensures Occurs(NodeIds(obs), id) == if id in NodeIds(obs) then 1 else 0
  {
    if obs != [] {
      var front, o := obs[..|obs| - 1], obs[|obs| - 1];
      assert NodeIds(obs) == NodeIds(front) + [o.id];
      DistinctOccursOnce(front, id);
    }
  }

  /** A group has one vote per contributor. */
  lemma {:induction false} VotePerContributor(obs: seq<Obs>, k: Key)
    ensures |GroupOf(obs, k).votes| == |GroupOf(obs, k).contributing|
    ensures k in Keys(obs) ==> GroupOf(obs, k).contributing != [] && GroupOf(obs, k).firstObserved.Some?
  {
    if obs != [] {
      assert obs == obs[..|obs| - 1] + [obs[|obs| - 1]];
      VotePerContributor(obs[..|obs| - 1], k);
      PushKeys(obs[..|obs| - 1], obs[|obs| - 1]);
    }
  }

  /** `t` is the earliest time that the observations contribute to group `k`, if any. */
  ghost predicate Earliest(obs: seq<Obs>, k: Key, anchored: bool, t: Option<int>) {
    && (forall i :: 0 <= i < |obs| && TimeIn(obs[i], k, anchored).Some? ==> t.Some? && t.value <= TimeIn(obs[i], k, anchored).value)
    && (t.Some? ==> exists i :: 0 <= i < |obs| && TimeIn(obs[i], k, anchored) == t)
  }

  /** The time an observation contributes to group `k`: its anchor, or when it was made. */
  function TimeIn(o: Obs, k: Key, anchored: bool): Option<int> {
    if KeyOf(o) != k then None else if anchored then o.anchor else Some(o.observedAt)
  }

  lemma EarliestPush(front: seq<Obs>, o: Obs, k: Key, anchored: bool, t: Option<int>)
    requires Earliest(front, k, anchored, t)
    ensures var x := TimeIn(o, k, anchored);
      Earliest(front + [o], k, anchored, if x.Some? then MinOr(t, x.value) else t)
  {
    var obs, x := front + [o], TimeIn(o, k, anchored);
    var s := if x.Some? then MinOr(t, x.value) else t;
    assert forall i :: 0 <= i < |front| ==> obs[i] == front[i];
    if s.Some? {
      if s == t {
        var i :| 0 <= i < |front| && TimeIn(front[i], k, anchored) == t;
        assert TimeIn(obs[i], k, anchored) == s;
      } else {
        assert TimeIn(obs[|front|], k, anchored) == s;
      }
    }
  }

  /** The group's times are the earliest observation time and the earliest anchor of
      its members. */
  lemma {:induction false} GroupTimes(obs: seq<Obs>, k: Key)
    ensures Earliest(obs, k, false, GroupOf(obs, k).firstObserved)
    ensures Earliest(obs, k, true, GroupOf(obs, k).firstAnchor)
  {
    if obs != [] {
      var front, o := obs[..|obs| - 1], obs[|obs| - 1];
      assert obs == front + [o];
      GroupTimes(front, k);
      EarliestPush(front, o, k, false, GroupOf(front, k).firstObserved);
      EarliestPush(front, o, k, true, GroupOf(front, k).firstAnchor);
    }
  }
}
