/**
 Facts keyed by triple (crates/uniko-store/src/operations/facts.rs): the upsert of
 one triple, and the batch that promises the same semantics.

 A store hands out node ids in order. Confidence is a function of the count.
 */
module FactStore {
  import opened Wrappers
  import opened CanonicalText

  const CERTAINTY_THRESHOLD: nat := 10

  /** `lo` starts the validity interval; `open` means it has no end yet. */
  datatype Fact = Fact(node: nat, subject: string, relation: string, obj: Option<string>,
                       count: nat, lo: int, definite: bool, open: bool)

  datatype Row = Row(subject: string, relation: string, obj: Option<string>, count: nat, observedAt: int) {
    function Id(): string { FactId(subject, relation, obj) }
  }

  datatype FactUpsert = FactUpsert(node: nat, wasCreated: bool, count: nat)

  datatype Store = Store(facts: map<string, Fact>, nextId: nat)

  function FactId(subject: string, relation: string, obj: Option<string>): string {
    LowerAll(subject) + "|" + LowerAll(relation) + "|" + LowerAll(ObjectText(obj))
  }

  function ObjectText(obj: Option<string>): string {
    match obj case None => "" case Some(text) => text
  }

  function Create(node: nat, r: Row): Fact {
    Fact(node, r.subject, r.relation, r.obj, r.count, r.observedAt, false, true)
  }

  /** Certainty is upgraded only when the count crosses the threshold from below. */
  function Reinforce(f: Fact, n: nat): Fact {
    f.(count := f.count + n, definite := f.definite || f.count < CERTAINTY_THRESHOLD <= f.count + n)
  }

  function Upsert(s: Store, r: Row): Store {
    if r.Id() in s.facts then s.(facts := s.facts[r.Id() := Reinforce(s.facts[r.Id()], r.count)])
    else Store(s.facts[r.Id() := Create(s.nextId, r)], s.nextId + 1)
  }

  /** One upsert per row. */
  function Singles(s: Store, rows: seq<Row>): Store {
    if rows == [] then s else Upsert(Singles(s, rows[..|rows| - 1]), rows[|rows| - 1])
  }

  // ----- the rows of one fact -----

  function FirstIndex(rows: seq<Row>, id: string): (r: Option<nat>)
    ensures r.Some? ==> r.value < |rows| && rows[r.value].Id() == id
  {
    if rows == [] then None
    else
      var before := FirstIndex(rows[..|rows| - 1], id);
      if before.Some? then before else if rows[|rows| - 1].Id() == id then Some(|rows| - 1) else None
  }

  /** The first row of the fact, with the counts summed and the earliest time. */
  function Merged(rows: seq<Row>, id: string): Option<Row> {
    if rows == [] then None
    else
      var before, r := Merged(rows[..|rows| - 1], id), rows[|rows| - 1];
      if r.Id() != id then before
      else match before case None => Some(r) case Some(m) => Some(Absorb(m, r))
  }

  function Absorb(m: Row, r: Row): Row {
    m.(count := m.count + r.count, observedAt := if r.observedAt < m.observedAt then r.observedAt else m.observedAt)
  }

  function Added(rows: seq<Row>, id: string): nat {
    match Merged(rows, id) case None => 0 case Some(m) => m.count
  }

  /** The fact ids in order of first appearance. */
  function Ids(rows: seq<Row>): seq<string> {
    if rows == [] then []
    else
      var before, id := Ids(rows[..|rows| - 1]), rows[|rows| - 1].Id();
      if id in before then before else before + [id]
  }

  function NewIds(facts: map<string, Fact>, ids: seq<string>): seq<string> {
    if ids == [] then []
    else NewIds(facts, ids[..|ids| - 1]) + if ids[|ids| - 1] in facts then [] else [ids[|ids| - 1]]
  }

  lemma {:induction false} IdsAreMerged(rows: seq<Row>, id: string)
    ensures id in Ids(rows) <==> Merged(rows, id).Some?
    ensures FirstIndex(rows, id).Some? <==> Merged(rows, id).Some?
    ensures Merged(rows, id).Some? ==> Merged(rows, id).value.Id() == id
    ensures Merged(rows, id).Some? ==>
      var m, r := Merged(rows, id).value, rows[FirstIndex(rows, id).value];
      m == r.(count := m.count, observedAt := m.observedAt) && r.count <= m.count && m.observedAt <= r.observedAt
  {
    if rows != [] { IdsAreMerged(rows[..|rows| - 1], id); }
  }

  lemma {:induction false} NewIdsAre(facts: map<string, Fact>, ids: seq<string>, id: string)
    ensures id in NewIds(facts, ids) <==> id in ids && id !in facts
  {
    if ids != [] {
      assert ids == ids[..|ids| - 1] + [ids[|ids| - 1]];
      NewIdsAre(facts, ids[..|ids| - 1], id);
    }
  }

  ghost predicate Distinct(ids: seq<string>) {
    forall i, j :: 0 <= i < j < |ids| ==> ids[i] != ids[j]
  }

  lemma {:induction false} IdsDistinct(rows: seq<Row>)
    ensures Distinct(Ids(rows))
  {
    if rows != [] { IdsDistinct(rows[..|rows| - 1]); }
  }

  lemma {:induction false} NewIdsDistinct(facts: map<string, Fact>, ids: seq<string>)
    requires Distinct(ids)
    ensures Distinct(NewIds(facts, ids))
  {
    if ids != [] {
      NewIdsDistinct(facts, ids[..|ids| - 1]);
      NewIdsAre(facts, ids[..|ids| - 1], ids[|ids| - 1]);
    }
  }

  // ----- the batch -----

  /** What a batch leaves behind: one new fact per unknown id, in order of appearance. */
  ghost predicate IsBatch(s: Store, rows: seq<Row>, t: Store) {
    && Extends(s.facts, Unseen(s, rows), t.facts)
    && Reinforced(rows, s.facts, t.facts)
    && Created(rows, Unseen(s, rows), s.nextId, t.facts)
    && t.nextId == s.nextId + |Unseen(s, rows)|
  }

  function Unseen(s: Store, rows: seq<Row>): seq<string> {
    NewIds(s.facts, Ids(rows))
  }

  ghost predicate Extends(before: map<string, Fact>, ids: seq<string>, after: map<string, Fact>) {
    forall id :: id in after <==> id in before || id in ids
  }

  ghost predicate Reinforced(rows: seq<Row>, before: map<string, Fact>, after: map<string, Fact>) {
    forall id :: id in before ==> id in after && after[id] == Reinforce(before[id], Added(rows, id))
  }

  ghost predicate Created(rows: seq<Row>, ids: seq<string>, base: nat, after: map<string, Fact>) {
    forall j :: 0 <= j < |ids| ==> CreatedAs(rows, ids[j], base + j, after)
  }

  ghost predicate CreatedAs(rows: seq<Row>, id: string, node: nat, facts: map<string, Fact>) {
    Merged(rows, id).Some? && id in facts && facts[id] == Create(node, Merged(rows, id).value)
  }

  ghost predicate Keeps(before: map<string, Fact>, after: map<string, Fact>, skip: map<string, Fact>) {
    forall id :: id in before && id !in skip ==> id in after && after[id] == before[id]
  }

  lemma CreatedSurvive(rows: seq<Row>, ids: seq<string>, base: nat, prior: map<string, Fact>,
                       created: map<string, Fact>, after: map<string, Fact>)
    requires Created(rows, ids, base, created) && Keeps(created, after, prior)
    requires forall id :: id in ids ==> id !in prior
    ensures Created(rows, ids, base, after)
  {
    forall j | 0 <= j < |ids| ensures CreatedAs(rows, ids[j], base + j, after) {
      assert ids[j] in ids && CreatedAs(rows, ids[j], base + j, created);
    }
  }

  class FactTable {
    var facts: map<string, Fact>
    var nextId: nat

    constructor ()
      ensures State() == Store(map[], 0)
    {
      facts, nextId := map[], 0;
    }

    function State(): Store
      reads this
    {
      Store(facts, nextId)
    }

    method UpsertFactByTriple(r: Row) returns (u: FactUpsert)
      modifies this
      ensures State() == Upsert(old(State()), r)
      ensures r.Id() in facts && u == FactUpsert(facts[r.Id()].node, r.Id() !in old(facts), facts[r.Id()].count)
    {
      var id := r.Id();
      if id in facts {
        facts := facts[id := Reinforce(facts[id], r.count)];
        return FactUpsert(facts[id].node, false, facts[id].count);
      }
      facts := facts[id := Create(nextId, r)];
      nextId := nextId + 1;
      return FactUpsert(facts[id].node, true, r.count);
    }

    method BatchUpsertFacts(rows: seq<Row>) returns (out: seq<FactUpsert>)
      modifies this
      ensures IsBatch(old(State()), rows, State())
      ensures |out| == |rows|
      ensures forall i :: 0 <= i < |rows| ==> Reports(rows, i, old(facts.Keys), facts, out[i])
    {
      var merged, ids, first := Dedup(rows);
      var existing := facts.Keys;
      ghost var prior := facts;
      IdsDistinct(rows);
      var known, unseen := Partition(facts, ids);
      NewIdsDistinct(facts, ids);
      forall id ensures (id in unseen <==> id in ids && id !in prior) && (id in ids <==> Merged(rows, id).Some?) {
        NewIdsAre(prior, ids, id);
        IdsAreMerged(rows, id);
      }
      CreateAll(rows, unseen, merged);
      ghost var created := facts;
      UpdateAll(rows, known, merged, prior);
      CreatedSurvive(rows, unseen, old(nextId), prior, created, facts);
      forall i | 0 <= i < |rows| ensures rows[i].Id() in facts && rows[i].Id() in first {
        IdsCover(rows, i);
        IdsAreMerged(rows, rows[i].Id());
      }
      out := FanOut(rows, first, existing);
    }

    /** Create one node per id, in order. */
    method CreateAll(ghost rows: seq<Row>, unseen: seq<string>, merged: map<string, Row>)
      requires Distinct(unseen) && forall id :: id in unseen ==> id !in facts && id in merged && Some(merged[id]) == Merged(rows, id)
      modifies this
      ensures nextId == old(nextId) + |unseen|
      ensures Extends(old(facts), unseen, facts) && Keeps(old(facts), facts, map[])
      ensures Created(rows, unseen, old(nextId), facts)
    {
      for j := 0 to |unseen|
        invariant nextId == old(nextId) + j
        invariant Extends(old(facts), unseen[..j], facts) && Keeps(old(facts), facts, map[])
        invariant forall k :: 0 <= k < j ==> CreatedAs(rows, unseen[k], old(nextId) + k, facts)
      {
        assert unseen[j] in unseen && unseen[j] !in old(facts);
        facts := facts[unseen[j] := Create(nextId, merged[unseen[j]])];
        nextId := nextId + 1;
      }
      assert unseen[..|unseen|] == unseen;
    }

    /** Reinforce every known id once. */
    method UpdateAll(ghost rows: seq<Row>, known: seq<string>, merged: map<string, Row>, ghost prior: map<string, Fact>)
      requires Keeps(prior, facts, map[])
      requires forall id :: id in known <==> id in prior && Merged(rows, id).Some?
      requires forall id :: id in known ==> id in merged && Some(merged[id]) == Merged(rows, id)
      requires Distinct(known)
      modifies this`facts
      ensures facts.Keys == old(facts).Keys
      ensures Reinforced(rows, prior, facts) && Keeps(old(facts), facts, prior)
    {
      for j := 0 to |known|
        invariant facts.Keys == old(facts).Keys
        invariant forall id :: id in prior ==> id in facts && facts[id] == if id in known[..j] then Reinforce(prior[id], Added(rows, id)) else prior[id]
        invariant Keeps(old(facts), facts, prior)
      {
        assert known[j] in known && known[j] !in known[..j];
        facts := facts[known[j] := Reinforce(facts[known[j]], merged[known[j]].count)];
      }
      assert known[..|known|] == known;
    }

    /** Write back the interval that was read, ended now. An interval cannot end before
        it starts: building it panics before anything is written. */
    method InvalidateFact(id: string, lo: int, definite: bool, now: int) returns (panicked: bool)
      requires id in facts
      modifies this`facts
      ensures panicked <==> now <= lo
      ensures facts == if panicked then old(facts) else old(facts)[id := old(facts[id]).(lo := lo, definite := definite, open := false)]
    {
      if now <= lo { return true; }
      facts := facts[id := facts[id].(lo := lo, definite := definite, open := false)];
      panicked := false;
    }

    /** One result per row: a fact counts as created for its first row only. */
    method FanOut(rows: seq<Row>, first: map<string, nat>, existing: set<string>) returns (out: seq<FactUpsert>)
      requires forall i :: 0 <= i < |rows| ==> rows[i].Id() in facts && rows[i].Id() in first
      requires forall id :: id in first ==> Some(first[id]) == FirstIndex(rows, id)
      ensures |out| == |rows|
      ensures forall i :: 0 <= i < |rows| ==> Reports(rows, i, existing, facts, out[i])
    {
      out := [];
      for i := 0 to |rows|
        invariant |out| == i
        invariant forall k :: 0 <= k < i ==> Reports(rows, k, existing, facts, out[k])
      {
        var id := rows[i].Id();
        assert Some(first[id]) == FirstIndex(rows, id);
        out := out + [FactUpsert(facts[id].node, first[id] == i && id !in existing, facts[id].count)];
      }
    }
  }

  ghost predicate Reports(rows: seq<Row>, i: nat, existing: set<string>, facts: map<string, Fact>, u: FactUpsert)
    requires i < |rows|
  {
    var id := rows[i].Id();
    id in facts && u == FactUpsert(facts[id].node, FirstIndex(rows, id) == Some(i) && id !in existing, facts[id].count)
  }

  lemma {:induction false} IdsCover(rows: seq<Row>, i: nat)
    requires i < |rows|
    ensures rows[i].Id() in Ids(rows)
  {
    if i < |rows| - 1 { IdsCover(rows[..|rows| - 1], i); }
  }

  ghost predicate MergedIn(rows: seq<Row>, merged: map<string, Row>) {
    && (forall id :: id in merged <==> Merged(rows, id).Some?)
    && (forall id :: id in merged ==> Some(merged[id]) == Merged(rows, id))
  }

  ghost predicate FirstIn(rows: seq<Row>, first: map<string, nat>) {
    && (forall id :: id in first <==> FirstIndex(rows, id).Some?)
    && (forall id :: id in first ==> Some(first[id]) == FirstIndex(rows, id))
  }

  lemma PushMerged(rows: seq<Row>, r: Row, merged: map<string, Row>)
    requires MergedIn(rows, merged)
    ensures MergedIn(rows + [r], merged[r.Id() := if r.Id() in merged then Absorb(merged[r.Id()], r) else r])
  {
    assert (rows + [r])[..|rows|] == rows;
  }

  lemma PushFirst(rows: seq<Row>, r: Row, first: map<string, nat>)
    requires FirstIn(rows, first)
    ensures FirstIn(rows + [r], if r.Id() in first then first else first[r.Id() := |rows|])
  {
    assert (rows + [r])[..|rows|] == rows;
  }

  /** Collapse the rows of each fact: first text wins, counts add up, earliest time. */
  method Dedup(rows: seq<Row>) returns (merged: map<string, Row>, ids: seq<string>, first: map<string, nat>)
    ensures ids == Ids(rows) && MergedIn(rows, merged) && FirstIn(rows, first)
  {
    merged, ids, first := map[], [], map[];
    for i := 0 to |rows|
      invariant ids == Ids(rows[..i]) && MergedIn(rows[..i], merged) && FirstIn(rows[..i], first)
    {
      var r := rows[i];
      assert rows[..i + 1] == rows[..i] + [r] && rows[..i + 1][..i] == rows[..i];
      PushMerged(rows[..i], r, merged);
      PushFirst(rows[..i], r, first);
      IdsAreMerged(rows[..i], r.Id());
      if r.Id() in merged {
        merged := merged[r.Id() := Absorb(merged[r.Id()], r)];
      } else {
        merged := merged[r.Id() := r];
        first := first[r.Id() := i];
        ids := ids + [r.Id()];
      }
    }
    assert rows[..|rows|] == rows;
  }

  /** `known` lists the ids that are facts, each once. */
  ghost predicate KnownIn(facts: map<string, Fact>, ids: seq<string>, known: seq<string>) {
    Distinct(known) && forall id :: id in known <==> id in ids && id in facts
  }

  lemma NotBefore(ids: seq<string>, k: nat)
    requires Distinct(ids) && k < |ids|
    ensures ids[k] !in ids[..k] && ids[..k + 1] == ids[..k] + [ids[k]]
  {
  }

  lemma KnownPush(facts: map<string, Fact>, front: seq<string>, id: string, known: seq<string>)
    requires KnownIn(facts, front, known) && id !in front
    ensures KnownIn(facts, front + [id], if id in facts then known + [id] else known)
  {
    var ids, now := front + [id], if id in facts then known + [id] else known;
    forall j ensures j in ids <==> j in front || j == id { InPush(front, id, j); }
    forall j ensures j in now <==> j in known || (j == id && id in facts) { InPush(known, id, j); }
  }

  lemma InPush(front: seq<string>, id: string, j: string)
    ensures j in front + [id] <==> j in front || j == id
  {
  }

  lemma NewIdsPush(facts: map<string, Fact>, front: seq<string>, id: string)
    ensures NewIds(facts, front + [id]) == if id in facts then NewIds(facts, front) else NewIds(facts, front) + [id]
  {
    assert (front + [id])[..|front|] == front;
  }

  method Partition(facts: map<string, Fact>, ids: seq<string>) returns (known: seq<string>, unseen: seq<string>)
    requires Distinct(ids)
    ensures unseen == NewIds(facts, ids) && KnownIn(facts, ids, known)
  {
    known, unseen := [], [];
    for k := 0 to |ids|
      invariant unseen == NewIds(facts, ids[..k]) && KnownIn(facts, ids[..k], known)
    {
      NotBefore(ids, k);
      KnownPush(facts, ids[..k], ids[k], known);
      NewIdsPush(facts, ids[..k], ids[k]);
      if ids[k] in facts { known := known + [ids[k]]; } else { unseen := unseen + [ids[k]]; }
    }
    assert ids[..|ids|] == ids;
  }

  // ----- the batch against one upsert per row -----

  /** The fact that the rows create when upserted one by one. */
  function CreatedSingly(rows: seq<Row>, id: string, node: nat): Fact
    requires FirstIndex(rows, id).Some?
  {
    var r := rows[FirstIndex(rows, id).value];
    Create(node, r).(count := Added(rows, id), definite := r.count < CERTAINTY_THRESHOLD <= Added(rows, id))
  }

  lemma {:induction false} SinglesMean(s: Store, rows: seq<Row>, id: string)
    ensures var t := Singles(s, rows);
      && (id in t.facts <==> id in s.facts || Merged(rows, id).Some?)
      && (id in s.facts ==> t.facts[id] == Reinforce(s.facts[id], Added(rows, id)))
      && (id in t.facts && id !in s.facts ==>
          FirstIndex(rows, id).Some? && t.facts[id] == CreatedSingly(rows, id, t.facts[id].node))
  {
    if rows != [] {
      SinglesMean(s, rows[..|rows| - 1], id);
      IdsAreMerged(rows[..|rows| - 1], id);
    }
  }

  lemma {:induction false} SinglesNumber(s: Store, rows: seq<Row>)
    ensures var t := Singles(s, rows);
      && t.nextId == s.nextId + |Unseen(s, rows)|
      && forall j :: 0 <= j < |Unseen(s, rows)| ==> Numbered(t.facts, Unseen(s, rows)[j], s.nextId + j)
  {
    if rows != [] {
      var front, r := rows[..|rows| - 1], rows[|rows| - 1];
      SinglesNumber(s, front);
      SinglesMean(s, front, r.Id());
      IdsAreMerged(front, r.Id());
      if r.Id() !in Ids(front) {
        assert Ids(rows)[..|Ids(front)|] == Ids(front);
      }
    }
  }

  ghost predicate Numbered(facts: map<string, Fact>, id: string, node: nat) {
    id in facts && facts[id].node == node
  }

  /** A batch leaves the facts, nodes, texts and counts that single upserts leave, and
      every fact it found in exactly the same state. */
  lemma BatchKeepsSingles(s: Store, rows: seq<Row>, t: Store, id: string)
    requires IsBatch(s, rows, t)
    ensures var u := Singles(s, rows);
      && t.nextId == u.nextId && t.facts.Keys == u.facts.Keys
      && (id in t.facts ==> t.facts[id] == u.facts[id].(lo := t.facts[id].lo, definite := t.facts[id].definite))
      && (id in s.facts ==> t.facts[id] == u.facts[id])
  {
    var u := Singles(s, rows);
    SinglesNumber(s, rows);
    forall k ensures k in t.facts <==> k in u.facts {
      SinglesMean(s, rows, k);
      NewIdsAre(s.facts, Ids(rows), k);
      IdsAreMerged(rows, k);
    }
    SinglesMean(s, rows, id);
    IdsAreMerged(rows, id);
    NewIdsAre(s.facts, Ids(rows), id);
    if id in t.facts && id !in s.facts {
      var j :| 0 <= j < |Unseen(s, rows)| && Unseen(s, rows)[j] == id;
      assert CreatedAs(rows, id, s.nextId + j, t.facts) && Numbered(u.facts, id, s.nextId + j);
    }
  }

  lemma CreatedBothWays(s: Store, rows: seq<Row>, t: Store, id: string)
    requires IsBatch(s, rows, t) && id in t.facts && id !in s.facts
    ensures id in Singles(s, rows).facts && FirstIndex(rows, id).Some? && Merged(rows, id).Some?
    ensures t.facts[id] == Create(t.facts[id].node, Merged(rows, id).value)
    ensures Singles(s, rows).facts[id] == CreatedSingly(rows, id, t.facts[id].node)
  {
    BatchKeepsSingles(s, rows, t, id);
    SinglesMean(s, rows, id);
    IdsAreMerged(rows, id);
    assert id in Unseen(s, rows);
    var j :| 0 <= j < |Unseen(s, rows)| && Unseen(s, rows)[j] == id;
    assert CreatedAs(rows, id, s.nextId + j, t.facts);
  }

  /** A fact the batch creates differs from the singly created one exactly when a later
      row of it is earlier in time, or later rows carry its count over the threshold. */
  lemma BatchDiffersExactly(s: Store, rows: seq<Row>, t: Store, id: string)
    requires IsBatch(s, rows, t) && id in t.facts && id !in s.facts
    ensures id in Singles(s, rows).facts && FirstIndex(rows, id).Some?
    ensures var r := rows[FirstIndex(rows, id).value];
      t.facts[id] == Singles(s, rows).facts[id] <==>
        NoEarlier(rows, id, r.observedAt) && !(r.count < CERTAINTY_THRESHOLD <= Added(rows, id))
  {
    CreatedBothWays(s, rows, t, id);
    IdsAreMerged(rows, id);
    NoneEarlier(rows, id);
    var i := OneAsEarly(rows, id);
  }

  ghost predicate NoEarlier(rows: seq<Row>, id: string, at: int) {
    forall i :: 0 <= i < |rows| && rows[i].Id() == id ==> at <= rows[i].observedAt
  }

  lemma {:induction false} NoneEarlier(rows: seq<Row>, id: string)
    requires Merged(rows, id).Some?
    ensures NoEarlier(rows, id, Merged(rows, id).value.observedAt)
  {
    var front := rows[..|rows| - 1];
    if Merged(front, id).Some? { NoneEarlier(front, id); }
    forall k | 0 <= k < |rows| && rows[k].Id() == id ensures Merged(rows, id).value.observedAt <= rows[k].observedAt {
      if k < |front| {
        assert front[k] == rows[k];
        IdsCover(front, k);
        IdsAreMerged(front, id);
      }
    }
  }

  lemma {:induction false} OneAsEarly(rows: seq<Row>, id: string) returns (i: nat)
    requires Merged(rows, id).Some?
    ensures i < |rows| && rows[i].Id() == id && rows[i].observedAt == Merged(rows, id).value.observedAt
  {
    var front, r := rows[..|rows| - 1], rows[|rows| - 1];
    if r.Id() == id && r.observedAt == Merged(rows, id).value.observedAt {
      i := |rows| - 1;
    } else {
      i := OneAsEarly(front, id);
    }
  }

  /** The batch promises the semantics of single upserts; two rows of a new fact, the
      later one earlier in time, tell them apart. */
  lemma BatchIsNotSingles(t: Store)
    requires IsBatch(Store(map[], 0), [Row("s", "p", None, 1, 2), Row("s", "p", None, 1, 1)], t)
    ensures var id, u := FactId("s", "p", None), Singles(Store(map[], 0), [Row("s", "p", None, 1, 2), Row("s", "p", None, 1, 1)]);
      id in t.facts && id in u.facts && t.facts[id].lo == 1 && u.facts[id].lo == 2
  {
    var s, rows, id := Store(map[], 0), [Row("s", "p", None, 1, 2), Row("s", "p", None, 1, 1)], FactId("s", "p", None);
    assert rows[..1] == [rows[0]] && rows[..1][..0] == [];
    assert FirstIndex(rows, id) == Some(0) && Merged(rows, id) == Some(Row("s", "p", None, 2, 1));
    IdsAreMerged(rows, id);
    NewIdsAre(s.facts, Ids(rows), id);
    assert id in t.facts;
    CreatedBothWays(s, rows, t, id);
  }

  /** Two rows of five miss the upgrade that one upsert per row brings. */
  lemma BatchMissesUpgrade(t: Store)
    requires IsBatch(Store(map[], 0), [Row("s", "p", None, 5, 0), Row("s", "p", None, 5, 0)], t)
    ensures var id, u := FactId("s", "p", None), Singles(Store(map[], 0), [Row("s", "p", None, 5, 0), Row("s", "p", None, 5, 0)]);
      id in t.facts && id in u.facts && t.facts[id].count == u.facts[id].count == 10 && !t.facts[id].definite && u.facts[id].definite
  {
    var s, rows, id := Store(map[], 0), [Row("s", "p", None, 5, 0), Row("s", "p", None, 5, 0)], FactId("s", "p", None);
    assert rows[..1] == [rows[0]] && rows[..1][..0] == [];
    assert FirstIndex(rows, id) == Some(0) && Merged(rows, id) == Some(Row("s", "p", None, 10, 0));
    IdsAreMerged(rows, id);
    NewIdsAre(s.facts, Ids(rows), id);
    assert id in t.facts;
    CreatedBothWays(s, rows, t, id);
  }

  /** Ten observations do not make a fact definite: it takes a later upsert that lifts
      the count over the threshold, so one created at or above it never becomes so. */
  lemma DefiniteExactly(rows: seq<Row>, id: string)
    ensures var t := Singles(Store(map[], 0), rows);
      id in t.facts ==>
        (&& FirstIndex(rows, id).Some?
         && t.facts[id].count == Added(rows, id)
         && (t.facts[id].definite <==> rows[FirstIndex(rows, id).value].count < CERTAINTY_THRESHOLD <= t.facts[id].count))
  {
    SinglesMean(Store(map[], 0), rows, id);
  }

  /** A fact created with ten observations is not definite, and no later upsert
      makes it so. */
  lemma TenAtOnceIsNeverDefinite(later: seq<Row>)
    ensures var first := Row("s", "p", None, CERTAINTY_THRESHOLD, 0);
      var t := Singles(Store(map[], 0), [first] + later);
      first.Id() in t.facts && t.facts[first.Id()].count >= CERTAINTY_THRESHOLD && !t.facts[first.Id()].definite
  {
    var first := Row("s", "p", None, CERTAINTY_THRESHOLD, 0);
    var rows := [first] + later;
    FirstStaysFirst([first], later, first.Id());
    IdsAreMerged(rows, first.Id());
    SinglesMean(Store(map[], 0), rows, first.Id());
    DefiniteExactly(rows, first.Id());
  }

  lemma {:induction false} FirstStaysFirst(a: seq<Row>, b: seq<Row>, id: string)
    requires FirstIndex(a, id).Some?
    ensures FirstIndex(a + b, id) == FirstIndex(a, id)
  {
    if b == [] {
      assert a + b == a;
    } else {
      assert (a + b)[..|a + b| - 1] == a + b[..|b| - 1];
      FirstStaysFirst(a, b[..|b| - 1], id);
    }
  }

  // ----- fact ids -----

  lemma {:induction false} SplitAtBar(a: string, b: string, c: string, d: string)
    requires '|' !in a && '|' !in c && a + "|" + b == c + "|" + d
    ensures a == c && b == d
  {
    var x, y := a + "|" + b, c + "|" + d;
    assert x[|a|] == '|' && y[|c|] == '|';
    assert |a| == |c|;
    assert x[..|a|] == a && y[..|c|] == c;
    assert x[|a| + 1..] == b && y[|c| + 1..] == d;
  }

  lemma NoBarWhenLower(s: string)
    ensures '|' in LowerAll(s) <==> '|' in s
  {
    var t := LowerAll(s);
    forall i | 0 <= i < |s| ensures t[i] == '|' <==> s[i] == '|' {}
    if '|' in s { var i :| 0 <= i < |s| && s[i] == '|'; assert t[i] == '|'; }
  }

  predicate HasBar(r: Row) {
    '|' in r.subject || '|' in r.relation || '|' in ObjectText(r.obj)
  }

  /** The triples differ in more than case. */
  predicate Differ(a: Row, b: Row) {
    LowerAll(a.subject) != LowerAll(b.subject) || LowerAll(a.relation) != LowerAll(b.relation)
    || LowerAll(ObjectText(a.obj)) != LowerAll(ObjectText(b.obj))
  }

  /** Up to case, the id determines the triple as long as no bar is in the first two parts. */
  lemma FactIdIdentifies(a: Row, b: Row)
    requires '|' !in a.subject && '|' !in a.relation && '|' !in b.subject && '|' !in b.relation
    ensures a.Id() == b.Id() <==> !Differ(a, b)
  {
    NoBarWhenLower(a.subject);
    NoBarWhenLower(a.relation);
    NoBarWhenLower(b.subject);
    NoBarWhenLower(b.relation);
    if a.Id() == b.Id() {
      var ra := LowerAll(a.relation) + "|" + LowerAll(ObjectText(a.obj));
      var rb := LowerAll(b.relation) + "|" + LowerAll(ObjectText(b.obj));
      assert a.Id() == LowerAll(a.subject) + "|" + ra && b.Id() == LowerAll(b.subject) + "|" + rb;
      SplitAtBar(LowerAll(a.subject), ra, LowerAll(b.subject), rb);
      SplitAtBar(LowerAll(a.relation), LowerAll(ObjectText(a.obj)), LowerAll(b.relation), LowerAll(ObjectText(b.obj)));
    }
  }

  function Bars(s: string): nat {
    if s == "" then 0 else (if s[0] == '|' then 1 else 0) + Bars(s[1..])
  }

  lemma {:induction false} BarsAppend(s: string, t: string)
    ensures Bars(s + t) == Bars(s) + Bars(t)
  {
    if s == "" {
      assert s + t == t;
    } else {
      BarsAppend(s[1..], t);
      assert (s + t)[1..] == s[1..] + t;
    }
  }

  lemma {:induction false} NoBars(s: string)
    ensures Bars(s) == 0 <==> '|' !in s
  {
    if s != "" {
      NoBars(s[1..]);
      assert s == [s[0]] + s[1..];
    }
  }

  lemma {:induction false} BarsIgnoreCase(s: string)
    ensures Bars(LowerAll(s)) == Bars(s)
  {
    if s != "" {
      BarsIgnoreCase(s[1..]);
      assert LowerAll(s)[1..] == LowerAll(s[1..]);
    }
  }

  lemma BarsInId(r: Row)
    ensures Bars(r.Id()) == 2 + Bars(r.subject) + Bars(r.relation) + Bars(ObjectText(r.obj))
  {
    var s, p, o := LowerAll(r.subject), LowerAll(r.relation), LowerAll(ObjectText(r.obj));
    BarsAppend(s + "|" + p + "|", o);
    BarsAppend(s + "|" + p, "|");
    BarsAppend(s + "|", p);
    BarsAppend(s, "|");
    assert Bars("|") == 1;
    BarsIgnoreCase(r.subject);
    BarsIgnoreCase(r.relation);
    BarsIgnoreCase(ObjectText(r.obj));
  }

  lemma BarFreeIsUnique(a: Row, b: Row)
    requires !HasBar(a) && a.Id() == b.Id()
    ensures !Differ(a, b)
  {
    BarsInId(a);
    BarsInId(b);
    NoBars(a.subject);
    NoBars(a.relation);
    NoBars(ObjectText(a.obj));
    NoBars(b.subject);
    NoBars(b.relation);
    FactIdIdentifies(a, b);
  }

  lemma LowerAppend(s: string, t: string)
    ensures LowerAll(s + t) == LowerAll(s) + LowerAll(t)
  {
  }

  lemma SplitText(s: string) returns (x: string, y: string)
    requires '|' in s
    ensures s == x + "|" + y && LowerAll(s) == LowerAll(x) + "|" + LowerAll(y)
  {
    var i :| 0 <= i < |s| && s[i] == '|';
    x, y := s[..i], s[i + 1..];
    assert s == x + "|" + y;
    LowerAppend(x + "|", y);
    LowerAppend(x, "|");
  }

  lemma JoinAtBar(x: string, y: string)
    ensures LowerAll(x + "|" + y) == LowerAll(x) + "|" + LowerAll(y)
  {
    LowerAppend(x + "|", y);
    LowerAppend(x, "|");
  }

  lemma BarInSubject(a: Row) returns (b: Row)
    requires '|' in a.subject
    ensures b.Id() == a.Id() && Differ(a, b)
  {
    var x, y := SplitText(a.subject);
    b := a.(subject := x, relation := y, obj := Some(a.relation + "|" + ObjectText(a.obj)));
    JoinAtBar(a.relation, ObjectText(a.obj));
  }

  lemma BarInRelation(a: Row) returns (b: Row)
    requires '|' in a.relation
    ensures b.Id() == a.Id() && Differ(a, b)
  {
    var x, y := SplitText(a.relation);
    b := a.(subject := a.subject + "|" + x, relation := y);
    JoinAtBar(a.subject, x);
  }

  lemma BarInObject(a: Row) returns (b: Row)
    requires '|' in ObjectText(a.obj)
    ensures b.Id() == a.Id() && Differ(a, b)
  {
    var x, y := SplitText(ObjectText(a.obj));
    b := a.(subject := a.subject + "|" + a.relation, relation := x, obj := Some(y));
    JoinAtBar(a.subject, a.relation);
  }

  /** Moving the border to a bar inside one part gives another triple with the same id. */
  lemma BarGivesAlias(a: Row) returns (b: Row)
    requires HasBar(a)
    ensures b.Id() == a.Id() && Differ(a, b)
  {
    if '|' in a.subject {
      b := BarInSubject(a);
    } else if '|' in a.relation {
      b := BarInRelation(a);
    } else {
      b := BarInObject(a);
    }
  }

  /** A triple shares its id with one that differs beyond case exactly when its subject,
      predicate or object contains the separator. */
  lemma AliasExactlyWithBar(a: Row)
    ensures (exists b: Row :: b.Id() == a.Id() && Differ(a, b)) <==> HasBar(a)
  {
    if HasBar(a) {
      var b := BarGivesAlias(a);
    } else {
      forall b: Row | b.Id() == a.Id() ensures !Differ(a, b) { BarFreeIsUnique(a, b); }
    }
  }

  /** The same subject and predicate and the same id: the objects differ in case only. */
  lemma SameIdSameObject(subject: string, relation: string, p: Option<string>, q: Option<string>)
    requires FactId(subject, relation, p) == FactId(subject, relation, q)
    ensures LowerAll(ObjectText(p)) == LowerAll(ObjectText(q))
  {
    var stem := LowerAll(subject) + "|" + LowerAll(relation) + "|";
    assert FactId(subject, relation, p)[|stem|..] == LowerAll(ObjectText(p));
    assert FactId(subject, relation, q)[|stem|..] == LowerAll(ObjectText(q));
  }

  /** Two triples, one fact: a bar in the text moves the border. */
  lemma BarAliasesFacts()
    ensures FactId("a|b", "c", Some("d")) == FactId("a", "b", Some("c|d"))
  {
    assert LowerAll("a|b") == "a|b" && LowerAll("c|d") == "c|d";
    assert LowerAll("a") == "a" && LowerAll("b") == "b" && LowerAll("c") == "c" && LowerAll("d") == "d";
  }
}
