/**
 An input on which closing a fact loses its upgrade: a fact one observation short of the
 certainty threshold, a new observation that contradicts it, and one that supports it
 through a predicate spelled differently. The two observations fall into two groups, and
 the two groups share the fact: ids ignore case, group keys do not.
 */
module LostUpgrade {
  import opened Wrappers
  import opened CanonicalText
  import opened Voting
  import opened Contradiction
  import opened Grouping
  import opened FactStore
  import opened Evidence
  import opened Ledger
  import opened Planning
  import opened Consolidation
  import opened OpenFacts
  import opened CycleStats
  import opened KnowledgeBase
  import Clustering
  import SwingBack

  const AGAINST: Key := ("s", "p")
  const FOR: Key := ("s", "P")
  const OTHER_OBS := Obs(9, "s", "p", Some("b"), "", 0, None)
  const SAME_OBS := Obs(10, "s", "P", Some("a"), "", 0, None)
  const NEW_OBS := [OTHER_OBS, SAME_OBS]
  const ID := "s|p|a"
  const FACT := Fact(0, "s", "p", Some("a"), 9, 0, false, true)
  const MEMORY := Memory(NEW_OBS, (set id | id in UpTo(9)), Star(0, UpTo(9)), Store(map[ID := FACT], 1))

  function UpTo(n: nat): seq<nat> {
    if n == 0 then [] else UpTo(n - 1) + [n - 1]
  }

  lemma Ids()
    ensures FactId("s", "p", Some("a")) == ID && FactId("s", "P", Some("a")) == ID && FactId("s", "p", Some("b")) != ID
  {
    assert LowerAll("s") == "s" && LowerAll("p") == "p" && LowerAll("P") == "p" && LowerAll("a") == "a" && LowerAll("b") == "b";
    assert FactId("s", "p", Some("b")) == "s|p|b" && "s|p|b"[4] != ID[4];
  }

  lemma {:induction false} EachOnce(n: nat, id: nat)
    ensures |UpTo(n)| == n && (id in UpTo(n) <==> id < n) && multiset(UpTo(n))[id] == if id < n then 1 else 0
  {
    if n > 0 { EachOnce(n - 1, id); }
  }

  lemma EdgesOf(n: nat)
    ensures FactEdges(Star(0, UpTo(9)), n) == (if n == 0 then 9 else 0)
    ensures ObsEdges(Star(0, UpTo(9)), n) == if n in MEMORY.processed then 1 else 0
    ensures n in MEMORY.processed <==> n < 9
  {
    StarEdges(0, UpTo(9), n);
    EachOnce(9, n);
  }

  lemma MemoryIsValid()
    ensures ValidMemory(MEMORY)
  {
    Ids();
    forall n: nat
      ensures FactEdges(MEMORY.edges, n) == (if n == 0 then 9 else 0)
      ensures ObsEdges(MEMORY.edges, n) == if n in MEMORY.processed then 1 else 0
    {
      EdgesOf(n);
    }
  }

  lemma FetchesBoth()
    ensures Fetched(MEMORY.observations, MEMORY.processed, 2) == NEW_OBS
  {
    EdgesOf(9);
    EdgesOf(10);
    assert NEW_OBS[..1] == [OTHER_OBS] && [OTHER_OBS][..0] == [];
    assert Backlog([OTHER_OBS], MEMORY.processed) == [OTHER_OBS];
    assert Backlog(NEW_OBS, MEMORY.processed) == NEW_OBS;
  }

  lemma BothObservations(env: Env, tr: Trace)
    requires SwingBack.Plain(env) && tr.obs == Read(MEMORY, env, 2)
    ensures tr.obs == NEW_OBS
  {
    FetchesBoth();
    SwingBack.SubjectOfNew();
    assert RefineAll(NEW_OBS, env.refined) == NEW_OBS;
    assert CanonicalAll(NEW_OBS, env.lower) == NEW_OBS;
  }

  lemma GroupsTwo()
    ensures Keys(NEW_OBS) == {AGAINST, FOR}
    ensures Votes(NEW_OBS, AGAINST) == [VoteOf(OTHER_OBS)]
    ensures Votes(NEW_OBS, FOR) == [VoteOf(SAME_OBS)] && GroupOf(NEW_OBS, FOR).contributing == [10]
  {
    var none: seq<Obs> := [];
    assert none + [OTHER_OBS] == [OTHER_OBS] && [OTHER_OBS] + [SAME_OBS] == NEW_OBS;
    PushKeys(none, OTHER_OBS);
    PushKeys([OTHER_OBS], SAME_OBS);
    assert Keys(none) == {};
    forall k ensures GroupOf(NEW_OBS, k) == if k == AGAINST then Add(EMPTY, OTHER_OBS) else if k == FOR then Add(EMPTY, SAME_OBS) else EMPTY {
      PushObs(none, OTHER_OBS, k);
      PushObs([OTHER_OBS], SAME_OBS, k);
    }
  }

  lemma PlanFor(plans: seq<Plan>, k: Key) returns (i: nat)
    requires k in PlanKeys(plans)
    ensures i < |plans| && plans[i].key == k
  {
    i :| 0 <= i < |PlanKeys(plans)| && PlanKeys(plans)[i] == k;
  }

  /** One plan votes against the fact, the other is for it. */
  lemma TwoPlans(env: Env, tr: Trace) returns (i: nat, j: nat)
    requires Keys(tr.obs) == {AGAINST, FOR} && PlansGroups(env, tr)
    ensures i < |tr.plans| == 2 && j < 2 && tr.plans[i].key == AGAINST && tr.plans[j].key == FOR
  {
    DistinctLength(PlanKeys(tr.plans), Keys(tr.obs));
    i := PlanFor(tr.plans, AGAINST);
    j := PlanFor(tr.plans, FOR);
  }

  lemma OwnFacts(env: Env, tr: Trace, i: nat, j: nat)
    requires tr.obs == NEW_OBS && PlansGroups(env, tr) && i < |tr.plans| && j < |tr.plans|
    requires tr.plans[i].key == AGAINST && tr.plans[j].key == FOR
    ensures Own(tr, i) != ID && Own(tr, j) == ID && Rows(tr.plans)[j].count == 1
  {
    GroupsTwo();
    Ids();
    SwingBack.LoneVoteWins(env, tr, i, VoteOf(OTHER_OBS), "b");
    SwingBack.LoneVoteWins(env, tr, j, VoteOf(SAME_OBS), "a");
    assert Planned(tr.obs, tr.found, env, tr.plans[j]);
  }

  lemma OneOfTwoRows(rows: seq<Row>, i: nat, j: nat, id: string)
    requires |rows| == 2 && i < 2 && j < 2 && rows[i].Id() != id && rows[j].Id() == id
    ensures Added(rows, id) == rows[j].count
  {
    var front := rows[..1];
    assert front[..0] == [] && front[0] == rows[0];
    assert Merged(front, id) == if j == 0 then Some(rows[0]) else None;
    assert Merged(rows, id) == Some(rows[j]);
  }

  /** The group of the other object contradicts the fact. */
  lemma OtherContradicts(env: Env, tr: Trace, i: nat)
    requires SwingBack.Plain(env) && tr.obs == NEW_OBS && PlansGroups(env, tr) && i < |tr.plans| && tr.plans[i].key == AGAINST
    ensures StaleFor(MEMORY, env, tr, i, ID)
  {
    GroupsTwo();
    SwingBack.LoneVoteContradicts(env, tr, AGAINST, VoteOf(OTHER_OBS), "b", "a");
  }

  lemma FactIsOutvoted(env: Env, tr: Trace, i: nat, j: nat)
    requires SwingBack.Plain(env) && tr.obs == NEW_OBS && PlansGroups(env, tr) && Upserts(MEMORY, tr)
    requires i < |tr.plans| && j < |tr.plans| && tr.plans[i].key == AGAINST && tr.plans[j].key == FOR
    ensures |tr.ups| == |tr.plans| && Outvoted(MEMORY, env, tr, i, ID)
  {
    OwnFacts(env, tr, i, j);
    OtherContradicts(env, tr, i);
    MemoryIsValid();
    OwnNode(MEMORY, tr, i, ID);
  }

  lemma FactIsClosed(env: Env, tr: Trace, after: Store)
    requires SwingBack.Plain(env) && tr.obs == NEW_OBS
    requires Looked(MEMORY, env, tr) && PlansGroups(env, tr) && Upserts(MEMORY, tr) && Closes(env, tr, after)
    ensures ID in tr.closed && Added(Rows(tr.plans), ID) == 1
  {
    GroupsTwo();
    var i, j := TwoPlans(env, tr);
    OwnFacts(env, tr, i, j);
    OneOfTwoRows(Rows(tr.plans), i, j, ID);
    FactIsOutvoted(env, tr, i, j);
    if ID !in tr.closed { NotClosed(MEMORY, env, tr, i, ID); }
  }

  /** Every cycle that completes on this memory closes the fact with ten observations and
      leaves it indefinite, where the ten alone would make it definite. */
  lemma LostUpgradeWitness(env: Env, tr: Trace, after: Memory)
    requires SwingBack.Plain(env) && IsCycle(MEMORY, env, 2, tr, after)
    ensures ID in after.store.facts && after.store.facts[ID].count == CERTAINTY_THRESHOLD
    ensures !after.store.facts[ID].open && !after.store.facts[ID].definite && Reinforce(FACT, 1).definite
  {
    BothObservations(env, tr);
    FactIsClosed(env, tr, after.store);
    ClosingUndoesUpgrade(MEMORY, env, tr, after.store, ID);
  }

  lemma CompletesAfterStart(env: Env, tr: Trace)
    requires SwingBack.Plain(env) && Started(MEMORY, env, 2, tr) && forall n :: env.clock(n) > FACT.lo
    ensures !Overdue(env, tr)
  {
    MemoryIsValid();
    PanicsExactly(MEMORY, env, 2, tr);
  }

  /** There is such a cycle: at any clock past the start of the fact. */
  method RunOnMemory(sim: Clustering.Similarity, now: int) returns (kb: KnowledgeBase, stats: Option<Stats>)
    requires now > FACT.lo
    ensures stats.Some? && ID in kb.table.facts
    ensures kb.table.facts[ID].count == CERTAINTY_THRESHOLD && !kb.table.facts[ID].open && !kb.table.facts[ID].definite
  {
    kb := new KnowledgeBase(NEW_OBS);
    kb.processed, kb.edges := MEMORY.processed, MEMORY.edges;
    kb.table.facts, kb.table.nextId := map[ID := FACT], 1;
    MemoryIsValid();
    var env := Env(map[], AsciiLower, map[], sim, 0, false, _ => now, _ => Done, _ => false);
    ghost var m := kb.Mem();
    ghost var tr;
    stats, tr := kb.RunCycle(Some(2), env);
    CompletesAfterStart(env, tr);
    LostUpgradeWitness(env, tr, kb.Mem());
  }
}
