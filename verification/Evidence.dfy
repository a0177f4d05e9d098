/**
 SUPPORTED_BY edges, from the node of a fact to the observation that supports it
 (`run_cycle_with`, 484-506 of crates/uniko-memory/src/consolidation.rs).
 */
module Evidence {
  import opened Wrappers
  import opened FactStore

  datatype Edge = Edge(fact: nat, obs: nat)

  function FactEdges(edges: seq<Edge>, fact: nat): nat {
    if edges == [] then 0 else FactEdges(edges[..|edges| - 1], fact) + if edges[|edges| - 1].fact == fact then 1 else 0
  }

  function ObsEdges(edges: seq<Edge>, obs: nat): nat {
    if edges == [] then 0 else ObsEdges(edges[..|edges| - 1], obs) + if edges[|edges| - 1].obs == obs then 1 else 0
  }

  lemma {:induction false} Append(a: seq<Edge>, b: seq<Edge>, n: nat)
    ensures FactEdges(a + b, n) == FactEdges(a, n) + FactEdges(b, n)
    ensures ObsEdges(a + b, n) == ObsEdges(a, n) + ObsEdges(b, n)
  {
    if b == [] {
      assert a + b == a;
    } else {
      assert (a + b)[..|a + b| - 1] == a + b[..|b| - 1];
      Append(a, b[..|b| - 1], n);
    }
  }

  function Star(fact: nat, obs: seq<nat>): seq<Edge> {
    seq(|obs|, i requires 0 <= i < |obs| => Edge(fact, obs[i]))
  }

  lemma {:induction false} StarEdges(fact: nat, obs: seq<nat>, n: nat)
    ensures FactEdges(Star(fact, obs), n) == if n == fact then |obs| else 0
    ensures ObsEdges(Star(fact, obs), n) == multiset(obs)[n]
  {
    if obs != [] {
      var front := obs[..|obs| - 1];
      assert obs == front + [obs[|obs| - 1]];
      assert Star(fact, obs) == Star(fact, front) + [Edge(fact, obs[|obs| - 1])];
      StarEdges(fact, front, n);
      assert Star(fact, obs)[..|obs| - 1] == Star(fact, front);
    }
  }

  /** Every contributor of plan i gets an edge from the fact of result i. */
  function Stars(ups: seq<FactUpsert>, contributing: seq<seq<nat>>): seq<Edge>
    requires |ups| == |contributing|
  {
    if ups == [] then []
    else
      var n := |ups| - 1;
      Stars(ups[..n], contributing[..n]) + Star(ups[n].node, contributing[n])
  }

  function Times(contributing: seq<seq<nat>>, obs: nat): nat {
    if contributing == [] then 0
    else Times(contributing[..|contributing| - 1], obs) + multiset(contributing[|contributing| - 1])[obs]
  }

  lemma {:induction false} StarsPerObs(ups: seq<FactUpsert>, contributing: seq<seq<nat>>, obs: nat)
    requires |ups| == |contributing|
    ensures ObsEdges(Stars(ups, contributing), obs) == Times(contributing, obs)
  {
    if ups != [] {
      var n := |ups| - 1;
      StarsPerObs(ups[..n], contributing[..n], obs);
      Append(Stars(ups[..n], contributing[..n]), Star(ups[n].node, contributing[n]), obs);
      StarEdges(ups[n].node, contributing[n], obs);
    }
  }

  /** Row i asks for the count of plan i, and result i is the node of its fact. */
  ghost predicate Answers(rows: seq<Row>, contributing: seq<seq<nat>>, ups: seq<FactUpsert>, facts: map<string, Fact>) {
    && |rows| == |contributing| == |ups|
    && (forall i :: 0 <= i < |rows| ==> AnswersAt(rows, contributing, ups, facts, i))
    && OneNodeEach(facts)
  }

  ghost predicate AnswersAt(rows: seq<Row>, contributing: seq<seq<nat>>, ups: seq<FactUpsert>, facts: map<string, Fact>, i: nat)
    requires i < |rows| == |contributing| == |ups|
  {
    rows[i].count == |contributing[i]| && rows[i].Id() in facts && ups[i].node == facts[rows[i].Id()].node
  }

  ghost predicate OneNodeEach(facts: map<string, Fact>) {
    forall a, b :: a in facts && b in facts && facts[a].node == facts[b].node ==> a == b
  }

  /** A fact gets as many new edges as its count grows. */
  lemma {:induction false} StarsPerFact(rows: seq<Row>, contributing: seq<seq<nat>>, ups: seq<FactUpsert>,
                                       facts: map<string, Fact>, id: string)
    requires Answers(rows, contributing, ups, facts) && id in facts
    ensures FactEdges(Stars(ups, contributing), facts[id].node) == Added(rows, id)
  {
    if rows != [] {
      var n := |rows| - 1;
      forall i | 0 <= i < n ensures AnswersAt(rows[..n], contributing[..n], ups[..n], facts, i) {
        assert AnswersAt(rows, contributing, ups, facts, i);
      }
      StarsPerFact(rows[..n], contributing[..n], ups[..n], facts, id);
      Append(Stars(ups[..n], contributing[..n]), Star(ups[n].node, contributing[n]), facts[id].node);
      StarEdges(ups[n].node, contributing[n], facts[id].node);
      assert AnswersAt(rows, contributing, ups, facts, n);
    }
  }

  /** No edge leaves a node that no result names. */
  lemma {:induction false} StarsElsewhere(ups: seq<FactUpsert>, contributing: seq<seq<nat>>, n: nat)
    requires |ups| == |contributing| && forall i :: 0 <= i < |ups| ==> ups[i].node != n
    ensures FactEdges(Stars(ups, contributing), n) == 0
  {
    if ups != [] {
      var m := |ups| - 1;
      StarsElsewhere(ups[..m], contributing[..m], n);
      Append(Stars(ups[..m], contributing[..m]), Star(ups[m].node, contributing[m]), n);
      StarEdges(ups[m].node, contributing[m], n);
    }
  }
}
