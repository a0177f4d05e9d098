/**
 The publish-order guard (scripts/ci/check_publish_list.py): the closure of the
 root crate by a worklist, and what a passing list says about the graph.
 */
module PublishOrder {
  import opened Wrappers

  type Crate = string

  /** `kind` is None for a normal dependency. */
  datatype Dep = Dep(name: Crate, kind: Option<string>, req: Option<string>)
  /** `publish` is the manifest's registry list; an empty list forbids publishing. */
  datatype Package = Package(name: Crate, publish: Option<seq<string>>, dependencies: seq<Dep>)

  type Graph = map<Crate, set<Crate>>

  /** Normal and build dependencies gate publishing; so do versioned dev ones. */
  predicate Gates(d: Dep) {
    d.kind == None || d.kind == Some("build") ||
    (d.kind == Some("dev") && (match d.req case None => false case Some(req) => req != "*"))
  }

  function ByName(packages: seq<Package>): map<Crate, Package> {
    if packages == [] then map[]
    else ByName(packages[..|packages| - 1])[packages[|packages| - 1].name := packages[|packages| - 1]]
  }

  function DepsOf(p: Package, internal: set<Crate>): set<Crate> {
    set d | d in p.dependencies && Gates(d) && d.name in internal :: d.name
  }

  function GraphOf(packages: seq<Package>): Graph {
    var pkgs := ByName(packages);
    map name | name in pkgs :: DepsOf(pkgs[name], pkgs.Keys)
  }

  function NoPublish(packages: seq<Package>): set<Crate> {
    var pkgs := ByName(packages);
    set name | name in pkgs && pkgs[name].publish == Some([])
  }

  function Deps(graph: Graph, c: Crate): set<Crate> {
    if c in graph then graph[c] else {}
  }

  // ----- reachability -----

  ghost predicate IsWalk(graph: Graph, p: seq<Crate>) {
    |p| > 0 && forall i :: 0 <= i < |p| - 1 ==> p[i + 1] in Deps(graph, p[i])
  }

  ghost predicate WalkTo(graph: Graph, p: seq<Crate>, root: Crate, c: Crate) {
    IsWalk(graph, p) && p[0] == root && p[|p| - 1] == c
  }

  ghost predicate Reachable(graph: Graph, root: Crate, c: Crate) {
    exists p: seq<Crate> :: WalkTo(graph, p, root, c)
  }

  lemma RootReachable(graph: Graph, root: Crate)
    ensures Reachable(graph, root, root)
  {
    assert WalkTo(graph, [root], root, root);
  }

  lemma OneFurther(graph: Graph, root: Crate, c: Crate, d: Crate)
    requires Reachable(graph, root, c) && d in Deps(graph, c)
    ensures Reachable(graph, root, d)
  {
    var p: seq<Crate> :| WalkTo(graph, p, root, c);
    assert WalkTo(graph, p + [d], root, d);
  }

  lemma {:induction false} ClosedHoldsWalk(graph: Graph, s: set<Crate>, p: seq<Crate>, k: nat)
    requires IsWalk(graph, p) && p[0] in s && k < |p|
    requires forall c :: c in s ==> Deps(graph, c) <= s
    ensures p[k] in s
  {
    if k > 0 {
      ClosedHoldsWalk(graph, s, p, k - 1);
      assert p[k - 1 + 1] in Deps(graph, p[k - 1]);
    }
  }

  /** Every dependency names a node: what makes the worklist finite. */
  predicate Internal(graph: Graph) {
    forall c :: c in graph ==> graph[c] <= graph.Keys
  }

  /** The worklist loop: `seen` ends as exactly what the root reaches. */
  method Closure(graph: Graph, root: Crate) returns (seen: set<Crate>)
    requires Internal(graph)
    ensures forall c :: c in seen <==> Reachable(graph, root, c)
  {
    seen := {};
    var stack := [root];
    RootReachable(graph, root);
    ghost var nodes := graph.Keys + {root};
    while stack != []
      invariant seen <= nodes && forall c :: c in stack ==> c in nodes
      invariant forall c :: c in seen || c in stack ==> Reachable(graph, root, c)
      invariant root in seen || root in stack
      invariant forall c, d :: c in seen && d in Deps(graph, c) ==> d in seen || d in stack
      decreases nodes - seen, |stack|
    {
      var c := stack[|stack| - 1];
      ghost var before := stack;
      stack := stack[..|stack| - 1];
      assert before == stack + [c];
      assert forall d :: d in before <==> d in stack || d == c;
      if c !in seen {
        seen := seen + {c};
        var extra := AnyOrder(Deps(graph, c));
        forall d | d in Deps(graph, c) ensures Reachable(graph, root, d) { OneFurther(graph, root, c, d); }
        stack := stack + extra;
      }
    }
    forall c | Reachable(graph, root, c) ensures c in seen {
      var p: seq<Crate> :| WalkTo(graph, p, root, c);
      ClosedHoldsWalk(graph, seen, p, |p| - 1);
    }
  }

  /** A set listed in the arbitrary order a hash set is iterated in. */
  method AnyOrder(s: set<Crate>) returns (list: seq<Crate>)
    ensures forall c :: c in list <==> c in s
  {
    list := [];
    var todo := s;
    while todo != {}
      invariant todo <= s && forall c :: c in list <==> c in s - todo
      decreases todo
    {
      var c :| c in todo;
      todo := todo - {c};
      list := list + [c];
    }
  }

  ghost predicate InClosure(packages: seq<Package>, root: Crate, c: Crate) {
    Reachable(GraphOf(packages), root, c) && c !in NoPublish(packages)
  }

  lemma GraphIsInternal(packages: seq<Package>)
    ensures Internal(GraphOf(packages))
  {
  }

  // ----- the check -----

  ghost predicate Distinct(s: seq<Crate>) {
    forall i, j :: 0 <= i < j < |s| ==> s[i] != s[j]
  }

  /** No crate is listed before a listed dependency of its own. */
  ghost predicate InOrder(graph: Graph, listed: seq<Crate>) {
    forall i, j :: 0 <= i < j < |listed| ==> listed[j] !in Deps(graph, listed[i])
  }

  /** What the workflow file must list. */
  ghost predicate GoodList(packages: seq<Package>, root: Crate, listed: seq<Crate>) {
    && listed != [] && Distinct(listed)
    && (forall c :: c in listed <==> InClosure(packages, root, c))
    && InOrder(GraphOf(packages), listed)
  }

  lemma {:induction false} SetOfSeq(s: seq<Crate>)
    ensures |set c | c in s| <= |s|
    ensures |set c | c in s| == |s| <==> Distinct(s)
  {
    if s == [] {
      assert (set c | c in s) == {};
    } else {
      var front, last := s[..|s| - 1], s[|s| - 1];
      SetOfSeq(front);
      assert s == front + [last];
      assert (set c | c in s) == (set c | c in front) + {last};
      if last in front {
        var i :| 0 <= i < |front| && front[i] == last;
        assert s[i] == s[|s| - 1];
        assert (set c | c in s) == (set c | c in front);
      } else if Distinct(front) {
        assert Distinct(s);
      } else {
        var i, j :| 0 <= i < j < |front| && front[i] == front[j];
        assert s[i] == s[j];
      }
    }
  }

  /** `main`: the exit code is zero exactly on a good list. */
  method CheckPublishList(packages: seq<Package>, root: Crate, listed: seq<Crate>) returns (exitCode: nat)
    ensures exitCode == 0 || exitCode == 1
    ensures exitCode == 0 <==> GoodList(packages, root, listed)
  {
    var graph := GraphOf(packages);
    GraphIsInternal(packages);
    var seen := Closure(graph, root);
    var noPublish := NoPublish(packages);
    var closure := set c | c in seen && c !in noPublish;
    var listedSet := set c | c in listed;
    var ok := listed != [];
    if closure - listedSet != {} { ok := false; }
    if listedSet - closure != {} { ok := false; }
    if |listed| != |listedSet| { ok := false; }
    SetOfSeq(listed);
    assert ok <==> listed != [] && Distinct(listed) && listedSet == closure;
    var inOrder := OrderHolds(graph, listed, closure);
    exitCode := if ok && inOrder then 0 else 1;
    if listedSet == closure {
      forall c ensures c in listed <==> InClosure(packages, root, c) { assert c in listed <==> c in closure; }
    }
  }

  ghost predicate Positions(listed: seq<Crate>, n: nat, pos: map<Crate, nat>)
    requires n <= |listed|
  {
    && (forall c :: c in pos <==> c in listed[..n])
    && (forall c :: c in pos ==> pos[c] < n && listed[pos[c]] == c)
  }

  function Late(graph: Graph, closure: set<Crate>, pos: map<Crate, nat>, c: Crate): set<Crate>
    requires c in pos
  {
    set dep | dep in Deps(graph, c) && dep in closure && dep in pos && pos[dep] > pos[c]
  }

  /** No crate among the first `n` comes before a listed dependency of its own. */
  ghost predicate InOrderTo(graph: Graph, listed: seq<Crate>, n: nat) {
    forall i, j :: 0 <= i < n && i < j < |listed| ==> listed[j] !in Deps(graph, listed[i])
  }

  lemma NoneLate(graph: Graph, listed: seq<Crate>, closure: set<Crate>, pos: map<Crate, nat>, i: nat)
    requires Distinct(listed) && (set c | c in listed) == closure && Positions(listed, |listed|, pos) && i < |listed|
    ensures listed[i] in pos
    ensures Late(graph, closure, pos, listed[i]) == {} <==> forall j :: i < j < |listed| ==> listed[j] !in Deps(graph, listed[i])
  {
    var c := listed[i];
    assert listed[..|listed|] == listed;
    assert pos[c] == i;
    var late := Late(graph, closure, pos, c);
    if j :| i < j < |listed| && listed[j] in Deps(graph, c) {
      assert pos[listed[j]] == j;
      assert listed[j] in late;
    }
    if d :| d in late { assert listed[pos[d]] == d; }
  }

  /** The position loop of `main`, on a list with no duplicates of the closure. */
  method OrderHolds(graph: Graph, listed: seq<Crate>, closure: set<Crate>) returns (ok: bool)
    ensures Distinct(listed) && (set c | c in listed) == closure ==> (ok <==> InOrder(graph, listed))
  {
    var pos: map<Crate, nat> := map[];
    for i := 0 to |listed|
      invariant Positions(listed, i, pos)
    {
      assert listed[..i + 1] == listed[..i] + [listed[i]];
      pos := pos[listed[i] := i];
    }
    ok := true;
    for i := 0 to |listed|
      invariant Distinct(listed) && (set c | c in listed) == closure ==> (ok <==> InOrderTo(graph, listed, i))
    {
      assert listed[..|listed|] == listed && listed[i] in pos;
      if Distinct(listed) && (set d | d in listed) == closure { NoneLate(graph, listed, closure, pos, i); }
      if Late(graph, closure, pos, listed[i]) != {} { ok := false; }
    }
  }

  // ----- what a pass implies -----

  /** Every prefix of a passing list holds all other in-closure dependencies of its
      crates. */
  lemma PrefixesAreClosed(packages: seq<Package>, root: Crate, listed: seq<Crate>, k: nat, c: Crate, dep: Crate)
    requires GoodList(packages, root, listed) && k <= |listed|
    requires c in listed[..k] && dep in Deps(GraphOf(packages), c) && dep != c && dep !in NoPublish(packages)
    ensures dep in listed[..k]
  {
    var i :| 0 <= i < k && listed[i] == c;
    assert c in listed && InClosure(packages, root, c);
    OneFurther(GraphOf(packages), root, c, dep);
    assert InClosure(packages, root, dep);
    var j :| 0 <= j < |listed| && listed[j] == dep;
  }

  /** Publishing in list order, each crate finds all its gating dependencies
      already published. */
  ghost predicate Publishes(graph: Graph, listed: seq<Crate>) {
    forall i, dep :: 0 <= i < |listed| && dep in Deps(graph, listed[i]) ==> dep in listed[..i]
  }

  /** A passing list publishes from start to end exactly when no crate of the
      closure depends on itself or on an unpublishable crate: the two cases the
      guard does not look at. */
  lemma PassPublishesExactly(packages: seq<Package>, root: Crate, listed: seq<Crate>)
    requires GoodList(packages, root, listed)
    ensures Publishes(GraphOf(packages), listed) <==>
      forall c :: InClosure(packages, root, c) ==> Deps(GraphOf(packages), c) !! NoPublish(packages) + {c}
  {
    var graph := GraphOf(packages);
    if Publishes(graph, listed) {
      forall c, dep | InClosure(packages, root, c) && dep in Deps(graph, c) ensures dep !in NoPublish(packages) + {c} {
        var i :| 0 <= i < |listed| && listed[i] == c;
        assert dep in listed[..i];
        var j :| 0 <= j < i && listed[j] == dep;
        assert InClosure(packages, root, listed[j]);
      }
    }
    if forall c :: InClosure(packages, root, c) ==> Deps(graph, c) !! NoPublish(packages) + {c} {
      forall i, dep | 0 <= i < |listed| && dep in Deps(graph, listed[i]) ensures dep in listed[..i] {
        var c := listed[i];
        assert InClosure(packages, root, c);
        assert dep !in NoPublish(packages) + {c};
        PrefixesAreClosed(packages, root, listed, i + 1, c, dep);
        assert listed[..i + 1] == listed[..i] + [c];
      }
    }
  }

  /** A crate with a versioned dev dependency on itself passes and cannot be published. */
  lemma PassMayNotPublish()
    ensures var packages := [Package("r", None, [Dep("r", Some("dev"), Some("1.0"))])];
      GoodList(packages, "r", ["r"]) && !Publishes(GraphOf(packages), ["r"])
  {
    var packages := [Package("r", None, [Dep("r", Some("dev"), Some("1.0"))])];
    var graph := GraphOf(packages);
    assert packages[..0] == [];
    assert ByName(packages) == map["r" := packages[0]];
    assert packages[0].dependencies[0] in packages[0].dependencies;
    assert Deps(graph, "r") == {"r"};
    RootReachable(graph, "r");
    forall c | Reachable(graph, "r", c) ensures c == "r" {
      var p: seq<Crate> :| WalkTo(graph, p, "r", c);
      forall x | x in {"r"} ensures Deps(graph, x) <= {"r"} {}
      ClosedHoldsWalk(graph, {"r"}, p, |p| - 1);
    }
    assert ["r"][..0] == [] && "r" in Deps(graph, ["r"][0]);
  }

  ghost predicate WithinClosure(packages: seq<Package>, root: Crate, p: seq<Crate>) {
    forall i :: 0 <= i < |p| ==> InClosure(packages, root, p[i])
  }

  lemma {:induction false} WalkGoesBack(packages: seq<Package>, root: Crate, listed: seq<Crate>, p: seq<Crate>, i: nat, j: nat, a: nat, b: nat)
    requires GoodList(packages, root, listed)
    requires IsWalk(GraphOf(packages), p) && WithinClosure(packages, root, p)
    requires i <= j < |p| && a < |listed| && b < |listed| && listed[a] == p[i] && listed[b] == p[j]
    ensures b <= a
    decreases j - i
  {
    if i < j {
      assert InClosure(packages, root, p[j - 1]);
      var k :| 0 <= k < |listed| && listed[k] == p[j - 1];
      WalkGoesBack(packages, root, listed, p, i, j - 1, a, k);
      assert p[j - 1 + 1] in Deps(GraphOf(packages), p[j - 1]);
    }
  }

  /** The in-closure graph of a passing list has no cycle through two or more
      distinct crates: a walk that returns to its start never left it. */
  lemma NoCycles(packages: seq<Package>, root: Crate, listed: seq<Crate>, p: seq<Crate>, i: nat)
    requires GoodList(packages, root, listed)
    requires IsWalk(GraphOf(packages), p) && WithinClosure(packages, root, p) && p[|p| - 1] == p[0] && i < |p|
    ensures p[i] == p[0]
  {
    assert InClosure(packages, root, p[0]) && InClosure(packages, root, p[i]);
    var a :| 0 <= a < |listed| && listed[a] == p[0];
    var b :| 0 <= b < |listed| && listed[b] == p[i];
    WalkGoesBack(packages, root, listed, p, 0, i, a, b);
    WalkGoesBack(packages, root, listed, p, i, |p| - 1, b, a);
  }
}
