/**
 What the publish-order guard asks of a list, said on the manifests that
 `cargo metadata` reports (scripts/ci/check_publish_list.py, 34-69): which dependencies
 gate publishing, which crates may not be published, and what a list must hold.
 */
module PublishManifests {
  import opened Wrappers
  import opened PublishOrder

  /** Package `i` is the last one named `c`, the one that counts. */
  ghost predicate IsLast(packages: seq<Package>, i: int, c: Crate) {
    0 <= i < |packages| && packages[i].name == c && forall j :: i < j < |packages| ==> packages[j].name != c
  }

  ghost predicate InWorkspace(packages: seq<Package>, c: Crate) {
    exists i :: 0 <= i < |packages| && packages[i].name == c
  }

  /** `cargo publish` must find the dependency on the index: a normal one, a build one,
      or a dev one with a version. */
  ghost predicate MustBeFound(d: Dep) {
    || d.kind.None?
    || d.kind.value == "build"
    || (d.kind.value == "dev" && d.req.Some? && d.req.value != "*")
  }

  /** Dependency `k` of package `i` makes `c` wait for `d`. */
  ghost predicate Asks(packages: seq<Package>, i: int, k: int, c: Crate, d: Crate) {
    && IsLast(packages, i, c) && 0 <= k < |packages[i].dependencies|
    && packages[i].dependencies[k].name == d && MustBeFound(packages[i].dependencies[k])
  }

  ghost predicate Needs(packages: seq<Package>, c: Crate, d: Crate) {
    InWorkspace(packages, d) && exists i, k :: Asks(packages, i, k, c, d)
  }

  /** The manifest closes the registry list. */
  ghost predicate Forbidden(packages: seq<Package>, c: Crate) {
    exists i :: IsLast(packages, i, c) && packages[i].publish.Some? && |packages[i].publish.value| == 0
  }

  lemma {:induction false} ByNameCovers(packages: seq<Package>, c: Crate)
    ensures c in ByName(packages) <==> InWorkspace(packages, c)
  {
    if packages != [] {
      var front, last := packages[..|packages| - 1], packages[|packages| - 1];
      ByNameCovers(front, c);
      assert packages == front + [last];
      if i :| 0 <= i < |front| && front[i].name == c { assert packages[i].name == c; }
    }
  }

  lemma {:induction false} ByNameIsLast(packages: seq<Package>, c: Crate) returns (i: int)
    requires c in ByName(packages)
    ensures IsLast(packages, i, c) && packages[i] == ByName(packages)[c]
  {
    i := |packages| - 1;
    if packages[i].name != c { i := ByNameIsLast(packages[..i], c); }
  }

  lemma OneLast(packages: seq<Package>, i: int, j: int, c: Crate)
    requires IsLast(packages, i, c) && IsLast(packages, j, c)
    ensures i == j
  {
  }

  lemma EdgeIsAsked(packages: seq<Package>, c: Crate, d: Crate)
    requires d in Deps(GraphOf(packages), c)
    ensures Needs(packages, c, d)
  {
    ByNameCovers(packages, d);
    var i := ByNameIsLast(packages, c);
    var dep :| dep in packages[i].dependencies && Gates(dep) && dep.name == d;
    var k :| 0 <= k < |packages[i].dependencies| && packages[i].dependencies[k] == dep;
    assert Asks(packages, i, k, c, d);
  }

  lemma AskedIsEdge(packages: seq<Package>, c: Crate, d: Crate, i: int, k: int)
    requires InWorkspace(packages, d) && Asks(packages, i, k, c, d)
    ensures d in Deps(GraphOf(packages), c)
  {
    ByNameCovers(packages, c);
    ByNameCovers(packages, d);
    var j := ByNameIsLast(packages, c);
    OneLast(packages, i, j, c);
    var dep := packages[i].dependencies[k];
    assert dep in ByName(packages)[c].dependencies && Gates(dep);
  }

  /** The graph of the guard joins exactly the crates whose manifests ask for each other. */
  lemma DependsExactly(packages: seq<Package>, c: Crate, d: Crate)
    ensures d in Deps(GraphOf(packages), c) <==> Needs(packages, c, d)
  {
    if d in Deps(GraphOf(packages), c) { EdgeIsAsked(packages, c, d); }
    if Needs(packages, c, d) {
      var i, k :| Asks(packages, i, k, c, d);
      AskedIsEdge(packages, c, d, i, k);
    }
  }

  lemma ForbiddenExactly(packages: seq<Package>, c: Crate)
    ensures c in NoPublish(packages) <==> Forbidden(packages, c)
  {
    ByNameCovers(packages, c);
    if c in ByName(packages) {
      var j := ByNameIsLast(packages, c);
      if i :| IsLast(packages, i, c) && packages[i].publish.Some? && |packages[i].publish.value| == 0 { OneLast(packages, i, j, c); }
    }
  }

  /** Crates that each need the next one, from `root` to `c`. */
  ghost predicate Chain(packages: seq<Package>, p: seq<Crate>, root: Crate, c: Crate) {
    && |p| > 0 && p[0] == root && p[|p| - 1] == c
    && forall i :: 0 <= i < |p| - 1 ==> Needs(packages, p[i], p[i + 1])
  }

  /** The crate is to be published: the root needs it, through other crates if need be,
      and its manifest allows it. */
  ghost predicate Wanted(packages: seq<Package>, root: Crate, c: Crate) {
    (exists p: seq<Crate> :: Chain(packages, p, root, c)) && !Forbidden(packages, c)
  }

  lemma ChainIsWalk(packages: seq<Package>, p: seq<Crate>, root: Crate, c: Crate)
    ensures Chain(packages, p, root, c) <==> WalkTo(GraphOf(packages), p, root, c)
  {
    forall i | 0 <= i < |p| - 1
      ensures p[i + 1] in Deps(GraphOf(packages), p[i]) <==> Needs(packages, p[i], p[i + 1])
    {
      DependsExactly(packages, p[i], p[i + 1]);
    }
  }

  lemma WantedExactly(packages: seq<Package>, root: Crate, c: Crate)
    ensures InClosure(packages, root, c) <==> Wanted(packages, root, c)
  {
    ForbiddenExactly(packages, c);
    if p: seq<Crate> :| WalkTo(GraphOf(packages), p, root, c) { ChainIsWalk(packages, p, root, c); }
    if p: seq<Crate> :| Chain(packages, p, root, c) { ChainIsWalk(packages, p, root, c); }
  }

  /** What the guard passes, on the manifests: a list of exactly the wanted crates, each
      once, none before a crate it needs. */
  lemma GoodListExactly(packages: seq<Package>, root: Crate, listed: seq<Crate>)
    ensures GoodList(packages, root, listed) <==>
      && listed != [] && Distinct(listed)
      && (forall c :: c in listed <==> Wanted(packages, root, c))
      && (forall i, j :: 0 <= i < j < |listed| ==> !Needs(packages, listed[i], listed[j]))
  {
    forall c ensures InClosure(packages, root, c) <==> Wanted(packages, root, c) { WantedExactly(packages, root, c); }
    forall i, j | 0 <= i < j < |listed|
      ensures listed[j] !in Deps(GraphOf(packages), listed[i]) <==> !Needs(packages, listed[i], listed[j])
    {
      DependsExactly(packages, listed[i], listed[j]);
    }
  }

  /** On a passing list, every crate of the workspace that a listed crate asks for is
      listed before it, unless it is itself or may not be published. */
  lemma PassMeans(packages: seq<Package>, root: Crate, listed: seq<Crate>, n: nat, i: nat, k: nat, d: Crate)
    requires GoodList(packages, root, listed) && n < |listed| && Asks(packages, i, k, listed[n], d)
    requires InWorkspace(packages, d) && !Forbidden(packages, d) && d != listed[n]
    ensures d in listed[..n]
  {
    assert Needs(packages, listed[n], d);
    DependsExactly(packages, listed[n], d);
    ForbiddenExactly(packages, d);
    assert listed[..n + 1] == listed[..n] + [listed[n]];
    PrefixesAreClosed(packages, root, listed, n + 1, listed[n], d);
  }

  const MISSING := [Package("r", None, [Dep("s", None, Some("1.0"))]), Package("s", None, [])]

  /** A list without a normal dependency of the root does not pass; with it in front it does. */
  lemma MissingDependencyFails()
    ensures !GoodList(MISSING, "r", ["r"]) && GoodList(MISSING, "r", ["s", "r"])
  {
    assert Asks(MISSING, 0, 0, "r", "s");
    assert InWorkspace(MISSING, "s") && Needs(MISSING, "r", "s") by { assert MISSING[1].name == "s"; }
    assert Chain(MISSING, ["r"], "r", "r") && Chain(MISSING, ["r", "s"], "r", "s");
    assert Wanted(MISSING, "r", "r") && Wanted(MISSING, "r", "s");
    forall c | Wanted(MISSING, "r", c) ensures c == "r" || c == "s" {
      var p: seq<Crate> :| Chain(MISSING, p, "r", c);
      if |p| > 1 { assert Needs(MISSING, p[|p| - 2], p[|p| - 2 + 1]); }
    }
    GoodListExactly(MISSING, "r", ["r"]);
    GoodListExactly(MISSING, "r", ["s", "r"]);
  }
}
