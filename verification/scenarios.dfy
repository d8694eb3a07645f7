/**
 * The task graphs of the ordering tests, walked from `build`. Where a task
 * has two dependencies, the result is stated for both iteration orders of
 * its dependency set.
 */
module Scenarios {
  import opened Wrappers
  import opened Sequences
  import opened DependencyGraph
  import opened TaskOrder

  /** `g` lists the dependency sets of `g0`, each once, in some order. */
  predicate ListsEachOnce(g0: Graph, g: Graph)
  {
    SameEdges(g0, g) && forall n :: n in g ==> NoDuplicates(g[n])
  }

  lemma HeadListed(s: seq<string>)
    requires |s| > 0
    ensures s[0] in Elems(s)
  {
  }

  lemma ListingOfNone(s: seq<string>)
    requires Elems(s) == {}
    ensures s == []
  {
    if |s| > 0 {
      HeadListed(s);
      assert false;
    }
  }

  lemma ListingOfOne(s: seq<string>, a: string)
    requires NoDuplicates(s) && Elems(s) == {a}
    ensures s == [a]
  {
    DistinctCount(s);
    assert s[0] in Elems(s);
  }

  /** A set of two names is listed in one of its two orders. */
  lemma ListingOfTwo(s: seq<string>, a: string, b: string)
    requires a != b && NoDuplicates(s) && Elems(s) == {a, b}
    ensures s == [a, b] || s == [b, a]
  {
    DistinctCount(s);
    assert |{a, b}| == 2;
    assert s[0] in Elems(s) && s[1] in Elems(s);
  }

  // ---------------------------------------------------------------------
  // Single steps of the walk
  // ---------------------------------------------------------------------

  lemma LeafStep(g: Graph, t: string, path: seq<string>, ordered: seq<string>)
    requires Closed(g) && t in g && g[t] == []
    ensures Visit(g, t, path, ordered) == Success(if t in ordered then ordered else ordered + [t])
  {
  }

  /** A task with one dependency not on the path: visit it, then emit the task. */
  lemma OneDependencyStep(g: Graph, t: string, d: string, path: seq<string>, ordered: seq<string>, o: seq<string>)
    requires Closed(g) && t in g && g[t] == [d] && d !in path
    requires Visit(g, d, path + [t], ordered) == Success(o)
    ensures Visit(g, t, path, ordered) == Success(if t in o then o else o + [t])
  {
    assert [d][1..] == [];
    assert VisitAll(g, t, [], path, o) == Success(o);
    assert VisitAll(g, t, [d], path, ordered) == Success(o);
  }

  /** A task with two dependencies not on the path: visit them in turn, then emit the task. */
  lemma TwoDependenciesStep(
    g: Graph, t: string, d1: string, d2: string, path: seq<string>, ordered: seq<string>, o1: seq<string>, o2: seq<string>)
    requires Closed(g) && t in g && g[t] == [d1, d2] && d1 !in path && d2 !in path
    requires Visit(g, d1, path + [t], ordered) == Success(o1)
    requires Visit(g, d2, path + [t], o1) == Success(o2)
    ensures Visit(g, t, path, ordered) == Success(if t in o2 then o2 else o2 + [t])
  {
    assert [d1, d2][1..] == [d2] && [d2][1..] == [];
    assert VisitAll(g, t, [], path, o2) == Success(o2);
    assert VisitAll(g, t, [d2], path, o1) == Success(o2);
    assert VisitAll(g, t, [d1, d2], path, ordered) == Success(o2);
  }

  // ---------------------------------------------------------------------
  // One task; unrelated tasks are left out
  // ---------------------------------------------------------------------

  /** Three tasks without dependencies: only the root is ordered. */
  lemma NoDependencies()
    ensures var g := map["build" := [], "test" := [], "lint" := []];
            Closed(g) && Order(g, "build") == Success(["build"])
  {
    assert Emit([], "build") == ["build"];
  }

  /** `build` needs `lint`; `test` is unrelated and left out. */
  lemma PartialDependencies()
    ensures var g := map["build" := ["lint"], "test" := [], "lint" := []];
            Closed(g) && Order(g, "build") == Success(["lint", "build"])
  {
    var g := map["build" := ["lint"], "test" := [], "lint" := []];
    assert [] + ["build"] == ["build"];
    assert Emit([], "lint") == ["lint"];
    LeafStep(g, "lint", ["build"], []);
    OneDependencyStep(g, "build", "lint", [], [], ["lint"]);
    assert Emit(["lint"], "build") == ["lint", "build"];
  }

  /** A chain `b -> t -> l` over three distinct names. */
  function ChainOf(b: string, t: string, l: string): Graph
  {
    map[b := [t], t := [l], l := []]
  }

  lemma ChainOfClosed(b: string, t: string, l: string)
    requires b != t && b != l && t != l
    ensures Closed(ChainOf(b, t, l))
    ensures var g := ChainOf(b, t, l);
            b in g && g[b] == [t] && g[t] == [l] && g[l] == []
  {
  }

  lemma ChainBranch(b: string, t: string, l: string)
    requires b != t && b != l && t != l
    ensures Closed(ChainOf(b, t, l)) && Visit(ChainOf(b, t, l), t, [b], []) == Success([l, t])
  {
    var g := ChainOf(b, t, l);
    ChainOfClosed(b, t, l);
    assert [b] + [t] == [b, t] && [] + [l] == [l];
    LeafStep(g, l, [b, t], []);
    OneDependencyStep(g, t, l, [b], [], [l]);
    assert [l] + [t] == [l, t];
  }

  lemma ChainWalk(b: string, t: string, l: string)
    requires b != t && b != l && t != l
    ensures Closed(ChainOf(b, t, l)) && Order(ChainOf(b, t, l), b) == Success([l, t, b])
  {
    var g := ChainOf(b, t, l);
    ChainOfClosed(b, t, l);
    ChainBranch(b, t, l);
    assert [] + [b] == [b];
    OneDependencyStep(g, b, t, [], [], [l, t]);
    assert [l, t] + [b] == [l, t, b];
  }

  /** `build -> test -> lint`. */
  lemma LinearDependencies()
    ensures var g := map["build" := ["test"], "test" := ["lint"], "lint" := []];
            Closed(g) && Order(g, "build") == Success(["lint", "test", "build"])
  {
    ChainWalk("build", "test", "lint");
    assert ChainOf("build", "test", "lint") == map["build" := ["test"], "test" := ["lint"], "lint" := []];
  }

  // ---------------------------------------------------------------------
  // The diamond: build -> {test, security}, both -> lint
  // ---------------------------------------------------------------------

  /** The diamond over any four distinct names, `x` listed before `y`. */
  function DiamondOf(b: string, x: string, y: string, l: string): Graph
  {
    map[b := [x, y], x := [l], y := [l], l := []]
  }

  lemma DiamondOfClosed(b: string, x: string, y: string, l: string)
    requires b != x && b != y && b != l && x != y && x != l && y != l
    ensures Closed(DiamondOf(b, x, y, l))
    ensures b in DiamondOf(b, x, y, l) && DiamondOf(b, x, y, l)[b] == [x, y]
    ensures DiamondOf(b, x, y, l)[x] == [l] && DiamondOf(b, x, y, l)[y] == [l] && DiamondOf(b, x, y, l)[l] == []
  {
  }

  /** The first branch: `l`, then `x`. */
  lemma DiamondFirstBranch(b: string, x: string, y: string, l: string)
    requires b != x && b != y && b != l && x != y && x != l && y != l
    ensures Closed(DiamondOf(b, x, y, l))
    ensures Visit(DiamondOf(b, x, y, l), x, [b], []) == Success([l, x])
  {
    var g := DiamondOf(b, x, y, l);
    DiamondOfClosed(b, x, y, l);
    assert [b] + [x] == [b, x] && [] + [l] == [l];
    LeafStep(g, l, [b, x], []);
    OneDependencyStep(g, x, l, [b], [], [l]);
    assert [l] + [x] == [l, x];
  }

  /** The second branch finds `l` already ordered and adds only `y`. */
  lemma DiamondSecondBranch(b: string, x: string, y: string, l: string)
    requires b != x && b != y && b != l && x != y && x != l && y != l
    ensures Closed(DiamondOf(b, x, y, l))
    ensures Visit(DiamondOf(b, x, y, l), y, [b], [l, x]) == Success([l, x, y])
  {
    var g := DiamondOf(b, x, y, l);
    DiamondOfClosed(b, x, y, l);
    assert [b] + [y] == [b, y];
    LeafStep(g, l, [b, y], [l, x]);
    OneDependencyStep(g, y, l, [b], [l, x], [l, x]);
    assert [l, x] + [y] == [l, x, y];
  }

  lemma DiamondWalk(b: string, x: string, y: string, l: string)
    requires b != x && b != y && b != l && x != y && x != l && y != l
    ensures Closed(DiamondOf(b, x, y, l))
    ensures Order(DiamondOf(b, x, y, l), b) == Success([l, x, y, b])
  {
    var g := DiamondOf(b, x, y, l);
    DiamondOfClosed(b, x, y, l);
    DiamondFirstBranch(b, x, y, l);
    DiamondSecondBranch(b, x, y, l);
    assert [] + [b] == [b];
    TwoDependenciesStep(g, b, x, y, [], [], [l, x], [l, x, y]);
    assert [l, x, y] + [b] == [l, x, y, b];
  }

  /** `lint` first, `build` last, `test` and `security` in either order, as the set is iterated. */
  lemma DiamondEveryOrder(g: Graph)
    requires ListsEachOnce(DiamondOf("build", "test", "security", "lint"), g)
    ensures Closed(g) && "build" in g
    ensures || Order(g, "build") == Success(["lint", "test", "security", "build"])
            || Order(g, "build") == Success(["lint", "security", "test", "build"])
  {
    var g0 := DiamondOf("build", "test", "security", "lint");
    assert Elems(g0["test"]) == {"lint"} && Elems(g0["security"]) == {"lint"};
    assert Elems(g0["lint"]) == {} && Elems(g0["build"]) == {"test", "security"};
    ListingOfOne(g["test"], "lint");
    ListingOfOne(g["security"], "lint");
    ListingOfNone(g["lint"]);
    ListingOfTwo(g["build"], "test", "security");
    if g["build"] == ["test", "security"] {
      assert g == DiamondOf("build", "test", "security", "lint");
      DiamondWalk("build", "test", "security", "lint");
    } else {
      assert g == DiamondOf("build", "security", "test", "lint");
      DiamondWalk("build", "security", "test", "lint");
    }
  }

  // ---------------------------------------------------------------------
  // The fan-in: build -> test -> {lint, security}
  // ---------------------------------------------------------------------

  /** `b` needs `t`, which needs `x` and `y` (listed in that order); both are leaves. */
  function FanInOf(b: string, t: string, x: string, y: string): Graph
  {
    map[b := [t], t := [x, y], x := [], y := []]
  }

  lemma FanInOfClosed(b: string, t: string, x: string, y: string)
    requires b != t && b != x && b != y && t != x && t != y && x != y
    ensures Closed(FanInOf(b, t, x, y))
    ensures var g := FanInOf(b, t, x, y);
            b in g && g[b] == [t] && g[t] == [x, y] && g[x] == [] && g[y] == []
  {
  }

  /** Both leaves below `t`, `x` first. */
  lemma FanInLeaves(b: string, t: string, x: string, y: string)
    requires b != t && b != x && b != y && t != x && t != y && x != y
    ensures Closed(FanInOf(b, t, x, y))
    ensures Visit(FanInOf(b, t, x, y), x, [b, t], []) == Success([x])
    ensures Visit(FanInOf(b, t, x, y), y, [b, t], [x]) == Success([x, y])
  {
    var g := FanInOf(b, t, x, y);
    FanInOfClosed(b, t, x, y);
    LeafStep(g, x, [b, t], []);
    LeafStep(g, y, [b, t], [x]);
    assert [] + [x] == [x] && [x] + [y] == [x, y];
  }

  /** Below `b`: `x`, then `y`, then `t`. */
  lemma FanInBranch(b: string, t: string, x: string, y: string)
    requires b != t && b != x && b != y && t != x && t != y && x != y
    ensures Closed(FanInOf(b, t, x, y))
    ensures Visit(FanInOf(b, t, x, y), t, [b], []) == Success([x, y, t])
  {
    var g := FanInOf(b, t, x, y);
    FanInLeaves(b, t, x, y);
    assert [b] + [t] == [b, t];
    TwoDependenciesStep(g, t, x, y, [b], [], [x], [x, y]);
    assert [x, y] + [t] == [x, y, t];
  }

  lemma FanInWalk(b: string, t: string, x: string, y: string)
    requires b != t && b != x && b != y && t != x && t != y && x != y
    ensures Closed(FanInOf(b, t, x, y))
    ensures Order(FanInOf(b, t, x, y), b) == Success([x, y, t, b])
  {
    var g := FanInOf(b, t, x, y);
    FanInOfClosed(b, t, x, y);
    FanInBranch(b, t, x, y);
    assert [] + [b] == [b];
    OneDependencyStep(g, b, t, [], [], [x, y, t]);
    assert [x, y, t] + [b] == [x, y, t, b];
  }

  /** `lint` and `security` in either order, then `test`, then `build`. */
  lemma FanInEveryOrder(g: Graph)
    requires ListsEachOnce(FanInOf("build", "test", "lint", "security"), g)
    ensures Closed(g) && "build" in g
    ensures || Order(g, "build") == Success(["lint", "security", "test", "build"])
            || Order(g, "build") == Success(["security", "lint", "test", "build"])
  {
    var g0 := FanInOf("build", "test", "lint", "security");
    assert Elems(g0["build"]) == {"test"} && Elems(g0["test"]) == {"lint", "security"};
    assert Elems(g0["lint"]) == {} && Elems(g0["security"]) == {};
    ListingOfOne(g["build"], "test");
    ListingOfNone(g["lint"]);
    ListingOfNone(g["security"]);
    ListingOfTwo(g["test"], "lint", "security");
    if g["test"] == ["lint", "security"] {
      assert g == FanInOf("build", "test", "lint", "security");
      FanInWalk("build", "test", "lint", "security");
    } else {
      assert g == FanInOf("build", "test", "security", "lint");
      FanInWalk("build", "test", "security", "lint");
    }
  }

  // ---------------------------------------------------------------------
  // Redundant dependency: build -> {test, security}, test -> security
  // ---------------------------------------------------------------------

  /** `b` needs `t` and `s`, listed as `x`, `y`; `t` needs `s` as well. */
  function RedundantOf(b: string, t: string, s: string, x: string, y: string): Graph
  {
    map[b := [x, y], t := [s], s := []]
  }

  lemma RedundantOfClosed(b: string, t: string, s: string, x: string, y: string)
    requires b != t && b != s && t != s && ((x == t && y == s) || (x == s && y == t))
    ensures Closed(RedundantOf(b, t, s, x, y))
    ensures var g := RedundantOf(b, t, s, x, y);
            b in g && g[b] == [x, y] && g[t] == [s] && g[s] == []
  {
  }

  /** `t` first: the walk orders `s` below `t`. */
  lemma RedundantBranchTestFirst(b: string, t: string, s: string)
    requires b != t && b != s && t != s
    ensures Closed(RedundantOf(b, t, s, t, s))
    ensures Visit(RedundantOf(b, t, s, t, s), t, [b], []) == Success([s, t])
  {
    var g := RedundantOf(b, t, s, t, s);
    RedundantOfClosed(b, t, s, t, s);
    assert [b] + [t] == [b, t] && [] + [s] == [s];
    LeafStep(g, s, [b, t], []);
    OneDependencyStep(g, t, s, [b], [], [s]);
    assert [s] + [t] == [s, t];
  }

  /** ... and then finds `s` already ordered. */
  lemma RedundantRootStepTestFirst(b: string, t: string, s: string)
    requires b != t && b != s && t != s
    ensures Closed(RedundantOf(b, t, s, t, s))
    ensures Visit(RedundantOf(b, t, s, t, s), b, [], []) == Success([s, t] + [b])
  {
    var g := RedundantOf(b, t, s, t, s);
    RedundantOfClosed(b, t, s, t, s);
    RedundantBranchTestFirst(b, t, s);
    assert [] + [b] == [b];
    LeafStep(g, s, [b], [s, t]);
    TwoDependenciesStep(g, b, t, s, [], [], [s, t], [s, t]);
  }

  lemma RedundantWalkTestFirst(b: string, t: string, s: string)
    requires b != t && b != s && t != s
    ensures Closed(RedundantOf(b, t, s, t, s))
    ensures Order(RedundantOf(b, t, s, t, s), b) == Success([s, t, b])
  {
    RedundantRootStepTestFirst(b, t, s);
    assert [s, t] + [b] == [s, t, b];
  }

  /** `s` first, and it has no dependencies. */
  lemma RedundantLeafSecurityFirst(b: string, t: string, s: string)
    requires b != t && b != s && t != s
    ensures Closed(RedundantOf(b, t, s, s, t))
    ensures Visit(RedundantOf(b, t, s, s, t), s, [b], []) == Success([s])
  {
    var g := RedundantOf(b, t, s, s, t);
    RedundantOfClosed(b, t, s, s, t);
    LeafStep(g, s, [b], []);
    assert [] + [s] == [s];
  }

  /** `t` then finds its dependency already ordered. */
  lemma RedundantBranchSecurityFirst(b: string, t: string, s: string)
    requires b != t && b != s && t != s
    ensures Closed(RedundantOf(b, t, s, s, t))
    ensures Visit(RedundantOf(b, t, s, s, t), t, [b], [s]) == Success([s, t])
  {
    var g := RedundantOf(b, t, s, s, t);
    RedundantOfClosed(b, t, s, s, t);
    assert [b] + [t] == [b, t];
    LeafStep(g, s, [b, t], [s]);
    OneDependencyStep(g, t, s, [b], [s], [s]);
    assert [s] + [t] == [s, t];
  }

  /** The root visits `s`, then `t`, then emits itself. */
  lemma RedundantRootStepSecurityFirst(b: string, t: string, s: string)
    requires b != t && b != s && t != s
    ensures Closed(RedundantOf(b, t, s, s, t))
    ensures Visit(RedundantOf(b, t, s, s, t), b, [], []) == Success([s, t] + [b])
  {
    var g := RedundantOf(b, t, s, s, t);
    RedundantOfClosed(b, t, s, s, t);
    RedundantLeafSecurityFirst(b, t, s);
    RedundantBranchSecurityFirst(b, t, s);
    assert [] + [b] == [b];
    TwoDependenciesStep(g, b, s, t, [], [], [s], [s, t]);
  }

  lemma RedundantRootSecurityFirst(b: string, t: string, s: string)
    requires b != t && b != s && t != s
    ensures Closed(RedundantOf(b, t, s, s, t))
    ensures Visit(RedundantOf(b, t, s, s, t), b, [], []) == Success([s, t, b])
  {
    RedundantRootStepSecurityFirst(b, t, s);
    assert [s, t] + [b] == [s, t, b];
  }

  lemma RedundantWalkSecurityFirst(b: string, t: string, s: string)
    requires b != t && b != s && t != s
    ensures Closed(RedundantOf(b, t, s, s, t))
    ensures Order(RedundantOf(b, t, s, s, t), b) == Success([s, t, b])
  {
    RedundantRootSecurityFirst(b, t, s);
  }

  /** The shared dependency appears once, and the order is the same for both iteration orders. */
  lemma RedundantEveryOrder(g: Graph)
    requires ListsEachOnce(RedundantOf("build", "test", "security", "test", "security"), g)
    ensures Closed(g) && "build" in g
    ensures Order(g, "build") == Success(["security", "test", "build"])
  {
    var g0 := RedundantOf("build", "test", "security", "test", "security");
    assert Elems(g0["test"]) == {"security"} && Elems(g0["security"]) == {};
    assert Elems(g0["build"]) == {"test", "security"};
    ListingOfOne(g["test"], "security");
    ListingOfNone(g["security"]);
    ListingOfTwo(g["build"], "test", "security");
    if g["build"] == ["test", "security"] {
      assert g == RedundantOf("build", "test", "security", "test", "security");
      RedundantWalkTestFirst("build", "test", "security");
    } else {
      assert g == RedundantOf("build", "test", "security", "security", "test");
      RedundantWalkSecurityFirst("build", "test", "security");
    }
  }

  // ---------------------------------------------------------------------
  // Duplicate `depends_on` entries
  // ---------------------------------------------------------------------

  /** `b` lists `t` once; `t` has no dependencies. */
  function OnceOf(b: string, t: string): Graph
  {
    map[b := [t], t := []]
  }

  /** `b` lists `t` twice; `t` has no dependencies. */
  function TwiceOf(b: string, t: string): Graph
  {
    map[b := [t, t], t := []]
  }

  lemma OnceOfClosed(b: string, t: string)
    requires b != t
    ensures Closed(OnceOf(b, t))
    ensures var g := OnceOf(b, t);
            b in g && t in g && g[b] == [t] && g[t] == []
  {
  }

  lemma TwiceOfClosed(b: string, t: string)
    requires b != t
    ensures Closed(TwiceOf(b, t))
    ensures var g := TwiceOf(b, t);
            b in g && t in g && g[b] == [t, t] && g[t] == []
  {
  }

  lemma OnceWalk(b: string, t: string)
    requires b != t
    ensures Closed(OnceOf(b, t)) && Order(OnceOf(b, t), b) == Success([t, b])
  {
    var g := OnceOf(b, t);
    OnceOfClosed(b, t);
    assert [] + [b] == [b] && [] + [t] == [t];
    LeafStep(g, t, [b], []);
    OneDependencyStep(g, b, t, [], [], [t]);
    assert [t] + [b] == [t, b];
  }

  /** The second visit of `t` finds it ordered already and adds nothing. */
  lemma TwiceWalk(b: string, t: string)
    requires b != t
    ensures Closed(TwiceOf(b, t)) && Order(TwiceOf(b, t), b) == Success([t, b])
  {
    var g := TwiceOf(b, t);
    TwiceOfClosed(b, t);
    assert [] + [b] == [b] && [] + [t] == [t];
    LeafStep(g, t, [b], []);
    LeafStep(g, t, [b], [t]);
    TwoDependenciesStep(g, b, t, t, [], [], [t], [t]);
    assert [t] + [b] == [t, b];
  }

  /**
   * `depends_on = ["test", "test"]`: the set holds `test` once; even a walk
   * over the raw list with its repeat emits `test` once.
   */
  lemma DuplicateDependency()
    ensures var g := map["build" := ["test"], "test" := []];
            Closed(g) && Order(g, "build") == Success(["test", "build"])
    ensures var g := map["build" := ["test", "test"], "test" := []];
            Closed(g) && Order(g, "build") == Success(["test", "build"])
  {
    OnceWalk("build", "test");
    TwiceWalk("build", "test");
  }

  // ---------------------------------------------------------------------
  // Cycles
  // ---------------------------------------------------------------------

  /** `build -> test -> build` from `build`: the closing edge is `test -> build`. */
  lemma TwoTaskCycle()
    ensures var g := map["build" := ["test"], "test" := ["build"]];
            Closed(g) && Order(g, "build") == Failure(CycleEdge("test", "build"))
  {
    var g := map["build" := ["test"], "test" := ["build"]];
    assert [] + ["build"] == ["build"];
    assert VisitAll(g, "test", ["build"], ["build"], []) == Failure(CycleEdge("test", "build"));
    assert Visit(g, "test", ["build"], []) == Failure(CycleEdge("test", "build"));
    assert VisitAll(g, "build", ["test"], [], []) == Failure(CycleEdge("test", "build"));
  }

  /** `build -> test -> lint -> build` from `build`: the closing edge is `lint -> build`. */
  lemma ThreeTaskCycle()
    ensures var g := map["build" := ["test"], "test" := ["lint"], "lint" := ["build"]];
            Closed(g) && Order(g, "build") == Failure(CycleEdge("lint", "build"))
  {
    var g := map["build" := ["test"], "test" := ["lint"], "lint" := ["build"]];
    assert [] + ["build"] == ["build"];
    assert ["build"] + ["test"] == ["build", "test"];
    assert VisitAll(g, "lint", ["build"], ["build", "test"], []) == Failure(CycleEdge("lint", "build"));
    assert Visit(g, "lint", ["build", "test"], []) == Failure(CycleEdge("lint", "build"));
    assert VisitAll(g, "test", ["lint"], ["build"], []) == Failure(CycleEdge("lint", "build"));
    assert Visit(g, "test", ["build"], []) == Failure(CycleEdge("lint", "build"));
    assert VisitAll(g, "build", ["test"], [], []) == Failure(CycleEdge("lint", "build"));
  }

  /** A task depending on itself is reported on its own edge. */
  lemma SelfCycle()
    ensures var g := map["build" := ["build"]];
            Closed(g) && Order(g, "build") == Failure(CycleEdge("build", "build"))
  {
    var g := map["build" := ["build"]];
    assert [] + ["build"] == ["build"];
    assert VisitAll(g, "build", ["build"], ["build"], []) == Failure(CycleEdge("build", "build"));
    assert Visit(g, "build", ["build"], []) == Failure(CycleEdge("build", "build"));
    assert VisitAll(g, "build", ["build"], [], []) == Failure(CycleEdge("build", "build"));
  }
}
