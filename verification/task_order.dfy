/**
 * The depth-first walk of `__buildTaskOrder` (the inner `build`) with its
 * state threaded explicitly: `path` is the list `visited` (the tasks whose
 * dependency loops enclose the current call, the current task excluded)
 * and `ordered` is the output accumulator shared by every call of one run.
 * Each task's dependency set is iterated in the order its graph entry lists.
 */
module TaskOrder {
  import opened Wrappers
  import opened Sequences
  import opened DataFormat
  import opened DependencyGraph

  /** `InvalidTaskgraph`: the task and the dependency on the edge that closed a cycle. */
  datatype CycleEdge = CycleEdge(task: Name, dependency: Name)

  /** Tasks not yet on the path, other than the current one. */
  function Remaining(g: Graph, t: Name, path: seq<Name>): nat
  {
    |g.Keys - Elems(path) - {t}|
  }

  /**
   * Descending to a dependency not on the path leaves fewer tasks off the
   * path, unless the dependency is the task itself; that happens once,
   * after which the task is on the path.
   */
  lemma RemainingShrinks(g: Graph, t: Name, path: seq<Name>, d: Name)
    requires d in g && d !in path
    ensures || Remaining(g, d, path + [t]) < Remaining(g, t, path)
            || (d == t && Remaining(g, d, path + [t]) == Remaining(g, t, path) && d in path + [t] && t !in path)
  {
    assert Elems(path + [t]) == Elems(path) + {t};
    assert (path + [t])[|path|] == t;
    var rest := g.Keys - Elems(path) - {t};
    if d != t {
      assert g.Keys - Elems(path + [t]) - {d} == rest - {d};
      assert rest == (rest - {d}) + {d};
    } else {
      assert g.Keys - Elems(path + [t]) - {d} == rest;
    }
  }

  /**
   * `if task not in ordered: ordered.append(task)`: the task joins the
   * order at most once, behind everything already there.
   */
  function Emit(ordered: seq<Name>, t: Name): (r: seq<Name>)
    ensures ordered <= r && |r| <= |ordered| + 1
    ensures Elems(r) == Elems(ordered) + {t}
    ensures NoDuplicates(ordered) ==> NoDuplicates(r)
  {
    if t in ordered then ordered else ordered + [t]
  }

  /** One call `build(t)`: visit every dependency, then emit `t`. */
  function Visit(g: Graph, t: Name, path: seq<Name>, ordered: seq<Name>): (r: Result<seq<Name>, CycleEdge>)
    requires Closed(g) && t in g
    ensures r.Success? ==> ordered <= r.value && t in r.value
    ensures r.Success? && NoDuplicates(ordered) ==> NoDuplicates(r.value)
    ensures r.Success? && DependenciesFirst(g, ordered) ==> DependenciesFirst(g, r.value)
    ensures r.Failure? ==> r.error.task in g && r.error.dependency in g[r.error.task]
    decreases Remaining(g, t, path), if t in path then 0 else 1, 1, 0
  {
    if |g[t]| == 0 then
      Success(Emit(ordered, t))
    else
      match VisitAll(g, t, g[t], path, ordered)
      case Failure(e) => Failure(e)
      case Success(o) => Success(Emit(o, t))
  }

  /** The loop `for dep in task.dependencies` of the call `build(t)`, from `deps` on. */
  function VisitAll(g: Graph, t: Name, deps: seq<Name>, path: seq<Name>, ordered: seq<Name>)
    : (r: Result<seq<Name>, CycleEdge>)
    requires Closed(g) && t in g
    requires forall d :: d in deps ==> d in g[t]
    ensures r.Success? ==> ordered <= r.value && forall d :: d in deps ==> d in r.value
    ensures r.Success? && NoDuplicates(ordered) ==> NoDuplicates(r.value)
    ensures r.Success? && DependenciesFirst(g, ordered) ==> DependenciesFirst(g, r.value)
    ensures r.Failure? ==> r.error.task in g && r.error.dependency in g[r.error.task]
    decreases Remaining(g, t, path), if t in path then 0 else 1, 0, |deps|
  {
    if |deps| == 0 then
      Success(ordered)
    else
      var d := deps[0];
      if d in path then
        Failure(CycleEdge(t, d))
      else
        RemainingShrinks(g, t, path, d);
        match Visit(g, d, path + [t], ordered)
        case Failure(e) => Failure(e)
        case Success(o) => VisitAll(g, t, deps[1..], path, o)
  }

  /** The order of the tasks `root` needs, with `root` last, or the edge closing a cycle. */
  function Order(g: Graph, root: Name): (r: Result<seq<Name>, CycleEdge>)
    requires Closed(g) && root in g
    ensures r.Success? ==> NoDuplicates(r.value) && DependenciesFirst(g, r.value) && root in r.value
    ensures r.Failure? ==> r.error.task in g && r.error.dependency in g[r.error.task]
  {
    Visit(g, root, [], [])
  }

  // ---------------------------------------------------------------------
  // What the walk emits: only tasks reachable from where it started.
  // ---------------------------------------------------------------------

  lemma {:induction false} VisitEmits(g: Graph, t: Name, path: seq<Name>, ordered: seq<Name>)
    requires Closed(g) && t in g
    requires Visit(g, t, path, ordered).Success?
    ensures forall y :: y in Visit(g, t, path, ordered).value ==> y in ordered || Reaches(g, t, y)
    decreases Remaining(g, t, path), if t in path then 0 else 1, 1, 0
  {
    ReachesRefl(g, t);
    if |g[t]| > 0 {
      VisitAllEmits(g, t, g[t], path, ordered);
      forall y | y in VisitAll(g, t, g[t], path, ordered).value && y !in ordered
        ensures Reaches(g, t, y)
      {
        PlusReaches(g, t, y);
      }
    }
  }

  lemma {:induction false} VisitAllEmits(g: Graph, t: Name, deps: seq<Name>, path: seq<Name>, ordered: seq<Name>)
    requires Closed(g) && t in g
    requires forall d :: d in deps ==> d in g[t]
    requires VisitAll(g, t, deps, path, ordered).Success?
    ensures forall y :: y in VisitAll(g, t, deps, path, ordered).value ==> y in ordered || ReachesPlus(g, t, y)
    decreases Remaining(g, t, path), if t in path then 0 else 1, 0, |deps|
  {
    if |deps| > 0 {
      var d := deps[0];
      RemainingShrinks(g, t, path, d);
      var o := Visit(g, d, path + [t], ordered).value;
      VisitEmits(g, d, path + [t], ordered);
      VisitAllEmits(g, t, deps[1..], path, o);
      forall y | y in VisitAll(g, t, deps, path, ordered).value && y !in ordered
        ensures ReachesPlus(g, t, y)
      {
        if y in o {
          PrependEdge(g, t, d, y);
        }
      }
    }
  }

  // ---------------------------------------------------------------------
  // A successful walk never meets its own path again.
  // ---------------------------------------------------------------------

  /**
   * If `build(x)` succeeds, no path of at least one edge from `x` ends on
   * the enclosing path or at `x` itself.
   */
  lemma {:induction false} VisitNoBackPath(g: Graph, x: Name, path: seq<Name>, ordered: seq<Name>, p: seq<Name>)
    requires Closed(g) && x in g
    requires Visit(g, x, path, ordered).Success?
    requires IsPath(g, p) && |p| >= 2 && p[0] == x
    ensures p[|p| - 1] !in path && p[|p| - 1] != x
    decreases Remaining(g, x, path), if x in path then 0 else 1, 1, 0
  {
    assert p[1] in g[x];
    VisitAllNoBackPath(g, x, g[x], path, ordered, p);
  }

  /** A successful loop succeeded on its first dependency and on the rest. */
  lemma VisitAllSuccessStep(g: Graph, x: Name, deps: seq<Name>, path: seq<Name>, ordered: seq<Name>)
    requires Closed(g) && x in g
    requires forall d :: d in deps ==> d in g[x]
    requires VisitAll(g, x, deps, path, ordered).Success? && |deps| > 0
    ensures deps[0] in g && deps[0] !in path
    ensures Visit(g, deps[0], path + [x], ordered).Success?
    ensures VisitAll(g, x, deps[1..], path, Visit(g, deps[0], path + [x], ordered).value)
         == VisitAll(g, x, deps, path, ordered)
  {
  }

  lemma {:induction false} VisitAllNoBackPath(
    g: Graph, x: Name, deps: seq<Name>, path: seq<Name>, ordered: seq<Name>, p: seq<Name>)
    requires Closed(g) && x in g
    requires forall d :: d in deps ==> d in g[x]
    requires VisitAll(g, x, deps, path, ordered).Success?
    requires IsPath(g, p) && |p| >= 2 && p[0] == x && p[1] in deps
    ensures p[|p| - 1] !in path && p[|p| - 1] != x
    decreases Remaining(g, x, path), if x in path then 0 else 1, 0, |deps|
  {
    VisitAllSuccessStep(g, x, deps, path, ordered);
    if p[1] == deps[0] {
      DescendNoBackPath(g, x, deps[0], path, ordered, p);
    } else {
      assert p[1] in deps[1..];
      var o := Visit(g, deps[0], path + [x], ordered).value;
      VisitAllNoBackPath(g, x, deps[1..], path, o, p);
    }
  }

  /** The loop fails if one of its dependencies is on the path: a task cannot depend on itself. */
  lemma {:induction false} VisitAllHitsPath(
    g: Graph, x: Name, deps: seq<Name>, path: seq<Name>, ordered: seq<Name>, y: Name)
    requires Closed(g) && x in g
    requires forall d :: d in deps ==> d in g[x]
    requires y in deps && y in path
    ensures VisitAll(g, x, deps, path, ordered).Failure?
    decreases |deps|
  {
    if deps[0] !in path && y != deps[0] {
      assert y in deps[1..];
      match Visit(g, deps[0], path + [x], ordered)
      case Failure(_) =>
      case Success(o) => VisitAllHitsPath(g, x, deps[1..], path, o, y);
    }
  }

  /** The case of a path whose first edge leads to the dependency being visited. */
  lemma {:induction false} DescendNoBackPath(
    g: Graph, x: Name, d: Name, path: seq<Name>, ordered: seq<Name>, p: seq<Name>)
    requires Closed(g) && x in g && d in g[x] && d !in path
    requires Visit(g, d, path + [x], ordered).Success?
    requires IsPath(g, p) && |p| >= 2 && p[0] == x && p[1] == d
    ensures p[|p| - 1] !in path && p[|p| - 1] != x
    decreases Remaining(g, x, path), if x in path then 0 else 1, 0, 0
  {
    RemainingShrinks(g, x, path, d);
    if |p| > 2 {
      PathTail(g, p);
      VisitNoBackPath(g, d, path + [x], ordered, p[1..]);
      NotInAppend(path, x, p[|p| - 1]);
    } else if d == x {
      VisitAllHitsPath(g, x, g[x], path + [x], ordered, x);
      assert false;
    }
  }

  // ---------------------------------------------------------------------
  // A failing walk names an edge that closes a cycle.
  // ---------------------------------------------------------------------

  /**
   * If `build(x)` raises on the edge `a -> d`, then `a` is reachable from
   * `x`, and `d` is on the enclosing path or reaches `a`.
   */
  lemma {:induction false} VisitFailureEdge(g: Graph, x: Name, path: seq<Name>, ordered: seq<Name>)
    requires Closed(g) && x in g
    requires Visit(g, x, path, ordered).Failure?
    ensures var e := Visit(g, x, path, ordered).error;
            && Reaches(g, x, e.task) && e.task in g && e.dependency in g[e.task]
            && (e.dependency in path || Reaches(g, e.dependency, e.task))
    decreases Remaining(g, x, path), if x in path then 0 else 1, 1, 0
  {
    VisitAllFailureEdge(g, x, g[x], path, ordered);
  }

  lemma {:induction false} VisitAllFailureEdge(g: Graph, x: Name, deps: seq<Name>, path: seq<Name>, ordered: seq<Name>)
    requires Closed(g) && x in g
    requires forall d :: d in deps ==> d in g[x]
    requires VisitAll(g, x, deps, path, ordered).Failure?
    ensures var e := VisitAll(g, x, deps, path, ordered).error;
            && Reaches(g, x, e.task) && e.task in g && e.dependency in g[e.task]
            && (e.dependency in path || Reaches(g, e.dependency, e.task))
    decreases Remaining(g, x, path), if x in path then 0 else 1, 0, |deps|
  {
    var d := deps[0];
    ReachesRefl(g, x);
    if d !in path {
      RemainingShrinks(g, x, path, d);
      var r := Visit(g, d, path + [x], ordered);
      if r.Failure? {
        VisitFailureEdge(g, d, path + [x], ordered);
        PrependEdge(g, x, d, r.error.task);
      } else {
        VisitAllFailureEdge(g, x, deps[1..], path, r.value);
      }
    }
  }

  // ---------------------------------------------------------------------
  // The promises of the order, for every iteration order of every
  // dependency set (the graph lists each set in an arbitrary order).
  // ---------------------------------------------------------------------

  /** The root is emitted last: none of its dependencies can re-emit it first. */
  lemma OrderEndsWithRoot(g: Graph, root: Name)
    requires Closed(g) && root in g
    requires Order(g, root).Success?
    ensures var o := Order(g, root).value; |o| > 0 && o[|o| - 1] == root
  {
    if |g[root]| > 0 {
      var o := VisitAll(g, root, g[root], [], []).value;
      if root in o {
        VisitAllEmits(g, root, g[root], [], []);
        var p :| IsPath(g, p) && |p| >= 2 && p[0] == root && p[|p| - 1] == root;
        VisitNoBackPath(g, root, [], [], p);
        assert false;
      }
    }
  }

  /** The order holds exactly the tasks reachable from the root. */
  lemma OrderIsReachableSet(g: Graph, root: Name)
    requires Closed(g) && root in g
    requires Order(g, root).Success?
    ensures forall y :: y in Order(g, root).value <==> Reaches(g, root, y)
  {
    var o := Order(g, root).value;
    VisitEmits(g, root, [], []);
    forall y | Reaches(g, root, y) ensures y in o {
      DependenciesFirstClosed(g, o, root, y);
    }
  }

  /**
   * A failure names an edge `task -> dependency` with `task` reachable from
   * the root and `dependency` reaching back to `task`: the edge closes a cycle.
   */
  lemma OrderFailureClosesCycle(g: Graph, root: Name)
    requires Closed(g) && root in g
    requires Order(g, root).Failure?
    ensures var e := Order(g, root).error;
            && Reaches(g, root, e.task) && e.dependency in g[e.task]
            && Reaches(g, e.dependency, e.task)
            && ReachesPlus(g, e.task, e.task)
  {
    var e := Order(g, root).error;
    VisitFailureEdge(g, root, [], []);
    PrependEdge(g, e.task, e.dependency, e.task);
  }

  /** The walk succeeds exactly when no cycle is reachable from the root. */
  lemma OrderSucceedsIffAcyclic(g: Graph, root: Name)
    requires Closed(g) && root in g
    ensures Order(g, root).Success? <==> !CycleReachable(g, root)
  {
    var r := Order(g, root);
    if r.Failure? {
      OrderFailureClosesCycle(g, root);
    } else if CycleReachable(g, root) {
      var x :| Reaches(g, root, x) && ReachesPlus(g, x, x);
      OrderIsReachableSet(g, root);
      DependenciesFirstAcyclic(g, r.value, x);
      assert false;
    }
  }

  /**
   * Listing the dependency sets in another order changes neither whether
   * the walk succeeds nor which tasks it emits, and the root stays last:
   * only the relative order of unrelated tasks may differ.
   */
  lemma OrderIndependentOfIteration(g1: Graph, g2: Graph, root: Name)
    requires Closed(g1) && root in g1 && SameEdges(g1, g2)
    ensures Closed(g2) && root in g2
    ensures Order(g1, root).Success? <==> Order(g2, root).Success?
    ensures Order(g1, root).Success? ==>
              var o1 := Order(g1, root).value;
              var o2 := Order(g2, root).value;
              && (forall y :: y in o1 <==> y in o2)
              && |o1| > 0 && |o2| > 0 && o1[|o1| - 1] == o2[|o2| - 1] == root
  {
    SameEdgesClosed(g1, g2);
    OrderSucceedsIffAcyclic(g1, root);
    OrderSucceedsIffAcyclic(g2, root);
    SameEdgesCycle(g1, g2, root);
    if Order(g1, root).Success? {
      OrderIsReachableSet(g1, root);
      OrderIsReachableSet(g2, root);
      OrderEndsWithRoot(g1, root);
      OrderEndsWithRoot(g2, root);
      forall y ensures Reaches(g1, root, y) <==> Reaches(g2, root, y) {
        SameEdgesReach(g1, g2, root, y);
      }
    }
  }
}
