/**
 * The dependency relation between tasks and what it means for a task list
 * to respect it. A graph maps every task name to its dependencies, listed
 * in the order the walk visits them.
 */
module DependencyGraph {
  import opened DataFormat
  import opened Sequences

  type Graph = map<Name, seq<Name>>

  /** Every dependency names a task of the graph. */
  predicate Closed(g: Graph)
  {
    forall a, d :: a in g && d in g[a] ==> d in g
  }

  /** Two graphs with the same dependency sets, possibly listed in other orders. */
  predicate SameEdges(g1: Graph, g2: Graph)
  {
    && g1.Keys == g2.Keys
    && forall a :: a in g1 ==> Elems(g1[a]) == Elems(g2[a])
  }

  /** Every task of `o` is preceded by all of its dependencies. */
  predicate DependenciesFirst(g: Graph, o: seq<Name>)
  {
    forall i :: 0 <= i < |o| ==> o[i] in g && forall d :: d in g[o[i]] ==> d in o[..i]
  }

  /** Listing the same dependency sets in another order keeps the graph closed. */
  lemma SameEdgesClosed(g1: Graph, g2: Graph)
    requires Closed(g1) && SameEdges(g1, g2)
    ensures Closed(g2)
  {
    forall a, d | a in g2 && d in g2[a] ensures d in g2 {
      assert d in Elems(g2[a]);
    }
  }

  /** A walk along dependency edges; a single task is a path of length zero. */
  ghost predicate IsPath(g: Graph, p: seq<Name>)
  {
    && |p| >= 1
    && (forall i :: 0 <= i < |p| ==> p[i] in g)
    && (forall i :: 0 <= i < |p| - 1 ==> p[i + 1] in g[p[i]])
  }

  /** Dropping the first task of a path leaves a path with the same end. */
  lemma PathTail(g: Graph, p: seq<Name>)
    requires IsPath(g, p) && |p| >= 2
    ensures IsPath(g, p[1..]) && p[1..][0] == p[1] && p[1..][|p[1..]| - 1] == p[|p| - 1]
  {
    assert forall k :: 0 <= k < |p[1..]| ==> p[1..][k] == p[k + 1];
  }

  /** `b` is `a` or one of its direct or indirect dependencies. */
  ghost predicate Reaches(g: Graph, a: Name, b: Name)
  {
    exists p :: IsPath(g, p) && p[0] == a && p[|p| - 1] == b
  }

  /** `b` is reached from `a` over at least one edge. */
  ghost predicate ReachesPlus(g: Graph, a: Name, b: Name)
  {
    exists p :: IsPath(g, p) && |p| >= 2 && p[0] == a && p[|p| - 1] == b
  }

  /** Some task reachable from `root` depends, directly or not, on itself. */
  ghost predicate CycleReachable(g: Graph, root: Name)
  {
    exists x :: Reaches(g, root, x) && ReachesPlus(g, x, x)
  }

  lemma ReachesRefl(g: Graph, a: Name)
    requires a in g
    ensures Reaches(g, a, a)
  {
    assert IsPath(g, [a]);
  }

  lemma PlusReaches(g: Graph, a: Name, b: Name)
    requires ReachesPlus(g, a, b)
    ensures Reaches(g, a, b)
  {
  }

  /** An edge followed by a path is a path of at least one edge. */
  lemma PrependEdge(g: Graph, a: Name, b: Name, c: Name)
    requires a in g && b in g[a] && Reaches(g, b, c)
    ensures ReachesPlus(g, a, c) && Reaches(g, a, c)
  {
    var p :| IsPath(g, p) && p[0] == b && p[|p| - 1] == c;
    var q := [a] + p;
    assert forall i :: 0 <= i < |p| ==> q[i + 1] == p[i];
    assert IsPath(g, q);
  }

  /**
   * In a list whose tasks follow their dependencies, the end of every path
   * of at least one edge lies strictly before its start.
   */
  lemma {:induction false} DependenciesFirstAlongPath(g: Graph, o: seq<Name>, p: seq<Name>, i: nat)
    requires DependenciesFirst(g, o) && IsPath(g, p) && |p| >= 2
    requires i < |o| && o[i] == p[0]
    ensures p[|p| - 1] in o[..i]
    decreases |p|
  {
    assert p[1] in g[o[i]];
    assert p[1] in o[..i];
    var j :| 0 <= j < i && o[j] == p[1];
    if |p| > 2 {
      var q := p[1..];
      assert forall k :: 0 <= k < |q| ==> q[k] == p[k + 1];
      assert IsPath(g, q);
      DependenciesFirstAlongPath(g, o, q, j);
      assert q[|q| - 1] == p[|p| - 1];
      assert o[..j] <= o[..i];
    }
  }

  /** Such a list holds every task reachable from any task it holds. */
  lemma DependenciesFirstClosed(g: Graph, o: seq<Name>, a: Name, b: Name)
    requires DependenciesFirst(g, o) && a in o && Reaches(g, a, b)
    ensures b in o
  {
    var p :| IsPath(g, p) && p[0] == a && p[|p| - 1] == b;
    if |p| >= 2 {
      var i :| 0 <= i < |o| && o[i] == a;
      DependenciesFirstAlongPath(g, o, p, i);
    }
  }

  /** A duplicate-free list whose tasks follow their dependencies holds no cycle. */
  lemma DependenciesFirstAcyclic(g: Graph, o: seq<Name>, x: Name)
    requires DependenciesFirst(g, o) && NoDuplicates(o) && x in o
    ensures !ReachesPlus(g, x, x)
  {
    if ReachesPlus(g, x, x) {
      var p :| IsPath(g, p) && |p| >= 2 && p[0] == x && p[|p| - 1] == x;
      var i :| 0 <= i < |o| && o[i] == x;
      DependenciesFirstAlongPath(g, o, p, i);
      assert false;
    }
  }

  /** Reachability depends only on the dependency sets, not their order. */
  lemma SameEdgesReach(g1: Graph, g2: Graph, a: Name, b: Name)
    requires SameEdges(g1, g2)
    ensures Reaches(g1, a, b) <==> Reaches(g2, a, b)
    ensures ReachesPlus(g1, a, b) <==> ReachesPlus(g2, a, b)
  {
    forall p | IsPath(g1, p) ensures IsPath(g2, p) {
      forall i | 0 <= i < |p| - 1 ensures p[i + 1] in g2[p[i]] {
        assert p[i + 1] in g1[p[i]];
        assert p[i + 1] in Elems(g1[p[i]]);
      }
    }
    forall p | IsPath(g2, p) ensures IsPath(g1, p) {
      forall i | 0 <= i < |p| - 1 ensures p[i + 1] in g1[p[i]] {
        assert p[i + 1] in g2[p[i]];
        assert p[i + 1] in Elems(g2[p[i]]);
      }
    }
  }

  lemma SameEdgesCycle(g1: Graph, g2: Graph, root: Name)
    requires SameEdges(g1, g2)
    ensures CycleReachable(g1, root) <==> CycleReachable(g2, root)
  {
    forall x ensures (Reaches(g1, root, x) && ReachesPlus(g1, x, x))
                 <==> (Reaches(g2, root, x) && ReachesPlus(g2, x, x)) {
      SameEdgesReach(g1, g2, root, x);
      SameEdgesReach(g1, g2, x, x);
    }
  }
}
