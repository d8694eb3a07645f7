/**
 * `Parser`: checks the `tool.borca` headings, reads the typed
 * configuration, picks the root task, resolves every `depends_on` name and
 * orders the tasks the root needs.
 */
module Parser {
  import opened Wrappers
  import opened Sequences
  import opened TomlValue
  import opened Errors
  import opened DataFormat
  import opened DependencyGraph
  import Schema
  import TaskOrder

  // ---------------------------------------------------------------------
  // Headings
  // ---------------------------------------------------------------------

  /** `tool` and `tool.borca` both exist and are tables. */
  predicate HasBorcaTable(toml: Table)
  {
    HasTable(toml, "tool") && HasTable(toml["tool"].fields, "borca")
  }

  /**
   * The heading checks of `Parser.__init__`, in order. Asking a `tool`
   * value that is not a table for its keys raises AttributeError.
   */
  function CheckHeadings(toml: Table): (r: Result<Table, Error>)
    ensures r.Success? <==> HasBorcaTable(toml)
    ensures r.Success? ==> r.value == toml["tool"].fields["borca"].fields
    ensures "tool" !in toml ==> r == Failure(InvalidToolConfiguration(ToolHeadingMissing))
    ensures "tool" in toml && !toml["tool"].VTable? ==> r == Failure(Uncaught(AttributeError))
    ensures HasTable(toml, "tool") && "borca" !in toml["tool"].fields
            ==> r == Failure(InvalidToolConfiguration(BorcaHeadingMissing))
    ensures HasTable(toml, "tool") && "borca" in toml["tool"].fields && !toml["tool"].fields["borca"].VTable?
            ==> r == Failure(InvalidToolConfiguration(BorcaNotTable))
  {
    if "tool" !in toml then Failure(InvalidToolConfiguration(ToolHeadingMissing))
    else if !toml["tool"].VTable? then Failure(Uncaught(AttributeError))
    else
      var tool := toml["tool"].fields;
      if "borca" !in tool then Failure(InvalidToolConfiguration(BorcaHeadingMissing))
      else if !tool["borca"].VTable? then Failure(InvalidToolConfiguration(BorcaNotTable))
      else Success(tool["borca"].fields)
  }

  // ---------------------------------------------------------------------
  // The task collection and the root
  // ---------------------------------------------------------------------

  /** The root the caller asked for: the `task-name` setting, else the default task. */
  function RequestedRoot(data: BorcaData, taskName: Option<Name>): Name
  {
    match taskName
    case Some(n) => n
    case None => data.defaultTask
  }

  /** `__verifyTaskCollection`: names must be unique and the root must be defined. */
  function VerifyTaskCollection(data: BorcaData, taskName: Option<Name>): (r: Result<Name, Error>)
    ensures r.Success? <==> NoDuplicates(Names(data.tasks)) && RequestedRoot(data, taskName) in Names(data.tasks)
    ensures r.Success? ==> r.value == RequestedRoot(data, taskName)
    ensures !NoDuplicates(Names(data.tasks)) ==> r == Failure(InvalidToolConfiguration(DuplicateTaskNames))
    ensures NoDuplicates(Names(data.tasks)) && RequestedRoot(data, taskName) !in Names(data.tasks)
            ==> r == Failure(InvalidToolConfiguration(RootTaskUndefined))
  {
    var names := Elems(Names(data.tasks));
    DistinctCount(Names(data.tasks));
    if |names| != |data.tasks| then
      Failure(InvalidToolConfiguration(DuplicateTaskNames))
    else
      var root := if taskName.None? then data.defaultTask else taskName.value;
      if root !in names then Failure(InvalidToolConfiguration(RootTaskUndefined))
      else Success(root)
  }

  // ---------------------------------------------------------------------
  // Resolving `depends_on`
  // ---------------------------------------------------------------------

  /** The names of a non-empty list: those of all but the last task, then the last. */
  lemma NamesOfFront(tasks: seq<Task>)
    requires |tasks| > 0
    ensures var front, last := tasks[..|tasks| - 1], tasks[|tasks| - 1];
            && Elems(Names(tasks)) == Elems(Names(front)) + {last.name}
            && (NoDuplicates(Names(tasks)) ==> NoDuplicates(Names(front)) && last.name !in Names(front))
            && forall i :: 0 <= i < |front| ==> Names(front)[i] == Names(tasks)[i]
  {
    var front, last := tasks[..|tasks| - 1], tasks[|tasks| - 1];
    assert Names(tasks) == Names(front) + [last.name];
  }

  /** The `{name: Task}` map; a later task replaces an earlier one of the same name. */
  function TaskMap(tasks: seq<Task>): (m: map<Name, Task>)
    ensures m.Keys == Elems(Names(tasks))
    ensures forall n :: n in m ==> m[n].name == n
  {
    if |tasks| == 0 then map[]
    else
      var front := tasks[..|tasks| - 1];
      var last := tasks[|tasks| - 1];
      NamesOfFront(tasks);
      TaskMap(front)[last.name := last]
  }

  /** With unique names, each task is found under its own name. */
  lemma {:induction false} TaskMapOfDistinct(tasks: seq<Task>)
    requires NoDuplicates(Names(tasks))
    ensures forall i :: 0 <= i < |tasks| ==> TaskMap(tasks)[tasks[i].name] == tasks[i]
  {
    if |tasks| > 0 {
      var front, last := tasks[..|tasks| - 1], tasks[|tasks| - 1];
      NamesOfFront(tasks);
      TaskMapOfDistinct(front);
      forall i | 0 <= i < |tasks| ensures TaskMap(tasks)[tasks[i].name] == tasks[i] {
        if i < |front| {
          assert tasks[i] == front[i] && Names(front)[i] == front[i].name;
        }
      }
    }
  }

  /** Every task in the map is one of the listed tasks. */
  lemma {:induction false} TaskMapFromList(tasks: seq<Task>)
    ensures forall n :: n in TaskMap(tasks) ==> TaskMap(tasks)[n] in tasks
  {
    if |tasks| > 0 {
      var front := tasks[..|tasks| - 1];
      TaskMapFromList(front);
      assert forall t :: t in front ==> t in tasks;
    }
  }

  /**
   * `task.dependencies.add(task_map[dep_name])`: an unknown name raises
   * KeyError, and adding to the set hashes the task, which raises
   * ValueError for a task named "".
   */
  predicate Resolvable(dep: Name, m: map<Name, Task>)
  {
    dep in m && TaskHash(m[dep]).Some?
  }

  function ResolveError(dep: Name, m: map<Name, Task>): Error
  {
    if dep !in m then Uncaught(KeyError(dep)) else Uncaught(ValueError)
  }

  /** The first position, from `from` on, of a dependency that does not resolve. */
  function FirstUnresolvable(deps: seq<Name>, m: map<Name, Task>, from: nat): (k: nat)
    requires from <= |deps|
    ensures from <= k <= |deps|
    ensures forall j :: from <= j < k ==> Resolvable(deps[j], m)
    ensures k < |deps| ==> !Resolvable(deps[k], m)
    decreases |deps| - from
  {
    if from == |deps| || !Resolvable(deps[from], m) then from
    else FirstUnresolvable(deps, m, from + 1)
  }

  predicate AllResolvable(task: Task, m: map<Name, Task>)
  {
    forall k :: 0 <= k < |task.dependsOn| ==> Resolvable(task.dependsOn[k], m)
  }

  /** The first task, from `from` on, with a dependency that does not resolve. */
  function FirstUnresolvedTask(tasks: seq<Task>, m: map<Name, Task>, from: nat): (i: nat)
    requires from <= |tasks|
    ensures from <= i <= |tasks|
    ensures forall j :: from <= j < i ==> AllResolvable(tasks[j], m)
    ensures i < |tasks| ==> !AllResolvable(tasks[i], m)
    decreases |tasks| - from
  {
    if from == |tasks| then from
    else if FirstUnresolvable(tasks[from].dependsOn, m, 0) < |tasks[from].dependsOn| then from
    else FirstUnresolvedTask(tasks, m, from + 1)
  }

  /**
   * The `depends_on` lists the dependency sets are built from, keyed by
   * task name; with unique names each task keeps its own list.
   */
  function Declared(tasks: seq<Task>): (g: Graph)
    ensures forall n :: n in g <==> n in Names(tasks)
  {
    var m := TaskMap(tasks);
    map n | n in m :: m[n].dependsOn
  }

  /** With unique names, each task keeps its own `depends_on` list. */
  lemma DeclaredOfDistinct(tasks: seq<Task>)
    requires NoDuplicates(Names(tasks))
    ensures forall i :: 0 <= i < |tasks| ==> Declared(tasks)[tasks[i].name] == tasks[i].dependsOn
  {
    TaskMapOfDistinct(tasks);
  }

  /** The dependencies of every task in `TaskMap(tasks)` are keys of `m` when those of the list are. */
  lemma {:induction false} TaskMapDependencies(tasks: seq<Task>, m: map<Name, Task>)
    requires forall i :: 0 <= i < |tasks| ==> AllResolvable(tasks[i], m)
    ensures forall n, d :: n in TaskMap(tasks) && d in TaskMap(tasks)[n].dependsOn ==> d in m
  {
    if |tasks| > 0 {
      var front, last := tasks[..|tasks| - 1], tasks[|tasks| - 1];
      TaskMapDependencies(front, m);
      assert AllResolvable(last, m);
      forall d | d in last.dependsOn ensures d in m {
        var k :| 0 <= k < |last.dependsOn| && last.dependsOn[k] == d;
      }
    }
  }

  /** When every dependency resolves, each names a declared task. */
  lemma DeclaredClosed(tasks: seq<Task>)
    requires forall i :: 0 <= i < |tasks| ==> AllResolvable(tasks[i], TaskMap(tasks))
    ensures Closed(Declared(tasks))
  {
    var m, g := TaskMap(tasks), Declared(tasks);
    TaskMapDependencies(tasks, m);
    assert g.Keys == m.Keys;
  }

  /**
   * The loop resolving `depends_on` of every task, tasks in list order and
   * each task's names in declared order; the first failure is raised.
   */
  function ResolveDependencies(tasks: seq<Task>): (r: Result<Graph, Error>)
    requires NoDuplicates(Names(tasks))
    ensures r.Success? <==> forall i :: 0 <= i < |tasks| ==> AllResolvable(tasks[i], TaskMap(tasks))
    ensures r.Success? ==> r.value == Declared(tasks) && Closed(r.value)
    ensures r.Failure? ==>
              exists i, k ::
                && 0 <= i < |tasks| && 0 <= k < |tasks[i].dependsOn|
                && !Resolvable(tasks[i].dependsOn[k], TaskMap(tasks))
                && r.error == ResolveError(tasks[i].dependsOn[k], TaskMap(tasks))
                && (forall j :: 0 <= j < i ==> AllResolvable(tasks[j], TaskMap(tasks)))
                && (forall j :: 0 <= j < k ==> Resolvable(tasks[i].dependsOn[j], TaskMap(tasks)))
  {
    var m := TaskMap(tasks);
    var i := FirstUnresolvedTask(tasks, m, 0);
    if i < |tasks| then
      var deps := tasks[i].dependsOn;
      var k := FirstUnresolvable(deps, m, 0);
      Failure(ResolveError(deps[k], m))
    else
      DeclaredClosed(tasks);
      Success(Declared(tasks))
  }

  // ---------------------------------------------------------------------
  // The iteration order of each dependency set
  // ---------------------------------------------------------------------

  /** The items of `s` that lie in `keep`, each at its first occurrence. */
  function Distinct(s: seq<Name>, keep: set<Name>): (r: seq<Name>)
    ensures NoDuplicates(r)
    ensures forall x :: x in r <==> x in s && x in keep
    ensures NoDuplicates(s) && (forall x :: x in s ==> x in keep) ==> r == s
    ensures (forall x :: x in s ==> x !in keep) ==> r == []
  {
    if |s| == 0 then []
    else
      var front := Distinct(s[..|s| - 1], keep);
      var x := s[|s| - 1];
      assert forall y :: y in s <==> y in s[..|s| - 1] || y == x;
      if x in keep && x !in front then front + [x] else front
  }

  /**
   * The order in which the set built from `declared` is iterated: the
   * names of `hint` first, then the rest in declared order. Whatever the
   * hint, this lists the set once each; and every duplicate-free listing of
   * the set is obtained from some hint, namely itself.
   */
  function IterationOrder(declared: seq<Name>, hint: seq<Name>): (r: seq<Name>)
    ensures NoDuplicates(r)
    ensures Elems(r) == Elems(declared)
    ensures NoDuplicates(hint) && Elems(hint) == Elems(declared) ==> r == hint
  {
    var first := Distinct(hint, Elems(declared));
    var rest := Distinct(declared, Elems(declared) - Elems(hint));
    var r := first + rest;
    assert forall i, j :: 0 <= i < |first| && 0 <= j < |rest| ==> first[i] != rest[j] by {
      forall i, j | 0 <= i < |first| && 0 <= j < |rest| ensures first[i] != rest[j] {
        assert first[i] in first && rest[j] in rest;
      }
    }
    assert NoDuplicates(r) by {
      forall i, j | 0 <= i < j < |r| ensures r[i] != r[j] {
        if j < |first| {
        } else if i >= |first| {
          assert r[i] == rest[i - |first|] && r[j] == rest[j - |first|];
        } else {
          assert r[j] == rest[j - |first|];
        }
      }
    }
    assert NoDuplicates(hint) && Elems(hint) == Elems(declared) ==> r == hint by {
      if NoDuplicates(hint) && Elems(hint) == Elems(declared) {
        assert forall x :: x in declared ==> x !in Elems(declared) - Elems(hint);
        assert forall x :: x in hint ==> x in Elems(declared);
      }
    }
    r
  }

  /** The graph the walk follows: each task's dependency set in its iteration order. */
  function IterationGraph(declared: Graph, hints: map<Name, seq<Name>>): (g: Graph)
    ensures SameEdges(declared, g)
    ensures forall n :: n in g ==> NoDuplicates(g[n])
    ensures forall n :: n in g && n in hints && NoDuplicates(hints[n]) && Elems(hints[n]) == Elems(declared[n])
              ==> g[n] == hints[n]
  {
    map n | n in declared :: IterationOrder(declared[n], if n in hints then hints[n] else [])
  }

  // ---------------------------------------------------------------------
  // The whole constructor
  // ---------------------------------------------------------------------

  /** The tasks of the given names, in the same order. */
  function Lookup(names: seq<Name>, m: map<Name, Task>): (ts: seq<Task>)
    requires forall n :: n in m ==> m[n].name == n
    requires forall i :: 0 <= i < |names| ==> names[i] in m
    ensures |ts| == |names| && Names(ts) == names
    ensures forall i :: 0 <= i < |ts| ==> ts[i] == m[names[i]]
  {
    seq(|names|, i requires 0 <= i < |names| => m[names[i]])
  }

  /** Every name an order over the iteration graph lists is a declared task. */
  lemma WalkNamesDeclared(tasks: seq<Task>, g: Graph, names: seq<Name>)
    requires SameEdges(Declared(tasks), g) && DependenciesFirst(g, names)
    ensures forall i :: 0 <= i < |names| ==> names[i] in TaskMap(tasks)
  {
    assert g.Keys == TaskMap(tasks).Keys;
  }

  /** Looking names up in the task map yields tasks of the list. */
  lemma LookupFromList(tasks: seq<Task>, names: seq<Name>)
    requires forall i :: 0 <= i < |names| ==> names[i] in TaskMap(tasks)
    ensures forall i :: 0 <= i < |names| ==> Lookup(names, TaskMap(tasks))[i] in tasks
  {
    TaskMapFromList(tasks);
  }

  /**
   * `__buildTaskOrder` once the names resolve: the walk from the root, its
   * names mapped back to their tasks, or `InvalidTaskgraph` on a cycle.
   */
  function BuildTaskOrder(data: BorcaData, root: Name, hints: map<Name, seq<Name>>)
    : (r: Result<seq<Task>, Error>)
    requires NoDuplicates(Names(data.tasks)) && Closed(Declared(data.tasks)) && root in Declared(data.tasks)
    ensures r.Success? ==> forall i :: 0 <= i < |r.value| ==> r.value[i] in data.tasks
    ensures r.Failure? ==> r.error.InvalidTaskgraph?
  {
    var declared := Declared(data.tasks);
    var g := IterationGraph(declared, hints);
    SameEdgesClosed(declared, g);
    match TaskOrder.Order(g, root)
    case Failure(e) => Failure(InvalidTaskgraph(e.task, e.dependency))
    case Success(names) =>
      WalkNamesDeclared(data.tasks, g, names);
      LookupFromList(data.tasks, names);
      Success(Lookup(names, TaskMap(data.tasks)))
  }

  /**
   * `Parser(config, toml).orderedTasks()`: the stages run in order and the
   * first failure is the result. `hints` fixes the iteration order of the
   * dependency sets.
   */
  function OrderedTasks(toml: Table, taskName: Option<Name>, hints: map<Name, seq<Name>>)
    : (r: Result<seq<Task>, Error>)
    ensures !HasBorcaTable(toml) ==> r == CheckHeadings(toml).PropagateFailure()
    ensures HasBorcaTable(toml) && Schema.DecodeBorcaData(CheckHeadings(toml).value).Failure?
            ==> r == Schema.DecodeBorcaData(CheckHeadings(toml).value).PropagateFailure()
    ensures HasBorcaTable(toml) && Schema.DecodeBorcaData(CheckHeadings(toml).value).Success?
            ==> var data := Schema.DecodeBorcaData(CheckHeadings(toml).value).value;
                && (VerifyTaskCollection(data, taskName).Failure?
                    ==> r == VerifyTaskCollection(data, taskName).PropagateFailure())
                && (VerifyTaskCollection(data, taskName).Success? && ResolveDependencies(data.tasks).Failure?
                    ==> r == ResolveDependencies(data.tasks).PropagateFailure())
  {
    var borca :- CheckHeadings(toml);
    var data :- Schema.DecodeBorcaData(borca);
    var root :- VerifyTaskCollection(data, taskName);
    var declared :- ResolveDependencies(data.tasks);
    BuildTaskOrder(data, root, hints)
  }

  // ---------------------------------------------------------------------
  // What the order promises, whatever the iteration order
  // ---------------------------------------------------------------------

  /** What `BuildTaskOrder` returns, in terms of the walk over the iteration graph. */
  lemma BuildTaskOrderUnfold(data: BorcaData, root: Name, hints: map<Name, seq<Name>>)
    requires NoDuplicates(Names(data.tasks)) && Closed(Declared(data.tasks)) && root in Declared(data.tasks)
    ensures var declared := Declared(data.tasks);
            var g := IterationGraph(declared, hints);
            && SameEdges(declared, g) && Closed(g) && root in g
            && var o := TaskOrder.Order(g, root);
               var r := BuildTaskOrder(data, root, hints);
               && (r.Success? <==> o.Success?)
               && (o.Success? ==> Names(r.value) == o.value
                                  && forall i :: 0 <= i < |o.value| ==> r.value[i] == TaskMap(data.tasks)[o.value[i]])
               && (o.Failure? ==> r.error == InvalidTaskgraph(o.error.task, o.error.dependency))
  {
    var declared := Declared(data.tasks);
    TaskOrder.OrderIndependentOfIteration(declared, IterationGraph(declared, hints), root);
  }

  /** The walk succeeds exactly when no cycle is reachable from the root. */
  lemma BuildTaskOrderSucceedsIffAcyclic(data: BorcaData, root: Name, hints: map<Name, seq<Name>>)
    requires NoDuplicates(Names(data.tasks)) && Closed(Declared(data.tasks)) && root in Declared(data.tasks)
    ensures BuildTaskOrder(data, root, hints).Success? <==> !CycleReachable(Declared(data.tasks), root)
  {
    var declared := Declared(data.tasks);
    var g := IterationGraph(declared, hints);
    BuildTaskOrderUnfold(data, root, hints);
    TaskOrder.OrderSucceedsIffAcyclic(g, root);
    SameEdgesCycle(declared, g, root);
  }

  /**
   * On success every task appears once, after all of its declared
   * dependencies, and the root is last.
   */
  lemma BuildTaskOrderDependenciesFirst(data: BorcaData, root: Name, hints: map<Name, seq<Name>>)
    requires NoDuplicates(Names(data.tasks)) && Closed(Declared(data.tasks)) && root in Declared(data.tasks)
    ensures var r := BuildTaskOrder(data, root, hints);
            r.Success? ==>
              && NoDuplicates(Names(r.value))
              && (forall i, d :: 0 <= i < |r.value| && d in r.value[i].dependsOn ==> d in Names(r.value[..i]))
              && |r.value| > 0 && r.value[|r.value| - 1].name == root
  {
    if BuildTaskOrder(data, root, hints).Success? {
      BuildTaskOrderDependenciesFirstOnSuccess(data, root, hints);
    }
  }

  /** The same, for a walk known to succeed. */
  lemma BuildTaskOrderDependenciesFirstOnSuccess(data: BorcaData, root: Name, hints: map<Name, seq<Name>>)
    requires NoDuplicates(Names(data.tasks)) && Closed(Declared(data.tasks)) && root in Declared(data.tasks)
    requires BuildTaskOrder(data, root, hints).Success?
    ensures var ts := BuildTaskOrder(data, root, hints).value;
            && NoDuplicates(Names(ts))
            && (forall i, d :: 0 <= i < |ts| && d in ts[i].dependsOn ==> d in Names(ts[..i]))
            && |ts| > 0 && ts[|ts| - 1].name == root
  {
    var declared := Declared(data.tasks);
    var g := IterationGraph(declared, hints);
    BuildTaskOrderUnfold(data, root, hints);
    var o := TaskOrder.Order(g, root).value;
    var ts := BuildTaskOrder(data, root, hints).value;
    TaskOrder.OrderEndsWithRoot(g, root);
    forall i | 0 <= i < |ts| ensures ts[i].dependsOn == declared[o[i]] {
    }
    DependenciesCarryOver(declared, g, o, ts);
  }

  /** An order of names that puts dependencies first does so for the tasks it names. */
  lemma DependenciesCarryOver(declared: Graph, g: Graph, o: seq<Name>, ts: seq<Task>)
    requires SameEdges(declared, g) && DependenciesFirst(g, o) && Names(ts) == o
    requires forall i :: 0 <= i < |ts| ==> ts[i].dependsOn == declared[o[i]]
    ensures forall i, d :: 0 <= i < |ts| && d in ts[i].dependsOn ==> d in Names(ts[..i])
  {
    forall i, d | 0 <= i < |ts| && d in ts[i].dependsOn ensures d in Names(ts[..i]) {
      assert d in Elems(g[o[i]]);
      assert Names(ts[..i]) == o[..i];
    }
  }

  /** On success the tasks are exactly those the root needs; unrelated tasks are left out. */
  lemma BuildTaskOrderReachable(data: BorcaData, root: Name, hints: map<Name, seq<Name>>)
    requires NoDuplicates(Names(data.tasks)) && Closed(Declared(data.tasks)) && root in Declared(data.tasks)
    requires BuildTaskOrder(data, root, hints).Success?
    ensures var ts := BuildTaskOrder(data, root, hints).value;
            forall n :: n in Names(ts) <==> Reaches(Declared(data.tasks), root, n)
  {
    var declared := Declared(data.tasks);
    var g := IterationGraph(declared, hints);
    BuildTaskOrderUnfold(data, root, hints);
    TaskOrder.OrderIsReachableSet(g, root);
    forall n ensures Reaches(g, root, n) <==> Reaches(declared, root, n) {
      SameEdgesReach(declared, g, root, n);
    }
  }

  /** On failure the reported edge `task -> dependency` closes a cycle reachable from the root. */
  lemma BuildTaskOrderFailure(data: BorcaData, root: Name, hints: map<Name, seq<Name>>)
    requires NoDuplicates(Names(data.tasks)) && Closed(Declared(data.tasks)) && root in Declared(data.tasks)
    requires BuildTaskOrder(data, root, hints).Failure?
    ensures var e := BuildTaskOrder(data, root, hints).error;
            var declared := Declared(data.tasks);
            && e.InvalidTaskgraph?
            && e.task in declared && e.dependency in declared[e.task]
            && Reaches(declared, root, e.task) && Reaches(declared, e.dependency, e.task)
  {
    var declared := Declared(data.tasks);
    var g := IterationGraph(declared, hints);
    BuildTaskOrderUnfold(data, root, hints);
    var e := TaskOrder.Order(g, root).error;
    TaskOrder.OrderFailureClosesCycle(g, root);
    assert e.dependency in Elems(declared[e.task]);
    SameEdgesReach(declared, g, root, e.task);
    SameEdgesReach(declared, g, e.dependency, e.task);
  }

  /** Once every check passes, the constructor's result is the walk from the requested root. */
  lemma OrderedTasksReachesWalk(
    toml: Table, taskName: Option<Name>, hints: map<Name, seq<Name>>, data: BorcaData, root: Name)
    requires CheckHeadings(toml).Success?
    requires Schema.DecodeBorcaData(CheckHeadings(toml).value) == Success(data)
    requires VerifyTaskCollection(data, taskName) == Success(root)
    requires ResolveDependencies(data.tasks).Success?
    ensures root == RequestedRoot(data, taskName)
    ensures NoDuplicates(Names(data.tasks)) && Closed(Declared(data.tasks)) && root in Declared(data.tasks)
    ensures OrderedTasks(toml, taskName, hints) == BuildTaskOrder(data, root, hints)
  {
  }

  /**
   * The whole constructor on a configuration that passes every check: the
   * result is the ordered task list exactly when the dependencies reachable
   * from the root are acyclic, and it has all the properties above.
   */
  lemma OrderedTasksCorrect(
    toml: Table, taskName: Option<Name>, hints: map<Name, seq<Name>>, data: BorcaData, root: Name)
    requires CheckHeadings(toml).Success?
    requires Schema.DecodeBorcaData(CheckHeadings(toml).value) == Success(data)
    requires VerifyTaskCollection(data, taskName) == Success(root)
    requires ResolveDependencies(data.tasks).Success?
    ensures root == RequestedRoot(data, taskName)
    ensures var r := OrderedTasks(toml, taskName, hints);
            var declared := Declared(data.tasks);
            && (r.Success? <==> !CycleReachable(declared, root))
            && (r.Success? ==>
                  var ts := r.value;
                  && NoDuplicates(Names(ts))
                  && (forall i :: 0 <= i < |ts| ==> ts[i] in data.tasks)
                  && (forall i, d :: 0 <= i < |ts| && d in ts[i].dependsOn ==> d in Names(ts[..i]))
                  && |ts| > 0 && ts[|ts| - 1].name == root
                  && (forall n :: n in Names(ts) <==> Reaches(declared, root, n)))
            && (r.Failure? ==>
                  && r.error.InvalidTaskgraph?
                  && var a := r.error.task;
                     var d := r.error.dependency;
                     && a in declared && d in declared[a]
                     && Reaches(declared, root, a) && Reaches(declared, d, a))
  {
    OrderedTasksReachesWalk(toml, taskName, hints, data, root);
    BuildTaskOrderSucceedsIffAcyclic(data, root, hints);
    if BuildTaskOrder(data, root, hints).Success? {
      BuildTaskOrderDependenciesFirst(data, root, hints);
      BuildTaskOrderReachable(data, root, hints);
    } else {
      BuildTaskOrderFailure(data, root, hints);
    }
  }
}
