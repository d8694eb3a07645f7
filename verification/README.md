# borca configuration parsing and task ordering, in Dafny

borca is a task runner configured from `pyproject.toml`. Tasks are declared
under `[tool.borca]`. Each `[[tool.borca.tasks]]` entry has a `name`, its
`commands`, and optionally `depends_on`, `input_paths` and `output_paths`.
This project models the part of borca that turns the parsed TOML document
into the list of tasks to run:

- `Parser` checks the `tool` and `tool.borca` headings and builds the typed
  configuration record (`BorcaData`). It then checks that task names are
  unique and that the root task (the `task-name` setting, else
  `default_task`) is declared. It resolves every `depends_on` name to its
  task and walks the dependencies depth-first from the root. The result is
  the tasks the root needs, each after its dependencies. If the walk meets
  a task already on its path, it raises `InvalidTaskgraph` naming the edge
  that closed the cycle.
- `BorcaDatagram` is an older validator with its own ordered checks over
  `tool.borca.default-task` and `tool.borca.task`, followed by the same name
  checks.
- `Task` equality and hash: tasks compare equal by name. The hash is the
  decimal concatenation of the characters' code points.

Modules, by file:

| file | module | what it holds |
|---|---|---|
| wrappers.dfy | Wrappers | `Option`, `Result` and failure propagation |
| errors.dfy | Errors | the exceptions raised, one `ConfigIssue` per distinct message |
| toml_value.dfy | TomlValue | the parsed document as a JSON-like value |
| sequences.dfy | Sequences | duplicate-freedom and the `len(set(xs)) != len(xs)` test |
| data_format.dfy | DataFormat | `Task`, `BorcaData`, task identity and hash |
| schema.dfy | Schema | reading `Task` and `BorcaData` from tables (the record validation) |
| dependency_graph.dfy | DependencyGraph | paths, reachability, cycles, dependencies-first orders |
| task_order.dfy | TaskOrder | the depth-first `build` walk and what it guarantees |
| parser.dfy | Parser | the `Parser` constructor, stage by stage |
| borca_datagram.dfy | BorcaDatagram | the `BorcaDatagram` checks, as written and corrected |
| scenarios.dfy | Scenarios | the task graphs of the ordering tests |
| parsing_scenarios.dfy | ParsingScenarios | the configurations of the parsing tests, end to end |

How the model represents the source:

- `task.dependencies` is a Python `set`, and `build` iterates it in hash
  order. The walk therefore runs over a graph `map<Name, seq<Name>>`, where
  each sequence is one iteration order of the set.
  - Every theorem about the walk holds for every such sequence.
  - `Parser.IterationGraph` takes a per-task `hints` map. Every
    duplicate-free listing of each set arises from some hint.
- The walk threads its state explicitly:
  - `path` is `visited`, the tasks on the way down, which excludes the
    current task.
  - `ordered` is the one list that every nested call of `build` appends to.
- Errors that the source raises without catching are `Uncaught(...)`: a
  `KeyError` for an unknown dependency name, a `ValueError` from hashing a
  task named `""`, and an `AttributeError` from calling `.keys()` on a
  non-table.

## Model

| member | source | states |
|---|---|---|
| Parser.CheckHeadings | borca/parsing/parser.py:17-26 | Accepts exactly when `tool` and `tool.borca` exist and are tables, and hands on `tool.borca`. Each missing or wrongly typed heading gets its own error, checked in source order. |
| Parser.VerifyTaskCollection | borca/parsing/parser.py:33-47 | Succeeds exactly when the task names are unique and the requested root (`task-name`, else `default_task`) is one of them, and returns that root. Duplicates are reported before a missing root. |
| Parser.TaskMap | borca/parsing/parser.py:52-54 | The map's keys are exactly the declared names, and each key maps to a task of that name. |
| Parser.TaskMapOfDistinct | borca/parsing/parser.py:52-54 | When names are unique, each task is the one its name maps to. |
| Parser.TaskMapFromList | borca/parsing/parser.py:52-54 | Every task in the map comes from the declared list. |
| Parser.FirstUnresolvable | borca/parsing/parser.py:58-59 | The first dependency name that is unknown, or whose task cannot be hashed; all earlier names resolve. |
| Parser.FirstUnresolvedTask | borca/parsing/parser.py:57-59 | The first task, in list order, with a dependency that does not resolve; all earlier tasks resolve. |
| Parser.ResolveDependencies | borca/parsing/parser.py:57-59 | Succeeds exactly when every dependency of every task resolves, and then the graph is closed. Otherwise the error is `KeyError` (unknown name) or `ValueError` (empty name) for the first failing dependency, in list order. |
| Parser.Declared | borca/parsing/parser.py:56-59 | The dependency lists are keyed by exactly the declared names. |
| Parser.DeclaredOfDistinct | borca/parsing/parser.py:56-59 | With unique names, each task keeps its own `depends_on` list. |
| Parser.DeclaredClosed | borca/parsing/parser.py:57-59 | Once every dependency resolves, each one names a declared task. |
| Parser.IterationOrder | borca/parsing/parser.py:73 | Lists the dependency set once each, in some order. Every duplicate-free listing of the set is obtainable from a hint. |
| Parser.IterationGraph | borca/parsing/parser.py:57-59 | Has the same dependency sets as the declared lists, each listed without repeats. A task's listing follows its hint whenever the hint lists the set. |
| Parser.Lookup | borca/parsing/parser.py:83-85 | The walk's names mapped back to their tasks, in the same order. |
| Parser.BuildTaskOrder | borca/parsing/parser.py:49-93 | On success every result is a declared task. On failure the error is `InvalidTaskgraph`. |
| Parser.BuildTaskOrderUnfold | borca/parsing/parser.py:61-89 | Gives the result in terms of the walk from the root over the iteration graph. |
| Parser.BuildTaskOrderSucceedsIffAcyclic | borca/parsing/parser.py:73-81 | Ordering succeeds exactly when no task reachable from the root depends on itself, directly or not. This holds for every iteration order. |
| Parser.BuildTaskOrderDependenciesFirst | borca/parsing/parser.py:61-87 | On success no task appears twice, every declared dependency comes before the task that needs it, and the root is last. |
| Parser.BuildTaskOrderReachable | borca/parsing/parser.py:61-89 | On success the tasks are exactly the root and its direct and indirect dependencies. |
| Parser.BuildTaskOrderFailure | borca/parsing/parser.py:74-77 | On failure the reported `task -> dependency` is a declared edge reachable from the root, and the dependency leads back to the task, so the edge closes a cycle. |
| Parser.OrderedTasks | borca/parsing/parser.py:17-31 | The stages run in order and the first failing one decides the result: a heading failure, a record failure, duplicate names or an undefined root, or a dependency name that does not resolve. |
| Parser.OrderedTasksReachesWalk | borca/parsing/parser.py:28-31 | Once the earlier stages pass, the result is the ordering from the requested root. |
| Parser.OrderedTasksCorrect | borca/parsing/parser.py:28-96 | On a configuration that passes the checks, `orderedTasks()` succeeds exactly when no reachable cycle exists. On success the list is unique, declared, dependencies first, root last, and exactly the reachable tasks. On failure it reports a cycle-closing edge. |
| TaskOrder.Emit | borca/parsing/parser.py:83-85 | The order grows by at most one entry, keeps what was already ordered as a prefix, afterwards holds exactly the old tasks plus this one, and stays free of repeats. |
| TaskOrder.Visit | borca/parsing/parser.py:61-87 | Keeps the earlier order as a prefix and includes the task. It preserves no-duplicates and dependencies-first. A reported edge is a real edge of the graph. |
| TaskOrder.VisitAll | borca/parsing/parser.py:73-81 | Every dependency of the loop ends up ordered, and the loop preserves the same invariants. |
| TaskOrder.Order | borca/parsing/parser.py:89 | The result has no duplicates, lists dependencies first and contains the root. |
| TaskOrder.VisitEmits | borca/parsing/parser.py:61-87 | A call emits only tasks reachable from the task it starts at. |
| TaskOrder.VisitAllEmits | borca/parsing/parser.py:73-81 | The loop emits only tasks reachable over at least one edge. |
| TaskOrder.VisitNoBackPath | borca/parsing/parser.py:74-81 | After a successful call, no path from the task leads back to it or to a task on the enclosing path. |
| TaskOrder.VisitAllHitsPath | borca/parsing/parser.py:74-77 | A dependency that is on the path makes the loop fail. |
| TaskOrder.VisitFailureEdge | borca/parsing/parser.py:74-77 | The reported edge is reachable from the call's task, and its dependency is on the path or leads back to its task. |
| TaskOrder.OrderEndsWithRoot | borca/parsing/parser.py:83-89 | A successful order ends with the root. |
| TaskOrder.OrderIsReachableSet | borca/parsing/parser.py:61-89 | A successful order holds exactly the tasks reachable from the root. |
| TaskOrder.OrderFailureClosesCycle | borca/parsing/parser.py:74-77 | The reported edge lies on a cycle reachable from the root. |
| TaskOrder.OrderSucceedsIffAcyclic | borca/parsing/parser.py:61-89 | The walk succeeds exactly when no cycle is reachable from the root. |
| TaskOrder.OrderIndependentOfIteration | borca/parsing/parser.py:73 | Two iteration orders of the same sets either both succeed or both fail. When they succeed, they order the same tasks and both end with the root. |
| DataFormat.ContainsTaskByName | borca/parsing/data_format.py:19-20 | `task in tasks` holds exactly when a task of the same name is listed. |
| DataFormat.SameTaskIsEquivalence | borca/parsing/data_format.py:19-20 | Equality by name is reflexive, symmetric and transitive. |
| DataFormat.Hash | borca/parsing/data_format.py:16-17 | The hash fails (`int("")`) for the empty name and for no other name within the interpreter's digit limit. |
| DataFormat.SameTaskSameHash | borca/parsing/data_format.py:16-20 | Equal tasks have equal hashes, as a set needs. |
| DataFormat.HashAppend | borca/parsing/data_format.py:16-17 | Appending a character appends its code point's decimal digits to the hash. |
| DataFormat.HashOfChar | borca/parsing/data_format.py:16-17 | A one-character name hashes to its code point. |
| DataFormat.HashOfAb | borca/parsing/data_format.py:16-17 | `"ab"` hashes to 9798. |
| DataFormat.HashCollides | borca/parsing/data_format.py:16-17 | Two different names can share a hash (code points 1,23 and 12,3). Equality, not the hash, decides set membership. |
| Schema.DecodeStrings | borca/parsing/data_format.py:8 | Accepts a list of strings only, and reads back exactly what `EncodeStrings` writes. |
| Schema.DecodeEncodeStrings | borca/parsing/data_format.py:8 | Writing out a list of strings and reading it back gives the same list. |
| Schema.RequiredStrings | borca/parsing/data_format.py:8 | A required `List[str]` field. It fails with that field's error when the field is missing or ill-typed. |
| Schema.OptionalStrings | borca/parsing/data_format.py:9-11 | A missing field reads as `[]`. A present one must be a list of strings. |
| Schema.DecodeTask | borca/parsing/data_format.py:6-11 | A task is read from a table with a string `name` and string-list `commands`. The optional lists default to empty. A non-table entry or a bad `name` fails with that field's error. |
| Schema.DecodeEncodeTask | borca/parsing/data_format.py:6-11 | Every task survives being written as a table and read back, all fields included. |
| Schema.DecodeDefaults | borca/parsing/data_format.py:9-11 | A table with only `name` and `commands` reads as a task with empty `depends_on`, `input_paths` and `output_paths`. |
| Schema.DecodeTasks | borca/parsing/data_format.py:25 | Succeeds exactly when every entry is a valid task, and decodes entry by entry. |
| Schema.DecodeBorcaData | borca/parsing/data_format.py:23-25 | Requires a string `default_task` and a list `tasks`, in that order of checking, and reads the tasks entry by entry. |
| Schema.DecodeEncodeBorcaData | borca/parsing/data_format.py:23-25 | Every configuration record survives being written out and read back. |
| BorcaDatagram.FirstNonTable | borca/parsing/borca_datagram.py:53-55 | The first task entry that is not a table; all earlier ones are tables. |
| BorcaDatagram.VerifyAndGather | borca/parsing/borca_datagram.py:22-57 | Succeeds exactly when every gathering check holds, and then returns the default task and the entries. Each violated check, taken in source order, yields its own error. |
| BorcaDatagram.PySet | borca/parsing/borca_datagram.py:60 | `set(...)` succeeds exactly when every item can be hashed, and then holds the items. Otherwise it raises `TypeError`. |
| BorcaDatagram.WrappedNames | borca/task/task.py:5-7 | `Task(entry).name` is the entry itself, one per entry, in order. |
| BorcaDatagram.VerifyTaskCollectionAsWritten | borca/parsing/borca_datagram.py:59-66 | For any names the tasks carry, the check passes exactly when every name can be hashed, no name repeats and the default task is among them. An unhashable name raises `TypeError`. |
| BorcaDatagram.DatagramAsWritten | borca/parsing/borca_datagram.py:17-18 | A gathering failure is the result. Otherwise the name check runs on the wrapped entries. |
| BorcaDatagram.DatagramAsWrittenRejectsAll | borca/parsing/borca_datagram.py:17-18 | As written, the validator rejects every document. A well-formed one has at least one entry, that entry's name is a table, and so it fails with `TypeError`. |
| BorcaDatagram.EntryNames | borca/parsing/borca_datagram.py:60 | The entries' `name` fields, in order. An entry without a string name is an error. |
| BorcaDatagram.VerifyTaskCollection | borca/parsing/borca_datagram.py:59-66 | Succeeds exactly when the names are unique and include the default task. Duplicates are reported before a missing default task. |
| BorcaDatagram.Datagram | borca/parsing/borca_datagram.py:17-18 | On success the document is well formed and its names are unique and include the default task. Gathering failures propagate unchanged. |
| BorcaDatagram.AsWrittenRejectsValidConfig | borca/parsing/borca_datagram.py:57-63 | A one-task configuration is accepted by the corrected checks and rejected with `TypeError` as written. |
| Scenarios.NoDependencies | tests/test_graph.py:26-55 | Three tasks without dependencies, walked from `build`, give `["build"]`. |
| Scenarios.PartialDependencies | tests/test_graph.py:57-89 | `build -> lint` with `test` unrelated gives `["lint", "build"]`. |
| Scenarios.LinearDependencies | tests/test_graph.py:91-126 | `build -> test -> lint` gives `["lint", "test", "build"]`. |
| Scenarios.DiamondEveryOrder | tests/test_graph.py:128-176 | The diamond gives one of the two orders the test accepts, whichever way `{test, security}` is iterated. |
| Scenarios.FanInEveryOrder | tests/test_graph.py:178-223 | `build -> test -> {lint, security}` gives one of the two orders the test accepts, in both iteration orders. |
| Scenarios.RedundantEveryOrder | tests/test_graph.py:225-260 | `build -> {test, security}` with `test -> security` gives `["security", "test", "build"]` in both iteration orders. |
| Scenarios.DuplicateDependency | tests/test_graph.py:262-288 | `depends_on = ["test", "test"]` gives `["test", "build"]`. This holds whether the repeat is collapsed or not. |
| Scenarios.TwoTaskCycle | tests/test_graph.py:290-318 | `build <-> test` fails on the edge `test -> build`. |
| Scenarios.ThreeTaskCycle | tests/test_graph.py:320-358 | `build -> test -> lint -> build` fails on the edge `lint -> build`. |
| Scenarios.SelfCycle | borca/parsing/parser.py:74-77 | A task depending on itself fails on its own edge. |
| ParsingScenarios.SingleTask | tests/test_graph.py:8-24 | The one-task configuration, read end to end, yields that task. |
| ParsingScenarios.MissingTasks | tests/test_parsing.py:9-18 | No task list: the record fails on `tasks`. |
| ParsingScenarios.MissingDefaultDefinition | tests/test_parsing.py:20-34 | No `default_task`: the record fails on `default_task`. |
| ParsingScenarios.TaskHeadingNotList | tests/test_parsing.py:36-51 | `[tool.borca.tasks]` as a single table: the record fails on `tasks`. |
| ParsingScenarios.RequestedTaskMissing | tests/test_parsing.py:53-68 | The requested `build` is not declared: `InvalidToolConfiguration`. |
| ParsingScenarios.BorcaHeadingMisspelt | tests/test_parsing.py:70-85 | `[tool.borc]`: the record fails on `default_task`. |
| ParsingScenarios.TaskListMisspelt | tests/test_parsing.py:87-102 | `[[tool.borca.task]]`: the record fails on `tasks`. |
| ParsingScenarios.ToolHeadingMisspelt | tests/test_parsing.py:104-119 | `[tol.borca]`: the record fails on `default_task`. |
| ParsingScenarios.MissingTaskName | tests/test_parsing.py:121-135 | An entry without `name` fails on `name`. |
| ParsingScenarios.MissingTaskCommands | tests/test_parsing.py:137-149 | An entry without `commands` fails on `commands`. |
| ParsingScenarios.TaskCommandsNotList | tests/test_parsing.py:151-164 | `commands` given as a single string fails on `commands`. |

## Left out

- The record validation library's coercion, such as numbers to strings, is not modelled. `Schema` accepts only values already of the declared type. Its report of several field errors at once is reduced to the first failing field, taken in field order.
- TOML scalar kinds other than strings are represented by integers and booleans only. Dates and times, and floats, have no kind of their own.
- Parser.CheckHeadings: treats an inline table like a `[section]` table. The source tests `type(x) is not dict`, and the `toml` decoder returns inline tables as a subclass of `dict`. So `borca = {default_task = "b", tasks = [...]}` under `[tool]` raises `BorcaNotTable` in the source (parser.py:23-26) but is accepted here. The `toml` package is not part of this model.
- BorcaDatagram.VerifyAndGather: treats an inline table like a `[section]` table. `task = [{name = "b", commands = []}]` therefore raises `TaskNotTable` in the source (borca_datagram.py:53-55) but is accepted here.
- BorcaDatagram.VerifyAndGather: leaves out the JSON dumps at borca_datagram.py:15 and :42. Their f-strings are evaluated at every log level, and `json.dumps` raises `TypeError` on TOML date and time values. So a document with a date anywhere raises `TypeError` at :15, before any check, where the model gives the first failing check (for example `ToolHeadingMissing`). A date under `tool.borca` raises it at :42, after the `default-task` checks.
- BorcaDatagram.PySet: keeps `True` apart from `1` and `False` apart from `0`, which a Python set merges. The as-written names are always tables, so this never decides a result.
- Schema.DecodeTask: ignores a `dependencies` key. The record declares `dependencies: set` (data_format.py:14), so the source reads such a key into the set. The walk then visits its items, which are not tasks: with `dependencies = ["lint"]` on `build`, `build` reaches the string `"lint"` and `len("lint".dependencies)` raises `AttributeError`. Here the key is dropped and the result is `["build"]`.
- DataFormat.Hash: leaves out the interpreter's limit on converting digit strings to `int`. From Python 3.11 (and in the 3.7 to 3.10 security releases), `int()` of more than 4300 digits raises `ValueError`. A dependency on a task named with 1434 `d`s (4302 digits) therefore raises in the source and resolves here. The limit depends on the interpreter version and on settings.
- TaskOrder.Visit: leaves out Python's recursion limit. Each level of `build` is a nested call, so a dependency chain about 1000 tasks deep raises `RecursionError` in the source, while the model orders it.
- Logging is left out (parser.py:13, 42, 91 and borca_datagram.py:13); those messages only format names. The JSON dumps of borca_datagram.py:15 and :42 can raise, as the `BorcaDatagram.VerifyAndGather` line above says.
- The `exit(0)` at borca_datagram.py:20 is left out. It is a leftover that ends the process after the checks.
- `BorcaDatagram.getTaskMap` (borca_datagram.py:68-69) only raises `NotImplementedError`. It has no behaviour to model.
- The executor, the orchestrators and the command line are outside this model. They run commands, read files and parse arguments.
- `InvalidTaskgraph` is imported at parser.py:8 but not defined by borca/exceptions/exceptions.py. The model treats it as the exception class the ordering tests expect.
- The `config` dictionary is reduced to its `task-name` entry, passed as an `Option`. `toml.load` itself is left out: the model starts from the parsed value.
- Which cycle edge is reported depends on the set's iteration order, which comes from the hash of each name. The model leaves that order open, as `hints`. The theorems describe the reported edge for every order, not which one Python picks.
- Parser.ResolveDependencies: requires unique task names. The source runs this loop only after `__verifyTaskCollection` has rejected duplicates. With duplicates the later task would win in `task_map`, and that case is not modelled.
- Parser.BuildTaskOrder: requires that every dependency resolves and that the root is declared. The source reaches `build` only after both have been established.

## Findings

| source | as written | input that shows it | evidently intended | confidence | as-written member | corrected member |
|---|---|---|---|---|---|---|
| borca/parsing/borca_datagram.py:57-60 | Each entry is wrapped as `borca.task.Task(task_data)`, whose constructor stores the whole dictionary as `name`. `set([task.name ...])` then hashes dictionaries and raises `TypeError`. | `tool.borca` with `default-task = "build"` and one `task` entry `{name = "build", commands = ["poetry build"]}` | Collect each entry's `name` string, then check the names for uniqueness and for the default task | not executed | BorcaDatagram.AsWrittenRejectsValidConfig | BorcaDatagram.Datagram |
