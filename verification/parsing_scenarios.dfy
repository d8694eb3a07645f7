/**
 * The configurations of the parsing tests, read with `task-name` set to
 * `build`: each is rejected at the stage that first finds it wrong.
 */
module ParsingScenarios {
  import opened Wrappers
  import opened TomlValue
  import opened Errors
  import opened Sequences
  import opened DataFormat
  import opened DependencyGraph
  import opened Parser

  /** `[tool.borca]` holding `borca`, the way `toml.load` nests headings. */
  function Document(borca: Table): Table
  {
    map["tool" := VTable(map["borca" := VTable(borca)])]
  }

  /** A `[[tool.borca.tasks]]` entry with a name and one command. */
  function Entry(name: string, command: string): Value
  {
    VTable(map["name" := VStr(name), "commands" := VList([VStr(command)])])
  }

  /** The headings pass on every document of this shape, handing `borca` on. */
  lemma DocumentHeadings(borca: Table)
    ensures CheckHeadings(Document(borca)) == Success(borca)
  {
  }

  /** No `tasks` list: the record cannot be built. */
  lemma MissingTasks()
    ensures OrderedTasks(Document(map["default_task" := VStr("build")]), Some("build"), map[])
         == Failure(ValidationError("tasks"))
  {
    DocumentHeadings(map["default_task" := VStr("build")]);
  }

  /** No `default_task`: the record cannot be built. */
  lemma MissingDefaultDefinition()
    ensures OrderedTasks(Document(map["tasks" := VList([Entry("build", "poetry build")])]), Some("build"), map[])
         == Failure(ValidationError("default_task"))
  {
    DocumentHeadings(map["tasks" := VList([Entry("build", "poetry build")])]);
  }

  /** `[tool.borca.tasks]` written as one table instead of a list of tables. */
  lemma TaskHeadingNotList()
    ensures var borca := map["default_task" := VStr("build"), "tasks" := Entry("build", "poetry build")];
            OrderedTasks(Document(borca), Some("build"), map[]) == Failure(ValidationError("tasks"))
  {
    DocumentHeadings(map["default_task" := VStr("build"), "tasks" := Entry("build", "poetry build")]);
  }

  /** `[tool.borc]` misspelt: `tool.borca` exists only through its task list, without `default_task`. */
  lemma BorcaHeadingMisspelt()
    ensures var toml := map["tool" := VTable(map[
                          "borc" := VTable(map["default_task" := VStr("build")]),
                          "borca" := VTable(map["tasks" := VList([Entry("test", "pytest")])])])];
            OrderedTasks(toml, Some("build"), map[]) == Failure(ValidationError("default_task"))
  {
    var borca := map["tasks" := VList([Entry("test", "pytest")])];
    var toml := map["tool" := VTable(map[
                  "borc" := VTable(map["default_task" := VStr("build")]),
                  "borca" := VTable(borca)])];
    assert CheckHeadings(toml) == Success(borca);
  }

  /** `[tol.borca]` misspelt: the same, the default task sits under another heading. */
  lemma ToolHeadingMisspelt()
    ensures var toml := map[
                  "tol" := VTable(map["borca" := VTable(map["default_task" := VStr("test")])]),
                  "tool" := VTable(map["borca" := VTable(map["tasks" := VList([Entry("test", "pytest")])])])];
            OrderedTasks(toml, Some("build"), map[]) == Failure(ValidationError("default_task"))
  {
    var borca := map["tasks" := VList([Entry("test", "pytest")])];
    var toml := map[
          "tol" := VTable(map["borca" := VTable(map["default_task" := VStr("test")])]),
          "tool" := VTable(map["borca" := VTable(borca)])];
    assert CheckHeadings(toml) == Success(borca);
  }

  /** `[[tool.borca.task]]` instead of `tasks`: the extra key is ignored and `tasks` is missing. */
  lemma TaskListMisspelt()
    ensures var borca := map["default_task" := VStr("build"), "task" := VList([Entry("test", "pytest")])];
            OrderedTasks(Document(borca), Some("build"), map[]) == Failure(ValidationError("tasks"))
  {
    var borca := map["default_task" := VStr("build"), "task" := VList([Entry("test", "pytest")])];
    DocumentHeadings(borca);
    assert "tasks" !in borca;
  }

  /** A list holding one entry reads as that one task, with empty optional lists. */
  lemma DecodeOneEntry(name: string, command: string)
    ensures Schema.DecodeTasks([Entry(name, command)]) == Success([Task(name, [command], [], [], [])])
  {
    var task := Task(name, [command], [], [], []);
    Schema.DecodeDefaults(name, [command]);
    assert Schema.EncodeStrings([command]) == VList([VStr(command)]);
    assert Schema.DecodeTask(Entry(name, command)) == Success(task);
    var r := Schema.DecodeTasks([Entry(name, command)]);
    assert r.Success? && |r.value| == 1 && r.value[0] == task;
    assert r.value == [task];
  }

  /** The requested root `build` is not among the tasks. */
  lemma RequestedTaskMissing()
    ensures var borca := map["default_task" := VStr("build"), "tasks" := VList([Entry("test", "pytest")])];
            OrderedTasks(Document(borca), Some("build"), map[]) == Failure(InvalidToolConfiguration(RootTaskUndefined))
  {
    var borca := map["default_task" := VStr("build"), "tasks" := VList([Entry("test", "pytest")])];
    var task := Task("test", ["pytest"], [], [], []);
    DocumentHeadings(borca);
    DecodeOneEntry("test", "pytest");
    var data := BorcaData("build", [task]);
    assert Schema.DecodeBorcaData(borca) == Success(data);
    assert Names(data.tasks) == ["test"];
    assert VerifyTaskCollection(data, Some("build")) == Failure(InvalidToolConfiguration(RootTaskUndefined));
  }

  /** A task entry without `name`. */
  lemma MissingTaskName()
    ensures var entry := VTable(map["commands" := VList([VStr("pytest")])]);
            var borca := map["default_task" := VStr("test"), "tasks" := VList([entry])];
            OrderedTasks(Document(borca), Some("build"), map[]) == Failure(ValidationError("name"))
  {
    var entry := VTable(map["commands" := VList([VStr("pytest")])]);
    var borca := map["default_task" := VStr("test"), "tasks" := VList([entry])];
    DocumentHeadings(borca);
    assert Schema.DecodeTask(entry) == Failure(ValidationError("name"));
  }

  /** A task entry without `commands`. */
  lemma MissingTaskCommands()
    ensures var entry := VTable(map["name" := VStr("build")]);
            var borca := map["default_task" := VStr("build"), "tasks" := VList([entry])];
            OrderedTasks(Document(borca), Some("build"), map[]) == Failure(ValidationError("commands"))
  {
    var entry := VTable(map["name" := VStr("build")]);
    var borca := map["default_task" := VStr("build"), "tasks" := VList([entry])];
    DocumentHeadings(borca);
    assert Schema.DecodeTask(entry) == Failure(ValidationError("commands"));
  }

  /** `commands` given as one string instead of a list of strings. */
  lemma TaskCommandsNotList()
    ensures var entry := VTable(map["name" := VStr("build"), "commands" := VStr("poetry build")]);
            var borca := map["default_task" := VStr("build"), "tasks" := VList([entry])];
            OrderedTasks(Document(borca), Some("build"), map[]) == Failure(ValidationError("commands"))
  {
    var entry := VTable(map["name" := VStr("build"), "commands" := VStr("poetry build")]);
    var borca := map["default_task" := VStr("build"), "tasks" := VList([entry])];
    DocumentHeadings(borca);
    assert Schema.DecodeTask(entry) == Failure(ValidationError("commands"));
  }

  /** One task without dependencies, declared and requested: the result is that task alone. */
  lemma SingleTask()
    ensures var borca := map["default_task" := VStr("build"), "tasks" := VList([Entry("build", "poetry build")])];
            OrderedTasks(Document(borca), Some("build"), map[]) == Success([Task("build", ["poetry build"], [], [], [])])
  {
    var borca := map["default_task" := VStr("build"), "tasks" := VList([Entry("build", "poetry build")])];
    var task := Task("build", ["poetry build"], [], [], []);
    var data := BorcaData("build", [task]);
    DocumentHeadings(borca);
    DecodeOneEntry("build", "poetry build");
    assert Schema.DecodeBorcaData(borca) == Success(data);
    assert Names(data.tasks) == ["build"];
    assert VerifyTaskCollection(data, Some("build")) == Success("build");
    SingleTaskWalk(task);
    OrderedTasksReachesWalk(Document(borca), Some("build"), map[], data, "build");
  }

  /** The walk over one task without dependencies yields that task. */
  lemma SingleTaskWalk(task: Task)
    requires task.dependsOn == []
    ensures ResolveDependencies([task]).Success?
    ensures NoDuplicates(Names([task])) && Closed(Declared([task])) && task.name in Declared([task])
    ensures BuildTaskOrder(BorcaData(task.name, [task]), task.name, map[]) == Success([task])
  {
    var m := TaskMap([task]);
    assert Names([task]) == [task.name];
    assert m.Keys == {task.name} && m[task.name] == task;
    var declared := Declared([task]);
    assert declared == map[task.name := []];
    var g := IterationGraph(declared, map[]);
    assert g[task.name] == IterationOrder([], []) == [];
    assert g == map[task.name := []];
    assert Closed(g);
    assert TaskOrder.Emit([], task.name) == [task.name];
    assert TaskOrder.Visit(g, task.name, [], []) == Success([task.name]);
    assert Lookup([task.name], m) == [task];
  }
}
