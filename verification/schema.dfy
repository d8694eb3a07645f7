/**
 * The typed records `Task` and `BorcaData` read from the `tool.borca`
 * table. Required fields must be present with the declared type; the
 * optional list fields default to empty lists; other keys, among them a
 * `dependencies` key, are ignored.
 */
module Schema {
  import opened Wrappers
  import opened TomlValue
  import opened Errors
  import opened DataFormat

  function EncodeStrings(ss: seq<string>): (v: Value)
    ensures v.VList? && |v.items| == |ss|
  {
    VList(seq(|ss|, i requires 0 <= i < |ss| => VStr(ss[i])))
  }

  /** The strings of a list whose every item is a string. */
  function DecodeStringItems(items: seq<Value>): (r: Option<seq<string>>)
    ensures r.Some? <==> forall i :: 0 <= i < |items| ==> items[i].VStr?
    ensures r.Some? ==>
              && |r.value| == |items|
              && forall i :: 0 <= i < |items| ==> items[i] == VStr(r.value[i])
  {
    if |items| == 0 then Some([])
    else
      var last := items[|items| - 1];
      match DecodeStringItems(items[..|items| - 1])
      case None => None
      case Some(front) => if last.VStr? then Some(front + [last.str]) else None
  }

  /** A `List[str]` field. */
  function DecodeStrings(v: Value): (r: Option<seq<string>>)
    ensures r.Some? ==> EncodeStrings(r.value) == v
  {
    if v.VList? then DecodeStringItems(v.items) else None
  }

  lemma DecodeEncodeStrings(ss: seq<string>)
    ensures DecodeStrings(EncodeStrings(ss)) == Some(ss)
  {
    var r := DecodeStringItems(EncodeStrings(ss).items);
    assert r.Some?;
    assert r.value == ss;
  }

  /** A required `List[str]` field. */
  function RequiredStrings(t: Table, key: string): (r: Result<seq<string>, Error>)
    ensures r.Failure? ==> r.error == ValidationError(key)
    ensures r.Success? <==> key in t && DecodeStrings(t[key]).Some?
    ensures r.Success? ==> EncodeStrings(r.value) == t[key]
  {
    if key !in t then Failure(ValidationError(key))
    else match DecodeStrings(t[key])
      case None => Failure(ValidationError(key))
      case Some(ss) => Success(ss)
  }

  /** A `List[str]` field whose default is the empty list. */
  function OptionalStrings(t: Table, key: string): (r: Result<seq<string>, Error>)
    ensures r.Failure? ==> r.error == ValidationError(key)
    ensures key !in t ==> r == Success([])
    ensures key in t ==> (r.Success? <==> DecodeStrings(t[key]).Some?)
    ensures key in t && r.Success? ==> EncodeStrings(r.value) == t[key]
  {
    if key !in t then Success([]) else RequiredStrings(t, key)
  }

  /** `Task(**entry)`: `name` and `commands` are required. */
  function DecodeTask(v: Value): (r: Result<Task, Error>)
    ensures r.Success? ==>
              && v.VTable?
              && "name" in v.fields && v.fields["name"] == VStr(r.value.name)
              && "commands" in v.fields && v.fields["commands"] == EncodeStrings(r.value.commands)
    ensures r.Success? && "depends_on" !in v.fields ==> r.value.dependsOn == []
    ensures r.Success? && "input_paths" !in v.fields ==> r.value.inputPaths == []
    ensures r.Success? && "output_paths" !in v.fields ==> r.value.outputPaths == []
    ensures !v.VTable? ==> r == Failure(ValidationError("tasks"))
    ensures v.VTable? && !("name" in v.fields && v.fields["name"].VStr?) ==> r == Failure(ValidationError("name"))
  {
    if !v.VTable? then Failure(ValidationError("tasks"))
    else
      var t := v.fields;
      if !("name" in t && t["name"].VStr?) then Failure(ValidationError("name"))
      else
        var commands :- RequiredStrings(t, "commands");
        var dependsOn :- OptionalStrings(t, "depends_on");
        var inputPaths :- OptionalStrings(t, "input_paths");
        var outputPaths :- OptionalStrings(t, "output_paths");
        Success(Task(t["name"].str, commands, dependsOn, inputPaths, outputPaths))
  }

  function EncodeTask(task: Task): Value
  {
    VTable(map[
      "name" := VStr(task.name),
      "commands" := EncodeStrings(task.commands),
      "depends_on" := EncodeStrings(task.dependsOn),
      "input_paths" := EncodeStrings(task.inputPaths),
      "output_paths" := EncodeStrings(task.outputPaths)])
  }

  /** Every task read back from its table form is the same task, all fields included. */
  lemma DecodeEncodeTask(task: Task)
    ensures DecodeTask(EncodeTask(task)) == Success(task)
  {
    DecodeEncodeStrings(task.commands);
    DecodeEncodeStrings(task.dependsOn);
    DecodeEncodeStrings(task.inputPaths);
    DecodeEncodeStrings(task.outputPaths);
  }

  /** A table with only the required fields gets empty dependency and path lists. */
  lemma DecodeDefaults(name: string, commands: seq<string>)
    ensures DecodeTask(VTable(map["name" := VStr(name), "commands" := EncodeStrings(commands)]))
         == Success(Task(name, commands, [], [], []))
  {
    DecodeEncodeStrings(commands);
  }

  /** `List[Task]`: the first entry that is not a valid task decides the error. */
  function DecodeTasks(items: seq<Value>): (r: Result<seq<Task>, Error>)
    ensures r.Success? <==> forall i :: 0 <= i < |items| ==> DecodeTask(items[i]).Success?
    ensures r.Success? ==>
              && |r.value| == |items|
              && forall i :: 0 <= i < |items| ==> DecodeTask(items[i]) == Success(r.value[i])
  {
    if |items| == 0 then Success([])
    else
      var first :- DecodeTask(items[0]);
      var rest :- DecodeTasks(items[1..]);
      assert forall i :: 1 <= i < |items| ==> items[i] == items[1..][i - 1];
      Success([first] + rest)
  }

  /** `BorcaData(**borca)`: `default_task` (a string) and `tasks` (a list) are required. */
  function DecodeBorcaData(t: Table): (r: Result<BorcaData, Error>)
    ensures r.Success? ==> "default_task" in t && t["default_task"] == VStr(r.value.defaultTask)
    ensures r.Success? ==>
              && "tasks" in t && t["tasks"].VList?
              && DecodeTasks(t["tasks"].items) == Success(r.value.tasks)
    ensures !("default_task" in t && t["default_task"].VStr?) ==> r == Failure(ValidationError("default_task"))
    ensures "default_task" in t && t["default_task"].VStr? && !("tasks" in t && t["tasks"].VList?)
            ==> r == Failure(ValidationError("tasks"))
  {
    if !("default_task" in t && t["default_task"].VStr?) then Failure(ValidationError("default_task"))
    else if !("tasks" in t && t["tasks"].VList?) then Failure(ValidationError("tasks"))
    else
      var tasks :- DecodeTasks(t["tasks"].items);
      Success(BorcaData(t["default_task"].str, tasks))
  }

  function EncodeBorcaData(data: BorcaData): Table
  {
    map[
      "default_task" := VStr(data.defaultTask),
      "tasks" := VList(seq(|data.tasks|, i requires 0 <= i < |data.tasks| => EncodeTask(data.tasks[i])))]
  }

  /** The configuration record survives being written out and read back. */
  lemma DecodeEncodeBorcaData(data: BorcaData)
    ensures DecodeBorcaData(EncodeBorcaData(data)) == Success(data)
  {
    var items := EncodeBorcaData(data)["tasks"].items;
    forall i | 0 <= i < |items| ensures DecodeTask(items[i]) == Success(data.tasks[i]) {
      DecodeEncodeTask(data.tasks[i]);
    }
    var r := DecodeTasks(items);
    assert r.Success?;
    assert r.value == data.tasks;
  }
}
