/**
 * `BorcaDatagram`: a fixed sequence of checks over the `tool.borca` table
 * (keys `default-task` and `task`), then checks over the task names.
 * Each failing check raises its own `InvalidToolConfiguration`.
 */
module BorcaDatagram {
  import opened Wrappers
  import opened Sequences
  import opened TomlValue
  import opened Errors

  /** What the checks gather: the default task name and the task entries. */
  datatype Gathered = Gathered(defaultTask: string, entries: seq<Table>)

  predicate HasBorca(toml: Table)
  {
    HasTable(toml, "tool") && HasTable(toml["tool"].fields, "borca")
  }

  function Borca(toml: Table): Table
    requires HasBorca(toml)
  {
    toml["tool"].fields["borca"].fields
  }

  /** `default-task` is present, a string, and not empty. */
  predicate DefaultTaskValid(b: Table)
  {
    "default-task" in b && b["default-task"].VStr? && b["default-task"].str != ""
  }

  /** `task` is present, a list, not empty, and holds only tables. */
  predicate TaskListValid(b: Table)
  {
    && "task" in b && b["task"].VList? && |b["task"].items| >= 1
    && forall i :: 0 <= i < |b["task"].items| ==> b["task"].items[i].VTable?
  }

  /** Every condition the gathering checks demand. */
  predicate WellFormed(toml: Table)
  {
    HasBorca(toml) && DefaultTaskValid(Borca(toml)) && TaskListValid(Borca(toml))
  }

  /** The index of the first item that is not a table, or `|items|`. */
  function FirstNonTable(items: seq<Value>, from: nat): (k: nat)
    requires from <= |items|
    ensures from <= k <= |items|
    ensures forall j :: from <= j < k ==> items[j].VTable?
    ensures k < |items| ==> !items[k].VTable?
    decreases |items| - from
  {
    if from == |items| || !items[from].VTable? then from else FirstNonTable(items, from + 1)
  }

  function Tables(items: seq<Value>): (ts: seq<Table>)
    requires forall i :: 0 <= i < |items| ==> items[i].VTable?
    ensures |ts| == |items| && forall i :: 0 <= i < |items| ==> items[i] == VTable(ts[i])
  {
    seq(|items|, i requires 0 <= i < |items| => items[i].fields)
  }

  /**
   * `__verifyAndGatherBorcaData`: the checks in source order; the first
   * one violated decides the error. Asking a `tool` or `tool.borca` value
   * that is not a table for its keys raises AttributeError.
   */
  function VerifyAndGather(toml: Table): (r: Result<Gathered, Error>)
    ensures r.Success? <==> WellFormed(toml)
    ensures r.Success? ==>
              && r.value.defaultTask == Borca(toml)["default-task"].str
              && |r.value.entries| == |Borca(toml)["task"].items|
              && forall i :: 0 <= i < |r.value.entries| ==> Borca(toml)["task"].items[i] == VTable(r.value.entries[i])
    ensures "tool" !in toml ==> r == Failure(InvalidToolConfiguration(ToolHeadingMissing))
    ensures "tool" in toml && !toml["tool"].VTable? ==> r == Failure(Uncaught(AttributeError))
    ensures HasTable(toml, "tool") && "borca" !in toml["tool"].fields
            ==> r == Failure(InvalidToolConfiguration(BorcaHeadingMissing))
    ensures HasTable(toml, "tool") && "borca" in toml["tool"].fields && !toml["tool"].fields["borca"].VTable?
            ==> r == Failure(Uncaught(AttributeError))
    ensures HasBorca(toml) && "default-task" !in Borca(toml)
            ==> r == Failure(InvalidToolConfiguration(DefaultTaskMissing))
    ensures HasBorca(toml) && "default-task" in Borca(toml) && !Borca(toml)["default-task"].VStr?
            ==> r == Failure(InvalidToolConfiguration(DefaultTaskNotString))
    ensures HasBorca(toml) && "default-task" in Borca(toml) && Borca(toml)["default-task"] == VStr("")
            ==> r == Failure(InvalidToolConfiguration(DefaultTaskEmpty))
    ensures HasBorca(toml) && DefaultTaskValid(Borca(toml)) && "task" !in Borca(toml)
            ==> r == Failure(InvalidToolConfiguration(TaskHeadingMissing))
    ensures HasBorca(toml) && DefaultTaskValid(Borca(toml)) && "task" in Borca(toml) && !Borca(toml)["task"].VList?
            ==> r == Failure(InvalidToolConfiguration(TaskNotList))
    ensures HasBorca(toml) && DefaultTaskValid(Borca(toml)) && "task" in Borca(toml) && Borca(toml)["task"] == VList([])
            ==> r == Failure(InvalidToolConfiguration(NoTasks))
    ensures HasBorca(toml) && DefaultTaskValid(Borca(toml)) && "task" in Borca(toml) && Borca(toml)["task"].VList?
            && (exists i :: 0 <= i < |Borca(toml)["task"].items| && !Borca(toml)["task"].items[i].VTable?)
            ==> r == Failure(InvalidToolConfiguration(TaskNotTable))
  {
    if "tool" !in toml then Failure(InvalidToolConfiguration(ToolHeadingMissing))
    else if !toml["tool"].VTable? then Failure(Uncaught(AttributeError))
    else if "borca" !in toml["tool"].fields then Failure(InvalidToolConfiguration(BorcaHeadingMissing))
    else if !toml["tool"].fields["borca"].VTable? then Failure(Uncaught(AttributeError))
    else
      var b := toml["tool"].fields["borca"].fields;
      if "default-task" !in b then Failure(InvalidToolConfiguration(DefaultTaskMissing))
      else if !b["default-task"].VStr? then Failure(InvalidToolConfiguration(DefaultTaskNotString))
      else if b["default-task"].str == "" then Failure(InvalidToolConfiguration(DefaultTaskEmpty))
      else if "task" !in b then Failure(InvalidToolConfiguration(TaskHeadingMissing))
      else if !b["task"].VList? then Failure(InvalidToolConfiguration(TaskNotList))
      else if |b["task"].items| < 1 then Failure(InvalidToolConfiguration(NoTasks))
      else if FirstNonTable(b["task"].items, 0) < |b["task"].items| then
        Failure(InvalidToolConfiguration(TaskNotTable))
      else
        Success(Gathered(b["default-task"].str, Tables(b["task"].items)))
  }

  // ---------------------------------------------------------------------
  // The name checks, as the source writes them
  // ---------------------------------------------------------------------

  /** Values Python can hash: dictionaries and lists cannot be set members. */
  predicate Hashable(v: Value)
  {
    !v.VTable? && !v.VList?
  }

  /**
   * `set(values)`: the items are hashed in order and the first one that
   * cannot be hashed raises TypeError.
   */
  function PySet(values: seq<Value>): (r: Result<set<Value>, Error>)
    ensures r.Success? <==> forall i :: 0 <= i < |values| ==> Hashable(values[i])
    ensures r.Success? ==> r.value == Elems(values)
    ensures r.Failure? ==> r.error == Uncaught(TypeError)
  {
    if |values| == 0 then Success({})
    else if !Hashable(values[0]) then Failure(Uncaught(TypeError))
    else
      var rest :- PySet(values[1..]);
      assert Elems(values) == {values[0]} + Elems(values[1..]);
      Success({values[0]} + rest)
  }

  /**
   * The `name` of `Task(entry)` for the task package's `Task`, whose
   * constructor stores its one argument as `name`: the whole entry.
   */
  function WrappedNames(entries: seq<Table>): (names: seq<Value>)
    ensures |names| == |entries|
    ensures forall i :: 0 <= i < |entries| ==> names[i] == VTable(entries[i])
  {
    seq(|entries|, i requires 0 <= i < |entries| => VTable(entries[i]))
  }

  /**
   * `__verifyTaskCollection` as written, over whatever values the tasks
   * carry as names: the set of names, then the count, then the default.
   */
  function VerifyTaskCollectionAsWritten(defaultTask: string, names: seq<Value>): (r: Result<(), Error>)
    ensures r.Success? <==>
              && (forall i :: 0 <= i < |names| ==> Hashable(names[i]))
              && NoDuplicates(names) && VStr(defaultTask) in names
    ensures (exists i :: 0 <= i < |names| && !Hashable(names[i])) ==> r == Failure(Uncaught(TypeError))
  {
    var unique :- PySet(names);
    DistinctCount(names);
    if |unique| != |names| then Failure(InvalidToolConfiguration(DuplicateTaskNames))
    else if VStr(defaultTask) !in unique then Failure(InvalidToolConfiguration(DefaultTaskUndefined))
    else Success(())
  }

  /** The constructor's two check stages as written: names are the wrapped entries. */
  function DatagramAsWritten(toml: Table): (r: Result<(), Error>)
    ensures !WellFormed(toml) ==> r == VerifyAndGather(toml).PropagateFailure()
    ensures WellFormed(toml) ==> r == VerifyTaskCollectionAsWritten(
                                        Borca(toml)["default-task"].str,
                                        WrappedNames(VerifyAndGather(toml).value.entries))
  {
    var g :- VerifyAndGather(toml);
    VerifyTaskCollectionAsWritten(g.defaultTask, WrappedNames(g.entries))
  }

  /** As written, the validator rejects every configuration, the well-formed ones with TypeError. */
  lemma DatagramAsWrittenRejectsAll(toml: Table)
    ensures DatagramAsWritten(toml).Failure?
    ensures WellFormed(toml) ==> DatagramAsWritten(toml) == Failure(Uncaught(TypeError))
  {
    if WellFormed(toml) {
      var names := WrappedNames(VerifyAndGather(toml).value.entries);
      assert |names| >= 1 && !Hashable(names[0]);
    }
  }

  // ---------------------------------------------------------------------
  // The name checks as intended: on each entry's `name` field
  // ---------------------------------------------------------------------

  predicate HasName(entry: Table)
  {
    "name" in entry && entry["name"].VStr?
  }

  /** The names of the entries; the first entry without a string name is an error. */
  function EntryNames(entries: seq<Table>): (r: Result<seq<string>, Error>)
    ensures r.Success? <==> forall i :: 0 <= i < |entries| ==> HasName(entries[i])
    ensures r.Success? ==>
              && |r.value| == |entries|
              && forall i :: 0 <= i < |entries| ==> entries[i]["name"] == VStr(r.value[i])
    ensures r.Failure? ==> r.error == ValidationError("name")
  {
    if |entries| == 0 then Success([])
    else if !HasName(entries[0]) then Failure(ValidationError("name"))
    else
      var rest :- EntryNames(entries[1..]);
      assert forall i :: 1 <= i < |entries| ==> entries[i] == entries[1..][i - 1];
      Success([entries[0]["name"].str] + rest)
  }

  /**
   * `__verifyTaskCollection` on the entries' names: names must be unique
   * and the default task must be one of them.
   */
  function VerifyTaskCollection(g: Gathered): (r: Result<seq<string>, Error>)
    ensures r.Success? ==>
              && EntryNames(g.entries) == Success(r.value)
              && NoDuplicates(r.value) && g.defaultTask in r.value
    ensures EntryNames(g.entries).Success? && !NoDuplicates(EntryNames(g.entries).value)
            ==> r == Failure(InvalidToolConfiguration(DuplicateTaskNames))
    ensures EntryNames(g.entries).Success? && NoDuplicates(EntryNames(g.entries).value)
            && g.defaultTask !in EntryNames(g.entries).value
            ==> r == Failure(InvalidToolConfiguration(DefaultTaskUndefined))
    ensures EntryNames(g.entries).Success? && NoDuplicates(EntryNames(g.entries).value)
            && g.defaultTask in EntryNames(g.entries).value
            ==> r.Success?
  {
    var names :- EntryNames(g.entries);
    DistinctCount(names);
    if |Elems(names)| != |names| then Failure(InvalidToolConfiguration(DuplicateTaskNames))
    else if g.defaultTask !in Elems(names) then Failure(InvalidToolConfiguration(DefaultTaskUndefined))
    else Success(names)
  }

  /** The constructor's two check stages (the leftover `exit(0)` is not part of it). */
  function Datagram(toml: Table): (r: Result<seq<string>, Error>)
    ensures r.Success? ==> WellFormed(toml) && NoDuplicates(r.value) && Borca(toml)["default-task"].str in r.value
    ensures !WellFormed(toml) ==> r == VerifyAndGather(toml).PropagateFailure()
  {
    var g :- VerifyAndGather(toml);
    VerifyTaskCollection(g)
  }

  /** A one-task configuration: accepted by the intended checks, rejected as written. */
  lemma AsWrittenRejectsValidConfig()
    ensures var entry := map["name" := VStr("build"), "commands" := VList([VStr("poetry build")])];
            var toml := map["tool" := VTable(map["borca" := VTable(map[
                            "default-task" := VStr("build"),
                            "task" := VList([VTable(entry)])])])];
            && Datagram(toml) == Success(["build"])
            && DatagramAsWritten(toml) == Failure(Uncaught(TypeError))
  {
    var entry := map["name" := VStr("build"), "commands" := VList([VStr("poetry build")])];
    var b := map["default-task" := VStr("build"), "task" := VList([VTable(entry)])];
    var toml := map["tool" := VTable(map["borca" := VTable(b)])];
    assert WellFormed(toml);
    var g := VerifyAndGather(toml).value;
    assert g.entries == [entry];
    assert EntryNames([entry]) == Success(["build"]) by {
      assert HasName(entry) && entry["name"].str == "build";
      assert [entry][1..] == [];
      assert EntryNames([]) == Success([]);
      assert [entry["name"].str] + [] == ["build"];
    }
  }
}
