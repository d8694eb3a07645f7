/** The parsed TOML document, as the JSON-like value `toml.load` returns. */
module TomlValue {

  /**
   * Strings, lists and tables are the kinds the checks distinguish;
   * integers and booleans stand for every other scalar TOML can hold.
   * Inline tables and `[section]` tables are one kind here.
   */
  datatype Value =
    | VStr(str: string)
    | VInt(num: int)
    | VBool(flag: bool)
    | VList(items: seq<Value>)
    | VTable(fields: map<string, Value>)

  type Table = map<string, Value>

  /** `t[key]` exists and is a table. */
  predicate HasTable(t: Table, key: string)
  {
    key in t && t[key].VTable?
  }
}
