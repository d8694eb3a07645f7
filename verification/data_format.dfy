/**
 * The task record and the configuration record, with the task identity the
 * graph relies on: two tasks are the same task exactly when their names are
 * equal, and the hash is computed from the name alone.
 */
module DataFormat {
  import opened Wrappers

  type Name = string

  /** One entry of the task list. `dependsOn` holds names, resolved later. */
  datatype Task = Task(
    name: Name,
    commands: seq<string>,
    dependsOn: seq<Name>,
    inputPaths: seq<string>,
    outputPaths: seq<string>)

  datatype BorcaData = BorcaData(defaultTask: Name, tasks: seq<Task>)

  /** Task equality: by name only, whatever the other fields hold. */
  predicate SameTask(a: Task, b: Task)
  {
    a.name == b.name
  }

  function Names(tasks: seq<Task>): (names: seq<Name>)
    ensures |names| == |tasks|
    ensures forall i :: 0 <= i < |tasks| ==> names[i] == tasks[i].name
  {
    seq(|tasks|, i requires 0 <= i < |tasks| => tasks[i].name)
  }

  /** `t in tasks` on a Python list, which compares with task equality. */
  predicate ContainsTask(tasks: seq<Task>, t: Task)
  {
    exists i :: 0 <= i < |tasks| && SameTask(tasks[i], t)
  }

  /** List membership of tasks coincides with membership of their names. */
  lemma ContainsTaskByName(tasks: seq<Task>, t: Task)
    ensures ContainsTask(tasks, t) <==> t.name in Names(tasks)
  {
    if t.name in Names(tasks) {
      var i :| 0 <= i < |tasks| && Names(tasks)[i] == t.name;
      assert SameTask(tasks[i], t);
    }
  }

  /** Task equality is an equivalence relation. */
  lemma SameTaskIsEquivalence(a: Task, b: Task, c: Task)
    ensures SameTask(a, a)
    ensures SameTask(a, b) ==> SameTask(b, a)
    ensures SameTask(a, b) && SameTask(b, c) ==> SameTask(a, c)
  {
  }

  // ---------------------------------------------------------------------
  // The hash: the decimal code points of the name's characters, written
  // one after the other and read back as one decimal integer.
  // ---------------------------------------------------------------------

  function Pow10(k: nat): (p: nat)
    ensures p >= 1
  {
    if k == 0 then 1 else 10 * Pow10(k - 1)
  }

  /** The integer a sequence of decimal digits denotes, most significant first. */
  function DigitsValue(ds: seq<nat>): nat
  {
    if |ds| == 0 then 0 else DigitsValue(ds[..|ds| - 1]) * 10 + ds[|ds| - 1]
  }

  /** The decimal digits of `n`, as `str(n)` writes them. */
  function Digits(n: nat): (ds: seq<nat>)
    ensures |ds| >= 1
    ensures forall i :: 0 <= i < |ds| ==> ds[i] < 10
    ensures n > 0 ==> ds[0] != 0
    ensures DigitsValue(ds) == n
    decreases n
  {
    if n < 10 then [n] else Digits(n / 10) + [n % 10]
  }

  /** The digit string `"".join(str(ord(c)) for c in name)`. */
  function CodeDigits(name: string): (ds: seq<nat>)
    ensures |ds| >= |name|
    ensures forall i :: 0 <= i < |ds| ==> ds[i] < 10
  {
    if |name| == 0 then []
    else CodeDigits(name[..|name| - 1]) + Digits(name[|name| - 1] as nat)
  }

  /**
   * The task hash. `int("")` raises, so the empty name has no hash.
   */
  function Hash(name: string): (h: Option<nat>)
    ensures h.None? <==> |name| == 0
  {
    var ds := CodeDigits(name);
    if |ds| == 0 then None else Some(DigitsValue(ds))
  }

  function TaskHash(t: Task): Option<nat>
  {
    Hash(t.name)
  }

  /** Equal tasks hash equally: the hash is consistent with task equality. */
  lemma SameTaskSameHash(a: Task, b: Task)
    requires SameTask(a, b)
    ensures TaskHash(a) == TaskHash(b)
  {
  }

  /** One more digit after `u * p + v` shifts both parts. */
  lemma ShiftDigit(u: int, p: int, v: int, x: int)
    ensures (u * p + v) * 10 + x == u * (p * 10) + (v * 10 + x)
  {
  }

  /** Reading `a + b` as one number shifts `a` left by the digits of `b`. */
  lemma {:induction false} DigitsValueAppend(a: seq<nat>, b: seq<nat>)
    ensures DigitsValue(a + b) == DigitsValue(a) * Pow10(|b|) + DigitsValue(b)
    decreases |b|
  {
    if |b| == 0 {
      assert a + b == a;
    } else {
      var b' := b[..|b| - 1];
      var x := b[|b| - 1];
      assert (a + b)[..|a + b| - 1] == a + b';
      assert (a + b)[|a + b| - 1] == x;
      DigitsValueAppend(a, b');
      assert DigitsValue(a + b) == DigitsValue(a + b') * 10 + x;
      assert DigitsValue(b) == DigitsValue(b') * 10 + x && Pow10(|b|) == Pow10(|b'|) * 10;
      ShiftDigit(DigitsValue(a), Pow10(|b'|), DigitsValue(b'), x);
    }
  }

  /**
   * Appending a character to a non-empty name appends its code point's
   * decimal digits to the hash.
   */
  lemma HashAppend(name: string, c: char)
    requires |name| > 0
    ensures Hash(name + [c]).Some? && Hash(name).Some?
    ensures Hash(name + [c]).value
         == Hash(name).value * Pow10(|Digits(c as nat)|) + c as nat
  {
    var n := name + [c];
    assert n[..|n| - 1] == name;
    assert CodeDigits(n) == CodeDigits(name) + Digits(c as nat);
    DigitsValueAppend(CodeDigits(name), Digits(c as nat));
  }

  /** The name of one character hashes to that character's code point. */
  lemma HashOfChar(c: char)
    ensures Hash([c]) == Some(c as nat)
  {
    assert [c][..0] == [];
    assert CodeDigits([c]) == Digits(c as nat);
  }

  /** "a" is 97 and "b" is 98, so "ab" hashes to 9798. */
  lemma HashOfAb()
    ensures Hash("ab") == Some(9798)
  {
    assert "ab" == "a" + ['b'];
    assert 'a' as nat == 97 && 'b' as nat == 98;
    HashOfChar('a');
    assert Digits(98) == Digits(9) + [8];
    assert |Digits(98)| == 2;
    assert Pow10(2) == 100;
    HashAppend("a", 'b');
  }

  /**
   * The hash is not injective: the code points 1, 23 and 12, 3 both read
   * as 123. Identity is decided by the names, so a collision never merges
   * two tasks.
   */
  lemma HashCollides()
    ensures var a := [1 as char, 23 as char];
            var b := [12 as char, 3 as char];
            a != b && Hash(a) == Hash(b) == Some(123)
  {
    var a := [1 as char, 23 as char];
    var b := [12 as char, 3 as char];
    assert a == [1 as char] + [23 as char] && b == [12 as char] + [3 as char];
    HashOfChar(1 as char);
    HashOfChar(12 as char);
    assert Digits(23) == Digits(2) + [3];
    assert |Digits(23)| == 2 && |Digits(3)| == 1;
    assert Pow10(2) == 100 && Pow10(1) == 10;
    HashAppend([1 as char], 23 as char);
    HashAppend([12 as char], 3 as char);
  }
}
