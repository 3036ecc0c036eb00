/**
  * The operation log. `QueryPersistor` appends one line per persisted call to a data file: the
  * method name and its positional arguments joined by commas, then a newline. Replay reads the
  * lines back, strips newlines and splits on commas. The data file is modelled as the sequence
  * of its lines; the `persist` decorator is `Persist`, which checks for a persistor, logs and
  * lets the method run.
  */
module Persistence {
  import opened Wrappers

  /** Python's `sep.join(parts)`. */
  function Join(parts: seq<string>, sep: char): string
    decreases |parts|
  {
    if parts == [] then ""
    else if |parts| == 1 then parts[0]
    else parts[0] + [sep] + Join(parts[1..], sep)
  }

  /** The position of the first c in s. */
  function IndexOf(s: string, c: char): (i: nat)
    requires c in s
    ensures i < |s| && s[i] == c && c !in s[..i]
  {
    if s[0] == c then 0
    else
      var i := 1 + IndexOf(s[1..], c);
      assert s[..i] == [s[0]] + s[1..][..i - 1];
      i
  }

  /** Python's `s.split(sep)`: the pieces between separators; an empty string gives one empty
      piece. */
  function Split(s: string, sep: char): (fields: seq<string>)
    ensures |fields| >= 1
    decreases |s|
  {
    if sep in s then
      var i := IndexOf(s, sep);
      [s[..i]] + Split(s[i + 1..], sep)
    else [s]
  }

  function StripLeft(s: string, c: char): string
    decreases |s|
  {
    if s != [] && s[0] == c then StripLeft(s[1..], c) else s
  }

  function StripRight(s: string, c: char): string
    decreases |s|
  {
    if s != [] && s[|s| - 1] == c then StripRight(s[..|s| - 1], c) else s
  }

  /** Python's `s.strip(c)`: every leading and trailing c removed. */
  function Strip(s: string, c: char): string {
    StripRight(StripLeft(s, c), c)
  }

  /** The line `__call__` writes: the parts joined by commas, with a newline after them. */
  function Serialize(parts: seq<string>): string {
    Join(parts, ',') + "\n"
  }

  /** How `_load_data` reads a line: the first field names the method, the rest are its
      arguments. */
  function Parse(line: string): (call: (string, seq<string>)) {
    var fields := Split(Strip(line, '\n'), ',');
    (fields[0], fields[1..])
  }

  /** No part holds the character. */
  ghost predicate Avoids(parts: seq<string>, c: char) {
    forall i :: 0 <= i < |parts| ==> c !in parts[i]
  }

  // The round trip

  lemma IndexOfJoint(a: string, c: char, b: string)
    requires c !in a
    ensures c in a + [c] + b && IndexOf(a + [c] + b, c) == |a|
  {
    var s := a + [c] + b;
    assert s[|a|] == c;
    assert s[..|a|] == a;
  }

  /** Splitting at the first separator. */
  lemma SplitAt(a: string, sep: char, b: string)
    requires sep !in a
    ensures Split(a + [sep] + b, sep) == [a] + Split(b, sep)
  {
    var s := a + [sep] + b;
    IndexOfJoint(a, sep, b);
    assert s[..|a|] == a;
    assert s[|a| + 1..] == b;
  }

  /** Splitting joined parts gives the parts back when no part holds the separator. */
  lemma {:induction false} SplitJoin(parts: seq<string>, sep: char)
    requires parts != [] && Avoids(parts, sep)
    ensures Split(Join(parts, sep), sep) == parts
    decreases |parts|
  {
    if |parts| > 1 {
      var rest := Join(parts[1..], sep);
      assert Join(parts, sep) == parts[0] + [sep] + rest;
      assert sep !in parts[0];
      SplitAt(parts[0], sep, rest);
      SplitJoin(parts[1..], sep);
      assert parts == [parts[0]] + parts[1..];
    }
  }

  /** A character that no part holds and that is not the separator is not in the joined string. */
  lemma {:induction false} JoinAvoids(parts: seq<string>, sep: char, c: char)
    requires c != sep && Avoids(parts, c)
    ensures c !in Join(parts, sep)
    decreases |parts|
  {
    if |parts| > 1 {
      JoinAvoids(parts[1..], sep, c);
      assert Join(parts, sep) == parts[0] + [sep] + Join(parts[1..], sep);
    }
  }

  /** Stripping the one newline that ends a newline-free string. */
  lemma StripNewline(s: string)
    requires '\n' !in s
    ensures Strip(s + "\n", '\n') == s
  {
    if s == [] {
      assert s + "\n" == "\n";
      assert "\n"[1..] == [];
      assert StripLeft("\n", '\n') == [];
    } else {
      assert (s + "\n")[0] == s[0];
      assert StripLeft(s + "\n", '\n') == s + "\n";
      var t := s + "\n";
      assert t[|t| - 1] == '\n' && t[..|t| - 1] == s;
      assert StripRight(t, '\n') == StripRight(s, '\n');
      assert s[|s| - 1] in s;
      assert StripRight(s, '\n') == s;
    }
  }

  /** `__call__` writes exactly one line: a newline ends it and none occurs before. */
  lemma SerializeOneLine(parts: seq<string>)
    requires Avoids(parts, '\n')
    ensures var line := Serialize(parts);
      |line| >= 1 && line[|line| - 1] == '\n' && '\n' !in line[..|line| - 1]
  {
    JoinAvoids(parts, ',', '\n');
    var line := Serialize(parts);
    assert line[..|line| - 1] == Join(parts, ',');
  }

  /** Parsing the line written for a call gives the method name and arguments back, when no
      part holds a comma or a newline. */
  lemma ParseSerialize(parts: seq<string>)
    requires parts != [] && Avoids(parts, ',') && Avoids(parts, '\n')
    ensures Parse(Serialize(parts)) == (parts[0], parts[1..])
  {
    JoinAvoids(parts, ',', '\n');
    StripNewline(Join(parts, ','));
    SplitJoin(parts, ',');
  }

  /** The format is fragile: an argument holding a comma comes back as two arguments. */
  lemma CommaInArgumentSplits()
    ensures Parse(Serialize(["delete_key", "a,b"])) == ("delete_key", ["a", "b"])
  {
    var parts := ["delete_key", "a", "b"];
    assert Serialize(["delete_key", "a,b"]) == Serialize(parts) by {
      assert Join(["delete_key", "a,b"], ',') == "delete_key" + [','] + "a,b";
      assert Join(parts, ',') == "delete_key" + [','] + ("a" + [','] + "b");
    }
    assert Avoids(parts, ',') && Avoids(parts, '\n') by {
      assert parts[0] == "delete_key" && parts[1] == "a" && parts[2] == "b";
    }
    ParseSerialize(parts);
  }

  // The data file and the persistor

  /** The data file at the given path: absent, or present with its lines. */
  datatype DataFile = NoFile | File(lines: seq<string>)

  /** The lines of the file once it is opened for appending, which creates it when absent. */
  function Opened(f: DataFile): seq<string> {
    if f.File? then f.lines else []
  }

  /** A `QueryPersistor` with its data file open for appending. */
  class QueryPersistor {
    /** The lines of the data file. */
    var lines: seq<string>

    /** Opening the data file in append mode keeps what is already there. */
    constructor (f: DataFile)
      ensures lines == Opened(f)
    {
      lines := Opened(f);
    }

    /** `__call__`: one line with the arguments joined by commas is appended. */
    method Call(args: seq<string>)
      modifies this
      ensures lines == old(lines) + [Serialize(args)]
    {
      lines := lines + [Serialize(args)];
    }
  }

  /** What an object's `query_persistor` attribute holds: nothing, the do-nothing lambda the
      store installs first, or a real persistor. */
  datatype Slot = Missing | NoOp | Attached(persistor: QueryPersistor)

  /** The objects a slot can write to. */
  function Writes(slot: Slot): set<object> {
    if slot.Attached? then {slot.persistor} else {}
  }

  /** The `persist` decorator up to calling the method: without a `query_persistor` it raises
      and the method must not run; otherwise the method's name and positional arguments are
      logged first. */
  method Persist(slot: Slot, name: string, args: seq<string>) returns (outcome: Outcome)
    modifies Writes(slot)
    ensures outcome.Fail? <==> slot.Missing?
    ensures outcome.Fail? ==> outcome.error == QueryPersistorNotInitializedError
    ensures slot.Attached? ==> slot.persistor.lines == old(slot.persistor.lines) + [Serialize([name] + args)]
  {
    match slot
    case Missing =>
      return Fail(QueryPersistorNotInitializedError);
    case NoOp =>
      return Pass;
    case Attached(p) =>
      p.Call([name] + args);
      return Pass;
  }
}
