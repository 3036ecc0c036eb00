/**
  * `DoubleDictKeyColValStore`: a dict of dicts, key -> column -> value. `set`, `delete` and
  * `delete_key` are decorated with `persist`, so with a data path every such call is logged
  * before it runs, and a new store replays the log when it is opened. `Replay` is the meaning of
  * a log; the lemmas say when replaying a log gives back the store that wrote it.
  */
module DoubleDictStore {
  import opened Wrappers
  import opened StringOrder
  import opened ColumnList
  import KCV = KeyColVal
  import P = Persistence

  // Logged calls and their replay

  /** A call to one of the persisted methods. */
  datatype Call =
    | SetCall(key: string, col: string, val: string)
    | DeleteCall(key: string, col: string)
    | DeleteKeyCall(key: string)

  /** What `persist` hands to the persistor: the method's name, then its arguments. */
  function Encode(c: Call): seq<string> {
    match c
    case SetCall(key, col, val) => ["set", key, col, val]
    case DeleteCall(key, col) => ["delete", key, col]
    case DeleteKeyCall(key) => ["delete_key", key]
  }

  /** `getattr(store, name)(*args)` on a replayed line: a name that is not a persisted method
      raises AttributeError, the wrong number of arguments TypeError. */
  function Decode(name: string, args: seq<string>): Result<Call> {
    if name == "set" then
      if |args| == 3 then Ok(SetCall(args[0], args[1], args[2])) else Err(TypeError)
    else if name == "delete" then
      if |args| == 2 then Ok(DeleteCall(args[0], args[1])) else Err(TypeError)
    else if name == "delete_key" then
      if |args| == 1 then Ok(DeleteKeyCall(args[0])) else Err(TypeError)
    else Err(AttributeError)
  }

  /** A call whose arguments survive the log's comma-separated lines. */
  ghost predicate Safe(c: Call) {
    P.Avoids(Encode(c), ',') && P.Avoids(Encode(c), '\n')
  }

  /** Every call of a session is safe. */
  ghost predicate AllSafe(calls: seq<Call>)
    decreases |calls|
  {
    calls == [] || (Safe(calls[0]) && AllSafe(calls[1..]))
  }

  /** What a persisted method does to the dicts: `del` raises KeyError for a missing key or
      column. */
  function Apply(st: KCV.State, c: Call): Result<KCV.State> {
    match c
    case SetCall(key, col, val) => Ok(KCV.Set(st, key, col, val))
    case DeleteCall(key, col) =>
      if key in st && col in st[key] then Ok(KCV.Delete(st, key, col)) else Err(KeyError)
    case DeleteKeyCall(key) =>
      if key in st then Ok(KCV.DeleteKey(st, key)) else Err(KeyError)
  }

  /** One replayed line, once parsed. */
  function Run(st: KCV.State, name: string, args: seq<string>): Result<KCV.State> {
    match Decode(name, args)
    case Ok(c) => Apply(st, c)
    case Err(e) => Err(e)
  }

  /** `_load_data`: the lines run in order; the first one that raises ends the replay. */
  function Replay(st: KCV.State, lines: seq<string>): Result<KCV.State>
    decreases |lines|
  {
    if lines == [] then Ok(st)
    else
      var call := P.Parse(lines[0]);
      match Run(st, call.0, call.1)
      case Ok(next) => Replay(next, lines[1..])
      case Err(e) => Err(e)
  }

  /** Decoding what `persist` logged gives the call back. */
  lemma DecodeEncode(c: Call)
    ensures Decode(Encode(c)[0], Encode(c)[1..]) == Ok(c)
  {
  }

  /** A line that decodes at all is exactly what `persist` logs for the call it decodes to. */
  lemma EncodeDecode(name: string, args: seq<string>)
    requires Decode(name, args).Ok?
    ensures Encode(Decode(name, args).value) == [name] + args
  {
    var e := Encode(Decode(name, args).value);
    assert e[0] == name && e[1..] == args;
  }

  /** Replaying two logs one after the other is replaying their concatenation. */
  lemma {:induction false} ReplayAppend(st: KCV.State, a: seq<string>, b: seq<string>)
    ensures Replay(st, a + b) == match Replay(st, a) { case Ok(s) => Replay(s, b) case Err(e) => Err(e) }
    decreases |a|
  {
    if a == [] {
      assert a + b == b;
    } else {
      assert (a + b)[0] == a[0];
      assert (a + b)[1..] == a[1..] + b;
      var call := P.Parse(a[0]);
      match Run(st, call.0, call.1)
      case Ok(next) => ReplayAppend(next, a[1..], b);
      case Err(e) =>
    }
  }

  /** The line logged for a call replays as the call. */
  lemma ReplayLine(st: KCV.State, c: Call)
    requires Safe(c)
    ensures Replay(st, [P.Serialize(Encode(c))]) == Apply(st, c)
  {
    P.ParseSerialize(Encode(c));
    DecodeEncode(c);
    assert [P.Serialize(Encode(c))][1..] == [];
  }

  /** A log that replays to a state, with one more call logged, replays to what the call does
      to that state; when the call raised, the extended log raises the same error. */
  lemma ReplayLogged(log: seq<string>, st: KCV.State, c: Call)
    requires Replay(map[], log) == Ok(st) && Safe(c)
    ensures Replay(map[], log + [P.Serialize(Encode(c))]) == Apply(st, c)
  {
    ReplayAppend(map[], log, [P.Serialize(Encode(c))]);
    ReplayLine(st, c);
  }

  /** A log that replays to a state, extended with what `persist` writes during a session of
      safe calls, replays to what the session does to that state: the same store when every
      call succeeds, the same error when one raises. */
  lemma {:induction false} ReplaySession(log: seq<string>, st: KCV.State, calls: seq<Call>)
    requires Replay(map[], log) == Ok(st) && AllSafe(calls)
    ensures Replay(map[], log + Logged(calls)) == Session(st, calls)
    decreases |calls|
  {
    if calls == [] {
      assert log + Logged(calls) == log;
    } else {
      var line := P.Serialize(Encode(calls[0]));
      assert log + Logged(calls) == (log + [line]) + Logged(calls[1..]);
      ReplayLogged(log, st, calls[0]);
      match Apply(st, calls[0])
      case Ok(next) =>
        ReplaySession(log + [line], next, calls[1..]);
      case Err(e) =>
        ReplayAppend(map[], log + [line], Logged(calls[1..]));
    }
  }

  /** Calls applied in order; the first that raises ends the session. */
  function Session(st: KCV.State, calls: seq<Call>): Result<KCV.State>
    decreases |calls|
  {
    if calls == [] then Ok(st)
    else match Apply(st, calls[0])
      case Ok(next) => Session(next, calls[1..])
      case Err(e) => Err(e)
  }

  /** The lines `persist` writes for the calls. */
  function Logged(calls: seq<Call>): (lines: seq<string>)
    ensures |lines| == |calls|
    decreases |calls|
  {
    if calls == [] then [] else [P.Serialize(Encode(calls[0]))] + Logged(calls[1..])
  }

  // A failed call is logged

  /** `persist` logs before the method runs, so a `delete` of a missing column is logged; the
      log then raises KeyError on replay and the store cannot be opened again. */
  lemma FailedDeleteBreaksReload()
    ensures Replay(map[], [P.Serialize(Encode(DeleteCall("a", "b")))]) == Err(KeyError)
  {
    var parts := Encode(DeleteCall("a", "b"));
    assert parts[0] == "delete" && parts[1] == "a" && parts[2] == "b";
    assert Safe(DeleteCall("a", "b"));
    ReplayLine(map[], DeleteCall("a", "b"));
  }

  /** The intended order: run the call, and log it only when it succeeded. */
  function LogIfApplied(st: KCV.State, log: seq<string>, c: Call): (Result<KCV.State>, seq<string>) {
    match Apply(st, c)
    case Ok(next) => (Ok(next), log + [P.Serialize(Encode(c))])
    case Err(e) => (Err(e), log)
  }

  /** Logging only successful calls keeps the log replaying to the live store, failures or not. */
  lemma LogIfAppliedReplays(st: KCV.State, log: seq<string>, c: Call)
    requires Replay(map[], log) == Ok(st) && Safe(c)
    ensures var (r, log') := LogIfApplied(st, log, c);
      Replay(map[], log') == if r.Ok? then r else Ok(st)
  {
    if Apply(st, c).Ok? {
      ReplayLogged(log, st, c);
    }
  }

  // The store

  class DoubleDictKeyColValStore {
    /** key -> column -> value. */
    var keys: KCV.State
    /** The `query_persistor` attribute. */
    var queryPersistor: P.Slot

    /** The persistor object the decorated methods write to, if any. */
    function Writes(): set<object>
      reads this
    {
      P.Writes(queryPersistor)
    }

    /** The lines of the data file, empty without a persistor. */
    ghost function Log(): seq<string>
      reads this, Writes()
    {
      if queryPersistor.Attached? then queryPersistor.persistor.lines else []
    }

    /** With a persistor, the data file replays to the current store. */
    ghost predicate Synced()
      reads this, Writes()
    {
      queryPersistor.Attached? ==> Replay(map[], Log()) == Ok(keys)
    }

    /** `__init__` without a path: empty, with the do-nothing persistor. */
    constructor ()
      ensures keys == map[] && queryPersistor == P.NoOp
    {
      keys := map[];
      queryPersistor := P.NoOp;
    }

    /** `__init__(path=...)`: with a path, the data file is replayed into the empty store
        (`QueryPersistor.__init__` and `_load_data`); an error in the replay propagates; then the
        file is kept open for appending. */
    static method Open(path: Option<P.DataFile>) returns (r: Result<DoubleDictKeyColValStore>)
      ensures path.None? ==> r.Ok? && fresh(r.value) && r.value.keys == map[] && r.value.queryPersistor == P.NoOp
      ensures path.Some? ==>
        match Replay(map[], P.Opened(path.value))
        case Ok(st) =>
          && r.Ok? && fresh(r.value) && r.value.keys == st
          && r.value.queryPersistor.Attached? && fresh(r.value.queryPersistor.persistor)
          && r.value.queryPersistor.persistor.lines == P.Opened(path.value)
          && r.value.Synced()
        case Err(e) => r == Err(e)
    {
      var store := new DoubleDictKeyColValStore();
      if path.Some? {
        var outcome := store.LoadData(path.value);
        if outcome.Fail? {
          return Err(outcome.error);
        }
        var p := new P.QueryPersistor(path.value);
        store.queryPersistor := P.Attached(p);
      }
      return Ok(store);
    }

    /** `_load_data` while the do-nothing persistor is in place: every line of an existing file
        is run in order, so nothing is logged again. */
    method LoadData(f: P.DataFile) returns (outcome: Outcome)
      requires queryPersistor.NoOp?
      modifies this
      ensures queryPersistor == old(queryPersistor)
      ensures match Replay(old(keys), P.Opened(f))
        case Ok(st) => outcome == Pass && keys == st
        case Err(e) => outcome == Fail(e)
    {
      if f.File? {
        var i := 0;
        while i < |f.lines|
          invariant 0 <= i <= |f.lines|
          invariant queryPersistor == old(queryPersistor)
          invariant Replay(keys, f.lines[i..]) == Replay(old(keys), f.lines)
        {
          assert f.lines[i..][0] == f.lines[i] && f.lines[i..][1..] == f.lines[i + 1..];
          var call := P.Parse(f.lines[i]);
          outcome := Dispatch(call.0, call.1);
          if outcome.Fail? {
            return;
          }
          i := i + 1;
        }
      }
      return Pass;
    }

    /** `getattr(store, name)(*args)` while the do-nothing persistor is in place. */
    method Dispatch(name: string, args: seq<string>) returns (outcome: Outcome)
      requires queryPersistor.NoOp?
      modifies this
      ensures queryPersistor == old(queryPersistor)
      ensures match Run(old(keys), name, args)
        case Ok(st) => outcome == Pass && keys == st
        case Err(e) => outcome == Fail(e)
    {
      match Decode(name, args)
      case Err(e) =>
        return Fail(e);
      case Ok(SetCall(key, col, val)) =>
        outcome := Set(key, col, val);
      case Ok(DeleteCall(key, col)) =>
        outcome := Delete(key, col);
      case Ok(DeleteKeyCall(key)) =>
        outcome := DeleteKey(key);
    }

    /** `set`, persisted: logged, then the value stored, creating the key's dict when new. */
    method Set(key: string, col: string, val: string) returns (outcome: Outcome)
      modifies this, Writes()
      ensures queryPersistor == old(queryPersistor)
      ensures queryPersistor.Attached? ==>
        queryPersistor.persistor.lines == old(queryPersistor.persistor.lines) + [P.Serialize(Encode(SetCall(key, col, val)))]
      ensures queryPersistor.Missing? ==> outcome == Fail(QueryPersistorNotInitializedError) && keys == old(keys)
      ensures !queryPersistor.Missing? ==> outcome == Pass && keys == KCV.Set(old(keys), key, col, val)
      ensures old(Synced()) && Safe(SetCall(key, col, val)) ==> Synced()
    {
      ghost var log, before := Log(), keys;
      outcome := P.Persist(queryPersistor, "set", [key, col, val]);
      assert ["set"] + [key, col, val] == Encode(SetCall(key, col, val));
      if outcome.Fail? {
        return;
      }
      if key !in keys {
        keys := keys[key := map[]];
      }
      keys := keys[key := keys[key][col := val]];
      if queryPersistor.Attached? && Replay(map[], log) == Ok(before) && Safe(SetCall(key, col, val)) {
        ReplayLogged(log, before, SetCall(key, col, val));
      }
    }

    /** `get`: None when the key or the column is missing. */
    function Get(key: string, col: string): (r: Option<string>)
      reads this
      ensures r == KCV.Get(keys, key, col)
    {
      if key !in keys || col !in keys[key] then None else Some(keys[key][col])
    }

    /** `get_key`: the key's items collected in whatever order the dict yields them, then sorted
        by column. */
    method GetKey(key: string) returns (sortedColumns: seq<Pair>)
      ensures sortedColumns == KCV.GetKey(keys, key)
    {
      if key !in keys {
        ListingUnique([], map[]);
        return [];
      }
      var m := keys[key];
      var columns: seq<Pair> := [];
      var rest := m;
      while rest != map[]
        invariant DistinctColumns(columns)
        invariant forall i :: 0 <= i < |columns| ==> columns[i].0 !in rest
        invariant AsMap(columns) + rest == m
        decreases |rest|
      {
        var col :| col in rest;
        CollectItem(columns, rest, m, col);
        columns := columns + [(col, rest[col])];
        rest := rest - {col};
      }
      assert AsMap(columns) == m;
      sortedColumns := SortByColumn(columns);
      SortItemsIsListing(columns);
    }

    /** `get_keys`: the set of keys. */
    function GetKeys(): (r: set<string>)
      reads this
      ensures r == KCV.GetKeys(keys)
    {
      keys.Keys
    }

    /** `delete`, persisted: logged, then `del` on the key's dict, which raises KeyError for a
        missing key or column; the line stays in the log either way. */
    method Delete(key: string, col: string) returns (outcome: Outcome)
      modifies this, Writes()
      ensures queryPersistor == old(queryPersistor)
      ensures queryPersistor.Attached? ==>
        queryPersistor.persistor.lines == old(queryPersistor.persistor.lines) + [P.Serialize(Encode(DeleteCall(key, col)))]
      ensures queryPersistor.Missing? ==> outcome == Fail(QueryPersistorNotInitializedError) && keys == old(keys)
      ensures !queryPersistor.Missing? ==>
        match Apply(old(keys), DeleteCall(key, col))
        case Ok(st) => outcome == Pass && keys == st
        case Err(e) => outcome == Fail(e) && keys == old(keys)
      ensures old(Synced()) && Safe(DeleteCall(key, col)) && queryPersistor.Attached? ==>
        Replay(map[], Log()) == Apply(old(keys), DeleteCall(key, col))
    {
      ghost var log, before := Log(), keys;
      outcome := P.Persist(queryPersistor, "delete", [key, col]);
      assert ["delete"] + [key, col] == Encode(DeleteCall(key, col));
      if outcome.Fail? {
        return;
      }
      if queryPersistor.Attached? && Replay(map[], log) == Ok(before) && Safe(DeleteCall(key, col)) {
        ReplayLogged(log, before, DeleteCall(key, col));
      }
      if key !in keys || col !in keys[key] {
        return Fail(KeyError);
      }
      keys := keys[key := keys[key] - {col}];
    }

    /** `delete_key`, persisted: logged, then `del` on the outer dict, which raises KeyError for a
        missing key. */
    method DeleteKey(key: string) returns (outcome: Outcome)
      modifies this, Writes()
      ensures queryPersistor == old(queryPersistor)
      ensures queryPersistor.Attached? ==>
        queryPersistor.persistor.lines == old(queryPersistor.persistor.lines) + [P.Serialize(Encode(DeleteKeyCall(key)))]
      ensures queryPersistor.Missing? ==> outcome == Fail(QueryPersistorNotInitializedError) && keys == old(keys)
      ensures !queryPersistor.Missing? ==>
        match Apply(old(keys), DeleteKeyCall(key))
        case Ok(st) => outcome == Pass && keys == st
        case Err(e) => outcome == Fail(e) && keys == old(keys)
      ensures old(Synced()) && Safe(DeleteKeyCall(key)) && queryPersistor.Attached? ==>
        Replay(map[], Log()) == Apply(old(keys), DeleteKeyCall(key))
    {
      ghost var log, before := Log(), keys;
      outcome := P.Persist(queryPersistor, "delete_key", [key]);
      assert ["delete_key"] + [key] == Encode(DeleteKeyCall(key));
      if outcome.Fail? {
        return;
      }
      if queryPersistor.Attached? && Replay(map[], log) == Ok(before) && Safe(DeleteKeyCall(key)) {
        ReplayLogged(log, before, DeleteKeyCall(key));
      }
      if key !in keys {
        return Fail(KeyError);
      }
      keys := keys - {key};
    }

    /** `get_slice`: walks the sorted columns, keeps those in range, and stops early once a column
        passes a stop that is not None or empty (an empty string is false in Python). */
    method GetSlice(key: string, start: Option<string>, stop: Option<string>) returns (resultSet: seq<Pair>)
      ensures resultSet == KCV.GetSlice(keys, key, start, stop)
    {
      var columns := GetKey(key);
      ghost var all := columns;
      SliceStart(all, start, stop);
      resultSet := [];
      var cur: Option<Pair> := None;
      if columns != [] {
        cur := Some(columns[0]);
        columns := columns[1..];
      }
      var done := cur.None?;
      while !done
        invariant !done ==> cur.Some? && SliceSoFar(all, resultSet, [cur.value] + columns, start, stop)
        invariant done ==> Filter(all, start, stop) == resultSet
        decreases |columns| + (if done then 0 else 1)
      {
        var c := cur.value;
        SliceStep(all, resultSet, c, columns, start, stop);
        if InRange(c.0, start, stop) {
          resultSet := resultSet + [c];
        }
        SliceNext(all, resultSet, columns, start, stop);
        if columns != [] {
          cur := Some(columns[0]);
          columns := columns[1..];
        } else {
          cur := None;
        }
        if cur.None? || (stop.Some? && stop.value != "" && Less(stop.value, cur.value.0)) {
          done := true;
        }
      }
      KCV.SliceOfGetKey(keys, key, start, stop);
    }
  }

  /** One pass of `get_key`'s collection of a dict's items: the visited list and the unvisited
      part of the dict still make up the dict. */
  lemma CollectItem(columns: seq<Pair>, rest: map<string, string>, m: map<string, string>, col: string)
    requires DistinctColumns(columns) && AsMap(columns) + rest == m
    requires forall i :: 0 <= i < |columns| ==> columns[i].0 !in rest
    requires col in rest
    ensures var next := columns + [(col, rest[col])];
      && DistinctColumns(next)
      && (forall i :: 0 <= i < |next| ==> next[i].0 !in rest - {col})
      && AsMap(next) + (rest - {col}) == m
  {
    var next := columns + [(col, rest[col])];
    AsMapKeys(columns);
    MoveItem(AsMap(columns), rest, col);
    assert next[..|columns|] == columns;
    assert AsMap(next) == AsMap(columns)[col := rest[col]];
  }

  /** Moving one item from the unvisited dict to the visited list keeps their union. */
  lemma MoveItem(seen: map<string, string>, rest: map<string, string>, col: string)
    requires col in rest && col !in seen
    ensures seen[col := rest[col]] + (rest - {col}) == seen + rest
  {
    var x, y := seen[col := rest[col]] + (rest - {col}), seen + rest;
    assert x.Keys == y.Keys;
    forall c | c in x
      ensures x[c] == y[c]
    {
    }
  }

  /** Where `get_slice`'s loop stands: the slice of all is what was kept followed by the slice of
      the sorted columns still to visit. */
  ghost predicate SliceSoFar(all: seq<Pair>, kept: seq<Pair>, rest: seq<Pair>, start: Option<string>, stop: Option<string>) {
    Ascending(rest) && Filter(all, start, stop) == kept + Filter(rest, start, stop)
  }

  /** Before `get_slice`'s loop: the first column is taken off the sorted list, if there is one. */
  lemma SliceStart(all: seq<Pair>, start: Option<string>, stop: Option<string>)
    requires Ascending(all)
    ensures all != [] ==> SliceSoFar(all, [], [all[0]] + all[1..], start, stop)
    ensures all == [] ==> Filter(all, start, stop) == []
  {
    if all != [] {
      assert [all[0]] + all[1..] == all;
    }
  }

  /** One pass of `get_slice`'s loop over a sorted list headed by c: c is kept when in range, and
      the rest of the slice lies in the tail. */
  lemma SliceStep(all: seq<Pair>, kept: seq<Pair>, c: Pair, tail: seq<Pair>, start: Option<string>, stop: Option<string>)
    requires SliceSoFar(all, kept, [c] + tail, start, stop)
    ensures SliceSoFar(all, kept + (if InRange(c.0, start, stop) then [c] else []), tail, start, stop)
  {
    assert ([c] + tail)[0] == c && ([c] + tail)[1..] == tail;
    ConsAscending(c, tail);
  }

  /** The next column of `get_slice`'s loop: once it passes the stop, nothing of the slice is
      left; when there is none, nothing is left either. */
  lemma SliceNext(all: seq<Pair>, kept: seq<Pair>, tail: seq<Pair>, start: Option<string>, stop: Option<string>)
    requires SliceSoFar(all, kept, tail, start, stop)
    ensures tail != [] ==> SliceSoFar(all, kept, [tail[0]] + tail[1..], start, stop)
    ensures tail == [] || (stop.Some? && Less(stop.value, tail[0].0)) ==> Filter(all, start, stop) == kept
  {
    if tail == [] {
      assert kept + [] == kept;
    } else {
      assert tail == [tail[0]] + tail[1..];
      if stop.Some? && Less(stop.value, tail[0].0) {
        FilterPastStop(tail, start, stop.value);
        assert kept + [] == kept;
      }
    }
  }
}
