/**
  * The `KeyColValStore` interface: a store maps each key to a column map, and each column to a
  * value. Its seven operations are stated here on that abstract state, and both backends are
  * proved against them. Python's abstract base class has no body to model; its docstrings are
  * what the lemmas below promise.
  */
module KeyColVal {
  import opened Wrappers
  import opened StringOrder
  import opened ColumnList

  /** key -> (column -> value). */
  type State = map<string, map<string, string>>

  /** The column map of a key, empty for a key the store does not hold. */
  function Columns(st: State, key: string): map<string, string> {
    if key in st then st[key] else map[]
  }

  /** `set`: the value at the given key and column. */
  function Set(st: State, key: string, col: string, val: string): (r: State)
    ensures r.Keys == st.Keys + {key}
  {
    st[key := Columns(st, key)[col := val]]
  }

  /** `get`: the value at the key and column, None when either is absent. */
  function Get(st: State, key: string, col: string): (r: Option<string>)
    ensures r.Some? <==> key in st && col in st[key]
    ensures r.Some? ==> r.value == st[key][col]
  {
    if key in st && col in st[key] then Some(st[key][col]) else None
  }

  /** `get_key`: the key's (column, value) tuples sorted by column; none for an absent key. */
  ghost function GetKey(st: State, key: string): (r: seq<Pair>)
    ensures Ascending(r) && AsMap(r) == Columns(st, key)
  {
    Listing(Columns(st, key))
  }

  /** `get_keys`: the set of keys. */
  function GetKeys(st: State): set<string> {
    st.Keys
  }

  /** `delete`: the column removed from the key, when both are there. */
  function Delete(st: State, key: string, col: string): (r: State)
    ensures r.Keys == st.Keys
  {
    if key in st then st[key := st[key] - {col}] else st
  }

  /** `delete_key`: the key and all its columns removed. */
  function DeleteKey(st: State, key: string): (r: State)
    ensures key !in r && r.Keys == st.Keys - {key}
  {
    st - {key}
  }

  /** `get_slice`: the key's tuples whose column lies between the bounds, both inclusive, sorted
      by column; a bound that is None leaves that side open. */
  ghost function GetSlice(st: State, key: string, start: Option<string>, stop: Option<string>): (r: seq<Pair>)
    ensures Ascending(r) && AsMap(r) == Restrict(Columns(st, key), start, stop)
  {
    Listing(Restrict(Columns(st, key), start, stop))
  }

  // What the interface promises

  /** After `set`, `get` at that key and column returns the value, and every other key and
      column reads as before. */
  lemma SetThenGet(st: State, key: string, col: string, val: string, k: string, c: string)
    ensures Get(Set(st, key, col, val), k, c) == if k == key && c == col then Some(val) else Get(st, k, c)
  {
  }

  /** `get_key` lists each column of the key exactly once with its value, in ascending order. */
  lemma GetKeyExactlyOnce(st: State, key: string, col: string, val: string)
    ensures (col, val) in GetKey(st, key) <==> Get(st, key, col) == Some(val)
    ensures forall i, j :: 0 <= i < j < |GetKey(st, key)| ==> GetKey(st, key)[i].0 != GetKey(st, key)[j].0
  {
    var r := GetKey(st, key);
    AscendingDistinct(r);
    AsMapKeys(r);
    if (col, val) in r {
      var i :| 0 <= i < |r| && r[i] == (col, val);
      AsMapAt(r, i);
    }
    if Get(st, key, col) == Some(val) {
      var i :| 0 <= i < |r| && r[i].0 == col;
      AsMapAt(r, i);
    }
  }

  /** `get_keys` changes only by the key `set` adds and the key `delete_key` removes; `delete`
      keeps the key even when it takes the key's last column. */
  lemma GetKeysAfterWrites(st: State, key: string, col: string, val: string)
    ensures GetKeys(Set(st, key, col, val)) == GetKeys(st) + {key}
    ensures GetKeys(Delete(st, key, col)) == GetKeys(st)
    ensures GetKeys(DeleteKey(st, key)) == GetKeys(st) - {key}
    ensures key in st && st[key].Keys == {col} ==>
      key in GetKeys(Delete(st, key, col)) && GetKey(Delete(st, key, col), key) == []
  {
    if key in st && st[key].Keys == {col} {
      assert Columns(Delete(st, key, col), key) == map[];
      ListingUnique([], map[]);
    }
  }

  /** `delete` removes just that column of that key. */
  lemma DeleteOnlyThat(st: State, key: string, col: string, k: string, c: string)
    ensures Get(Delete(st, key, col), k, c) == if k == key && c == col then None else Get(st, k, c)
  {
  }

  /** `delete_key` removes the key with all its columns and nothing else. */
  lemma DeleteKeyOnlyThat(st: State, key: string, k: string, c: string)
    ensures Get(DeleteKey(st, key), k, c) == if k == key then None else Get(st, k, c)
    ensures GetKey(DeleteKey(st, key), key) == []
  {
    assert Columns(DeleteKey(st, key), key) == map[];
    ListingUnique([], map[]);
  }

  /** `get_slice` is the part of `get_key` whose columns lie in the range, in the same order. */
  lemma SliceOfGetKey(st: State, key: string, start: Option<string>, stop: Option<string>)
    ensures GetSlice(st, key, start, stop) == Filter(GetKey(st, key), start, stop)
  {
    FilterListing(Columns(st, key), start, stop);
  }

  /** With both bounds None the slice is the whole of `get_key`. */
  lemma OpenSliceIsGetKey(st: State, key: string)
    ensures GetSlice(st, key, None, None) == GetKey(st, key)
  {
    var m := Columns(st, key);
    assert Restrict(m, None, None) == m;
  }

  /** A start above the stop gives the empty slice. */
  lemma EmptySlice(st: State, key: string, start: string, stop: string)
    requires Less(stop, start)
    ensures GetSlice(st, key, Some(start), Some(stop)) == []
  {
    var m := Restrict(Columns(st, key), Some(start), Some(stop));
    forall c
      ensures !InRange(c, Some(start), Some(stop))
    {
      if AtMost(start, c) {
        if Less(start, c) {
          Transitive(stop, start, c);
        }
        Asymmetric(stop, c);
        Irreflexive(stop);
      }
    }
    assert m == map[];
    ListingUnique([], map[]);
  }
}
