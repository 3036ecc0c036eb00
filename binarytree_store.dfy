/**
  * `BinaryTreeKeyColValStore`: a dict from key to a `BinaryTree` of that key's columns. Its state
  * as the interface sees it is each key's tree contents; reads answer from the trees, and writes
  * go through the tree's insert and delete, so the tree's deletion and range-query behaviour
  * shows through.
  */
module TreeStore {
  import opened Wrappers
  import opened ColumnList
  import KCV = KeyColVal
  import ST = SearchTree
  import BT = BinaryTree

  class BinaryTreeKeyColValStore {
    /** key -> the tree of that key's columns. */
    var keys: map<string, BT.BinaryTree>

    /** The trees the store holds. */
    ghost var Repr: set<BT.BinaryTree>
    /** The store's state in the interface's terms: each key's tree contents. */
    ghost var state: KCV.State

    /** Every tree is a valid search tree holding its key's columns, and no two keys share one. */
    ghost predicate Valid()
      reads this, Repr
    {
      && keys.Keys == state.Keys
      && (forall k :: k in keys ==> keys[k] in Repr && Holds(keys[k], state[k]))
      && (forall k, k' :: k in keys && k' in keys && k != k' ==> keys[k] != keys[k'])
    }

    /** `__init__`: an empty store; a data path, if given, is ignored. */
    constructor ()
      ensures Valid() && state == map[]
    {
      keys := map[];
      Repr := {};
      state := map[];
    }

    /** `set`: a new tree for a new key, then the tree's insert. */
    method Set(key: string, col: string, val: string)
      requires Valid()
      modifies this, Repr
      ensures Valid()
      ensures fresh(Repr - old(Repr))
      ensures state == KCV.Set(old(state), key, col, val)
    {
      ghost var before := state;
      if key !in keys {
        AddKey(key);
        assert KCV.Set(state, key, col, val) == KCV.Set(before, key, col, val);
      }
      InsertAt(key, col, val);
    }

    /** The first step of `set` for a new key: an empty tree under it. */
    method AddKey(key: string)
      requires Valid() && key !in keys
      modifies this
      ensures Valid() && fresh(Repr - old(Repr))
      ensures state == old(state)[key := map[]]
    {
      var tree := new BT.BinaryTree();
      keys := keys[key := tree];
      Repr := Repr + {tree};
      state := state[key := map[]];
    }

    /** The second step of `set`: the insert into the key's tree. */
    method InsertAt(key: string, col: string, val: string)
      requires Valid() && key in keys
      modifies this, Repr
      ensures Valid() && Repr == old(Repr)
      ensures state == KCV.Set(old(state), key, col, val)
    {
      var tree := keys[key];
      InsertColumn(tree, state[key], col, val);
      state := state[key := state[key][col := val]];
    }

    /** `get`: None for a missing key, else the tree's get. */
    function Get(key: string, col: string): (r: Option<string>)
      reads this, Repr
      requires Valid()
      ensures r == KCV.Get(state, key, col)
    {
      if key !in keys then None else keys[key].Get(col)
    }

    /** `get_key`: no tuples for a missing key, else the tree's in-order listing. */
    function GetKey(key: string): (r: seq<Pair>)
      reads this, Repr
      requires Valid()
      ensures r == KCV.GetKey(state, key)
    {
      if key !in keys then
        ListingUnique([], map[]);
        []
      else keys[key].All()
    }

    /** `get_keys`: the set of keys. */
    function GetKeys(): (r: set<string>)
      reads this, Repr
      requires Valid()
      ensures r == KCV.GetKeys(state)
    {
      keys.Keys
    }

    /** `delete`: KeyError for a missing key, else the tree's delete, which raises
        AttributeError at a root with fewer than two children and, at a node with two, drops the
        keys under its successor (`SearchTree.Lost`). */
    method Delete(key: string, col: string) returns (outcome: Outcome)
      requires Valid()
      modifies this, Repr
      ensures Valid() && Repr == old(Repr) && keys == old(keys)
      ensures key !in keys ==> outcome == Fail(KeyError) && state == old(state)
      ensures key in keys ==> match ST.Delete(old(keys[key].Tree()), col)
        case Ok(t) => outcome == Pass && keys[key].Tree() == t
          && state == old(state)[key := old(state)[key] - ({col} + ST.Lost(old(keys[key].Tree()), col))]
        case Err(e) => outcome == Fail(e) && state == old(state)
    {
      if key !in keys {
        return Fail(KeyError);
      }
      var tree := keys[key];
      outcome := DeleteColumn(tree, state[key], col);
      if outcome.Pass? {
        state := state[key := tree.Contents()];
      }
    }

    /** `delete_key`: `del` on the dict, KeyError for a missing key. */
    method DeleteKey(key: string) returns (outcome: Outcome)
      requires Valid()
      modifies this
      ensures Valid()
      ensures key !in old(keys) ==> outcome == Fail(KeyError) && state == old(state)
      ensures key in old(keys) ==> outcome == Pass && state == KCV.DeleteKey(old(state), key)
    {
      if key !in keys {
        return Fail(KeyError);
      }
      keys := keys - {key};
      state := state - {key};
      return Pass;
    }

    /** `get_slice`: KeyError for a missing key, else the tree's `find_range` turned into
        (column, value) tuples. */
    method GetSlice(key: string, start: Option<string>, stop: Option<string>) returns (r: Result<seq<Pair>>)
      requires Valid()
      ensures key !in keys ==> r == Err(KeyError)
      ensures key in keys ==> r == ST.FindRange(keys[key].Tree(), start, stop)
    {
      if key !in keys {
        return Err(KeyError);
      }
      var tree := keys[key];
      var nodeRange := tree.FindRange(start, stop);
      if nodeRange.Err? {
        return Err(nodeRange.error);
      }
      return Ok(BT.PairsOf(tree.nodes, nodeRange.value));
    }

    /** What `get_slice` answers is always a prefix of the interface's slice. */
    lemma SlicePrefix(key: string, start: Option<string>, stop: Option<string>)
      requires Valid() && key in keys && ST.FindRange(keys[key].Tree(), start, stop).Ok?
      ensures ST.FindRange(keys[key].Tree(), start, stop).value <= KCV.GetSlice(state, key, start, stop)
    {
      var t := keys[key].Tree();
      ST.FindRangePrefix(t, start, stop);
      ST.SliceIsListing(t, start, stop);
    }

    /** When the root column of the key's tree lies in a range with an end, `get_slice` answers
        with the interface's slice. */
    lemma SliceWhenRootInRange(key: string, start: Option<string>, stop: Option<string>)
      requires Valid() && key in keys && keys[key].Tree().Branch?
      requires InRange(keys[key].Tree().key, start, stop) && stop.Some?
      ensures ST.FindRange(keys[key].Tree(), start, stop) == Ok(KCV.GetSlice(state, key, start, stop))
    {
      var t := keys[key].Tree();
      ST.FindRangeRootInRange(t, start, stop);
      ST.SliceIsListing(t, start, stop);
    }
  }

  /** A tree is valid and holds exactly the given columns. */
  ghost predicate Holds(tree: BT.BinaryTree, cols: map<string, string>)
    reads tree
  {
    tree.Valid() && tree.Contents() == cols
  }

  /** The tree's insert as the store relies on it: the column now maps to the value. */
  method InsertColumn(tree: BT.BinaryTree, ghost cols: map<string, string>, col: string, val: string)
    requires Holds(tree, cols)
    modifies tree
    ensures Holds(tree, cols[col := val])
  {
    tree.Insert(col, val);
  }

  /** The tree's delete as the store relies on it: on success the column and the lost subtree
      are gone, on failure nothing changes. */
  method DeleteColumn(tree: BT.BinaryTree, ghost cols: map<string, string>, col: string) returns (outcome: Outcome)
    requires Holds(tree, cols)
    modifies tree
    ensures match ST.Delete(old(tree.Tree()), col)
      case Ok(t) => outcome == Pass && tree.Tree() == t && Holds(tree, cols - ({col} + ST.Lost(old(tree.Tree()), col)))
      case Err(e) => outcome == Fail(e) && Holds(tree, cols)
  {
    outcome := tree.Delete(col);
  }
}
