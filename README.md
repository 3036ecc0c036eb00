# py-keycolval in Dafny

A model of the core of py-keycolval, a small key/column/value store written in Python 2.
A store maps each key to a set of columns, and each column to a value. It answers point
lookups, whole-key listings sorted by column, and inclusive column ranges ("slices").

There are two backends behind one interface:

- `DoubleDictKeyColValStore` keeps a dict of dicts. Its mutating methods are decorated with
  `persist`, which appends each call to a comma-separated log file before the method runs. A
  store opened on an existing log replays it.
- `BinaryTreeKeyColValStore` keeps one unbalanced binary search tree per key. The tree is the
  hand-written `BinaryTree`: it has parent links, successor-based deletion and a range search.

The modules follow the source files:

| module | file | models |
|---|---|---|
| `Wrappers` | `wrappers.dfy` | Python's exceptions as values: `Option`, `Result`, `Outcome` |
| `StringOrder` | `string_order.dfy` | Python 2 `str` comparison: lexicographic by character code, proved a strict total order |
| `ColumnList` | `column_list.dfy` | lists of (column, value) tuples, their sorted listing, `sorted(..., key=...)` and the slice filter |
| `KeyColVal` | `abstract_store.dfy` | the `KeyColValStore` interface, stated on an abstract state `key -> column -> value` |
| `SearchTree` | `search_tree.dfy` | the tree's operations as pure functions on a `Tree` datatype, as the code behaves, with their properties |
| `BinaryTree` | `binarytree.dfy` | the `BinaryTree` class itself: an arena of node records with links and parent links, proved against `SearchTree` |
| `Persistence` | `query_persistor.dfy` | the log line format, `QueryPersistor` and the `persist` decorator |
| `DoubleDictStore` | `doubledict_store.dfy` | the dict-of-dicts store, its log replay and what replay gives back |
| `TreeStore` | `binarytree_store.dfy` | the tree-backed store over `BinaryTree` objects |

Python's node objects, which link to each other and to their parent, become indices into a
sequence of node records. A ghost `Shape` names the tree the links form, and
`BinaryTree.Abs` reads it as a `SearchTree.Tree`. Every method of the class is proved to leave the
links well formed and to do to the abstract tree what the matching `SearchTree` function does.
The `SearchTree` lemmas then say what that means for the column map.

Python exceptions are values: `Result.Err` or `Outcome.Fail` carrying `KeyError`,
`AttributeError`, `TypeError` or `QueryPersistorNotInitializedError`. `None` bounds are
`Option.None`. Python 2 orders every `str` above `None`, so `node.key > end_key` holds when the
end is open (`SearchTree.PastStop`).

Where the code departs from its own comments and docstrings, the model follows the code:

- binarytree.py:242-244 has an `else` branch for the case where the parent was the root. It is
  dead: every node has a `parent` attribute (binarytree.py:19), so deleting a root with fewer than
  two children raises AttributeError.
- binarytree.py:193-194 say the old successor node is dropped from the tree. `_kill_node` detaches
  it together with its right subtree.
- binarytree.py:140-143 say `_find_range_root` finds the root of the subtree holding the range.
  Its recursive calls' results are not returned. With an end of None the loop of `find_range`
  stops after the first node, although abstract.py:41-42 promise open-ended slices.
- query_persistor.py:82-83 say `persist` stores calls so that they can be replayed later. It logs
  a call before the method runs, so a call that raises is logged too, and replaying the log
  raises again.
- `persist` raises `QueryPersistorNotInitializedError` when the object has no `query_persistor`
  attribute (query_persistor.py:92-96). The store always installs a do-nothing one
  (doubledictstore.py:37).

## Model

| member | source | states |
|---|---|---|
| `KeyColVal.Set` | keycolval/stores/abstract.py:12-14 | after `set` the key is in the store, and no other key is added |
| `KeyColVal.Get` | keycolval/stores/abstract.py:16-18 | `get` returns a value exactly when key and column are present, and it is the stored value |
| `KeyColVal.GetKey` | keycolval/stores/abstract.py:20-22 | `get_key` is ascending by column and lists exactly the key's column map (empty for an absent key) |
| `KeyColVal.Delete` | keycolval/stores/abstract.py:28-30 | `delete` keeps the set of keys |
| `KeyColVal.GetKeysAfterWrites` | keycolval/stores/abstract.py:24-26 | `get_keys` (`KeyColVal.GetKeys`, the state's key set) gains exactly the key `set` writes, loses exactly the key `delete_key` removes, and is unchanged by `delete`: a key whose last column is deleted stays in `get_keys` with an empty `get_key`, as doubledictstore.py:78-86 behave |
| `KeyColVal.DeleteKey` | keycolval/stores/abstract.py:32-34 | `delete_key` removes the key and keeps every other key |
| `KeyColVal.GetSlice` | keycolval/stores/abstract.py:36-43 | `get_slice` is ascending and lists exactly the key's columns between the inclusive bounds, a None bound being open |
| `KeyColVal.SetThenGet` | keycolval/stores/abstract.py:12-18 | `get` after `set` returns the new value at that key and column and the old answer everywhere else |
| `KeyColVal.GetKeyExactlyOnce` | keycolval/stores/abstract.py:20-22 | a tuple is in `get_key` iff `get` returns its value, and no column appears twice |
| `KeyColVal.DeleteOnlyThat` | keycolval/stores/abstract.py:16-18 | `delete` makes `get` return None at that key and column and changes no other answer |
| `KeyColVal.DeleteKeyOnlyThat` | keycolval/stores/abstract.py:32-34 | `delete_key` makes every column of the key read None, leaves other keys alone, and leaves `get_key` of it empty |
| `KeyColVal.SliceOfGetKey` | keycolval/stores/abstract.py:36-43 | `get_slice` is `get_key` filtered to the range, in the same order |
| `KeyColVal.OpenSliceIsGetKey` | keycolval/stores/abstract.py:36-43 | with both bounds None, `get_slice` is `get_key` |
| `KeyColVal.EmptySlice` | keycolval/stores/abstract.py:36-43 | a start above the stop gives the empty slice |
| `ColumnList.SortByColumn` | keycolval/stores/doubledictstore.py:75 | `sorted(columns, key=lambda tup: tup[0])` returns a permutation of its input, sorted by column |
| `ColumnList.SortItemsIsListing` | keycolval/stores/doubledictstore.py:71-75 | sorting a dict's items by column gives its unique ascending listing, whatever order the dict yields them in |
| `StringOrder.StrictTotalOrder` | keycolval/data_structures/binarytree.py:47-69 | the `<` and `>` on str that the tree branches on are irreflexive, transitive and total, so exactly one of `<`, `>`, `==` holds |
| `SearchTree.InsertOrdered` | keycolval/data_structures/binarytree.py:30-70 | `insert` keeps the search-tree order |
| `SearchTree.InsertContents` | keycolval/data_structures/binarytree.py:30-70 | after `insert` the column map is the old one with the key set to the value, overwriting an existing key |
| `SearchTree.InOrderIsListing` | keycolval/data_structures/binarytree.py:72-86 | the in-order walk of a search tree is the ascending listing of its contents |
| `SearchTree.FindCorrect` | keycolval/data_structures/binarytree.py:94-113 | `_find_node` finds a node iff the key is in the tree, and that node holds the key's value |
| `SearchTree.GetCorrect` | keycolval/data_structures/binarytree.py:121-127 | `get` returns the key's value, or None when the key is absent |
| `SearchTree.DeleteFails` | keycolval/data_structures/binarytree.py:172-246 | `delete` raises iff the key is at the root and the root has fewer than two children, and then the error is AttributeError |
| `SearchTree.DeleteAbsent` | keycolval/data_structures/binarytree.py:177-181 | deleting an absent key changes nothing |
| `SearchTree.DeleteCorrect` | keycolval/data_structures/binarytree.py:172-206 | a successful `delete` keeps the order and removes the key plus exactly the keys under the successor (`Lost`), which all were in the tree |
| `SearchTree.RemoveOrdered` | keycolval/data_structures/binarytree.py:172-206 | the intended deletion keeps the order and removes just the key from the key set |
| `SearchTree.RemoveContents` | keycolval/data_structures/binarytree.py:172-206 | the intended deletion removes exactly the key from the column map |
| `SearchTree.SliceIsListing` | keycolval/data_structures/binarytree.py:129-137 | the intended range (the in-order walk filtered to the bounds) is the ascending listing of the contents in range |
| `SearchTree.ScanIsFilter` | keycolval/data_structures/binarytree.py:157-170 | on an ascending walk with an end bound, the early-exit loop of `find_range` returns the whole filter |
| `SearchTree.RangeRootCases` | keycolval/data_structures/binarytree.py:139-152 | `_find_range_root` answers the subtree root exactly when its key is in range (or the tree is empty and both bounds open); otherwise None or AttributeError |
| `SearchTree.FindRangePrefix` | keycolval/data_structures/binarytree.py:129-170 | whatever `find_range` returns is a prefix of the intended range |
| `SearchTree.FindRangeRootInRange` | keycolval/data_structures/binarytree.py:129-170 | with an end bound and the root's key in range, `find_range` returns the intended range |
| `SearchTree.FindRangeRootOutside` | keycolval/data_structures/binarytree.py:139-152 | with the root's key out of range, `find_range` returns nothing or raises AttributeError |
| `SearchTree.FindRangeOpenEnd` | keycolval/data_structures/binarytree.py:163-168 | with an open end, `find_range` returns at most one node |
| `SearchTree.FindRangeEmpty` | keycolval/data_structures/binarytree.py:144-152 | on an empty tree `find_range` answers only when both bounds are None, else raises AttributeError |
| `SearchTree.FindRangeInverted` | keycolval/data_structures/binarytree.py:144-150 | a start above the end always raises AttributeError |
| `SearchTree.DeleteRootWithOneChild` | keycolval/data_structures/binarytree.py:196-244 | deleting a root with one child raises AttributeError, where the intended deletion returns the child |
| `SearchTree.DeleteLosesSuccessorSubtree` | keycolval/data_structures/binarytree.py:183-225 | deleting a node whose successor has a right child loses that child, which the intended deletion keeps |
| `SearchTree.FindRangeMissesLeftSubtree` | keycolval/data_structures/binarytree.py:147-148 | a range wholly left of the root finds nothing, though a key in the left subtree is in range |
| `SearchTree.FindRangeOpenEndStopsEarly` | keycolval/data_structures/binarytree.py:163-168 | with an open end only the first node in range is returned, where the intended range has two |
| `BinaryTree.BinaryTree.constructor` | keycolval/data_structures/binarytree.py:27-28 | a new tree is valid and empty |
| `BinaryTree.BinaryTree.Insert` | keycolval/data_structures/binarytree.py:30-40 | `insert` keeps the links a valid search tree, does what `SearchTree.Insert` does, and sets the key to the value |
| `BinaryTree.BinaryTree.InsertInSubtree` | keycolval/data_structures/binarytree.py:42-70 | `_insert_in_subtree` relinks only the subtree's nodes and the new one, keeps the parent links, and yields the inserted subtree |
| `BinaryTree.BinaryTree.IterateSubtree` | keycolval/data_structures/binarytree.py:72-86 | `_iterate_subtree` yields nodes whose pairs are the in-order walk of the subtree |
| `BinaryTree.BinaryTree.FindNode` | keycolval/data_structures/binarytree.py:94-113 | `_find_node` returns a node of the subtree holding the key, or None exactly when `SearchTree.Find` finds nothing |
| `BinaryTree.BinaryTree.FindNodeForKey` | keycolval/data_structures/binarytree.py:88-92 | `_find_node_for_key` returns None iff the key is absent, else the node with the key and its value |
| `BinaryTree.BinaryTree.All` | keycolval/data_structures/binarytree.py:115-119 | `all` lists the tree's pairs in ascending order, exactly the contents |
| `BinaryTree.BinaryTree.Get` | keycolval/data_structures/binarytree.py:121-127 | `get` returns the key's value, or None |
| `BinaryTree.BinaryTree.FindRangeRoot` | keycolval/data_structures/binarytree.py:139-150 | `_find_range_root` returns the subtree's root or None as `SearchTree.RangeRoot` says, or raises the same error |
| `BinaryTree.BinaryTree.FindRange` | keycolval/data_structures/binarytree.py:129-170 | `find_range` returns nodes whose pairs are `SearchTree.FindRange`, or the same error |
| `BinaryTree.BinaryTree.CollectRange` | keycolval/data_structures/binarytree.py:154-170 | the loop of `find_range` keeps the walked nodes in range and returns once a key passes the end |
| `BinaryTree.BinaryTree.FindSuccessor` | keycolval/data_structures/binarytree.py:248-261 | `_find_successor` reaches the leftmost node of the right subtree, which holds the subtree's smallest pair |
| `BinaryTree.BinaryTree.KillNode` | keycolval/data_structures/binarytree.py:208-225 | `_kill_node` clears the parent's link and the node's parent link, and raises AttributeError for a node without a parent |
| `BinaryTree.BinaryTree.ReplaceParentWithChild` | keycolval/data_structures/binarytree.py:227-246 | `_replace_parent_with_child` points the grandparent's link and the child's parent link at each other, and raises AttributeError for the root |
| `BinaryTree.BinaryTree.DeleteNode` | keycolval/data_structures/binarytree.py:181-206 | the case split of `delete` on the found node's children ends in the tree `SearchTree.Delete` gives, or its error |
| `BinaryTree.BinaryTree.DeleteWithSuccessor` | keycolval/data_structures/binarytree.py:183-194 | the two-children case copies the successor's pair in and kills the successor, as `SearchTree.Delete` says |
| `BinaryTree.BinaryTree.Delete` | keycolval/data_structures/binarytree.py:172-206 | `delete` keeps a valid search tree and does what `SearchTree.Delete` does; on success the key and the `Lost` keys are gone, on failure the error is AttributeError and the key was present |
| `Persistence.Split` | keycolval/persistence/query_persistor.py:60 | `str.split` always returns at least one field |
| `Persistence.SplitJoin` | keycolval/persistence/query_persistor.py:43-60 | splitting the joined parts on the separator gives them back when no part holds it |
| `Persistence.StripNewline` | keycolval/persistence/query_persistor.py:60 | `strip('\n')` on a line that `__call__` wrote removes exactly its final newline |
| `Persistence.SerializeOneLine` | keycolval/persistence/query_persistor.py:32-45 | `__call__` writes one line: it ends in a newline and has no other newline when no part holds one |
| `Persistence.ParseSerialize` | keycolval/persistence/query_persistor.py:32-65 | `_load_data` reads back the name and arguments `__call__` wrote, when no part holds a comma or newline |
| `Persistence.CommaInArgumentSplits` | keycolval/persistence/query_persistor.py:57-60 | an argument holding a comma comes back as two arguments |
| `Persistence.QueryPersistor.constructor` | keycolval/persistence/query_persistor.py:28-30 | opening the data file for appending keeps its lines, or starts empty when it is absent (the replay at line 27 is `DoubleDictKeyColValStore.Open` and `LoadData`) |
| `Persistence.QueryPersistor.Call` | keycolval/persistence/query_persistor.py:32-45 | `__call__` appends exactly one line, the parts joined by commas plus a newline |
| `Persistence.Persist` | keycolval/persistence/query_persistor.py:76-107 | `persist` fails with QueryPersistorNotInitializedError iff there is no `query_persistor`, and with a real persistor logs the name and arguments before the method runs |
| `DoubleDictStore.DecodeEncode` | keycolval/persistence/query_persistor.py:63-68 | `getattr(store, name)(*args)` on what `persist` logged calls the same method with the same arguments |
| `DoubleDictStore.EncodeDecode` | keycolval/persistence/query_persistor.py:63-68 | every line that dispatches at all is what `persist` logs for that call |
| `DoubleDictStore.ReplayAppend` | keycolval/persistence/query_persistor.py:47-71 | replaying a concatenation is replaying the first log and then the second from its result, the first error winning |
| `DoubleDictStore.ReplayLine` | keycolval/persistence/query_persistor.py:32-71 | the line logged for a call replays as that call |
| `DoubleDictStore.ReplayLogged` | keycolval/persistence/query_persistor.py:76-107 | a log that replays to a state, plus one logged call, replays to what the call does to that state, including its error |
| `DoubleDictStore.ReplaySession` | keycolval/persistence/query_persistor.py:76-107 | a log extended with a whole session's lines replays to what the session does: the live store, or the first error |
| `DoubleDictStore.FailedDeleteBreaksReload` | keycolval/persistence/query_persistor.py:102-107 | a `delete` of a missing column is logged, and that log raises KeyError on replay |
| `DoubleDictStore.LogIfAppliedReplays` | keycolval/persistence/query_persistor.py:102-107 | logging a call only after it succeeds keeps the log replaying to the live store |
| `DoubleDictStore.DoubleDictKeyColValStore.constructor` | keycolval/stores/doubledictstore.py:32-37 | a store without a path is empty with the do-nothing persistor |
| `DoubleDictStore.DoubleDictKeyColValStore.Open` | keycolval/stores/doubledictstore.py:32-42 | with a path, the store holds what the data file replays to, keeps the file's lines, and is in sync with it; a replay error propagates |
| `DoubleDictStore.DoubleDictKeyColValStore.LoadData` | keycolval/persistence/query_persistor.py:47-71 | `_load_data` runs the lines in order into the store, stops at the first error, and logs nothing again |
| `DoubleDictStore.DoubleDictKeyColValStore.Dispatch` | keycolval/persistence/query_persistor.py:68 | one replayed call does what `Run` says: the method's effect or its error |
| `DoubleDictStore.DoubleDictKeyColValStore.Set` | keycolval/stores/doubledictstore.py:44-52 | `set` logs its line, stores the value as the interface's `set` does, and keeps an in-sync log in sync |
| `DoubleDictStore.DoubleDictKeyColValStore.Get` | keycolval/stores/doubledictstore.py:54-61 | `get` answers as the interface's `get` |
| `DoubleDictStore.DoubleDictKeyColValStore.GetKey` | keycolval/stores/doubledictstore.py:63-76 | `get_key` answers as the interface's `get_key`: the key's tuples sorted by column |
| `DoubleDictStore.DoubleDictKeyColValStore.GetKeys` | keycolval/stores/doubledictstore.py:78-80 | `get_keys` is the interface's set of keys |
| `DoubleDictStore.DoubleDictKeyColValStore.Delete` | keycolval/stores/doubledictstore.py:82-86 | `delete` logs its line, then removes the column or raises KeyError without change; the log then replays to exactly that outcome |
| `DoubleDictStore.DoubleDictKeyColValStore.DeleteKey` | keycolval/stores/doubledictstore.py:88-92 | `delete_key` logs its line, then removes the key or raises KeyError without change; the log then replays to exactly that outcome |
| `DoubleDictStore.DoubleDictKeyColValStore.GetSlice` | keycolval/stores/doubledictstore.py:94-133 | the sorted walk with early exit answers exactly the interface's `get_slice` |
| `TreeStore.BinaryTreeKeyColValStore.constructor` | keycolval/stores/binarytreestore.py:15-16 | a new store is empty |
| `TreeStore.BinaryTreeKeyColValStore.Set` | keycolval/stores/binarytreestore.py:18-23 | `set` changes the store as the interface's `set` does, through the key's tree |
| `TreeStore.BinaryTreeKeyColValStore.AddKey` | keycolval/stores/binarytreestore.py:20-21 | a new key gets an empty tree of its own |
| `TreeStore.BinaryTreeKeyColValStore.InsertAt` | keycolval/stores/binarytreestore.py:23 | inserting into the key's tree sets the column as the interface's `set` does, and no other key's tree changes |
| `TreeStore.BinaryTreeKeyColValStore.Get` | keycolval/stores/binarytreestore.py:26-31 | `get` answers as the interface's `get` |
| `TreeStore.BinaryTreeKeyColValStore.GetKey` | keycolval/stores/binarytreestore.py:34-39 | `get_key` answers as the interface's `get_key` |
| `TreeStore.BinaryTreeKeyColValStore.GetKeys` | keycolval/stores/binarytreestore.py:41-43 | `get_keys` answers the interface's `get_keys` of the store's state |
| `TreeStore.BinaryTreeKeyColValStore.Delete` | keycolval/stores/binarytreestore.py:45-47 | `delete` raises KeyError for a missing key, else does what `SearchTree.Delete` does to the key's tree: removes the column and the `Lost` columns, or raises AttributeError without change |
| `TreeStore.BinaryTreeKeyColValStore.DeleteKey` | keycolval/stores/binarytreestore.py:49-51 | `delete_key` changes the store as the interface's `delete_key` does, or raises KeyError for a missing key |
| `TreeStore.BinaryTreeKeyColValStore.GetSlice` | keycolval/stores/binarytreestore.py:53-62 | `get_slice` raises KeyError for a missing key, else answers `SearchTree.FindRange` on the key's tree |
| `TreeStore.BinaryTreeKeyColValStore.SlicePrefix` | keycolval/stores/binarytreestore.py:53-62 | what `get_slice` answers is a prefix of the interface's `get_slice` |
| `TreeStore.BinaryTreeKeyColValStore.SliceWhenRootInRange` | keycolval/stores/binarytreestore.py:53-62 | with an end bound and the tree's root column in range, `get_slice` answers the interface's `get_slice` |

## Left out

- File I/O is left out. A data file is the sequence of its lines (`DataFile`), and `isfile` is whether a file is given. Reading the file into lines, and closing it, are not modelled.
- An argument holding a newline is left out. It would split one logged line into two lines on reading, and the model takes the line structure as given. `Safe` excludes such arguments, and `CommaInArgumentSplits` shows the comma case.
- `str(part)` in `__call__` is left out. Every argument is already a string.
- Keyword arguments are left out. `persist` forwards them, but `__call__` drops them and no store method takes any.
- `DoubleDictStore.Decode`: only the three persisted methods are resolved. `getattr` would also find `get`, `get_key` and the store's other attributes, but `persist` never logs those names.
- The abstract base class machinery (`ABCMeta`, `abstractmethod`) is left out. The interface is a module of specification functions, and both stores are proved against it.
- `del node` and `del parent` are left out. They only drop a local name.
- Python object identity of tree nodes is not modelled directly. Nodes are indices into the tree's arena, and a node that `insert` creates for an existing key stays in the arena unlinked.
- The store's trees are fields of its map. `TreeStore.BinaryTreeKeyColValStore.Valid` requires that no two keys share a tree, as the code guarantees.
- The REST API (`keycolval/api`), the scripts and the tests are not part of this model.
- Concurrency is left out. Every call runs to completion before the next one.
- `DoubleDictStore.DoubleDictKeyColValStore.Set`, `Delete` and `DeleteKey` keep the log in sync only for calls whose arguments hold no comma and no newline (`Safe`), because other arguments do not come back unchanged.

## Findings

| source | as written | input that shows it | evidently intended | confidence | as-written member | corrected member |
|---|---|---|---|---|---|---|
| keycolval/data_structures/binarytree.py:196-244 | `hasattr(parent, 'parent')` is always true, so deleting a root with one child (and `_kill_node` on a root leaf) reads `.left` of None and raises AttributeError | tree a -> right child b, delete "a" | the root slot re-pointed to the child (the dead `else` branch); `SearchTree.RemoveContents` proves it removes exactly the key | high, not executed | `SearchTree.DeleteRootWithOneChild` | `SearchTree.Remove` |
| keycolval/data_structures/binarytree.py:187-194 | the successor is detached with `_kill_node`, which drops its right subtree | tree b(a, c(-, d)), delete "b" loses "d" | the successor's right child moves up into its place; `SearchTree.RemoveContents` proves nothing else is lost | high, not executed | `SearchTree.DeleteLosesSuccessorSubtree` | `SearchTree.Remove` |
| keycolval/data_structures/binarytree.py:147-150 | the recursive calls of `_find_range_root` are not returned, so a range wholly on one side of the root finds nothing | tree b(a, -), range ["a", "a"] | the recursive result returned, so the range is every key in bounds; `SearchTree.SliceIsListing` proves that of the intended range | high, not executed | `SearchTree.FindRangeMissesLeftSubtree` | `SearchTree.Slice` |
| keycolval/data_structures/binarytree.py:163-168 | with an end of None, `node.key > end_key` is true in Python 2, so the loop returns after the first node | tree a(-, b), range ["a", None] | no early exit for an open end; `SearchTree.SliceIsListing` proves the intended range lists every key in bounds | high, not executed | `SearchTree.FindRangeOpenEndStopsEarly` | `SearchTree.Slice` |
| keycolval/persistence/query_persistor.py:102-107 | the call is logged before the method runs, so a `delete` that raises KeyError stays in the log, and reopening the store raises KeyError | `delete("a", "b")` on an empty persisted store | log only calls that succeeded; `DoubleDictStore.LogIfAppliedReplays` proves the log then replays to the live store | high, not executed | `DoubleDictStore.FailedDeleteBreaksReload` | `DoubleDictStore.LogIfApplied` |
