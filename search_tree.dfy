/**
  * The meaning of the binary search tree that holds one key's columns: the tree as a value,
  * its in-order listing and contents, and the lookups, insertion, deletion and range query the
  * linked tree performs, stated over values. Deletion and the range query are defined as
  * the tree code behaves, and next to them `Remove` and `Slice` are the behaviour their comments
  * describe; lemmas relate the two.
  */
module SearchTree {
  import opened Wrappers
  import opened StringOrder
  import opened ColumnList

  datatype Tree = Empty | Branch(left: Tree, key: string, value: string, right: Tree)

  ghost function Keys(t: Tree): set<string> {
    match t
    case Empty => {}
    case Branch(l, k, _, r) => Keys(l) + {k} + Keys(r)
  }

  /** Every key in a left subtree is smaller than its node's key and every key in a right subtree larger. */
  ghost predicate IsBST(t: Tree) {
    match t
    case Empty => true
    case Branch(l, k, _, r) =>
      && (forall c :: c in Keys(l) ==> Less(c, k))
      && (forall c :: c in Keys(r) ==> Less(k, c))
      && IsBST(l) && IsBST(r)
  }

  /** The column map a tree holds. */
  ghost function Contents(t: Tree): map<string, string> {
    match t
    case Empty => map[]
    case Branch(l, k, v, r) => (Contents(l) + Contents(r))[k := v]
  }

  lemma {:induction false} ContentsKeys(t: Tree)
    ensures Contents(t).Keys == Keys(t)
  {
    match t
    case Empty =>
    case Branch(l, _, _, r) =>
      ContentsKeys(l);
      ContentsKeys(r);
  }

  /** The (key, value) pairs in the order `_iterate_subtree` yields the nodes: left, node, right. */
  function InOrder(t: Tree): seq<Pair> {
    match t
    case Empty => []
    case Branch(l, k, v, r) => InOrder(l) + [(k, v)] + InOrder(r)
  }

  lemma {:induction false} InOrderKeys(t: Tree)
    ensures forall i :: 0 <= i < |InOrder(t)| ==> InOrder(t)[i].0 in Keys(t)
  {
    match t
    case Empty =>
    case Branch(l, k, v, r) =>
      InOrderKeys(l);
      InOrderKeys(r);
      var s := InOrder(t);
      forall i | 0 <= i < |s|
        ensures s[i].0 in Keys(t)
      {
        if i < |InOrder(l)| {
          assert s[i] == InOrder(l)[i];
        } else if i > |InOrder(l)| {
          assert s[i] == InOrder(r)[i - |InOrder(l)| - 1];
        }
      }
  }

  /** The in-order listing of a search tree is ascending. */
  lemma {:induction false} InOrderAscending(t: Tree)
    requires IsBST(t)
    ensures Ascending(InOrder(t))
  {
    match t
    case Empty =>
    case Branch(l, k, v, r) =>
      InOrderAscending(l);
      InOrderAscending(r);
      InOrderSplit(l, k, v, r);
      assert InOrder(t) == InOrder(l) + ([(k, v)] + InOrder(r));
      AscendingConcat(InOrder(l), [(k, v)] + InOrder(r));
  }

  /** The in-order listing of a search tree denotes the tree's contents. */
  lemma {:induction false} InOrderContents(t: Tree)
    requires IsBST(t)
    ensures AsMap(InOrder(t)) == Contents(t)
  {
    match t
    case Empty =>
    case Branch(l, k, v, r) =>
      InOrderContents(l);
      InOrderContents(r);
      assert InOrder(t) == InOrder(l) + ([(k, v)] + InOrder(r));
      AsMapAppend(InOrder(l), [(k, v)] + InOrder(r));
      ContentsKeys(r);
      assert k !in Contents(r) by {
        Irreflexive(k);
      }
      AsMapConsFresh((k, v), InOrder(r));
      assert Contents(l) + Contents(r)[k := v] == (Contents(l) + Contents(r))[k := v];
  }

  /** The ordering facts that let the three parts of an in-order listing be joined. */
  lemma InOrderSplit(l: Tree, k: string, v: string, r: Tree)
    requires IsBST(Branch(l, k, v, r)) && Ascending(InOrder(r))
    ensures Ascending([(k, v)] + InOrder(r))
    ensures forall i, j :: 0 <= i < |InOrder(l)| && 0 <= j < |[(k, v)] + InOrder(r)| ==>
      Less(InOrder(l)[i].0, ([(k, v)] + InOrder(r))[j].0)
  {
    InOrderKeys(l);
    InOrderKeys(r);
    var a := InOrder(l);
    var b := [(k, v)] + InOrder(r);
    ConsAscending((k, v), InOrder(r));
    forall i, j | 0 <= i < |a| && 0 <= j < |b|
      ensures Less(a[i].0, b[j].0)
    {
      if j > 0 {
        assert b[j] == InOrder(r)[j - 1];
        Transitive(a[i].0, k, b[j].0);
      }
    }
  }

  /** The in-order listing of a search tree is its contents sorted by key: what `all()` returns. */
  lemma InOrderIsListing(t: Tree)
    requires IsBST(t)
    ensures InOrder(t) == Listing(Contents(t))
  {
    InOrderAscending(t);
    InOrderContents(t);
    ListingUnique(InOrder(t), Contents(t));
  }

  /** `_find_node`: the subtree whose root holds the key, or Empty when the search falls off the tree. */
  function Find(t: Tree, k: string): Tree {
    if t.Empty? || t.key == k then t
    else if Less(k, t.key) then Find(t.left, k)
    else if Less(t.key, k) then Find(t.right, k)
    else Empty
  }

  /** In a search tree the search finds a node exactly for the keys the tree holds. */
  lemma {:induction false} FindCorrect(t: Tree, k: string)
    requires IsBST(t)
    ensures Find(t, k).Branch? <==> k in Keys(t)
    ensures Find(t, k).Branch? ==> Find(t, k).key == k && k in Contents(t) && Contents(t)[k] == Find(t, k).value
  {
    ContentsKeys(t);
    match t
    case Empty =>
    case Branch(l, key, v, r) =>
      ContentsKeys(l);
      ContentsKeys(r);
      Trichotomy(k, key);
      if k == key {
      } else if Less(k, key) {
        FindCorrect(l, k);
        Asymmetric(k, key);
        assert k !in Keys(r);
      } else {
        FindCorrect(r, k);
        Asymmetric(key, k);
        assert k !in Keys(l);
      }
  }

  /** `get`: the value stored under the key, or None. */
  function Get(t: Tree, k: string): Option<string> {
    var found := Find(t, k);
    if found.Empty? then None else Some(found.value)
  }

  lemma GetCorrect(t: Tree, k: string)
    requires IsBST(t)
    ensures Get(t, k) == if k in Contents(t) then Some(Contents(t)[k]) else None
  {
    FindCorrect(t, k);
    ContentsKeys(t);
  }

  /** `insert`: descend right on a larger key and left on a smaller one, and overwrite the value on an equal one. */
  function Insert(t: Tree, k: string, v: string): Tree {
    match t
    case Empty => Branch(Empty, k, v, Empty)
    case Branch(l, key, val, r) =>
      if Less(key, k) then Branch(l, key, val, Insert(r, k, v))
      else if Less(k, key) then Branch(Insert(l, k, v), key, val, r)
      else if k == key then Branch(l, key, v, r)
      else t
  }

  lemma {:induction false} InsertKeys(t: Tree, k: string, v: string)
    ensures Keys(Insert(t, k, v)) == Keys(t) + {k}
  {
    match t
    case Empty =>
    case Branch(l, key, val, r) =>
      Trichotomy(k, key);
      InsertKeys(l, k, v);
      InsertKeys(r, k, v);
  }

  /** Insertion keeps the search order. */
  lemma {:induction false} InsertOrdered(t: Tree, k: string, v: string)
    requires IsBST(t)
    ensures IsBST(Insert(t, k, v))
  {
    match t
    case Empty =>
    case Branch(l, key, val, r) =>
      Trichotomy(k, key);
      if Less(key, k) {
        InsertOrdered(r, k, v);
        InsertKeys(r, k, v);
      } else if Less(k, key) {
        InsertOrdered(l, k, v);
        InsertKeys(l, k, v);
      }
  }

  /** Insertion stores exactly the new value under the key and changes nothing else. */
  lemma {:induction false} InsertContents(t: Tree, k: string, v: string)
    requires IsBST(t)
    ensures Contents(Insert(t, k, v)) == Contents(t)[k := v]
  {
    match t
    case Empty =>
    case Branch(l, key, val, r) =>
      Trichotomy(k, key);
      var cl, cr := Contents(l), Contents(r);
      if Less(key, k) {
        Irreflexive(key);
        assert Insert(t, k, v) == Branch(l, key, val, Insert(r, k, v));
        InsertContents(r, k, v);
        UpdateUnder(cl, cr, k, v);
        UpdateSwap(cl + cr, k, v, key, val);
      } else if Less(k, key) {
        Irreflexive(key);
        assert Insert(t, k, v) == Branch(Insert(l, k, v), key, val, r);
        InsertContents(l, k, v);
        ContentsKeys(r);
        assert k !in cr by {
          if k in Keys(r) {
            Asymmetric(k, key);
          }
        }
        UpdateOver(cl, cr, k, v);
        UpdateSwap(cl + cr, k, v, key, val);
      }
  }

  /** The pair at the leftmost node: where `_find_successor` ends when started from a right child. */
  function MinPair(t: Tree): Pair
    requires t.Branch?
  {
    if t.left.Empty? then (t.key, t.value) else MinPair(t.left)
  }

  /** The right subtree of the leftmost node. */
  function MinRight(t: Tree): Tree
    requires t.Branch?
  {
    if t.left.Empty? then t.right else MinRight(t.left)
  }

  /** The tree after `_kill_node` detaches the leftmost node, which takes its right subtree along. */
  function CutMin(t: Tree): Tree
    requires t.Branch?
  {
    if t.left.Empty? then Empty else Branch(CutMin(t.left), t.key, t.value, t.right)
  }

  /** The tree without its leftmost node, whose right subtree moves up into its place. */
  function DropMin(t: Tree): Tree
    requires t.Branch?
  {
    if t.left.Empty? then t.right else Branch(DropMin(t.left), t.key, t.value, t.right)
  }

  /** The subtree that replaces the node `delete` found: the node with its successor's pair for
      two children, else the one child or nothing; a root with fewer than two children has no
      parent to relink, which raises AttributeError. */
  function Unlink(t: Tree, atRoot: bool): Result<Tree>
    requires t.Branch?
  {
    if t.left.Branch? && t.right.Branch? then
      Ok(Branch(t.left, MinPair(t.right).0, MinPair(t.right).1, CutMin(t.right)))
    else if atRoot then Err(AttributeError)
    else if t.left.Branch? then Ok(t.left)
    else if t.right.Branch? then Ok(t.right)
    else Ok(Empty)
  }

  /** The tree with the subtree that `Find` reaches for k replaced by u. */
  function Graft(t: Tree, k: string, u: Tree): Tree {
    if t.Empty? || t.key == k then u
    else if Less(k, t.key) then Branch(Graft(t.left, k, u), t.key, t.value, t.right)
    else if Less(t.key, k) then Branch(t.left, t.key, t.value, Graft(t.right, k, u))
    else t
  }

  /** `delete` as the tree code behaves. */
  function Delete(t: Tree, k: string): Result<Tree> {
    var found := Find(t, k);
    if found.Empty? then Ok(t)
    else
      match Unlink(found, t.key == k)
      case Ok(u) => Ok(Graft(t, k, u))
      case Err(e) => Err(e)
  }

  /** The keys `Delete` loses besides k: those under the successor when the node has two children. */
  ghost function Lost(t: Tree, k: string): set<string> {
    var found := Find(t, k);
    if found.Branch? then LostBelow(found) else {}
  }

  /** The intended deletion: a root with one child is replaced by it, and the successor's right
      subtree moves up in its place. */
  function Remove(t: Tree, k: string): Tree {
    match t
    case Empty => Empty
    case Branch(l, key, v, r) =>
      if Less(k, key) then Branch(Remove(l, k), key, v, r)
      else if Less(key, k) then Branch(l, key, v, Remove(r, k))
      else if l.Empty? then r
      else if r.Empty? then l
      else Branch(l, MinPair(r).0, MinPair(r).1, DropMin(r))
  }

  /** `(start is None or key >= start) and (end is None or key <= end)` in `find_range`. */
  predicate PastStop(c: string, stop: Option<string>) {
    // Python 2 orders every str above None, so `node.key > end_key` holds for an open end.
    stop.None? || Less(stop.value, c)
  }

  /** `_find_range_root`: the root when its key lies in the range; otherwise the recursive call is
      made but its result dropped, so the answer is None, unless the descent reaches a missing
      child, whose `.key` raises AttributeError. */
  function RangeRoot(t: Tree, start: Option<string>, stop: Option<string>): Result<Tree> {
    if t.Empty? then
      if start.None? && stop.None? then Ok(Empty) else Err(AttributeError)
    else if InRange(t.key, start, stop) then Ok(t)
    else if stop.Some? && Less(stop.value, t.key) then
      (match RangeRoot(t.left, start, stop) case Ok(_) => Ok(Empty) case Err(e) => Err(e))
    else if start.Some? && Less(t.key, start.value) then
      (match RangeRoot(t.right, start, stop) case Ok(_) => Ok(Empty) case Err(e) => Err(e))
    else Ok(Empty)
  }

  /** The loop of `find_range` over an in-order listing: keep the pairs in range and return as
      soon as a key passes the end. */
  function Scan(ps: seq<Pair>, start: Option<string>, stop: Option<string>): seq<Pair> {
    if ps == [] then []
    else
      (if InRange(ps[0].0, start, stop) then [ps[0]] else [])
      + (if PastStop(ps[0].0, stop) then [] else Scan(ps[1..], start, stop))
  }

  /** `find_range` as the tree code behaves. */
  function FindRange(t: Tree, start: Option<string>, stop: Option<string>): Result<seq<Pair>> {
    match RangeRoot(t, start, stop)
    case Ok(sub) => Ok(Scan(InOrder(sub), start, stop))
    case Err(e) => Err(e)
  }

  /** The intended range query: the pairs whose keys lie in the inclusive range, in key order. */
  function Slice(t: Tree, start: Option<string>, stop: Option<string>): seq<Pair> {
    Filter(InOrder(t), start, stop)
  }

  // Deletion

  /** The key of a search tree's root is in neither subtree, and the subtrees share no key. */
  lemma Split(t: Tree)
    requires IsBST(t) && t.Branch?
    ensures t.key !in Keys(t.left) && t.key !in Keys(t.right)
    ensures Keys(t.left) !! Keys(t.right)
    ensures Contents(t.left).Keys == Keys(t.left) && Contents(t.right).Keys == Keys(t.right)
    ensures Contents(t).Keys == Keys(t)
  {
    ContentsKeys(t);
    ContentsKeys(t.left);
    ContentsKeys(t.right);
    Irreflexive(t.key);
    forall c | c in Keys(t.right)
      ensures c !in Keys(t.left)
    {
      if c in Keys(t.left) {
        Asymmetric(c, t.key);
      }
    }
  }

  lemma {:induction false} MinFacts(t: Tree)
    requires IsBST(t) && t.Branch?
    ensures MinPair(t).0 in Contents(t) && Contents(t)[MinPair(t).0] == MinPair(t).1
    ensures forall c :: c in Keys(t) && c != MinPair(t).0 ==> Less(MinPair(t).0, c)
    ensures Keys(MinRight(t)) <= Keys(t) && MinPair(t).0 !in Keys(MinRight(t))
  {
    Split(t);
    if t.left.Branch? {
      MinFacts(t.left);
      var m := MinPair(t.left).0;
      assert m in Keys(t.left);
      forall c | c in Keys(t) && c != m
        ensures Less(m, c)
      {
        if c == t.key || c in Keys(t.right) {
          if c != t.key {
            Transitive(m, t.key, c);
          }
        }
      }
    }
  }

  /** Cutting the leftmost node removes its key and the keys under it and keeps the search order. */
  lemma {:induction false} CutMinKeys(t: Tree)
    requires IsBST(t) && t.Branch?
    ensures Keys(CutMin(t)) == Keys(t) - ({MinPair(t).0} + Keys(MinRight(t)))
    ensures IsBST(CutMin(t))
  {
    Split(t);
    if t.left.Branch? {
      CutMinKeys(t.left);
      MinFacts(t.left);
    }
  }

  lemma {:induction false} CutMinContents(t: Tree)
    requires IsBST(t) && t.Branch?
    ensures Contents(CutMin(t)) == Contents(t) - ({MinPair(t).0} + Keys(MinRight(t)))
  {
    Split(t);
    var gone := {MinPair(t).0} + Keys(MinRight(t));
    if t.left.Branch? {
      CutMinContents(t.left);
      MinFacts(t.left);
      var cl, cr := Contents(t.left), Contents(t.right);
      assert gone <= Keys(t.left);
      RemoveBelow(cl, cr, t.key, t.value, gone);
    } else {
      assert (Contents(t) - gone).Keys == {};
    }
  }

  /** Grafting an empty tree at the smallest key cuts the leftmost node: `_kill_node` on the
      successor acts on the right subtree as `CutMin` does. */
  lemma {:induction false} GraftMin(t: Tree)
    requires IsBST(t) && t.Branch?
    ensures Graft(t, MinPair(t).0, Empty) == CutMin(t)
  {
    if t.left.Branch? {
      MinFacts(t.left);
      ContentsKeys(t.left);
      Irreflexive(t.key);
      GraftMin(t.left);
    }
  }

  /** Removing keys of the left part commutes with joining it to a disjoint right part and a new key. */
  lemma RemoveBelow(cl: map<string, string>, cr: map<string, string>, k: string, v: string, gone: set<string>)
    requires gone <= cl.Keys && gone !! cr.Keys && k !in gone
    ensures (cl - gone + cr)[k := v] == (cl + cr)[k := v] - gone
  {
  }

  /** Removing keys of the right part commutes with joining it to a disjoint left part and a new key. */
  lemma RemoveRight(cl: map<string, string>, cr: map<string, string>, k: string, v: string, gone: set<string>)
    requires gone <= cr.Keys && gone !! cl.Keys && k !in gone
    ensures (cl + (cr - gone))[k := v] == (cl + cr)[k := v] - gone
  {
  }

  /** Dropping the leftmost node removes exactly its key and keeps the search order. */
  lemma {:induction false} DropMinKeys(t: Tree)
    requires IsBST(t) && t.Branch?
    ensures Keys(DropMin(t)) == Keys(t) - {MinPair(t).0}
    ensures IsBST(DropMin(t))
  {
    Split(t);
    if t.left.Branch? {
      DropMinKeys(t.left);
      MinFacts(t.left);
    }
  }

  lemma {:induction false} DropMinContents(t: Tree)
    requires IsBST(t) && t.Branch?
    ensures Contents(DropMin(t)) == Contents(t) - {MinPair(t).0}
  {
    Split(t);
    if t.left.Branch? {
      DropMinContents(t.left);
      MinFacts(t.left);
      RemoveBelow(Contents(t.left), Contents(t.right), t.key, t.value, {MinPair(t).0});
    } else {
      assert Contents(t) - {t.key} == Contents(t.right);
    }
  }

  /** Replacing the node `delete` found below the root: the replacement keeps the search order and
      holds the node's contents without its key and without the keys under the successor. */
  lemma UnlinkCorrect(f: Tree)
    requires IsBST(f) && f.Branch?
    ensures Unlink(f, false).Ok?
    ensures IsBST(Unlink(f, false).value)
    ensures Keys(Unlink(f, false).value) <= Keys(f)
    ensures Contents(Unlink(f, false).value) == Contents(f) - ({f.key} + LostBelow(f))
  {
    Split(f);
    if f.left.Branch? && f.right.Branch? {
      UnlinkTwo(f);
    } else {
      DropRootKey(Contents(f.left), Contents(f.right), f.key, f.value);
      assert LostBelow(f) == {};
    }
  }

  lemma UnlinkTwo(f: Tree)
    requires IsBST(f) && f.Branch? && f.left.Branch? && f.right.Branch?
    ensures IsBST(Unlink(f, false).value)
    ensures Keys(Unlink(f, false).value) <= Keys(f)
    ensures Contents(Unlink(f, false).value) == Contents(f) - ({f.key} + LostBelow(f))
  {
    UnlinkTwoOrdered(f);
    Split(f);
    MinFacts(f.right);
    CutMinContents(f.right);
    var (mk, mv) := MinPair(f.right);
    SuccessorSwap(Contents(f.left), Contents(f.right), f.key, f.value, mk, mv, Keys(MinRight(f.right)));
  }

  lemma UnlinkTwoOrdered(f: Tree)
    requires IsBST(f) && f.Branch? && f.left.Branch? && f.right.Branch?
    ensures IsBST(Unlink(f, false).value)
    ensures Keys(Unlink(f, false).value) <= Keys(f)
  {
    Split(f);
    var (mk, mv) := MinPair(f.right);
    MinFacts(f.right);
    CutMinKeys(f.right);
    forall c | c in Keys(f.left)
      ensures Less(c, mk)
    {
      Transitive(c, f.key, mk);
    }
  }

  /** Moving the successor's pair into the deleted node's place, as maps. */
  lemma SuccessorSwap(cl: map<string, string>, cr: map<string, string>, k: string, v: string,
                      mk: string, mv: string, lost: set<string>)
    requires k !in cl && k !in cr && cl.Keys !! cr.Keys
    requires mk in cr && cr[mk] == mv && lost <= cr.Keys && mk !in lost
    ensures (cl + (cr - ({mk} + lost)))[mk := mv] == (cl + cr)[k := v] - ({k} + lost)
  {
  }

  /** The keys lost when the node f is deleted: those under its successor if it has two children. */
  ghost function LostBelow(f: Tree): set<string>
    requires f.Branch?
  {
    if f.left.Branch? && f.right.Branch? then Keys(MinRight(f.right)) else {}
  }

  lemma {:induction false} FindKeys(t: Tree, k: string)
    ensures Keys(Find(t, k)) <= Keys(t)
  {
    if t.Branch? && t.key != k {
      FindKeys(t.left, k);
      FindKeys(t.right, k);
    }
  }

  /** Grafting a search tree built from the found node's keys in its place keeps the search order. */
  lemma {:induction false} GraftOrdered(t: Tree, k: string, u: Tree)
    requires IsBST(t) && IsBST(u) && Find(t, k).Branch? && Keys(u) <= Keys(Find(t, k))
    ensures IsBST(Graft(t, k, u))
    ensures Keys(Graft(t, k, u)) <= Keys(t)
  {
    if t.key != k {
      if Less(k, t.key) {
        GraftOrdered(t.left, k, u);
        FindKeys(t.left, k);
      } else {
        GraftOrdered(t.right, k, u);
        FindKeys(t.right, k);
      }
    }
  }

  /** After grafting, the tree holds the rest of the tree together with the graft. */
  lemma {:induction false} GraftContents(t: Tree, k: string, u: Tree)
    requires IsBST(t) && IsBST(u) && Find(t, k).Branch? && Keys(u) <= Keys(Find(t, k))
    ensures Contents(Graft(t, k, u)) == (Contents(t) - Keys(Find(t, k))) + Contents(u)
  {
    var gone := Keys(Find(t, k));
    if t.key != k {
      Split(t);
      ContentsKeys(u);
      if Less(k, t.key) {
        assert Find(t, k) == Find(t.left, k);
        assert Graft(t, k, u) == Branch(Graft(t.left, k, u), t.key, t.value, t.right);
        GraftContents(t.left, k, u);
        FindKeys(t.left, k);
        GraftLeft(Contents(t.left), Contents(t.right), Contents(u), t.key, t.value, gone);
      } else {
        assert Less(t.key, k);
        assert Find(t, k) == Find(t.right, k);
        assert Graft(t, k, u) == Branch(t.left, t.key, t.value, Graft(t.right, k, u));
        GraftContents(t.right, k, u);
        FindKeys(t.right, k);
        GraftRight(Contents(t.left), Contents(t.right), Contents(u), t.key, t.value, gone);
      }
    } else {
      ContentsKeys(t);
      assert Contents(t) - gone == map[];
    }
  }

  lemma GraftLeft(cl: map<string, string>, cr: map<string, string>, cu: map<string, string>, k: string, v: string, gone: set<string>)
    requires gone <= cl.Keys && cu.Keys <= gone && cl.Keys !! cr.Keys && k !in cl
    ensures (cl - gone + cu + cr)[k := v] == ((cl + cr)[k := v] - gone) + cu
  {
  }

  lemma GraftRight(cl: map<string, string>, cr: map<string, string>, cu: map<string, string>, k: string, v: string, gone: set<string>)
    requires gone <= cr.Keys && cu.Keys <= gone && cl.Keys !! cr.Keys && k !in cr
    ensures (cl + (cr - gone + cu))[k := v] == ((cl + cr)[k := v] - gone) + cu
  {
  }

  /** `delete` raises exactly when the key is at a root with fewer than two children. */
  lemma DeleteFails(t: Tree, k: string)
    ensures Delete(t, k).Err? <==> t.Branch? && t.key == k && (t.left.Empty? || t.right.Empty?)
    ensures Delete(t, k).Err? ==> Delete(t, k).error == AttributeError
  {
  }

  /** Deleting an absent key leaves the tree as it is. */
  lemma DeleteAbsent(t: Tree, k: string)
    requires IsBST(t) && k !in Contents(t)
    ensures Delete(t, k) == Ok(t)
  {
    ContentsKeys(t);
    FindCorrect(t, k);
  }

  /** A successful `delete` keeps the search order and removes the key together with the keys under
      the successor it moved up, and nothing else. */
  lemma DeleteCorrect(t: Tree, k: string)
    requires IsBST(t) && Delete(t, k).Ok?
    ensures IsBST(Delete(t, k).value)
    ensures Contents(Delete(t, k).value) == Contents(t) - ({k} + Lost(t, k))
    ensures Lost(t, k) <= Keys(t) && k !in Contents(Delete(t, k).value)
  {
    var f := Find(t, k);
    FindCorrect(t, k);
    if f.Branch? {
      FindKeys(t, k);
      FindOrdered(t, k);
      MinKeysBelow(f);
      DeleteFoundContents(t, k);
    } else {
      ContentsKeys(t);
      assert Contents(t) - {k} == Contents(t);
    }
  }

  lemma {:induction false} FindOrdered(t: Tree, k: string)
    requires IsBST(t)
    ensures IsBST(Find(t, k))
  {
    if t.Branch? && t.key != k {
      FindOrdered(t.left, k);
      FindOrdered(t.right, k);
    }
  }

  /** Below the root, and at a root with two children, `delete` grafts the replacement in place. */
  lemma DeleteFound(t: Tree, k: string)
    requires IsBST(t) && Find(t, k).Branch? && Delete(t, k).Ok?
    ensures Unlink(Find(t, k), false).Ok? && Delete(t, k) == Ok(Graft(t, k, Unlink(Find(t, k), false).value))
  {
    FindOrdered(t, k);
    UnlinkCorrect(Find(t, k));
  }

  lemma DeleteFoundContents(t: Tree, k: string)
    requires IsBST(t) && Find(t, k).Branch? && Delete(t, k).Ok?
    ensures IsBST(Delete(t, k).value)
    ensures Contents(Delete(t, k).value) == Contents(t) - ({k} + LostBelow(Find(t, k)))
  {
    var f := Find(t, k);
    FindCorrect(t, k);
    FindOrdered(t, k);
    DeleteFound(t, k);
    UnlinkCorrect(f);
    var u := Unlink(f, false).value;
    GraftOrdered(t, k, u);
    GraftContents(t, k, u);
    ContentsKeys(t);
    ContentsKeys(f);
    MinKeysBelow(f);
    FoundContents(t, k);
    Regraft(Contents(t), Contents(f), k, LostBelow(f));
  }

  lemma Regraft(ct: map<string, string>, cf: map<string, string>, k: string, lost: set<string>)
    requires k in cf && lost <= cf.Keys
    requires forall c :: c in cf ==> c in ct && ct[c] == cf[c]
    ensures (ct - cf.Keys) + (cf - ({k} + lost)) == ct - ({k} + lost)
  {
  }

  lemma MinKeysBelow(f: Tree)
    requires IsBST(f) && f.Branch?
    ensures LostBelow(f) <= Keys(f)
  {
    if f.left.Branch? && f.right.Branch? {
      MinFacts(f.right);
    }
  }

  /** The found subtree holds the same values as the whole tree under its keys. */
  lemma {:induction false} FoundContents(t: Tree, k: string)
    requires IsBST(t)
    ensures forall c :: c in Contents(Find(t, k)) ==> c in Contents(t) && Contents(t)[c] == Contents(Find(t, k))[c]
  {
    if t.Branch? && t.key != k {
      var l, key, r := t.left, t.key, t.right;
      ContentsKeys(l);
      ContentsKeys(r);
      ContentsKeys(Find(l, k));
      ContentsKeys(Find(r, k));
      FindKeys(l, k);
      FindKeys(r, k);
      assert key !in Keys(l) && key !in Keys(r) by {
        Irreflexive(key);
      }
      forall c | c in Keys(r)
        ensures c !in Keys(l)
      {
        if c in Keys(l) {
          Asymmetric(c, key);
        }
      }
      FoundContents(l, k);
      FoundContents(r, k);
    }
  }

  /** The intended deletion keeps the search order. */
  lemma {:induction false} RemoveOrdered(t: Tree, k: string)
    requires IsBST(t)
    ensures IsBST(Remove(t, k))
    ensures Keys(Remove(t, k)) == Keys(t) - {k}
  {
    if t.Branch? {
      Split(t);
      Trichotomy(k, t.key);
      if Less(k, t.key) {
        RemoveOrdered(t.left, k);
        RemoveLeftOrdered(t, k);
      } else if Less(t.key, k) {
        RemoveOrdered(t.right, k);
        RemoveRightOrdered(t, k);
      } else if t.left.Branch? && t.right.Branch? {
        RemoveRootOrdered(t);
      }
    }
  }

  lemma RemoveLeftOrdered(t: Tree, k: string)
    requires IsBST(t) && t.Branch? && Less(k, t.key)
    requires IsBST(Remove(t.left, k)) && Keys(Remove(t.left, k)) == Keys(t.left) - {k}
    ensures IsBST(Remove(t, k)) && Keys(Remove(t, k)) == Keys(t) - {k}
  {
    Split(t);
    Irreflexive(k);
    if k in Keys(t.right) {
      Asymmetric(k, t.key);
    }
    assert Remove(t, k) == Branch(Remove(t.left, k), t.key, t.value, t.right);
    assert Keys(t) - {k} == (Keys(t.left) - {k}) + {t.key} + Keys(t.right);
  }

  lemma RemoveRightOrdered(t: Tree, k: string)
    requires IsBST(t) && t.Branch? && Less(t.key, k)
    requires IsBST(Remove(t.right, k)) && Keys(Remove(t.right, k)) == Keys(t.right) - {k}
    ensures IsBST(Remove(t, k)) && Keys(Remove(t, k)) == Keys(t) - {k}
  {
    Split(t);
    Irreflexive(k);
    Asymmetric(t.key, k);
    assert Remove(t, k) == Branch(t.left, t.key, t.value, Remove(t.right, k));
    assert Keys(t) - {k} == Keys(t.left) + {t.key} + (Keys(t.right) - {k});
  }

  lemma RemoveRootOrdered(t: Tree)
    requires IsBST(t) && t.Branch? && t.left.Branch? && t.right.Branch?
    ensures IsBST(Remove(t, t.key)) && Keys(Remove(t, t.key)) == Keys(t) - {t.key}
  {
    Split(t);
    Irreflexive(t.key);
    var mk := MinPair(t.right).0;
    assert Remove(t, t.key) == Branch(t.left, mk, MinPair(t.right).1, DropMin(t.right));
    MinFacts(t.right);
    DropMinKeys(t.right);
    forall c | c in Keys(t.left)
      ensures Less(c, mk)
    {
      Transitive(c, t.key, mk);
    }
  }

  /** The intended deletion removes exactly the key. */
  lemma {:induction false} RemoveContents(t: Tree, k: string)
    requires IsBST(t)
    ensures Contents(Remove(t, k)) == Contents(t) - {k}
  {
    if t.Branch? {
      Trichotomy(k, t.key);
      if Less(k, t.key) {
        RemoveContents(t.left, k);
        RemoveLeftContents(t, k);
      } else if Less(t.key, k) {
        RemoveContents(t.right, k);
        RemoveRightContents(t, k);
      } else {
        RemoveRootContents(t);
      }
    }
  }

  lemma RemoveLeftContents(t: Tree, k: string)
    requires IsBST(t) && t.Branch? && Less(k, t.key)
    requires Contents(Remove(t.left, k)) == Contents(t.left) - {k}
    ensures Contents(Remove(t, k)) == Contents(t) - {k}
  {
    Split(t);
    Irreflexive(k);
    if k in Keys(t.right) {
      Asymmetric(k, t.key);
    }
    RemoveOne(Contents(t.left), Contents(t.right), t.key, t.value, k);
  }

  lemma RemoveRightContents(t: Tree, k: string)
    requires IsBST(t) && t.Branch? && Less(t.key, k)
    requires Contents(Remove(t.right, k)) == Contents(t.right) - {k}
    ensures Contents(Remove(t, k)) == Contents(t) - {k}
  {
    Split(t);
    Irreflexive(k);
    Asymmetric(t.key, k);
    RemoveOther(Contents(t.left), Contents(t.right), t.key, t.value, k);
  }

  lemma RemoveRootContents(t: Tree)
    requires IsBST(t) && t.Branch?
    ensures Contents(Remove(t, t.key)) == Contents(t) - {t.key}
  {
    Split(t);
    Irreflexive(t.key);
    if t.left.Branch? && t.right.Branch? {
      RemoveRootTwo(t);
    } else {
      DropRootKey(Contents(t.left), Contents(t.right), t.key, t.value);
      assert Contents(Empty) + Contents(t.right) == Contents(t.right);
      assert Contents(t.left) + Contents(Empty) == Contents(t.left);
    }
  }

  lemma RemoveRootTwo(t: Tree)
    requires IsBST(t) && t.Branch? && t.left.Branch? && t.right.Branch?
    ensures Contents(Remove(t, t.key)) == Contents(t) - {t.key}
  {
    Split(t);
    Irreflexive(t.key);
    var r := t.right;
    MinFacts(r);
    DropMinContents(r);
    assert Remove(t, t.key) == Branch(t.left, MinPair(r).0, MinPair(r).1, DropMin(r));
    SuccessorMove(Contents(t.left), Contents(r), t.key, t.value, MinPair(r).0, MinPair(r).1);
  }

  /** Moving the successor's pair into the deleted root's place, as maps. */
  lemma SuccessorMove(cl: map<string, string>, cr: map<string, string>, k: string, v: string, mk: string, mv: string)
    requires k !in cl && k !in cr && cl.Keys !! cr.Keys && mk in cr && cr[mk] == mv
    ensures (cl + (cr - {mk}))[mk := mv] == (cl + cr)[k := v] - {k}
  {
  }

  lemma DropRootKey(cl: map<string, string>, cr: map<string, string>, k: string, v: string)
    requires k !in cl && k !in cr
    ensures (cl + cr)[k := v] - {k} == cl + cr
  {
  }

  lemma RemoveOther(ca: map<string, string>, cb: map<string, string>, key: string, v: string, k: string)
    requires k !in ca && k != key
    ensures (ca + (cb - {k}))[key := v] == (ca + cb)[key := v] - {k}
  {
  }

  lemma RemoveOne(ca: map<string, string>, cb: map<string, string>, key: string, v: string, k: string)
    requires k !in cb && k != key
    ensures (ca - {k} + cb)[key := v] == (ca + cb)[key := v] - {k}
  {
  }

  /** A root with one child cannot be deleted as written, though the intended deletion moves the child up. */
  lemma DeleteRootWithOneChild()
    ensures Delete(Branch(Empty, "a", "1", Branch(Empty, "b", "2", Empty)), "a") == Err(AttributeError)
    ensures Remove(Branch(Empty, "a", "1", Branch(Empty, "b", "2", Empty)), "a") == Branch(Empty, "b", "2", Empty)
  {
  }

  /** Deleting a node with two children loses the successor's right subtree ("d" here). */
  lemma DeleteLosesSuccessorSubtree()
    ensures
      var t := Branch(Branch(Empty, "a", "1", Empty), "b", "2", Branch(Empty, "c", "3", Branch(Empty, "d", "4", Empty)));
      && Delete(t, "b") == Ok(Branch(Branch(Empty, "a", "1", Empty), "c", "3", Empty))
      && Remove(t, "b") == Branch(Branch(Empty, "a", "1", Empty), "c", "3", Branch(Empty, "d", "4", Empty))
  {
    assert Less("a", "b") && Less("b", "c") && Less("c", "d");
  }

  // Range queries

  /** The intended slice is the sorted listing of the contents restricted to the range. */
  lemma SliceIsListing(t: Tree, start: Option<string>, stop: Option<string>)
    requires IsBST(t)
    ensures Slice(t, start, stop) == Listing(Restrict(Contents(t), start, stop))
  {
    InOrderIsListing(t);
    FilterListing(Contents(t), start, stop);
  }

  /** With a given end, the scan over an ascending listing keeps exactly the pairs in range. */
  lemma {:induction false} ScanIsFilter(ps: seq<Pair>, start: Option<string>, stop: Option<string>)
    requires Ascending(ps) && stop.Some?
    ensures Scan(ps, start, stop) == Filter(ps, start, stop)
    decreases |ps|
  {
    if ps != [] {
      if PastStop(ps[0].0, stop) {
        Asymmetric(stop.value, ps[0].0);
        Irreflexive(stop.value);
        FilterPastStop(ps, start, stop.value);
      } else {
        HeadFresh(ps);
        ScanIsFilter(ps[1..], start, stop);
      }
    }
  }

  /** `_find_range_root` answers with the whole tree, nothing, or AttributeError. */
  lemma {:induction false} RangeRootCases(t: Tree, start: Option<string>, stop: Option<string>)
    ensures RangeRoot(t, start, stop) == Ok(t) || RangeRoot(t, start, stop) == Ok(Empty)
      || RangeRoot(t, start, stop) == Err(AttributeError)
    ensures RangeRoot(t, start, stop) == Ok(t) <==> (t.Empty? && start.None? && stop.None?) || (t.Branch? && InRange(t.key, start, stop))
  {
    if t.Branch? && !InRange(t.key, start, stop) {
      RangeRootCases(t.left, start, stop);
      RangeRootCases(t.right, start, stop);
    }
  }

  /** Whatever `find_range` returns is a prefix of the intended slice. */
  lemma FindRangePrefix(t: Tree, start: Option<string>, stop: Option<string>)
    requires IsBST(t) && FindRange(t, start, stop).Ok?
    ensures FindRange(t, start, stop).value <= Slice(t, start, stop)
  {
    RangeRootCases(t, start, stop);
    if RangeRoot(t, start, stop) == Ok(t) && t.Branch? {
      if stop.Some? {
        InOrderAscending(t);
        ScanIsFilter(InOrder(t), start, stop);
      }
    }
  }

  /** When the root's key lies in a range with an end, `find_range` returns the whole slice. */
  lemma FindRangeRootInRange(t: Tree, start: Option<string>, stop: Option<string>)
    requires IsBST(t) && t.Branch? && InRange(t.key, start, stop) && stop.Some?
    ensures FindRange(t, start, stop) == Ok(Slice(t, start, stop))
  {
    InOrderAscending(t);
    ScanIsFilter(InOrder(t), start, stop);
  }

  /** When the root's key lies outside the range, `find_range` returns nothing or raises. */
  lemma FindRangeRootOutside(t: Tree, start: Option<string>, stop: Option<string>)
    requires t.Branch? && !InRange(t.key, start, stop)
    ensures FindRange(t, start, stop) == Ok([]) || FindRange(t, start, stop) == Err(AttributeError)
  {
    RangeRootCases(t, start, stop);
  }

  /** With an open end, `find_range` returns at most the first pair it visits. */
  lemma FindRangeOpenEnd(t: Tree, start: Option<string>)
    requires FindRange(t, start, None).Ok?
    ensures |FindRange(t, start, None).value| <= 1
  {
  }

  /** Without a tree, `find_range` answers only when both bounds are None. */
  lemma FindRangeEmpty(start: Option<string>, stop: Option<string>)
    ensures FindRange(Empty, start, stop) == if start.None? && stop.None? then Ok([]) else Err(AttributeError)
  {
  }

  lemma {:induction false} RangeRootInverted(t: Tree, lo: string, hi: string)
    requires Less(hi, lo)
    ensures RangeRoot(t, Some(lo), Some(hi)) == Err(AttributeError)
  {
    if t.Branch? {
      Trichotomy(hi, t.key);
      if Less(hi, t.key) {
        Asymmetric(hi, t.key);
        RangeRootInverted(t.left, lo, hi);
      } else {
        if t.key != hi {
          Transitive(t.key, hi, lo);
        }
        Asymmetric(t.key, lo);
        Irreflexive(lo);
        RangeRootInverted(t.right, lo, hi);
      }
    }
  }

  /** A range whose start lies above its end always raises AttributeError. */
  lemma FindRangeInverted(t: Tree, lo: string, hi: string)
    requires Less(hi, lo)
    ensures FindRange(t, Some(lo), Some(hi)) == Err(AttributeError)
  {
    RangeRootInverted(t, lo, hi);
  }

  /** A range below the root's key is not looked for in the left subtree. */
  lemma FindRangeMissesLeftSubtree()
    ensures
      var t := Branch(Branch(Empty, "a", "1", Empty), "b", "2", Empty);
      && FindRange(t, Some("a"), Some("a")) == Ok([])
      && Slice(t, Some("a"), Some("a")) == [("a", "1")]
  {
    assert Less("a", "b");
  }

  /** A range with an open end returns only the first pair. */
  lemma FindRangeOpenEndStopsEarly()
    ensures
      var t := Branch(Empty, "a", "1", Branch(Empty, "b", "2", Empty));
      && FindRange(t, Some("a"), None) == Ok([("a", "1")])
      && Slice(t, Some("a"), None) == [("a", "1"), ("b", "2")]
  {
    var t := Branch(Empty, "a", "1", Branch(Empty, "b", "2", Empty));
    assert Less("a", "b");
    assert InOrder(t) == [("a", "1"), ("b", "2")];
    assert RangeRoot(t, Some("a"), None) == Ok(t);
    assert InRange("a", Some("a"), None);
    assert Scan(InOrder(t), Some("a"), None) == [("a", "1")];
  }
}
