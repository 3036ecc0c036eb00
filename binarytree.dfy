/**
  * The linked binary search tree that holds one key's columns. Node objects live in an
  * arena `nodes`, and a link to a node is its index in the arena, with `Nil` for None. Each node
  * carries its key, value, children and parent, as the Python Node does, and the tree methods
  * update those fields in place. A ghost `Shape` records which arena indices form the tree, and
  * `Abs` reads the tree that shape denotes as a `SearchTree.Tree`. Each operation is proved to
  * act on that tree as the matching `SearchTree` function does.
  */
module BinaryTree {
  import opened Wrappers
  import opened StringOrder
  import opened ColumnList
  import ST = SearchTree

  /** The link that stands for None. */
  const Nil: int := -1

  /** A node object: key, value and the links to its children and its parent. */
  datatype Node = Node(key: string, value: string, left: int, right: int, parent: int)

  /** The arena indices of a tree's nodes, arranged as the tree. */
  datatype Shape = NoNode | At(left: Shape, index: nat, right: Shape)

  ghost function Indices(s: Shape): set<nat> {
    match s
    case NoNode => {}
    case At(l, i, r) => Indices(l) + {i} + Indices(r)
  }

  /** No arena index occurs twice in a shape. */
  ghost predicate Distinct(s: Shape) {
    match s
    case NoNode => true
    case At(l, i, r) =>
      && i !in Indices(l) && i !in Indices(r) && Indices(l) !! Indices(r)
      && Distinct(l) && Distinct(r)
  }

  /** Following child links from `link` traces out exactly the shape s. */
  ghost predicate Linked(nodes: seq<Node>, link: int, s: Shape)
    decreases s
  {
    match s
    case NoNode => link == Nil
    case At(l, i, r) =>
      && link == i && i < |nodes|
      && Linked(nodes, nodes[i].left, l) && Linked(nodes, nodes[i].right, r)
  }

  /** Every node of the shape points back to its parent in the shape, and its root to `par`. */
  ghost predicate Parented(nodes: seq<Node>, s: Shape, par: int) {
    match s
    case NoNode => true
    case At(l, i, r) =>
      && i < |nodes| && nodes[i].parent == par
      && Parented(nodes, l, i) && Parented(nodes, r, i)
  }

  /** The tree a shape denotes. */
  ghost function Abs(nodes: seq<Node>, s: Shape): ST.Tree {
    match s
    case NoNode => ST.Empty
    case At(l, i, r) =>
      if i < |nodes| then ST.Branch(Abs(nodes, l), nodes[i].key, nodes[i].value, Abs(nodes, r)) else ST.Empty
  }

  /** The part of s rooted at index x. */
  ghost function SubAt(s: Shape, x: nat): Shape {
    match s
    case NoNode => NoNode
    case At(l, i, r) => if i == x then s else if x in Indices(l) then SubAt(l, x) else SubAt(r, x)
  }

  /** The parent of index x in s, when the root of s has parent `par`. */
  ghost function ParentIn(s: Shape, x: nat, par: int): int {
    match s
    case NoNode => Nil
    case At(l, i, r) => if i == x then par else if x in Indices(l) then ParentIn(l, x, i) else ParentIn(r, x, i)
  }

  /** s with the part rooted at index x replaced by t. */
  ghost function Replace(s: Shape, x: nat, t: Shape): Shape {
    match s
    case NoNode => NoNode
    case At(l, i, r) =>
      if i == x then t
      else if x in Indices(l) then At(Replace(l, x, t), i, r)
      else At(l, i, Replace(r, x, t))
  }

  /** The index of the leftmost node of a shape. */
  ghost function Leftmost(s: Shape): nat
    requires s.At?
  {
    if s.left.NoNode? then s.index else Leftmost(s.left)
  }

  /** A parent whose child link to x now points to c. */
  ghost function Detach(pn: Node, x: int, c: int): Node {
    if pn.left == x then pn.(left := c) else if pn.right == x then pn.(right := c) else pn
  }

  /** Every link in an order is a node of the arena. */
  ghost predicate InArena(nodes: seq<Node>, order: seq<int>) {
    forall j :: 0 <= j < |order| ==> 0 <= order[j] < |nodes|
  }

  /** The (key, value) tuples of the nodes at the given links, in order. */
  function PairsOf(nodes: seq<Node>, order: seq<int>): (ps: seq<Pair>)
    requires InArena(nodes, order)
    ensures |ps| == |order|
  {
    if order == [] then [] else [(nodes[order[0]].key, nodes[order[0]].value)] + PairsOf(nodes, order[1..])
  }

  lemma {:induction false} PairsOfAppend(nodes: seq<Node>, a: seq<int>, b: seq<int>)
    requires InArena(nodes, a) && InArena(nodes, b)
    ensures InArena(nodes, a + b) && PairsOf(nodes, a + b) == PairsOf(nodes, a) + PairsOf(nodes, b)
  {
    assert InArena(nodes, a + b) by {
      forall j | 0 <= j < |a + b|
        ensures 0 <= (a + b)[j] < |nodes|
      {
        if j >= |a| {
          assert (a + b)[j] == b[j - |a|];
        }
      }
    }
    if a == [] {
      assert a + b == b;
    } else {
      var c := a + b;
      assert c[0] == a[0];
      assert c[1..] == a[1..] + b;
      assert InArena(nodes, a[1..]);
      PairsOfAppend(nodes, a[1..], b);
    }
  }

  lemma {:induction false} PairsOfAt(nodes: seq<Node>, order: seq<int>)
    requires InArena(nodes, order)
    ensures |PairsOf(nodes, order)| == |order|
    ensures forall j :: 0 <= j < |order| ==> PairsOf(nodes, order)[j] == (nodes[order[j]].key, nodes[order[j]].value)
  {
    if order != [] {
      PairsOfAt(nodes, order[1..]);
    }
  }

  /** One step of the `find_range` loop: the pairs kept so far, followed by what the rest of the
      walk would keep, is what the whole walk keeps. */
  lemma ScanStep(w: seq<Pair>, kept: seq<Pair>, total: seq<Pair>, start: Option<string>, stop: Option<string>)
    requires w != [] && kept + ST.Scan(w, start, stop) == total
    ensures var kept' := if InRange(w[0].0, start, stop) then kept + [w[0]] else kept;
      && (ST.PastStop(w[0].0, stop) ==> kept' == total)
      && (!ST.PastStop(w[0].0, stop) ==> kept' + ST.Scan(w[1..], start, stop) == total)
  {
    var inRange := InRange(w[0].0, start, stop);
    var past := ST.PastStop(w[0].0, stop);
    var rest := ST.Scan(w[1..], start, stop);
    assert ST.Scan(w, start, stop) == (if inRange then [w[0]] else []) + (if past then [] else rest);
    JoinStep(kept, w[0], rest, inRange, past, total);
  }

  /** The sequence algebra behind `ScanStep`, free of the predicates that decide its two flags. */
  lemma JoinStep(kept: seq<Pair>, p: Pair, rest: seq<Pair>, keep: bool, stop: bool, total: seq<Pair>)
    requires kept + ((if keep then [p] else []) + (if stop then [] else rest)) == total
    ensures var kept' := if keep then kept + [p] else kept;
      && (stop ==> kept' == total)
      && (!stop ==> kept' + rest == total)
  {
    if keep {
      if stop {
        assert [p] + [] == [p];
      } else {
        assert kept + ([p] + rest) == kept + [p] + rest;
      }
    } else {
      if stop {
        assert kept + ([] + []) == kept;
      } else {
        assert [] + rest == rest;
      }
    }
  }

  /** One pass of the `find_range` loop over the link at position j of the walk. */
  lemma RangeLoopStep(nodes: seq<Node>, order: seq<int>, j: int, kept: seq<int>, start: Option<string>, stop: Option<string>)
    requires InArena(nodes, order) && 0 <= j < |order| && InArena(nodes, kept)
    requires PairsOf(nodes, kept) + ST.Scan(PairsOf(nodes, order)[j..], start, stop) == ST.Scan(PairsOf(nodes, order), start, stop)
    ensures var key := nodes[order[j]].key;
      var kept' := if InRange(key, start, stop) then kept + [order[j]] else kept;
      && InArena(nodes, kept')
      && (ST.PastStop(key, stop) ==> PairsOf(nodes, kept') == ST.Scan(PairsOf(nodes, order), start, stop))
      && (!ST.PastStop(key, stop) ==>
            PairsOf(nodes, kept') + ST.Scan(PairsOf(nodes, order)[j + 1..], start, stop) == ST.Scan(PairsOf(nodes, order), start, stop))
  {
    var walk := PairsOf(nodes, order);
    PairsOfAt(nodes, order);
    assert walk[j..][0] == walk[j] && walk[j..][1..] == walk[j + 1..];
    ScanStep(walk[j..], PairsOf(nodes, kept), ST.Scan(walk, start, stop), start, stop);
    PairsOfPush(nodes, kept, order[j]);
  }

  /** Appending one link appends its pair. */
  lemma PairsOfPush(nodes: seq<Node>, order: seq<int>, x: int)
    requires InArena(nodes, order) && 0 <= x < |nodes|
    ensures InArena(nodes, order + [x]) && PairsOf(nodes, order + [x]) == PairsOf(nodes, order) + [(nodes[x].key, nodes[x].value)]
  {
    PairsOfAppend(nodes, order, [x]);
    assert PairsOf(nodes, [x]) == [(nodes[x].key, nodes[x].value)] + PairsOf(nodes, []);
  }

  // Facts about shapes

  /** A linked shape lies in the arena, is empty exactly for Nil, and is rooted at the link. */
  lemma {:induction false} LinkedBasics(nodes: seq<Node>, link: int, s: Shape)
    requires Linked(nodes, link, s)
    ensures forall i :: i in Indices(s) ==> i < |nodes|
    ensures s.NoNode? <==> link == Nil
    ensures s.At? ==> link == s.index && 0 <= link < |nodes|
    decreases s
  {
    if s.At? {
      LinkedBasics(nodes, nodes[s.index].left, s.left);
      LinkedBasics(nodes, nodes[s.index].right, s.right);
    }
  }

  /** Links stay traced when no node of the shape has its child links changed. */
  lemma {:induction false} LinkFrame(nodes: seq<Node>, nodes': seq<Node>, link: int, s: Shape)
    requires Linked(nodes, link, s)
    requires forall i :: i in Indices(s) ==> i < |nodes| && i < |nodes'| && nodes'[i].left == nodes[i].left && nodes'[i].right == nodes[i].right
    ensures Linked(nodes', link, s)
    decreases s
  {
    if s.At? {
      LinkFrame(nodes, nodes', nodes[s.index].left, s.left);
      LinkFrame(nodes, nodes', nodes[s.index].right, s.right);
    }
  }

  /** Parent links stay right when no node of the shape has its parent link changed. */
  lemma {:induction false} ParentFrame(nodes: seq<Node>, nodes': seq<Node>, s: Shape, par: int)
    requires Parented(nodes, s, par)
    requires forall i :: i in Indices(s) ==> i < |nodes| && i < |nodes'| && nodes'[i].parent == nodes[i].parent
    ensures Parented(nodes', s, par)
  {
    if s.At? {
      ParentFrame(nodes, nodes', s.left, s.index);
      ParentFrame(nodes, nodes', s.right, s.index);
    }
  }

  /** The denoted tree stays the same when no node of the shape has its key or value changed. */
  lemma {:induction false} AbsFrame(nodes: seq<Node>, nodes': seq<Node>, s: Shape)
    requires forall i :: i in Indices(s) ==> i < |nodes| && i < |nodes'| && nodes'[i].key == nodes[i].key && nodes'[i].value == nodes[i].value
    ensures Abs(nodes', s) == Abs(nodes, s)
  {
    if s.At? {
      assert Indices(s) == Indices(s.left) + {s.index} + Indices(s.right);
      AbsFrame(nodes, nodes', s.left);
      AbsFrame(nodes, nodes', s.right);
    }
  }

  /** A shape whose nodes are all unchanged keeps its links, parents and tree. */
  lemma Unchanged(nodes: seq<Node>, nodes': seq<Node>, link: int, s: Shape, par: int)
    requires Linked(nodes, link, s) && Parented(nodes, s, par)
    requires forall i :: i in Indices(s) ==> i < |nodes| && i < |nodes'| && nodes'[i] == nodes[i]
    ensures Linked(nodes', link, s) && Parented(nodes', s, par) && Abs(nodes', s) == Abs(nodes, s)
  {
    LinkedBasics(nodes, link, s);
    LinkFrame(nodes, nodes', link, s);
    ParentFrame(nodes, nodes', s, par);
    AbsFrame(nodes, nodes', s);
  }

  /** Every node's key is a key of the denoted tree. */
  lemma {:induction false} KeyIn(nodes: seq<Node>, link: int, s: Shape, x: nat)
    requires Linked(nodes, link, s) && x in Indices(s)
    ensures x < |nodes| && nodes[x].key in ST.Keys(Abs(nodes, s))
    decreases s
  {
    if x != s.index {
      if x in Indices(s.left) {
        KeyIn(nodes, nodes[s.index].left, s.left, x);
      } else {
        KeyIn(nodes, nodes[s.index].right, s.right, x);
      }
    }
  }

  /** The part rooted at a node of a well-formed shape is itself well formed, hangs from the node's
      parent, and that parent links to it. */
  lemma {:induction false} SubAtFacts(nodes: seq<Node>, link: int, s: Shape, par: int, x: nat)
    requires Linked(nodes, link, s) && Parented(nodes, s, par) && Distinct(s) && x in Indices(s)
    ensures SubAt(s, x).At? && SubAt(s, x).index == x && x < |nodes|
    ensures Linked(nodes, x, SubAt(s, x)) && Parented(nodes, SubAt(s, x), ParentIn(s, x, par)) && Distinct(SubAt(s, x))
    ensures Indices(SubAt(s, x)) <= Indices(s)
    ensures nodes[x].parent == ParentIn(s, x, par)
    ensures x == s.index ==> ParentIn(s, x, par) == par
    ensures x != s.index ==> ParentIn(s, x, par) in Indices(s) - Indices(SubAt(s, x))
    ensures x != s.index ==> var p := ParentIn(s, x, par);
      0 <= p < |nodes| && (nodes[p].left == x || nodes[p].right == x) && !(nodes[p].left == x && nodes[p].right == x)
    decreases s
  {
    var i := s.index;
    if x != i {
      var sub := if x in Indices(s.left) then s.left else s.right;
      var sublink := if x in Indices(s.left) then nodes[i].left else nodes[i].right;
      SubAtFacts(nodes, sublink, sub, i, x);
      LinkedBasics(nodes, nodes[i].left, s.left);
      LinkedBasics(nodes, nodes[i].right, s.right);
    }
  }

  /** The leftmost node of a shape holds the smallest pair of its tree, and cutting it (with its
      right part) from the shape denotes cutting the smallest pair from the tree. */
  lemma {:induction false} LeftmostFacts(nodes: seq<Node>, link: int, s: Shape)
    requires Linked(nodes, link, s) && s.At?
    ensures Leftmost(s) in Indices(s) && Leftmost(s) < |nodes|
    ensures ST.MinPair(Abs(nodes, s)) == (nodes[Leftmost(s)].key, nodes[Leftmost(s)].value)
    decreases s
  {
    LinkedBasics(nodes, link, s);
    if s.left.At? {
      LeftmostFacts(nodes, nodes[s.index].left, s.left);
    }
  }

  /** The precondition of relinking: the part of s at x is to become sx', reached by the link c';
      only nodes inside the old part change, besides x's parent, whose link to x becomes c'. */
  ghost predicate Relinks(nodes: seq<Node>, nodes': seq<Node>, link: int, s: Shape, par: int, x: nat, sx': Shape, c': int) {
    && Linked(nodes, link, s) && Parented(nodes, s, par) && Distinct(s) && x in Indices(s)
    && |nodes'| == |nodes| && (forall i :: i in Indices(s) ==> i < |nodes|)
    && Linked(nodes', c', sx') && Parented(nodes', sx', ParentIn(s, x, par)) && Distinct(sx')
    && Indices(sx') <= Indices(SubAt(s, x))
    && (forall i :: i in Indices(s) && i !in Indices(SubAt(s, x)) && i != ParentIn(s, x, par) ==> nodes'[i] == nodes[i])
    && (ParentIn(s, x, par) in Indices(s) ==> nodes'[ParentIn(s, x, par)] == Detach(nodes[ParentIn(s, x, par)], x, c'))
  }

  /** What relinking establishes: the new shape is linked from `link`, hangs from `par`, has no
      repeats and uses only indices of the old shape. */
  ghost predicate Rewired(nodes': seq<Node>, link: int, s': Shape, par: int, old_indices: set<nat>) {
    Linked(nodes', link, s') && Parented(nodes', s', par) && Distinct(s') && Indices(s') <= old_indices
  }

  /** Relinking the part at x keeps the whole shape linked, parented and free of repeats. */
  lemma {:induction false} Rewire(nodes: seq<Node>, nodes': seq<Node>, link: int, s: Shape, par: int, x: nat, sx': Shape, c': int)
    requires Relinks(nodes, nodes', link, s, par, x, sx', c')
    ensures Rewired(nodes', if x == s.index then c' else link, Replace(s, x, sx'), par, Indices(s))
    decreases s
  {
    var i := s.index;
    if x != i {
      LinkedBasics(nodes, link, s);
      if x in Indices(s.left) {
        RelinksLeft(nodes, nodes', link, s, par, x, sx', c');
        Rewire(nodes, nodes', nodes[i].left, s.left, i, x, sx', c');
        RewireJoinLeft(nodes, nodes', link, s, par, x, sx', c');
      } else {
        RelinksRight(nodes, nodes', link, s, par, x, sx', c');
        Rewire(nodes, nodes', nodes[i].right, s.right, i, x, sx', c');
        RewireJoinRight(nodes, nodes', link, s, par, x, sx', c');
      }
    }
  }

  lemma RelinksLeft(nodes: seq<Node>, nodes': seq<Node>, link: int, s: Shape, par: int, x: nat, sx': Shape, c': int)
    requires Relinks(nodes, nodes', link, s, par, x, sx', c') && x != s.index && x in Indices(s.left)
    ensures s.index < |nodes| && Relinks(nodes, nodes', nodes[s.index].left, s.left, s.index, x, sx', c')
  {
    assert SubAt(s, x) == SubAt(s.left, x) && ParentIn(s, x, par) == ParentIn(s.left, x, s.index);
  }

  lemma RelinksRight(nodes: seq<Node>, nodes': seq<Node>, link: int, s: Shape, par: int, x: nat, sx': Shape, c': int)
    requires Relinks(nodes, nodes', link, s, par, x, sx', c') && x != s.index && x !in Indices(s.left)
    ensures s.index < |nodes| && Relinks(nodes, nodes', nodes[s.index].right, s.right, s.index, x, sx', c')
  {
    assert SubAt(s, x) == SubAt(s.right, x) && ParentIn(s, x, par) == ParentIn(s.right, x, s.index);
  }

  lemma RewireJoinLeft(nodes: seq<Node>, nodes': seq<Node>, link: int, s: Shape, par: int, x: nat, sx': Shape, c': int)
    requires Relinks(nodes, nodes', link, s, par, x, sx', c') && x != s.index && x in Indices(s.left)
    requires s.index < |nodes|
    requires Rewired(nodes', if x == s.left.index then c' else nodes[s.index].left, Replace(s.left, x, sx'), s.index, Indices(s.left))
    ensures Rewired(nodes', link, Replace(s, x, sx'), par, Indices(s))
  {
    var i := s.index;
    var px := ParentIn(s, x, par);
    SubAtFacts(nodes, link, s, par, x);
    assert SubAt(s, x) == SubAt(s.left, x) && px == ParentIn(s.left, x, i);
    LinkedBasics(nodes, nodes[i].left, s.left);
    SubAtFacts(nodes, nodes[i].left, s.left, i, x);
    assert px == i || px in Indices(s.left);
    forall j | j in Indices(s.right)
      ensures j < |nodes| && j < |nodes'| && nodes'[j] == nodes[j]
    {
      assert j !in Indices(s.left) && j != i;
    }
    Unchanged(nodes, nodes', nodes[i].right, s.right, i);
    if x == s.left.index {
      assert ParentIn(s, x, par) == i;
      assert nodes'[i] == nodes[i].(left := c');
    } else {
      assert nodes'[i] == nodes[i];
    }
  }

  lemma RewireJoinRight(nodes: seq<Node>, nodes': seq<Node>, link: int, s: Shape, par: int, x: nat, sx': Shape, c': int)
    requires Relinks(nodes, nodes', link, s, par, x, sx', c') && x != s.index && x !in Indices(s.left)
    requires s.index < |nodes|
    requires Rewired(nodes', if x == s.right.index then c' else nodes[s.index].right, Replace(s.right, x, sx'), s.index, Indices(s.right))
    ensures Rewired(nodes', link, Replace(s, x, sx'), par, Indices(s))
  {
    var i := s.index;
    var px := ParentIn(s, x, par);
    SubAtFacts(nodes, link, s, par, x);
    assert SubAt(s, x) == SubAt(s.right, x) && px == ParentIn(s.right, x, i);
    LinkedBasics(nodes, nodes[i].right, s.right);
    SubAtFacts(nodes, nodes[i].right, s.right, i, x);
    assert px == i || px in Indices(s.right);
    forall j | j in Indices(s.left)
      ensures j < |nodes| && j < |nodes'| && nodes'[j] == nodes[j]
    {
      assert j !in Indices(s.right) && j != i;
    }
    Unchanged(nodes, nodes', nodes[i].left, s.left, i);
    if x == s.right.index {
      assert ParentIn(s, x, par) == i;
      assert nodes'[i] == nodes[i].(right := c');
    } else {
      assert nodes'[i] == nodes[i];
    }
  }

  /** In a search tree, relinking the part at node x denotes grafting the new part where the
      search for x's key ends. */
  lemma {:induction false} RewireAbs(nodes: seq<Node>, nodes': seq<Node>, link: int, s: Shape, par: int, x: nat, sx': Shape, c': int)
    requires Relinks(nodes, nodes', link, s, par, x, sx', c') && ST.IsBST(Abs(nodes, s))
    ensures x < |nodes| && Abs(nodes', Replace(s, x, sx')) == ST.Graft(Abs(nodes, s), nodes[x].key, Abs(nodes', sx'))
    decreases s
  {
    var i := s.index;
    LinkedBasics(nodes, link, s);
    if x != i {
      if x in Indices(s.left) {
        RelinksLeft(nodes, nodes', link, s, par, x, sx', c');
        RewireAbs(nodes, nodes', nodes[i].left, s.left, i, x, sx', c');
        RewireAbsLeft(nodes, nodes', link, s, par, x, sx', c');
      } else {
        RelinksRight(nodes, nodes', link, s, par, x, sx', c');
        RewireAbs(nodes, nodes', nodes[i].right, s.right, i, x, sx', c');
        RewireAbsRight(nodes, nodes', link, s, par, x, sx', c');
      }
    }
  }

  /** The root of s keeps its key and value, and the part of s not holding x is untouched. */
  lemma RootKept(nodes: seq<Node>, nodes': seq<Node>, link: int, s: Shape, par: int, x: nat, sx': Shape, c': int)
    requires Relinks(nodes, nodes', link, s, par, x, sx', c') && x != s.index
    ensures s.index < |nodes| && nodes'[s.index].key == nodes[s.index].key && nodes'[s.index].value == nodes[s.index].value
    ensures x in Indices(s.left) ==> Abs(nodes', s.right) == Abs(nodes, s.right)
    ensures x !in Indices(s.left) ==> Abs(nodes', s.left) == Abs(nodes, s.left)
  {
    var i := s.index;
    LinkedBasics(nodes, link, s);
    SubAtFacts(nodes, link, s, par, x);
    var sub := if x in Indices(s.left) then s.left else s.right;
    var other := if x in Indices(s.left) then s.right else s.left;
    var sublink := if x in Indices(s.left) then nodes[i].left else nodes[i].right;
    assert SubAt(s, x) == SubAt(sub, x) && ParentIn(s, x, par) == ParentIn(sub, x, i);
    LinkedBasics(nodes, sublink, sub);
    SubAtFacts(nodes, sublink, sub, i, x);
    AbsFrame(nodes, nodes', other);
  }

  lemma RewireAbsLeft(nodes: seq<Node>, nodes': seq<Node>, link: int, s: Shape, par: int, x: nat, sx': Shape, c': int)
    requires Relinks(nodes, nodes', link, s, par, x, sx', c') && ST.IsBST(Abs(nodes, s))
    requires x != s.index && x in Indices(s.left) && s.index < |nodes| && x < |nodes|
    requires Abs(nodes', Replace(s.left, x, sx')) == ST.Graft(Abs(nodes, s.left), nodes[x].key, Abs(nodes', sx'))
    ensures Abs(nodes', Replace(s, x, sx')) == ST.Graft(Abs(nodes, s), nodes[x].key, Abs(nodes', sx'))
  {
    var i := s.index;
    RootKept(nodes, nodes', link, s, par, x, sx', c');
    KeyIn(nodes, nodes[i].left, s.left, x);
    Irreflexive(nodes[i].key);
  }

  lemma RewireAbsRight(nodes: seq<Node>, nodes': seq<Node>, link: int, s: Shape, par: int, x: nat, sx': Shape, c': int)
    requires Relinks(nodes, nodes', link, s, par, x, sx', c') && ST.IsBST(Abs(nodes, s))
    requires x != s.index && x !in Indices(s.left) && s.index < |nodes| && x < |nodes|
    requires Abs(nodes', Replace(s.right, x, sx')) == ST.Graft(Abs(nodes, s.right), nodes[x].key, Abs(nodes', sx'))
    ensures Abs(nodes', Replace(s, x, sx')) == ST.Graft(Abs(nodes, s), nodes[x].key, Abs(nodes', sx'))
  {
    var i := s.index;
    RootKept(nodes, nodes', link, s, par, x, sx', c');
    KeyIn(nodes, nodes[i].right, s.right, x);
    Irreflexive(nodes[i].key);
    Asymmetric(nodes[i].key, nodes[x].key);
  }

  // Insertion, branch by branch

  /** Hanging a fresh leaf as the missing right child of a subtree's root inserts its pair there. */
  lemma HangRight(nodes: seq<Node>, nodes': seq<Node>, sub: int, s: Shape, par: int, node: int)
    requires Linked(nodes, sub, s) && s.At? && Parented(nodes, s, par) && Distinct(s)
    requires 0 <= node < |nodes| && node !in Indices(s) && nodes[node].left == Nil && nodes[node].right == Nil
    requires nodes[sub].right == Nil && Less(nodes[sub].key, nodes[node].key)
    requires nodes' == nodes[sub := nodes[sub].(right := node)][node := nodes[node].(parent := sub)]
    ensures var s' := At(s.left, sub, At(NoNode, node, NoNode));
      && Linked(nodes', sub, s') && Parented(nodes', s', par) && Distinct(s')
      && Abs(nodes', s') == ST.Insert(Abs(nodes, s), nodes[node].key, nodes[node].value)
  {
    LinkedBasics(nodes, sub, s);
    LinkedBasics(nodes, nodes[sub].left, s.left);
    LinkedBasics(nodes, nodes[sub].right, s.right);
    Unchanged(nodes, nodes', nodes[sub].left, s.left, sub);
    assert s == At(s.left, sub, NoNode);
    assert Abs(nodes, s.right) == ST.Empty;
    var t := Abs(nodes, s);
    assert t == ST.Branch(Abs(nodes, s.left), nodes[sub].key, nodes[sub].value, ST.Empty);
    var s' := At(s.left, sub, At(NoNode, node, NoNode));
    assert Abs(nodes', s'.right) == ST.Insert(ST.Empty, nodes[node].key, nodes[node].value);
    assert Abs(nodes', s') == ST.Branch(t.left, t.key, t.value, Abs(nodes', s'.right));
  }

  /** Hanging a fresh leaf as the missing left child of a subtree's root inserts its pair there. */
  lemma HangLeft(nodes: seq<Node>, nodes': seq<Node>, sub: int, s: Shape, par: int, node: int)
    requires Linked(nodes, sub, s) && s.At? && Parented(nodes, s, par) && Distinct(s)
    requires 0 <= node < |nodes| && node !in Indices(s) && nodes[node].left == Nil && nodes[node].right == Nil
    requires nodes[sub].left == Nil && Less(nodes[node].key, nodes[sub].key) && !Less(nodes[sub].key, nodes[node].key)
    requires nodes' == nodes[sub := nodes[sub].(left := node)][node := nodes[node].(parent := sub)]
    ensures var s' := At(At(NoNode, node, NoNode), sub, s.right);
      && Linked(nodes', sub, s') && Parented(nodes', s', par) && Distinct(s')
      && Abs(nodes', s') == ST.Insert(Abs(nodes, s), nodes[node].key, nodes[node].value)
  {
    LinkedBasics(nodes, sub, s);
    LinkedBasics(nodes, nodes[sub].left, s.left);
    LinkedBasics(nodes, nodes[sub].right, s.right);
    Unchanged(nodes, nodes', nodes[sub].right, s.right, sub);
    assert s == At(NoNode, sub, s.right);
    assert Abs(nodes, s.left) == ST.Empty;
    var t := Abs(nodes, s);
    assert t == ST.Branch(ST.Empty, nodes[sub].key, nodes[sub].value, Abs(nodes, s.right));
    var s' := At(At(NoNode, node, NoNode), sub, s.right);
    assert Abs(nodes', s'.left) == ST.Insert(ST.Empty, nodes[node].key, nodes[node].value);
    assert Abs(nodes', s') == ST.Branch(Abs(nodes', s'.left), t.key, t.value, t.right);
  }

  /** Once the right subtree has taken the pair, the whole subtree has. */
  lemma DescendRight(nodes: seq<Node>, nodes': seq<Node>, sub: int, s: Shape, par: int, node: int, r': Shape)
    requires Linked(nodes, sub, s) && s.At? && Parented(nodes, s, par) && Distinct(s)
    requires 0 <= node < |nodes| && node !in Indices(s) && Less(nodes[sub].key, nodes[node].key)
    requires |nodes'| == |nodes| && Linked(nodes', nodes[sub].right, r') && Parented(nodes', r', sub) && Distinct(r')
    requires Indices(r') <= Indices(s.right) + {node}
    requires Abs(nodes', r') == ST.Insert(Abs(nodes, s.right), nodes[node].key, nodes[node].value)
    requires forall i :: 0 <= i < |nodes| && i !in Indices(s.right) && i != node ==> nodes'[i] == nodes[i]
    ensures var s' := At(s.left, sub, r');
      && Linked(nodes', sub, s') && Parented(nodes', s', par) && Distinct(s')
      && Abs(nodes', s') == ST.Insert(Abs(nodes, s), nodes[node].key, nodes[node].value)
  {
    LinkedBasics(nodes, sub, s);
    LinkedBasics(nodes, nodes[sub].left, s.left);
    assert nodes'[sub] == nodes[sub];
    Unchanged(nodes, nodes', nodes[sub].left, s.left, sub);
    var t := Abs(nodes, s);
    assert t == ST.Branch(Abs(nodes, s.left), nodes[sub].key, nodes[sub].value, Abs(nodes, s.right));
    var s' := At(s.left, sub, r');
    assert Abs(nodes', s') == ST.Branch(t.left, t.key, t.value, Abs(nodes', r'));
  }

  /** Once the left subtree has taken the pair, the whole subtree has. */
  lemma DescendLeft(nodes: seq<Node>, nodes': seq<Node>, sub: int, s: Shape, par: int, node: int, l': Shape)
    requires Linked(nodes, sub, s) && s.At? && Parented(nodes, s, par) && Distinct(s)
    requires 0 <= node < |nodes| && node !in Indices(s)
    requires Less(nodes[node].key, nodes[sub].key) && !Less(nodes[sub].key, nodes[node].key)
    requires |nodes'| == |nodes| && Linked(nodes', nodes[sub].left, l') && Parented(nodes', l', sub) && Distinct(l')
    requires Indices(l') <= Indices(s.left) + {node}
    requires Abs(nodes', l') == ST.Insert(Abs(nodes, s.left), nodes[node].key, nodes[node].value)
    requires forall i :: 0 <= i < |nodes| && i !in Indices(s.left) && i != node ==> nodes'[i] == nodes[i]
    ensures var s' := At(l', sub, s.right);
      && Linked(nodes', sub, s') && Parented(nodes', s', par) && Distinct(s')
      && Abs(nodes', s') == ST.Insert(Abs(nodes, s), nodes[node].key, nodes[node].value)
  {
    LinkedBasics(nodes, sub, s);
    LinkedBasics(nodes, nodes[sub].right, s.right);
    assert nodes'[sub] == nodes[sub];
    Unchanged(nodes, nodes', nodes[sub].right, s.right, sub);
    var t := Abs(nodes, s);
    assert t == ST.Branch(Abs(nodes, s.left), nodes[sub].key, nodes[sub].value, Abs(nodes, s.right));
    var s' := At(l', sub, s.right);
    assert Abs(nodes', s') == ST.Branch(Abs(nodes', l'), t.key, t.value, t.right);
  }

  /** Copying the value into the node that holds the key is the insertion of an existing key. */
  lemma Overwrite(nodes: seq<Node>, nodes': seq<Node>, sub: int, s: Shape, par: int, node: int)
    requires Linked(nodes, sub, s) && s.At? && Parented(nodes, s, par) && Distinct(s)
    requires 0 <= node < |nodes| && nodes[node].key == nodes[sub].key
    requires nodes' == nodes[sub := nodes[sub].(value := nodes[node].value)]
    ensures Linked(nodes', sub, s) && Parented(nodes', s, par)
    ensures Abs(nodes', s) == ST.Insert(Abs(nodes, s), nodes[node].key, nodes[node].value)
  {
    LinkedBasics(nodes, sub, s);
    LinkedBasics(nodes, nodes[sub].left, s.left);
    LinkedBasics(nodes, nodes[sub].right, s.right);
    Unchanged(nodes, nodes', nodes[sub].left, s.left, sub);
    Unchanged(nodes, nodes', nodes[sub].right, s.right, sub);
    var t := Abs(nodes, s);
    assert t == ST.Branch(Abs(nodes, s.left), nodes[sub].key, nodes[sub].value, Abs(nodes, s.right));
    Irreflexive(t.key);
    assert Abs(nodes', s) == ST.Branch(t.left, t.key, nodes[node].value, t.right);
  }

  // Deletion, case by case

  /** Relinking the found node's place in the way `Unlink` prescribes carries out `SearchTree.Delete`. */
  lemma DeleteAt(nodes: seq<Node>, nodes': seq<Node>, root: int, S: Shape, x: nat, key: string, sx': Shape, c': int)
    requires WellFormedAt(nodes, root, S) && ST.IsBST(Abs(nodes, S)) && S.At?
    requires x in Indices(S) && x < |nodes| && nodes[x].key == key
    requires Abs(nodes, SubAt(S, x)) == ST.Find(Abs(nodes, S), key) && ST.Find(Abs(nodes, S), key).Branch?
    requires S.index < |nodes| && (x == S.index <==> nodes[S.index].key == key)
    requires Relinks(nodes, nodes', root, S, Nil, x, sx', c') && (x == S.index ==> c' == x)
    requires ST.Unlink(Abs(nodes, SubAt(S, x)), x == S.index) == Ok(Abs(nodes', sx'))
    ensures WellFormedAt(nodes', root, Replace(S, x, sx'))
    ensures ST.Delete(Abs(nodes, S), key) == Ok(Abs(nodes', Replace(S, x, sx')))
  {
    LinkedBasics(nodes, root, S);
    SubAtFacts(nodes, root, S, Nil, x);
    Rewire(nodes, nodes', root, S, Nil, x, sx', c');
    RewireAbs(nodes, nodes', root, S, Nil, x, sx', c');
  }

  /** A node without children that is not the root: `_kill_node` unlinks it from its parent. */
  lemma LeafRelinks(nodes: seq<Node>, root: int, S: Shape, x: nat)
    requires WellFormedAt(nodes, root, S) && x in Indices(S)
    requires x < |nodes| && nodes[x].left == Nil && nodes[x].right == Nil && nodes[x].parent != Nil
    ensures x != S.index && 0 <= nodes[x].parent < |nodes|
    ensures SubAt(S, x).At? && Abs(nodes, SubAt(S, x)).Branch?
    ensures var p := nodes[x].parent;
      var detached := nodes[p := Detach(nodes[p], x, Nil)];
      var nodes' := detached[x := detached[x].(parent := Nil)];
      && Relinks(nodes, nodes', root, S, Nil, x, NoNode, Nil)
      && ST.Unlink(Abs(nodes, SubAt(S, x)), false) == Ok(Abs(nodes', NoNode))
  {
    LinkedBasics(nodes, root, S);
    SubAtFacts(nodes, root, S, Nil, x);
    var sx := SubAt(S, x);
    LinkedBasics(nodes, nodes[x].left, sx.left);
    LinkedBasics(nodes, nodes[x].right, sx.right);
  }

  /** A node with one child that is not the root: `_replace_parent_with_child` hangs the child from
      the node's parent. */
  lemma OneChildRelinks(nodes: seq<Node>, root: int, S: Shape, x: nat, c: int)
    requires WellFormedAt(nodes, root, S) && x in Indices(S) && x < |nodes| && nodes[x].parent != Nil
    requires (c == nodes[x].left && nodes[x].right == Nil) || (c == nodes[x].right && nodes[x].left == Nil)
    requires c != Nil
    ensures x != S.index && 0 <= nodes[x].parent < |nodes| && 0 <= c < |nodes|
    ensures SubAt(S, x).At? && Abs(nodes, SubAt(S, x)).Branch?
    ensures var pp := nodes[x].parent;
      var relinked := nodes[pp := Detach(nodes[pp], x, c)];
      var nodes' := relinked[c := relinked[c].(parent := pp)];
      var cs := if c == nodes[x].left then SubAt(S, x).left else SubAt(S, x).right;
      && Relinks(nodes, nodes', root, S, Nil, x, cs, c)
      && ST.Unlink(Abs(nodes, SubAt(S, x)), false) == Ok(Abs(nodes', cs))
  {
    LinkedBasics(nodes, root, S);
    SubAtFacts(nodes, root, S, Nil, x);
    var sx := SubAt(S, x);
    var pp := nodes[x].parent;
    LinkedBasics(nodes, nodes[x].left, sx.left);
    LinkedBasics(nodes, nodes[x].right, sx.right);
    var cs := if c == nodes[x].left then sx.left else sx.right;
    assert Indices(cs) <= Indices(sx);
    assert x != S.index && pp == ParentIn(S, x, Nil) && pp !in Indices(sx);
    assert cs.At? && cs.index == c && c in Indices(sx) && c != pp;
    var relinked := nodes[pp := Detach(nodes[pp], x, c)];
    var nodes' := relinked[c := relinked[c].(parent := pp)];
    assert nodes'[c] == nodes[c].(parent := pp);
    assert nodes'[pp] == Detach(nodes[pp], x, c);
    forall i | i in Indices(cs)
      ensures i < |nodes| && i < |nodes'| && nodes'[i] == if i == c then nodes[c].(parent := pp) else nodes[i]
    {
      assert i in Indices(sx) && i != pp;
    }
    LinkFrame(nodes, nodes', c, cs);
    ParentFrame(nodes, nodes', cs.left, c);
    ParentFrame(nodes, nodes', cs.right, c);
    AbsFrame(nodes, nodes', cs);
    OneChildUnlink(nodes, x, sx, c, cs);
  }

  /** A node with one child unlinks to that child's subtree. */
  lemma OneChildUnlink(nodes: seq<Node>, x: nat, sx: Shape, c: int, cs: Shape)
    requires Linked(nodes, x, sx) && sx.At?
    requires (c == nodes[x].left && nodes[x].right == Nil) || (c == nodes[x].right && nodes[x].left == Nil)
    requires c != Nil && cs == (if c == nodes[x].left then sx.left else sx.right)
    ensures Abs(nodes, sx).Branch? && ST.Unlink(Abs(nodes, sx), false) == Ok(Abs(nodes, cs))
  {
    LinkedBasics(nodes, x, sx);
    LinkedBasics(nodes, nodes[x].left, sx.left);
    LinkedBasics(nodes, nodes[x].right, sx.right);
    var f := Abs(nodes, sx);
    assert f == ST.Branch(Abs(nodes, sx.left), nodes[x].key, nodes[x].value, Abs(nodes, sx.right));
    if c == nodes[x].left {
      assert Abs(nodes, sx.right) == ST.Empty && f.left.Branch?;
    } else {
      assert Abs(nodes, sx.left) == ST.Empty && f.right.Branch?;
    }
  }

  /** `_kill_node` on the leftmost node of x's right part: the node is unlinked from its parent,
      taking its right part along, which cuts the smallest pair from the right subtree. */
  lemma SuccessorCut(nodes1: seq<Node>, r: int, cr: Shape, x: nat)
    requires Linked(nodes1, r, cr) && Parented(nodes1, cr, x) && Distinct(cr) && cr.At? && ST.IsBST(Abs(nodes1, cr))
    requires x < |nodes1| && x !in Indices(cr) && nodes1[x].right == r
    requires forall i :: i in Indices(cr) ==> nodes1[x].left != i
    ensures Leftmost(cr) in Indices(cr) && Leftmost(cr) < |nodes1| && 0 <= nodes1[Leftmost(cr)].parent < |nodes1|
    ensures var m := Leftmost(cr); var pm := nodes1[m].parent;
      var detached := nodes1[pm := Detach(nodes1[pm], m, Nil)];
      var nodes2 := detached[m := detached[m].(parent := Nil)];
      && (pm == x || pm in Indices(cr)) && (m == cr.index <==> pm == x)
      && Rewired(nodes2, if m == cr.index then Nil else r, Replace(cr, m, NoNode), x, Indices(cr))
      && Abs(nodes2, Replace(cr, m, NoNode)) == ST.CutMin(Abs(nodes1, cr))
      && nodes2[x] == (if pm == x then nodes1[x].(right := Nil) else nodes1[x])
  {
    LinkedBasics(nodes1, r, cr);
    LeftmostFacts(nodes1, r, cr);
    var m := Leftmost(cr);
    SubAtFacts(nodes1, r, cr, x, m);
    var pm := nodes1[m].parent;
    var detached := nodes1[pm := Detach(nodes1[pm], m, Nil)];
    var nodes2 := detached[m := detached[m].(parent := Nil)];
    assert Relinks(nodes1, nodes2, r, cr, x, m, NoNode, Nil);
    Rewire(nodes1, nodes2, r, cr, x, m, NoNode, Nil);
    RewireAbs(nodes1, nodes2, r, cr, x, m, NoNode, Nil);
    ST.GraftMin(Abs(nodes1, cr));
  }

  /** The successor `_find_successor` reaches from a node with two children, and its parent. */
  ghost predicate Successor(nodes: seq<Node>, root: int, S: Shape, x: nat, m: nat)
  {
    && WellFormedAt(nodes, root, S) && x in Indices(S) && x < |nodes|
    && nodes[x].left != Nil && nodes[x].right != Nil
    && SubAt(S, x).At? && SubAt(S, x).right.At? && m == Leftmost(SubAt(S, x).right)
  }

  /** The arena after the successor's pair is copied into x and `_kill_node` unlinks the successor. */
  ghost function AfterSuccessorKill(nodes: seq<Node>, x: nat, m: nat): seq<Node>
    requires x < |nodes| && m < |nodes| && 0 <= nodes[m].parent < |nodes| && m != x
  {
    var nodes1 := nodes[x := nodes[x].(key := nodes[m].key, value := nodes[m].value)];
    var pm := nodes1[m].parent;
    var detached := nodes1[pm := Detach(nodes1[pm], m, Nil)];
    detached[m := detached[m].(parent := Nil)]
  }

  /** Locating the successor: it lies in x's right part, below x. */
  lemma SuccessorFacts(nodes: seq<Node>, root: int, S: Shape, x: nat)
    requires WellFormedAt(nodes, root, S) && x in Indices(S) && x < |nodes|
    requires nodes[x].left != Nil && nodes[x].right != Nil
    ensures SubAt(S, x).At? && SubAt(S, x).right.At? && SubAt(S, x).left.At?
    ensures Successor(nodes, root, S, x, Leftmost(SubAt(S, x).right))
    ensures Leftmost(SubAt(S, x).right) in Indices(SubAt(S, x).right)
    ensures Leftmost(SubAt(S, x).right) < |nodes| && Leftmost(SubAt(S, x).right) != x
    ensures 0 <= nodes[Leftmost(SubAt(S, x).right)].parent < |nodes|
  {
    LinkedBasics(nodes, root, S);
    SubAtFacts(nodes, root, S, Nil, x);
    var sx := SubAt(S, x);
    LinkedBasics(nodes, nodes[x].left, sx.left);
    LinkedBasics(nodes, nodes[x].right, sx.right);
    LeftmostFacts(nodes, nodes[x].right, sx.right);
    var m := Leftmost(sx.right);
    SubAtFacts(nodes, nodes[x].right, sx.right, x, m);
  }

  /** The new part at x after the successor is killed: x keeps its left part and now holds the
      successor's pair over the right part without its smallest pair. */
  lemma TwoChildrenPart(nodes: seq<Node>, root: int, S: Shape, x: nat, m: nat)
    requires Successor(nodes, root, S, x, m) && ST.IsBST(Abs(nodes, SubAt(S, x)))
    requires m < |nodes| && m != x && 0 <= nodes[m].parent < |nodes|
    ensures |AfterSuccessorKill(nodes, x, m)| == |nodes| && forall i :: i in Indices(S) ==> i < |nodes|
    ensures Abs(nodes, SubAt(S, x)).Branch? && Abs(nodes, SubAt(S, x)).right.Branch?
    ensures var sx := SubAt(S, x); var nodes2 := AfterSuccessorKill(nodes, x, m);
      var sx' := At(sx.left, x, Replace(sx.right, m, NoNode));
      var found := Abs(nodes, sx);
      && Rewired(nodes2, x, sx', ParentIn(S, x, Nil), Indices(sx))
      && (forall i :: i in Indices(S) && i !in Indices(sx) ==> nodes2[i] == nodes[i])
      && Abs(nodes2, sx') == ST.Branch(found.left, ST.MinPair(found.right).0, ST.MinPair(found.right).1, ST.CutMin(found.right))
  {
    LinkedBasics(nodes, root, S);
    SubAtFacts(nodes, root, S, Nil, x);
    var sx := SubAt(S, x);
    var r := nodes[x].right;
    var cr := sx.right;
    LinkedBasics(nodes, nodes[x].left, sx.left);
    LinkedBasics(nodes, r, cr);
    var nodes1 := nodes[x := nodes[x].(key := nodes[m].key, value := nodes[m].value)];
    Unchanged(nodes, nodes1, r, cr, x);
    SuccessorCut(nodes1, r, cr, x);
    var nodes2 := AfterSuccessorKill(nodes, x, m);
    forall i | i in Indices(sx.left)
      ensures i < |nodes| && i < |nodes2| && nodes2[i] == nodes[i]
    {
      assert i != x && i !in Indices(cr);
    }
    Unchanged(nodes, nodes2, nodes[x].left, sx.left, x);
    LeftmostFacts(nodes, r, cr);
  }

  /** A node with two children: copying the successor's pair in and killing the successor gives
      x's place the two-children result of `Unlink`. */
  lemma TwoChildrenRelinks(nodes: seq<Node>, root: int, S: Shape, x: nat, m: nat)
    requires Successor(nodes, root, S, x, m) && ST.IsBST(Abs(nodes, SubAt(S, x)))
    requires m < |nodes| && m != x && 0 <= nodes[m].parent < |nodes|
    ensures Abs(nodes, SubAt(S, x)).Branch?
    ensures var sx := SubAt(S, x); var nodes2 := AfterSuccessorKill(nodes, x, m);
      var sx' := At(sx.left, x, Replace(sx.right, m, NoNode));
      && Relinks(nodes, nodes2, root, S, Nil, x, sx', x)
      && ST.Unlink(Abs(nodes, sx), x == S.index) == Ok(Abs(nodes2, sx'))
  {
    SubAtFacts(nodes, root, S, Nil, x);
    TwoChildrenPart(nodes, root, S, x, m);
    var px := ParentIn(S, x, Nil);
    if px in Indices(S) {
      assert Detach(nodes[px], x, x) == nodes[px];
    }
  }

  /** x is the node `_find_node_for_key` returns for key in a well-formed search tree. */
  ghost predicate Found(nodes: seq<Node>, root: int, S: Shape, x: nat, key: string) {
    && WellFormedAt(nodes, root, S) && ST.IsBST(Abs(nodes, S)) && S.At? && S.index < |nodes|
    && x in Indices(S) && x < |nodes| && nodes[x].key == key
    && ST.Find(Abs(nodes, S), key).Branch? && Abs(nodes, SubAt(S, x)) == ST.Find(Abs(nodes, S), key)
    && (x == S.index <==> nodes[S.index].key == key)
  }

  /** The end of `delete`: the arena holds a well-formed tree, and outcome and tree are those
      of `SearchTree.Delete` on the tree before. */
  ghost predicate Deleted(nodes0: seq<Node>, root: int, S: Shape, key: string, nodes: seq<Node>, S': Shape, outcome: Outcome) {
    && WellFormedAt(nodes, root, S')
    && match ST.Delete(Abs(nodes0, S), key)
       case Ok(t) => outcome == Pass && Abs(nodes, S') == t
       case Err(e) => outcome == Fail(e) && Abs(nodes, S') == Abs(nodes0, S)
  }

  /** What `_find_node` returns for a key it finds is a `Found` node whose links lie in the arena. */
  lemma FoundStart(nodes: seq<Node>, root: int, S: Shape, x: nat, key: string)
    requires WellFormedAt(nodes, root, S) && ST.IsBST(Abs(nodes, S))
    requires x in Indices(S) && x < |nodes| && nodes[x].key == key
    requires Abs(nodes, SubAt(S, x)) == ST.Find(Abs(nodes, S), key) && !ST.Find(Abs(nodes, S), key).Empty?
    requires S.At? ==> (x == S.index <==> nodes[S.index].key == key)
    ensures Found(nodes, root, S, x, key)
    ensures SubAt(S, x).At? && Linked(nodes, x, SubAt(S, x))
    ensures nodes[x].parent == Nil || 0 <= nodes[x].parent < |nodes|
  {
    LinkedBasics(nodes, root, S);
    SubAtFacts(nodes, root, S, Nil, x);
  }

  lemma AbsentDone(T: ST.Tree, key: string)
    requires ST.IsBST(T) && ST.Find(T, key).Empty?
    ensures ST.Delete(T, key) == Ok(T)
    ensures ST.Contents(T) - ({key} + ST.Lost(T, key)) == ST.Contents(T)
  {
    ST.FindCorrect(T, key);
    ST.ContentsKeys(T);
    ST.DeleteAbsent(T, key);
    assert ST.Lost(T, key) == {};
  }

  /** The root found with fewer than two children: `delete` raises AttributeError and changes nothing. */
  lemma RootFails(nodes: seq<Node>, root: int, S: Shape, x: nat, key: string)
    requires Found(nodes, root, S, x, key) && nodes[x].parent == Nil
    requires nodes[x].left == Nil || nodes[x].right == Nil
    ensures Deleted(nodes, root, S, key, nodes, S, Fail(AttributeError))
  {
    LinkedBasics(nodes, root, S);
    SubAtFacts(nodes, root, S, Nil, x);
    assert x == S.index;
    LinkedBasics(nodes, nodes[x].left, S.left);
    LinkedBasics(nodes, nodes[x].right, S.right);
    var T := Abs(nodes, S);
    assert T == ST.Branch(Abs(nodes, S.left), key, nodes[x].value, Abs(nodes, S.right));
    assert T.left.Empty? || T.right.Empty?;
    ST.DeleteFails(T, key);
  }

  /** A found node without children: `_kill_node` detaches it, or raises at the root. */
  lemma LeafCase(nodes: seq<Node>, root: int, S: Shape, x: nat, key: string)
    requires Found(nodes, root, S, x, key) && nodes[x].left == Nil && nodes[x].right == Nil
    requires nodes[x].parent == Nil || 0 <= nodes[x].parent < |nodes|
    ensures var p := nodes[x].parent;
      if p == Nil then Deleted(nodes, root, S, key, nodes, S, Fail(AttributeError))
      else
        var detached := nodes[p := Detach(nodes[p], x, Nil)];
        Deleted(nodes, root, S, key, detached[x := detached[x].(parent := Nil)], Replace(S, x, NoNode), Pass)
  {
    if nodes[x].parent == Nil {
      RootFails(nodes, root, S, x, key);
    } else {
      LeafRelinks(nodes, root, S, x);
      var p := nodes[x].parent;
      var detached := nodes[p := Detach(nodes[p], x, Nil)];
      DeleteAt(nodes, detached[x := detached[x].(parent := Nil)], root, S, x, key, NoNode, Nil);
    }
  }

  /** A found node with one child: `_replace_parent_with_child` hangs the child from the node's
      parent, or raises at the root. */
  lemma OneChildCase(nodes: seq<Node>, root: int, S: Shape, x: nat, key: string, c: int)
    requires Found(nodes, root, S, x, key) && c != Nil
    requires (c == nodes[x].left && nodes[x].right == Nil) || (c == nodes[x].right && nodes[x].left == Nil)
    requires nodes[x].parent == Nil || 0 <= nodes[x].parent < |nodes|
    ensures 0 <= c < |nodes| && SubAt(S, x).At?
    ensures var pp := nodes[x].parent;
      if pp == Nil then Deleted(nodes, root, S, key, nodes, S, Fail(AttributeError))
      else
        var relinked := nodes[pp := Detach(nodes[pp], x, c)];
        var cs := if c == nodes[x].left then SubAt(S, x).left else SubAt(S, x).right;
        Deleted(nodes, root, S, key, relinked[c := relinked[c].(parent := pp)], Replace(S, x, cs), Pass)
  {
    LinkedBasics(nodes, root, S);
    SubAtFacts(nodes, root, S, Nil, x);
    LinkedBasics(nodes, nodes[x].left, SubAt(S, x).left);
    LinkedBasics(nodes, nodes[x].right, SubAt(S, x).right);
    if nodes[x].parent == Nil {
      RootFails(nodes, root, S, x, key);
    } else {
      OneChildRelinks(nodes, root, S, x, c);
      var pp := nodes[x].parent;
      var relinked := nodes[pp := Detach(nodes[pp], x, c)];
      var cs := if c == nodes[x].left then SubAt(S, x).left else SubAt(S, x).right;
      DeleteAt(nodes, relinked[c := relinked[c].(parent := pp)], root, S, x, key, cs, c);
    }
  }

  lemma TwoChildrenDone(nodes: seq<Node>, root: int, S: Shape, x: nat, key: string, m: nat)
    requires Found(nodes, root, S, x, key) && Successor(nodes, root, S, x, m)
    requires m < |nodes| && m != x && 0 <= nodes[m].parent < |nodes|
    ensures var sx := SubAt(S, x);
      Deleted(nodes, root, S, key, AfterSuccessorKill(nodes, x, m), Replace(S, x, At(sx.left, x, Replace(sx.right, m, NoNode))), Pass)
  {
    ST.FindOrdered(Abs(nodes, S), key);
    TwoChildrenRelinks(nodes, root, S, x, m);
    var sx := SubAt(S, x);
    DeleteAt(nodes, AfterSuccessorKill(nodes, x, m), root, S, x, key, At(sx.left, x, Replace(sx.right, m, NoNode)), x);
  }

  /** What `delete` leaves behind is a valid tree whose contents lose the key and, for two
      children, the keys under the successor; a failure leaves the key in place. */
  lemma DeletedValid(nodes0: seq<Node>, root: int, S: Shape, key: string, nodes: seq<Node>, S': Shape, outcome: Outcome)
    requires ST.IsBST(Abs(nodes0, S)) && Deleted(nodes0, root, S, key, nodes, S', outcome)
    ensures ST.IsBST(Abs(nodes, S'))
    ensures outcome.Pass? ==> ST.Contents(Abs(nodes, S')) == ST.Contents(Abs(nodes0, S)) - ({key} + ST.Lost(Abs(nodes0, S), key))
    ensures outcome.Fail? ==> outcome.error == AttributeError && key in ST.Contents(Abs(nodes0, S))
  {
    var T := Abs(nodes0, S);
    ST.DeleteFails(T, key);
    ST.ContentsKeys(T);
    if ST.Delete(T, key).Ok? {
      ST.DeleteCorrect(T, key);
    }
  }

  /** The arena holds a tree whose shape is traced from `root`, with parent links back up and
      the root's parent None. */
  ghost predicate WellFormedAt(nodes: seq<Node>, root: int, shape: Shape) {
    Linked(nodes, root, shape) && Parented(nodes, shape, Nil) && Distinct(shape)
  }

  /** The Python `BinaryTree` object: its node objects, modelled by the arena, and `_root`. */
  class BinaryTree {
    var nodes: seq<Node>
    var root: int
    ghost var shape: Shape

    ghost predicate WellFormed()
      reads this
    {
      WellFormedAt(nodes, root, shape)
    }

    /** The class invariant: a well-formed search tree. */
    ghost predicate Valid()
      reads this
    {
      WellFormed() && ST.IsBST(Tree())
    }

    /** The tree the object holds. */
    ghost function Tree(): ST.Tree
      reads this
    {
      Abs(nodes, shape)
    }

    /** The column map the object holds. */
    ghost function Contents(): map<string, string>
      reads this
    {
      ST.Contents(Tree())
    }

    constructor ()
      ensures Valid() && Tree() == ST.Empty && Contents() == map[]
    {
      nodes := [];
      root := Nil;
      shape := NoNode;
    }

    /** `insert`: a new node object is made for every call; it joins the tree unless the key is
        there already, in which case only the value is copied over. */
    method Insert(key: string, value: string)
      requires Valid()
      modifies this
      ensures Valid()
      ensures Tree() == ST.Insert(old(Tree()), key, value)
      ensures Contents() == old(Contents())[key := value]
    {
      nodes := nodes + [Node(key, value, Nil, Nil, Nil)];
      var node := |nodes| - 1;
      LinkedBasics(old(nodes), root, shape);
      Unchanged(old(nodes), nodes, root, shape, Nil);
      if root == Nil {
        root := node;
        shape := At(NoNode, node, NoNode);
      } else {
        shape := InsertInSubtree(node, root, shape, Nil);
      }
      ST.InsertOrdered(old(Tree()), key, value);
      ST.InsertContents(old(Tree()), key, value);
    }

    /** `_insert_in_subtree`: descend to the place of the node's key and link it there, or copy its
        value into the node that has the key. Returns the new shape of the subtree. */
    method InsertInSubtree(node: int, sub: int, ghost s: Shape, ghost par: int) returns (ghost s': Shape)
      requires 0 <= node < |nodes| && nodes[node].left == Nil && nodes[node].right == Nil
      requires Linked(nodes, sub, s) && s.At? && Parented(nodes, s, par) && Distinct(s) && node !in Indices(s)
      modifies this`nodes
      ensures |nodes| == old(|nodes|)
      ensures Linked(nodes, sub, s')
      ensures Parented(nodes, s', par)
      ensures Distinct(s')
      ensures Indices(s') <= Indices(s) + {node}
      ensures Abs(nodes, s') == ST.Insert(Abs(old(nodes), s), old(nodes[node].key), old(nodes[node].value))
      ensures forall i :: 0 <= i < |nodes| && i !in Indices(s) && i != node ==> nodes[i] == old(nodes[i])
      decreases s
    {
      LinkedBasics(nodes, sub, s);
      LinkedBasics(nodes, nodes[sub].left, s.left);
      LinkedBasics(nodes, nodes[sub].right, s.right);
      var n := nodes[node];
      var cur := nodes[sub];
      if Less(cur.key, n.key) {
        if cur.right == Nil {
          nodes := nodes[sub := cur.(right := node)];
          nodes := nodes[node := nodes[node].(parent := sub)];
          s' := At(s.left, sub, At(NoNode, node, NoNode));
          HangRight(old(nodes), nodes, sub, s, par, node);
        } else {
          var r' := InsertInSubtree(node, cur.right, s.right, sub);
          s' := At(s.left, sub, r');
          DescendRight(old(nodes), nodes, sub, s, par, node, r');
        }
      } else if Less(n.key, cur.key) {
        if cur.left == Nil {
          nodes := nodes[sub := cur.(left := node)];
          nodes := nodes[node := nodes[node].(parent := sub)];
          s' := At(At(NoNode, node, NoNode), sub, s.right);
          HangLeft(old(nodes), nodes, sub, s, par, node);
        } else {
          var l' := InsertInSubtree(node, cur.left, s.left, sub);
          s' := At(l', sub, s.right);
          DescendLeft(old(nodes), nodes, sub, s, par, node, l');
        }
      } else {
        // The keys are equal: the value is overwritten.
        Trichotomy(n.key, cur.key);
        nodes := nodes[sub := cur.(value := n.value)];
        s' := s;
        Overwrite(old(nodes), nodes, sub, s, par, node);
      }
    }

    /** `_iterate_subtree`: the links of a subtree's nodes, in order. */
    function IterateSubtree(link: int, ghost s: Shape): (order: seq<int>)
      reads this
      requires Linked(nodes, link, s)
      ensures InArena(nodes, order) && PairsOf(nodes, order) == ST.InOrder(Abs(nodes, s))
      decreases s
    {
      LinkedBasics(nodes, link, s);
      if link == Nil then []
      else
        var left := IterateSubtree(nodes[link].left, s.left);
        var right := IterateSubtree(nodes[link].right, s.right);
        PairsOfAppend(nodes, left, [link]);
        PairsOfAppend(nodes, left + [link], right);
        left + [link] + right
    }

    /** `_find_node`: the node of the subtree holding the key, or Nil when there is none. */
    function FindNode(key: string, link: int, ghost s: Shape): (found: int)
      reads this
      requires Linked(nodes, link, s) && Distinct(s)
      ensures found == Nil || found in Indices(s)
      ensures found == Nil <==> ST.Find(Abs(nodes, s), key).Empty?
      ensures found != Nil ==> found < |nodes| && nodes[found].key == key && Abs(nodes, SubAt(s, found)) == ST.Find(Abs(nodes, s), key)
      ensures found != Nil ==> ST.Find(Abs(nodes, s), key).value == nodes[found].value
      ensures s.At? ==> (found == s.index <==> nodes[s.index].key == key)
      decreases s
    {
      LinkedBasics(nodes, link, s);
      if link == Nil || nodes[link].key == key then link
      else if Less(key, nodes[link].key) then FindNode(key, nodes[link].left, s.left)
      else if Less(nodes[link].key, key) then FindNode(key, nodes[link].right, s.right)
      else Nil
    }

    /** `_find_node_for_key`: the node holding the key, or Nil. */
    function FindNodeForKey(key: string): (found: int)
      reads this
      requires Valid()
      ensures found == Nil <==> key !in Contents()
      ensures found != Nil ==> found in Indices(shape) && 0 <= found < |nodes|
      ensures found != Nil ==> nodes[found].key == key && nodes[found].value == Contents()[key]
    {
      ST.FindCorrect(Tree(), key);
      ST.ContentsKeys(Tree());
      FindNode(key, root, shape)
    }

    /** `all`: every (key, value) pair, in ascending key order. */
    function All(): (pairs: seq<Pair>)
      reads this
      requires Valid()
      ensures Ascending(pairs) && AsMap(pairs) == Contents()
      ensures pairs == Listing(Contents())
    {
      ST.InOrderIsListing(Tree());
      PairsOf(nodes, IterateSubtree(root, shape))
    }

    /** `get`: the value stored under the key, or None. */
    function Get(key: string): (r: Option<string>)
      reads this
      requires Valid()
      ensures r == if key in Contents() then Some(Contents()[key]) else None
    {
      var node := FindNodeForKey(key);
      if node == Nil then None else Some(nodes[node].value)
    }
  
    /** `_find_range_root`, nested in `find_range`: the subtree's root when its key is in range;
        otherwise the recursive call's answer is dropped and None comes back, unless the descent
        reaches a missing child and reads its `.key`, which raises AttributeError. */
    function FindRangeRoot(start: Option<string>, stop: Option<string>, link: int, ghost s: Shape): (r: Result<int>)
      reads this
      requires Linked(nodes, link, s)
      ensures r.Ok? ==> r.value == Nil || r.value == link
      ensures ST.RangeRoot(Abs(nodes, s), start, stop) ==
        match r
        case Ok(x) => Ok(if x == Nil then ST.Empty else Abs(nodes, s))
        case Err(e) => Err(e)
      decreases s
    {
      LinkedBasics(nodes, link, s);
      if link == Nil then
        if start.None? && stop.None? then Ok(Nil) else Err(AttributeError)
      else if InRange(nodes[link].key, start, stop) then Ok(link)
      else if stop.Some? && Less(stop.value, nodes[link].key) then
        match FindRangeRoot(start, stop, nodes[link].left, s.left)
        case Ok(_) => Ok(Nil)
        case Err(e) => Err(e)
      else if start.Some? && Less(nodes[link].key, start.value) then
        match FindRangeRoot(start, stop, nodes[link].right, s.right)
        case Ok(_) => Ok(Nil)
        case Err(e) => Err(e)
      else Ok(Nil)
    }

    /** `find_range`: find the range root, then collect the nodes of its subtree that lie in
        the range. */
    method FindRange(start: Option<string>, stop: Option<string>) returns (r: Result<seq<int>>)
      requires WellFormed()
      ensures match ST.FindRange(Tree(), start, stop)
        case Ok(ps) => r.Ok? && InArena(nodes, r.value) && PairsOf(nodes, r.value) == ps
        case Err(e) => r == Err(e)
    {
      var rangeRoot := FindRangeRoot(start, stop, root, shape);
      if rangeRoot.Err? {
        return Err(rangeRoot.error);
      }
      ghost var sub := if rangeRoot.value == Nil then NoNode else shape;
      var order := IterateSubtree(rangeRoot.value, sub);
      assert ST.FindRange(Tree(), start, stop) == Ok(ST.Scan(ST.InOrder(Abs(nodes, sub)), start, stop));
      var nodeRange := CollectRange(order, start, stop);
      return Ok(nodeRange);
    }

    /** The loop of `find_range`: walk the nodes in the given order, keep those in range, and
        return as soon as a key passes the end. */
    method CollectRange(order: seq<int>, start: Option<string>, stop: Option<string>) returns (nodeRange: seq<int>)
      requires InArena(nodes, order)
      ensures InArena(nodes, nodeRange)
      ensures PairsOf(nodes, nodeRange) == ST.Scan(PairsOf(nodes, order), start, stop)
    {
      ghost var walk := PairsOf(nodes, order);
      nodeRange := [];
      assert walk[0..] == walk;
      for j := 0 to |order|
        invariant InArena(nodes, nodeRange)
        invariant PairsOf(nodes, nodeRange) + ST.Scan(walk[j..], start, stop) == ST.Scan(walk, start, stop)
      {
        var node := order[j];
        RangeLoopStep(nodes, order, j, nodeRange, start, stop);
        if InRange(nodes[node].key, start, stop) {
          nodeRange := nodeRange + [node];
        }
        if ST.PastStop(nodes[node].key, stop) {
          return;
        }
      }
      assert walk[|order|..] == [];
    }

    /** `_find_successor`: from a node with a right child, one step right and then left while
        there is a left child. */
    method FindSuccessor(node: int, ghost s: Shape) returns (cur: int)
      requires Linked(nodes, node, s) && s.At? && s.right.At?
      ensures cur == Leftmost(s.right) && 0 <= cur < |nodes| && Abs(nodes, s.right).Branch?
      ensures (nodes[cur].key, nodes[cur].value) == ST.MinPair(Abs(nodes, s.right))
    {
      LinkedBasics(nodes, node, s);
      cur := nodes[node].right;
      ghost var cs := s.right;
      LinkedBasics(nodes, cur, cs);
      while nodes[cur].left != Nil
        invariant Linked(nodes, cur, cs) && cs.At? && 0 <= cur < |nodes|
        invariant Leftmost(cs) == Leftmost(s.right)
        decreases cs
      {
        cur := nodes[cur].left;
        cs := cs.left;
        LinkedBasics(nodes, cur, cs);
      }
      LeftmostFacts(nodes, nodes[node].right, s.right);
    }

    /** `_kill_node`: clear the parent's link to the node and the node's parent link. A node
        without a parent makes `parent.left` raise AttributeError. */
    method KillNode(node: int) returns (outcome: Outcome)
      requires 0 <= node < |nodes| && (nodes[node].parent == Nil || 0 <= nodes[node].parent < |nodes|)
      modifies this`nodes
      ensures var p := old(nodes)[node].parent;
        if p == Nil then outcome == Fail(AttributeError) && nodes == old(nodes)
        else
          var detached := old(nodes)[p := Detach(old(nodes)[p], node, Nil)];
          outcome == Pass && nodes == detached[node := detached[node].(parent := Nil)]
    {
      var parent := nodes[node].parent;
      if parent == Nil {
        return Fail(AttributeError);
      }
      if nodes[parent].left == node {
        nodes := nodes[parent := nodes[parent].(left := Nil)];
      } else if nodes[parent].right == node {
        nodes := nodes[parent := nodes[parent].(right := Nil)];
      }
      nodes := nodes[node := nodes[node].(parent := Nil)];
      return Pass;
    }

    /** `_replace_parent_with_child`: point the grandparent's link at the child and the child's
        parent link at the grandparent. `hasattr(parent, 'parent')` always holds, so a root
        without a parent makes `parents_parent.left` raise AttributeError. */
    method ReplaceParentWithChild(parent: int, child: int) returns (outcome: Outcome)
      requires 0 <= parent < |nodes| && 0 <= child < |nodes|
      requires nodes[parent].parent == Nil || 0 <= nodes[parent].parent < |nodes|
      modifies this`nodes
      ensures var pp := old(nodes)[parent].parent;
        if pp == Nil then outcome == Fail(AttributeError) && nodes == old(nodes)
        else
          var relinked := old(nodes)[pp := Detach(old(nodes)[pp], parent, child)];
          outcome == Pass && nodes == relinked[child := relinked[child].(parent := pp)]
    {
      var parentsParent := nodes[parent].parent;
      if parentsParent == Nil {
        return Fail(AttributeError);
      }
      if nodes[parentsParent].left == parent {
        nodes := nodes[parentsParent := nodes[parentsParent].(left := child)];
      } else if nodes[parentsParent].right == parent {
        nodes := nodes[parentsParent := nodes[parentsParent].(right := child)];
      }
      nodes := nodes[child := nodes[child].(parent := parentsParent)];
      return Pass;
    }

    /** The body of `delete` once the node holding the key is found: the cases by the node's
        children. */
    method DeleteNode(node: int, ghost key: string) returns (outcome: Outcome)
      requires 0 <= node && Found(nodes, root, shape, node, key)
      requires SubAt(shape, node).At? && Linked(nodes, node, SubAt(shape, node))
      requires nodes[node].parent == Nil || 0 <= nodes[node].parent < |nodes|
      modifies this`nodes, this`shape
      ensures Deleted(old(nodes), root, old(shape), key, nodes, shape, outcome)
    {
      ghost var sx := SubAt(shape, node);
      ghost var S := shape;
      var n := nodes[node];
      if n.left != Nil && n.right != Nil {
        outcome := DeleteWithSuccessor(node, key);
      } else if n.left != Nil {
        OneChildCase(nodes, root, shape, node, key, n.left);
        outcome := ReplaceParentWithChild(node, n.left);
        shape := if n.parent == Nil then S else Replace(S, node, sx.left);
      } else if n.right != Nil {
        OneChildCase(nodes, root, shape, node, key, n.right);
        outcome := ReplaceParentWithChild(node, n.right);
        shape := if n.parent == Nil then S else Replace(S, node, sx.right);
      } else {
        LeafCase(nodes, root, shape, node, key);
        outcome := KillNode(node);
        shape := if n.parent == Nil then S else Replace(S, node, NoNode);
      }
    }

    /** The two-children case of `delete`: the successor's key and value are copied into the
        node, and the successor node is cut off. */
    method DeleteWithSuccessor(node: int, ghost key: string) returns (outcome: Outcome)
      requires 0 <= node && Found(nodes, root, shape, node, key)
      requires SubAt(shape, node).At? && Linked(nodes, node, SubAt(shape, node))
      requires nodes[node].left != Nil && nodes[node].right != Nil
      modifies this`nodes, this`shape
      ensures Deleted(old(nodes), root, old(shape), key, nodes, shape, outcome)
    {
      ghost var sx := SubAt(shape, node);
      ghost var S, nodes0 := shape, nodes;
      SuccessorFacts(nodes, root, shape, node);
      var successor := FindSuccessor(node, sx);
      TwoChildrenDone(nodes, root, shape, node, key, successor);
      nodes := nodes[node := nodes[node].(key := nodes[successor].key, value := nodes[successor].value)];
      outcome := KillNode(successor);
      assert nodes == AfterSuccessorKill(nodes0, node, successor);
      shape := Replace(S, node, At(sx.left, node, Replace(sx.right, successor, NoNode)));
    }

    /** `delete`: find the node; with two children copy the successor's pair into it and kill
        the successor, with one child hang the child from the node's parent, and with none kill
        the node. The outcome and the new tree are those of `SearchTree.Delete`. */
    method Delete(key: string) returns (outcome: Outcome)
      requires Valid()
      modifies this
      ensures Valid()
      ensures match ST.Delete(old(Tree()), key)
        case Ok(t) => outcome == Pass && Tree() == t
        case Err(e) => outcome == Fail(e) && Tree() == old(Tree())
      ensures outcome.Pass? ==> Contents() == old(Contents()) - ({key} + ST.Lost(old(Tree()), key))
      ensures outcome.Fail? ==> outcome.error == AttributeError && key in old(Contents())
    {
      var node := FindNode(key, root, shape);
      ghost var T, S, nodes0 := Tree(), shape, nodes;
      if node == Nil {
        AbsentDone(T, key);
        return Pass;
      }
      FoundStart(nodes, root, shape, node, key);
      outcome := DeleteNode(node, key);
      DeletedValid(nodes0, root, S, key, nodes, shape, outcome);
    }
  }
}
