/** The split tree and its zipper, `bintree/src/lib.rs`. A cursor owns its tree:
    `it` is the subtree at the current position, `path` leads back to the root. */
module BinTree {
  import opened Wrappers
  import opened Sequences

  datatype Tree<L, N> =
    | Empty
    | Node(left: Tree<L, N>, right: Tree<L, N>, data: Option<N>)
    | Leaf(value: L)

  datatype Path<L, N> =
    | Top
    | Left(right: Tree<L, N>, data: Option<N>, up: Path<L, N>)
    | Right(left: Tree<L, N>, data: Option<N>, up: Path<L, N>)

  datatype Cursor<L, N> = Cursor(it: Tree<L, N>, path: Path<L, N>) {

    predicate IsLeaf() { it.Leaf? }
    predicate IsLeft() { path.Left? }
    predicate IsRight() { path.Right? }
    predicate IsTop() { path.Top? }

    function UnsplitLeaf(): Result<(Cursor<L, N>, L, Option<N>), Cursor<L, N>> {
      if !IsLeaf() || IsTop() then Err(this)
      else match path
        case Left(right, data, up) => Ok((Cursor(right, up), it.value, data))
        case Right(left, data, up) => Ok((Cursor(left, up), it.value, data))
    }

    function SplitNodeAndInsertLeft(leaf: L): Result<Cursor<L, N>, Cursor<L, N>> {
      if it.Node? then Ok(Cursor(Node(Leaf(leaf), it, None), path)) else Err(this)
    }

    function SplitNodeAndInsertRight(leaf: L): Result<Cursor<L, N>, Cursor<L, N>> {
      if it.Node? then Ok(Cursor(Node(it, Leaf(leaf), None), path)) else Err(this)
    }

    function SplitLeafAndInsertRight(right: L): Result<Cursor<L, N>, Cursor<L, N>> {
      if it.Leaf? then Ok(Cursor(Node(it, Leaf(right), None), path)) else Err(this)
    }

    function SplitLeafAndInsertLeft(left: L): Result<Cursor<L, N>, Cursor<L, N>> {
      if it.Leaf? then Ok(Cursor(Node(Leaf(left), it, None), path)) else Err(this)
    }

    function GoLeft(): Result<Cursor<L, N>, Cursor<L, N>> {
      if it.Node? then Ok(Cursor(it.left, Left(it.right, it.data, path))) else Err(this)
    }

    function GoRight(): Result<Cursor<L, N>, Cursor<L, N>> {
      if it.Node? then Ok(Cursor(it.right, Right(it.left, it.data, path))) else Err(this)
    }

    function GoUp(): Result<Cursor<L, N>, Cursor<L, N>> {
      match path
      case Top => Err(this)
      case Right(left, data, up) => Ok(Cursor(Node(left, it, data), up))
      case Left(right, data, up) => Ok(Cursor(Node(it, right, data), up))
    }

    /** The whole tree this cursor stands for. */
    function Whole(): Tree<L, N> { Plug(path, it) }
  }

  /** Puts `it` into the hole at the end of `path`. */
  function Plug<L, N>(path: Path<L, N>, it: Tree<L, N>): Tree<L, N> {
    match path
    case Top => it
    case Left(right, data, up) => Plug(up, Node(it, right, data))
    case Right(left, data, up) => Plug(up, Node(left, it, data))
  }

  function NumLeaves<L, N>(t: Tree<L, N>): nat {
    match t
    case Empty => 0
    case Leaf(_) => 1
    case Node(left, right, _) => NumLeaves(left) + NumLeaves(right)
  }

  /** No `Empty` anywhere: what the source calls a proper tree. */
  predicate Full<L, N>(t: Tree<L, N>) {
    match t
    case Empty => false
    case Leaf(_) => true
    case Node(left, right, _) => Full(left) && Full(right)
  }

  predicate FullPath<L, N>(p: Path<L, N>) {
    match p
    case Top => true
    case Left(right, _, up) => Full(right) && FullPath(up)
    case Right(left, _, up) => Full(left) && FullPath(up)
  }

  /** A cursor into a proper tree; the lone `Empty` root is allowed too. */
  predicate Proper<L, N>(c: Cursor<L, N>) {
    (c.it.Empty? && c.path.Top?) || (Full(c.it) && FullPath(c.path))
  }

  // ----- Moves and surgery undo each other -----

  lemma {:induction false} MovesKeepTree<L, N>(c: Cursor<L, N>)
    ensures c.GoLeft().Ok? ==> c.GoLeft().value.Whole() == c.Whole() && c.GoLeft().value.GoUp() == Ok(c)
    ensures c.GoRight().Ok? ==> c.GoRight().value.Whole() == c.Whole() && c.GoRight().value.GoUp() == Ok(c)
    ensures c.GoUp().Ok? ==>
              && c.GoUp().value.Whole() == c.Whole()
              && Ok(c) == if c.IsLeft() then c.GoUp().value.GoLeft() else c.GoUp().value.GoRight()
  {
  }

  /** Splitting a leaf and unsplitting the leaf that was put in is the identity. */
  lemma {:induction false} UnsplitUndoesSplit<L, N>(c: Cursor<L, N>, leaf: L)
    requires c.IsLeaf()
    ensures var s := c.SplitLeafAndInsertRight(leaf);
            && s.Ok? && s.value.GoRight().Ok?
            && s.value.GoRight().value.UnsplitLeaf() == Ok((c, leaf, None))
    ensures var s := c.SplitLeafAndInsertLeft(leaf);
            && s.Ok? && s.value.GoLeft().Ok?
            && s.value.GoLeft().value.UnsplitLeaf() == Ok((c, leaf, None))
  {
  }

  /** A tree with something at some position is not empty. */
  lemma WholeOfLeaf<L, N>(path: Path<L, N>, it: Tree<L, N>)
    requires !it.Empty?
    ensures !Plug(path, it).Empty?
    decreases path
  {
  }

  method ToTree<L, N>(c: Cursor<L, N>) returns (t: Tree<L, N>)
    ensures t == c.Whole()
  {
    var self := c;
    while true
      invariant self.Whole() == c.Whole()
      decreases self.path
    {
      match self.GoUp() {
        case Ok(up) => self := up;
        case Err(top) => return top.it;
      }
    }
  }

  // ----- Traversal orders -----

  /** Every position below (and including) `it`, root then left then right. */
  function Preorder<L, N>(it: Tree<L, N>, path: Path<L, N>): (r: seq<Cursor<L, N>>)
    ensures |r| > 0 && r[0] == Cursor(it, path)
    decreases it
  {
    [Cursor(it, path)] +
    (match it
     case Node(left, right, data) =>
       Preorder(left, Left(right, data, path)) + Preorder(right, Right(left, data, path))
     case _ => [])
  }

  /** Every position below `it`, root then right then left. */
  function RootRightLeft<L, N>(it: Tree<L, N>, path: Path<L, N>): (r: seq<Cursor<L, N>>)
    ensures |r| > 0 && r[0] == Cursor(it, path)
    decreases it
  {
    [Cursor(it, path)] +
    (match it
     case Node(left, right, data) =>
       RootRightLeft(right, Right(left, data, path)) + RootRightLeft(left, Left(right, data, path))
     case _ => [])
  }

  /** Every position below `it` in the textbook postorder: left, right, root. */
  function Postorder<L, N>(it: Tree<L, N>, path: Path<L, N>): seq<Cursor<L, N>>
    decreases it
  {
    (match it
     case Node(left, right, data) =>
       Postorder(left, Left(right, data, path)) + Postorder(right, Right(left, data, path))
     case _ => [])
    + [Cursor(it, path)]
  }

  /** Positions a preorder walk meets after it has finished with the subtree `it`. */
  function PreorderAfter<L, N>(it: Tree<L, N>, path: Path<L, N>): seq<Cursor<L, N>>
    decreases path
  {
    match path
    case Top => []
    case Left(right, data, up) =>
      Preorder(right, Right(it, data, up)) + PreorderAfter(Node(it, right, data), up)
    case Right(left, data, up) => PreorderAfter(Node(left, it, data), up)
  }

  function RootRightLeftAfter<L, N>(it: Tree<L, N>, path: Path<L, N>): seq<Cursor<L, N>>
    decreases path
  {
    match path
    case Top => []
    case Right(left, data, up) =>
      RootRightLeft(left, Left(it, data, up)) + RootRightLeftAfter(Node(left, it, data), up)
    case Left(right, data, up) => RootRightLeftAfter(Node(it, right, data), up)
  }

  /** The walk that is still ahead of a cursor, starting with its own position. */
  function Ahead<L, N>(c: Cursor<L, N>): (r: seq<Cursor<L, N>>)
    ensures |r| > 0 && r[0] == c
  {
    Preorder(c.it, c.path) + PreorderAfter(c.it, c.path)
  }

  function AheadRootRightLeft<L, N>(c: Cursor<L, N>): (r: seq<Cursor<L, N>>)
    ensures |r| > 0 && r[0] == c
  {
    RootRightLeft(c.it, c.path) + RootRightLeftAfter(c.it, c.path)
  }

  lemma {:induction false} PreorderSteps<L, N>(c: Cursor<L, N>)
    requires Proper(c)
    ensures !c.it.Node? ==> Ahead(c) == [c] + PreorderAfter(c.it, c.path)
    ensures c.it.Node? ==> Ahead(c.GoLeft().value) == Ahead(c)[1..]
    ensures c.IsRight() ==> PreorderAfter(c.it, c.path) == PreorderAfter(c.GoUp().value.it, c.GoUp().value.path)
    ensures c.IsLeft() ==> PreorderAfter(c.it, c.path) == Ahead(c.GoUp().value.GoRight().value)
  {
    if c.it.Node? {
      var here := Preorder(c.it, c.path);
      assert here[1..] == Preorder(c.it.left, Left(c.it.right, c.it.data, c.path))
                          + Preorder(c.it.right, Right(c.it.left, c.it.data, c.path));
      assert Ahead(c)[1..] == here[1..] + PreorderAfter(c.it, c.path);
    }
  }

  method PreorderNext<L, N>(c: Cursor<L, N>) returns (r: Result<Cursor<L, N>, Cursor<L, N>>)
    requires Proper(c)
    ensures r.Ok? <==> |Ahead(c)| > 1
    ensures r.Ok? ==> Proper(r.value) && Ahead(r.value) == Ahead(c)[1..]
    ensures r.Ok? ==> r.value.Whole() == c.Whole()
    ensures r.Err? ==> r.error == Cursor(c.Whole(), Top)
  {
    var self := c;
    PreorderSteps(self);
    if self.IsLeaf() {
      if self.IsLeft() {
        return self.GoUp().value.GoRight();
      }
      while true
        invariant Proper(self) && !self.IsLeft()
        invariant self.Whole() == c.Whole()
        invariant Ahead(c) == [c] + PreorderAfter(self.it, self.path)
        decreases self.path
      {
        PreorderSteps(self);
        MovesKeepTree(self);
        match self.GoUp() {
          case Err(top) => return Err(top);
          case Ok(up) => self := up;
        }
        if self.IsTop() {
          return Err(self);
        }
        if self.IsLeft() {
          PreorderSteps(self);
          MovesKeepTree(self);
          return self.GoUp().value.GoRight();
        }
      }
    } else {
      return self.GoLeft();
    }
  }

  lemma {:induction false} PostorderSteps<L, N>(c: Cursor<L, N>)
    requires Proper(c)
    ensures !c.it.Node? ==> AheadRootRightLeft(c) == [c] + RootRightLeftAfter(c.it, c.path)
    ensures c.it.Node? ==> AheadRootRightLeft(c.GoRight().value) == AheadRootRightLeft(c)[1..]
    ensures c.IsLeft() ==>
              RootRightLeftAfter(c.it, c.path) == RootRightLeftAfter(c.GoUp().value.it, c.GoUp().value.path)
    ensures c.IsRight() ==> RootRightLeftAfter(c.it, c.path) == AheadRootRightLeft(c.GoUp().value.GoLeft().value)
  {
    if c.it.Node? {
      var here := RootRightLeft(c.it, c.path);
      assert here[1..] == RootRightLeft(c.it.right, Right(c.it.left, c.it.data, c.path))
                          + RootRightLeft(c.it.left, Left(c.it.right, c.it.data, c.path));
      assert AheadRootRightLeft(c)[1..] == here[1..] + RootRightLeftAfter(c.it, c.path);
    }
  }

  method PostorderNext<L, N>(c: Cursor<L, N>) returns (r: Result<Cursor<L, N>, Cursor<L, N>>)
    requires Proper(c)
    ensures r.Ok? <==> |AheadRootRightLeft(c)| > 1
    ensures r.Ok? ==> Proper(r.value) && AheadRootRightLeft(r.value) == AheadRootRightLeft(c)[1..]
    ensures r.Ok? ==> r.value.Whole() == c.Whole()
    ensures r.Err? ==> r.error == Cursor(c.Whole(), Top)
  {
    var self := c;
    PostorderSteps(self);
    if self.IsLeaf() {
      if self.IsRight() {
        return self.GoUp().value.GoLeft();
      }
      while true
        invariant Proper(self) && !self.IsRight()
        invariant self.Whole() == c.Whole()
        invariant AheadRootRightLeft(c) == [c] + RootRightLeftAfter(self.it, self.path)
        decreases self.path
      {
        PostorderSteps(self);
        MovesKeepTree(self);
        match self.GoUp() {
          case Err(top) => return Err(top);
          case Ok(up) => self := up;
        }
        if self.IsTop() {
          return Err(self);
        }
        if self.IsRight() {
          PostorderSteps(self);
          MovesKeepTree(self);
          return self.GoUp().value.GoLeft();
        }
      }
    } else {
      return self.GoRight();
    }
  }

  /** The leaves among a list of positions. */
  function LeafCursors<L, N>(cs: seq<Cursor<L, N>>): seq<Cursor<L, N>> {
    if cs == [] then []
    else (if cs[0].IsLeaf() then [cs[0]] else []) + LeafCursors(cs[1..])
  }

  /** The leaves ahead are this position, if it is a leaf, and those ahead of the next. */
  lemma {:induction false} LeavesAhead<L, N>(c: Cursor<L, N>)
    ensures LeafCursors(Ahead(c)) == (if c.IsLeaf() then [c] else []) + LeafCursors(Ahead(c)[1..])
  {
  }

  lemma {:induction false} Suffix<T>(all: seq<T>, next: nat, x: T, rest: seq<T>)
    requires next <= |all| && all[next..] == [x] + rest
    ensures next < |all| && all[next] == x && all[next + 1..] == rest
  {
    assert all[next..][0] == x && all[next..][1..] == rest;
  }

  /** Lands on the nth leaf of the walk ahead, from any position. */
  method GoToNthLeaf<L, N>(c: Cursor<L, N>, n: nat) returns (r: Result<Cursor<L, N>, Cursor<L, N>>)
    requires Proper(c)
    ensures r == if n < |LeafCursors(Ahead(c))| then Ok(LeafCursors(Ahead(c))[n])
                 else Err(Cursor(c.Whole(), Top))
  {
    ghost var all := LeafCursors(Ahead(c));
    var self := c;
    var next := 0;
    while true
      invariant Proper(self) && self.Whole() == c.Whole()
      invariant next <= n && next <= |all| && LeafCursors(Ahead(self)) == all[next..]
      decreases |Ahead(self)|
    {
      ghost var rest := LeafCursors(Ahead(self)[1..]);
      LeavesAhead(self);
      if self.IsLeaf() {
        Suffix(all, next, self, rest);
        if next == n {
          return Ok(self);
        }
        next := next + 1;
      }
      assert all[next..] == rest;
      var moved := PreorderNext(self);
      match moved {
        case Err(top) => return Err(top);
        case Ok(onward) => self := onward;
      }
    }
  }

  // ----- What the orders visit -----

  /** `p` leads through `q` on its way to the root. */
  ghost predicate Extends<L, N>(p: Path<L, N>, q: Path<L, N>) {
    p == q || (!p.Top? && Extends(p.up, q))
  }

  ghost function Depth<L, N>(p: Path<L, N>): nat { if p.Top? then 0 else 1 + Depth(p.up) }

  lemma ExtendsDepth<L, N>(p: Path<L, N>, q: Path<L, N>)
    requires Extends(p, q)
    ensures Depth(p) >= Depth(q)
    ensures Depth(p) == Depth(q) ==> p == q
  {
  }

  /** A path has one ancestor at each depth, so no position is below two siblings. */
  lemma ExtendsUnique<L, N>(p: Path<L, N>, q: Path<L, N>, r: Path<L, N>)
    requires Extends(p, q) && Extends(p, r) && Depth(q) == Depth(r)
    ensures q == r
  {
    ExtendsDepth(p, q);
    ExtendsDepth(p, r);
  }

  lemma ExtendsTransitive<L, N>(p: Path<L, N>, q: Path<L, N>, r: Path<L, N>)
    requires Extends(p, q) && Extends(q, r)
    ensures Extends(p, r)
  {
  }

  lemma {:induction false} PreorderStaysBelow<L, N>(it: Tree<L, N>, path: Path<L, N>, d: Cursor<L, N>)
    requires d in Preorder(it, path)
    ensures d.Whole() == Plug(path, it) && Extends(d.path, path)
    decreases it
  {
    if d != Cursor(it, path) {
      var (l, r) := (Left(it.right, it.data, path), Right(it.left, it.data, path));
      if d in Preorder(it.left, l) {
        PreorderStaysBelow(it.left, l, d);
        ExtendsTransitive(d.path, l, path);
      } else {
        PreorderStaysBelow(it.right, r, d);
        ExtendsTransitive(d.path, r, path);
      }
    }
  }

  lemma {:induction false} PreorderNoRepeats<L, N>(it: Tree<L, N>, path: Path<L, N>)
    ensures NoRepeats(Preorder(it, path))
    decreases it
  {
    if it.Node? {
      var (l, r) := (Left(it.right, it.data, path), Right(it.left, it.data, path));
      var (a, b) := (Preorder(it.left, l), Preorder(it.right, r));
      PreorderNoRepeats(it.left, l);
      PreorderNoRepeats(it.right, r);
      forall d | d in a
        ensures d != Cursor(it, path) && d !in b
      {
        PreorderStaysBelow(it.left, l, d);
        ExtendsDepth(d.path, l);
        if d in b {
          PreorderStaysBelow(it.right, r, d);
          ExtendsUnique(d.path, l, r);
        }
      }
      forall d | d in b
        ensures d != Cursor(it, path)
      {
        PreorderStaysBelow(it.right, r, d);
        ExtendsDepth(d.path, r);
      }
      NoRepeatsConcat(a, b);
      NoRepeatsConcat([Cursor(it, path)], a + b);
    }
  }

  /** If `c` is on the list then so is everything below it. */
  lemma {:induction false} PreorderMeetsAll<L, N>(it: Tree<L, N>, path: Path<L, N>)
    ensures Cursor(it, path) in Preorder(Plug(path, it), Top)
    ensures forall d :: d in Preorder(it, path) ==> d in Preorder(Plug(path, it), Top)
    decreases path
  {
    match path
    case Top =>
    case Left(right, data, up) => PreorderMeetsAll(Node(it, right, data), up);
    case Right(left, data, up) => PreorderMeetsAll(Node(left, it, data), up);
  }

  /** The preorder walk of a tree visits exactly the positions of that tree, once each. */
  lemma {:induction false} PreorderVisitsEachPositionOnce<L, N>(t: Tree<L, N>, c: Cursor<L, N>)
    ensures Ahead(Cursor(t, Top)) == Preorder(t, Top)
    ensures NoRepeats(Preorder(t, Top))
    ensures c in Preorder(t, Top) <==> c.Whole() == t
  {
    PreorderNoRepeats(t, Top);
    if c in Preorder(t, Top) {
      PreorderStaysBelow(t, Top, c);
    } else {
      PreorderMeetsAll(c.it, c.path);
    }
  }

  function Reversed<T>(s: seq<T>): seq<T> {
    if s == [] then [] else Reversed(s[1..]) + [s[0]]
  }

  lemma ReversedConcat<T>(a: seq<T>, b: seq<T>)
    ensures Reversed(a + b) == Reversed(b) + Reversed(a)
  {
    if a == [] {
      assert a + b == b;
    } else {
      assert (a + b)[1..] == a[1..] + b;
    }
  }

  /** `PostorderNext` walks a postorder backwards. */
  lemma {:induction false} RootRightLeftIsReversedPostorder<L, N>(it: Tree<L, N>, path: Path<L, N>)
    ensures RootRightLeft(it, path) == Reversed(Postorder(it, path))
    decreases it
  {
    if it.Node? {
      var (l, r) := (Left(it.right, it.data, path), Right(it.left, it.data, path));
      RootRightLeftIsReversedPostorder(it.left, l);
      RootRightLeftIsReversedPostorder(it.right, r);
      ReversedConcat(Postorder(it.left, l), Postorder(it.right, r));
      ReversedConcat(Postorder(it.left, l) + Postorder(it.right, r), [Cursor(it, path)]);
    }
  }

  /** Both walks visit the same positions, once each. */
  lemma {:induction false} RootRightLeftVisitsSamePositions<L, N>(it: Tree<L, N>, path: Path<L, N>)
    ensures multiset(RootRightLeft(it, path)) == multiset(Preorder(it, path))
    decreases it
  {
    if it.Node? {
      RootRightLeftVisitsSamePositions(it.left, Left(it.right, it.data, path));
      RootRightLeftVisitsSamePositions(it.right, Right(it.left, it.data, path));
    }
  }

  /** The leaf values of a tree from left to right. */
  function Leaves<L, N>(t: Tree<L, N>): seq<L> {
    match t
    case Empty => []
    case Leaf(l) => [l]
    case Node(left, right, _) => Leaves(left) + Leaves(right)
  }

  lemma LeafCursorsConcat<L, N>(a: seq<Cursor<L, N>>, b: seq<Cursor<L, N>>)
    ensures LeafCursors(a + b) == LeafCursors(a) + LeafCursors(b)
  {
    if a == [] {
      assert a + b == b;
    } else {
      assert (a + b)[1..] == a[1..] + b;
    }
  }

  /** From the root, the nth leaf position carries the nth leaf from the left. */
  lemma {:induction false} NthLeafIsNthFromLeft<L, N>(it: Tree<L, N>, path: Path<L, N>)
    ensures |LeafCursors(Preorder(it, path))| == NumLeaves(it) == |Leaves(it)|
    ensures forall i :: 0 <= i < NumLeaves(it) ==> LeafCursors(Preorder(it, path))[i].it == Leaf(Leaves(it)[i])
    decreases it
  {
    if it.Node? {
      var (l, r) := (Left(it.right, it.data, path), Right(it.left, it.data, path));
      NthLeafIsNthFromLeft(it.left, l);
      NthLeafIsNthFromLeft(it.right, r);
      LeafCursorsConcat([Cursor(it, path)], Preorder(it.left, l) + Preorder(it.right, r));
      LeafCursorsConcat(Preorder(it.left, l), Preorder(it.right, r));
      assert LeafCursors([Cursor(it, path)]) == [];
    } else {
      assert Preorder(it, path) == [Cursor(it, path)];
    }
  }
}
