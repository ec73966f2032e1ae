/** Walks that write to every leaf of the tree in place: `swap_panes`,
    `rotate_clockwise` and `rotate_counter_clockwise` of `mux/src/tab.rs`.

    What is left of the leaves to come tells how far such a walk is, whatever
    has been written behind it; so the leaves up to there are the new ones and
    those beyond are still the old ones. The walk from right to left is its
    mirror image. */
module LeafWalks {
  import opened Wrappers
  import opened Sequences
  import opened BinTree
  import opened SubtreeSets
  import opened LeafSwaps

  // ----- How far a walk has come -----

  lemma {:induction false} LeavesToCome<L, N>(it: Tree<L, N>, path: Path<L, N>)
    ensures |LeafCursors(Preorder(it, path))| == |Leaves(it)|
    ensures |LeafCursors(PreorderAfter(it, path))| == |After(path)|
    decreases path
  {
    NthLeafIsNthFromLeft(it, path);
    match path
    case Top =>
    case Left(right, data, up) =>
      NthLeafIsNthFromLeft(right, Right(it, data, up));
      LeavesToCome(Node(it, right, data), up);
      LeafCursorsConcat(Preorder(right, Right(it, data, up)), PreorderAfter(Node(it, right, data), up));
    case Right(left, data, up) =>
      LeavesToCome(Node(left, it, data), up);
  }

  /** The leaves left of a position, at it or below, and right of it are all leaves. */
  lemma {:induction false} Place<L, N>(c: Cursor<L, N>)
    ensures |Leaves(c.Whole())| == |Before(c.path)| + |Leaves(c.it)| + |After(c.path)|
    ensures |LeafCursors(Ahead(c))| == |Leaves(c.it)| + |After(c.path)|
  {
    PlugLeaves(c.path, c.it);
    LeavesToCome(c.it, c.path);
    LeafCursorsConcat(Preorder(c.it, c.path), PreorderAfter(c.it, c.path));
  }

  /** A step of the walk passes the leaf it leaves. */
  lemma {:induction false} WalkStep<L, N>(c: Cursor<L, N>, next: Cursor<L, N>)
    requires |Ahead(c)| > 1 && Ahead(next) == Ahead(c)[1..] && next.Whole() == c.Whole()
    ensures |Before(next.path)| == |Before(c.path)| + if c.IsLeaf() then 1 else 0
  {
    Place(c);
    Place(next);
    assert Ahead(c) == [c] + Ahead(next);
    LeafCursorsConcat([c], Ahead(next));
  }

  /** The walk ends at the last leaf. */
  lemma {:induction false} WalkEnd<L, N>(c: Cursor<L, N>)
    requires Proper(c) && |Ahead(c)| == 1 && Leaves(c.Whole()) != []
    ensures c.IsLeaf() && |Before(c.path)| + 1 == |Leaves(c.Whole())|
  {
    Place(c);
    PreorderSteps(c);
    assert Ahead(c) == [c];
    assert LeafCursors([c]) == (if c.IsLeaf() then [c] else []);
    if c.it.Empty? {
      PlugLeaves(c.path, c.it);
    }
  }

  // The same for the walk from right to left.

  lemma {:induction false} LeavesToComeLeftwards<L, N>(it: Tree<L, N>, path: Path<L, N>)
    ensures |LeafCursors(RootRightLeft(it, path))| == |Leaves(it)|
    decreases it
  {
    if it.Node? {
      var (l, r) := (Left(it.right, it.data, path), Right(it.left, it.data, path));
      LeavesToComeLeftwards(it.left, l);
      LeavesToComeLeftwards(it.right, r);
      LeafCursorsConcat([Cursor(it, path)], RootRightLeft(it.right, r) + RootRightLeft(it.left, l));
      LeafCursorsConcat(RootRightLeft(it.right, r), RootRightLeft(it.left, l));
      assert LeafCursors([Cursor(it, path)]) == [];
    } else {
      assert RootRightLeft(it, path) == [Cursor(it, path)];
    }
  }

  lemma {:induction false} LeavesAfterLeftwards<L, N>(it: Tree<L, N>, path: Path<L, N>)
    ensures |LeafCursors(RootRightLeftAfter(it, path))| == |Before(path)|
    decreases path
  {
    match path
    case Top =>
    case Right(left, data, up) =>
      LeavesToComeLeftwards(left, Left(it, data, up));
      LeavesAfterLeftwards(Node(left, it, data), up);
      LeafCursorsConcat(RootRightLeft(left, Left(it, data, up)), RootRightLeftAfter(Node(left, it, data), up));
    case Left(right, data, up) =>
      LeavesAfterLeftwards(Node(it, right, data), up);
  }

  lemma {:induction false} PlaceLeftwards<L, N>(c: Cursor<L, N>)
    ensures |Leaves(c.Whole())| == |Before(c.path)| + |Leaves(c.it)| + |After(c.path)|
    ensures |LeafCursors(AheadRootRightLeft(c))| == |Leaves(c.it)| + |Before(c.path)|
  {
    PlugLeaves(c.path, c.it);
    LeavesToComeLeftwards(c.it, c.path);
    LeavesAfterLeftwards(c.it, c.path);
    LeafCursorsConcat(RootRightLeft(c.it, c.path), RootRightLeftAfter(c.it, c.path));
  }

  lemma {:induction false} WalkStepLeftwards<L, N>(c: Cursor<L, N>, next: Cursor<L, N>)
    requires |AheadRootRightLeft(c)| > 1 && AheadRootRightLeft(next) == AheadRootRightLeft(c)[1..]
    requires next.Whole() == c.Whole()
    ensures |After(next.path)| == |After(c.path)| + if c.IsLeaf() then 1 else 0
  {
    PlaceLeftwards(c);
    PlaceLeftwards(next);
    assert AheadRootRightLeft(c) == [c] + AheadRootRightLeft(next);
    LeafCursorsConcat([c], AheadRootRightLeft(next));
  }

  lemma {:induction false} WalkEndLeftwards<L, N>(c: Cursor<L, N>)
    requires Proper(c) && |AheadRootRightLeft(c)| == 1 && Leaves(c.Whole()) != []
    ensures c.IsLeaf() && Before(c.path) == []
  {
    PlaceLeftwards(c);
    PostorderSteps(c);
    assert AheadRootRightLeft(c) == [c];
    assert LeafCursors([c]) == (if c.IsLeaf() then [c] else []);
    if c.it.Empty? {
      PlugLeaves(c.path, c.it);
    }
  }

  /** A walk goes on as long after a leaf was written to. */
  lemma {:induction false} WrittenAhead<L, N>(path: Path<L, N>, it: Tree<L, N>, it': Tree<L, N>)
    ensures |PreorderAfter(it, path)| == |PreorderAfter(it', path)|
    decreases path
  {
    match path
    case Top =>
    case Left(right, data, up) =>
      PositionsCount(right, Right(it, data, up), Right(it', data, up));
      WrittenAhead(up, Node(it, right, data), Node(it', right, data));
    case Right(left, data, up) =>
      WrittenAhead(up, Node(left, it, data), Node(left, it', data));
  }

  lemma {:induction false} PositionsCount<L, N>(it: Tree<L, N>, path: Path<L, N>, path': Path<L, N>)
    ensures |Preorder(it, path)| == |Preorder(it, path')|
    ensures |RootRightLeft(it, path)| == |RootRightLeft(it, path')|
    decreases it
  {
    if it.Node? {
      PositionsCount(it.left, Left(it.right, it.data, path), Left(it.right, it.data, path'));
      PositionsCount(it.right, Right(it.left, it.data, path), Right(it.left, it.data, path'));
    }
  }

  lemma {:induction false} WrittenAheadLeftwards<L, N>(path: Path<L, N>, it: Tree<L, N>, it': Tree<L, N>)
    ensures |RootRightLeftAfter(it, path)| == |RootRightLeftAfter(it', path)|
    decreases path
  {
    match path
    case Top =>
    case Right(left, data, up) =>
      PositionsCount(left, Left(it, data, up), Left(it', data, up));
      WrittenAheadLeftwards(up, Node(left, it, data), Node(left, it', data));
    case Left(right, data, up) =>
      WrittenAheadLeftwards(up, Node(it, right, data), Node(it', right, data));
  }

  /** Writing `v` to the leaf under the cursor. */
  lemma {:induction false} Written<L, N>(c: Cursor<L, N>, v: L)
    requires c.IsLeaf()
    ensures var (w, k) := (Leaves(c.Whole()), |Before(c.path)|);
            && k < |w| && w[k] == c.it.value
            && Leaves(c.(it := Leaf(v)).Whole()) == w[k := v]
    ensures SameShape(c.Whole(), c.(it := Leaf(v)).Whole()) && (Proper(c) ==> Proper(c.(it := Leaf(v))))
    ensures |Ahead(c.(it := Leaf(v)))| == |Ahead(c)|
    ensures |AheadRootRightLeft(c.(it := Leaf(v)))| == |AheadRootRightLeft(c)|
  {
    PlugLeaves(c.path, c.it);
    PlugLeaves(c.path, Leaf(v));
    PlugShape(c.path, c.it, Leaf(v));
    WrittenAhead(c.path, c.it, Leaf(v));
    WrittenAheadLeftwards(c.path, c.it, Leaf(v));
  }

  // ----- The walks -----

  /** Up to `k` the leaves are `done`, from there on what they were. */
  ghost predicate WrittenUpTo<L>(w: seq<L>, s: seq<L>, done: seq<L>, k: nat) {
    |w| == |s| == |done| && forall i :: 0 <= i < |s| ==> w[i] == if i < k then done[i] else s[i]
  }

  /** `swap_panes`: every leaf `a` becomes `b` and the other way round. */
  method SwapPanes<L(==), N(==)>(t: Tree<L, N>, a: L, b: L) returns (u: Tree<L, N>)
    requires Full(t)
    ensures u == Swapped(t, a, b)
  {
    var cursor := Cursor(t, Top);
    ghost var (s, done) := (Leaves(t), Leaves(Swapped(t, a, b)));
    SwappedLeaves(t, a, b);
    SameShapeReflexive(t);
    Place(cursor);
    NthLeafIsNthFromLeft(t, Top);
    while true
      invariant Proper(cursor) && SameShape(t, cursor.Whole())
      invariant WrittenUpTo(Leaves(cursor.Whole()), s, done, |Before(cursor.path)|)
      decreases |Ahead(cursor)|
    {
      ghost var before := cursor;
      if cursor.IsLeaf() {
        ghost var v := SwapOf(cursor.it.value, a, b);
        Written(cursor, v);
        SameShapeTransitive(t, before.Whole(), before.(it := Leaf(v)).Whole());
        if cursor.it.value == a {
          cursor := cursor.(it := Leaf(b));
        } else if cursor.it.value == b {
          cursor := cursor.(it := Leaf(a));
        }
      }
      var next := PreorderNext(cursor);
      match next {
        case Ok(c) =>
          WalkStep(cursor, c);
          cursor := c;
        case Err(top) =>
          WalkEnd(cursor);
          u := ToTree(top);
          assert Leaves(u) == done;
          SameShapeSymmetric(t, u);
          SameShapeTransitive(u, t, Swapped(t, a, b));
          ShapeAndLeaves(u, Swapped(t, a, b));
          return;
      }
    }
  }

  // ----- Rotations -----

  function RotatedRight<T>(s: seq<T>): seq<T> { if s == [] then [] else [s[|s| - 1]] + s[..|s| - 1] }

  function RotatedLeft<T>(s: seq<T>): seq<T> { if s == [] then [] else s[1..] + [s[0]] }

  /** `rotate_clockwise`: every pane moves on to the next leaf, the last to the first.
      A tab with groups stays as it is. */
  method RotateClockwise<L, N(==)>(t: Tree<L, N>, hasGroups: bool) returns (u: Tree<L, N>)
    requires Full(t)
    ensures SameShape(t, u)
    ensures Leaves(u) == if hasGroups then Leaves(t) else RotatedRight(Leaves(t))
  {
    SameShapeReflexive(t);
    if hasGroups {
      return t;
    }
    ghost var (s, done) := (Leaves(t), RotatedRight(Leaves(t)));
    var cursor := Cursor(t, Top);
    Place(cursor);
    FullHasLeaf(t);
    var toSwap := Leaves(t)[|Leaves(t)| - 1];
    while true
      invariant Proper(cursor) && SameShape(t, cursor.Whole())
      invariant WrittenUpTo(Leaves(cursor.Whole()), s, done, |Before(cursor.path)|)
      invariant |Before(cursor.path)| < |s| && toSwap == done[|Before(cursor.path)|]
      decreases |Ahead(cursor)|
    {
      if cursor.IsLeaf() {
        Written(cursor, toSwap);
        SameShapeTransitive(t, cursor.Whole(), cursor.(it := Leaf(toSwap)).Whole());
        cursor, toSwap := cursor.(it := Leaf(toSwap)), cursor.it.value;
      }
      Place(cursor);
      var next := PreorderNext(cursor);
      match next {
        case Ok(c) =>
          WalkStep(cursor, c);
          Place(c);
          FullHasLeaf(c.it);
          cursor := c;
        case Err(top) =>
          WalkEnd(cursor);
          u := ToTree(top);
          assert Leaves(u) == done;
          return;
      }
    }
  }

  lemma {:induction false} FullHasLeaf<L, N>(t: Tree<L, N>)
    requires Full(t)
    ensures Leaves(t) != []
  {
    if t.Node? {
      FullHasLeaf(t.left);
    }
  }

  /** From `k` on the leaves are `done`, before that what they were. */
  ghost predicate WrittenFrom<L>(w: seq<L>, s: seq<L>, done: seq<L>, k: int) {
    |w| == |s| == |done| && forall i :: 0 <= i < |s| ==> w[i] == if i >= k then done[i] else s[i]
  }

  /** Writing to the leaf that a walk from right to left has come to. */
  lemma {:induction false} WrittenLeftwards<L, N>(t: Tree<L, N>, c: Cursor<L, N>, v: L, s: seq<L>, done: seq<L>)
    requires c.IsLeaf() && Proper(c) && SameShape(t, c.Whole())
    requires WrittenFrom(Leaves(c.Whole()), s, done, |s| - |After(c.path)|)
    requires |After(c.path)| < |s| && v == done[|s| - 1 - |After(c.path)|]
    ensures var c' := c.(it := Leaf(v));
            && Proper(c') && SameShape(t, c'.Whole()) && |AheadRootRightLeft(c')| == |AheadRootRightLeft(c)|
            && WrittenFrom(Leaves(c'.Whole()), s, done, |s| - 1 - |After(c.path)|)
    ensures c.it.value == s[|s| - 1 - |After(c.path)|]
  {
    Written(c, v);
    PlaceLeftwards(c);
    SameShapeTransitive(t, c.Whole(), c.(it := Leaf(v)).Whole());
  }

  /** `rotate_counter_clockwise`: the walk goes from right to left. */
  method RotateCounterClockwise<L, N(==)>(t: Tree<L, N>, hasGroups: bool) returns (u: Tree<L, N>)
    requires Full(t)
    ensures SameShape(t, u)
    ensures Leaves(u) == if hasGroups then Leaves(t) else RotatedLeft(Leaves(t))
  {
    SameShapeReflexive(t);
    if hasGroups {
      return t;
    }
    ghost var (s, done) := (Leaves(t), RotatedLeft(Leaves(t)));
    var cursor := Cursor(t, Top);
    PlaceLeftwards(cursor);
    FullHasLeaf(t);
    var toSwap := Leaves(t)[0];
    while true
      invariant Proper(cursor) && SameShape(t, cursor.Whole())
      invariant WrittenFrom(Leaves(cursor.Whole()), s, done, |s| - |After(cursor.path)|)
      invariant |After(cursor.path)| < |s| && toSwap == done[|s| - 1 - |After(cursor.path)|]
      decreases |AheadRootRightLeft(cursor)|
    {
      if cursor.IsLeaf() {
        WrittenLeftwards(t, cursor, toSwap, s, done);
        cursor, toSwap := cursor.(it := Leaf(toSwap)), cursor.it.value;
      }
      PlaceLeftwards(cursor);
      var next := PostorderNext(cursor);
      match next {
        case Ok(c) =>
          WalkStepLeftwards(cursor, c);
          PlaceLeftwards(c);
          FullHasLeaf(c.it);
          cursor := c;
        case Err(top) =>
          WalkEndLeftwards(cursor);
          u := ToTree(top);
          assert Leaves(u) == done;
          return;
      }
    }
  }

  /** Where a rotation takes what is in place `i`. */
  lemma {:induction false} RotatedAt<T>(s: seq<T>, i: nat)
    requires i < |s|
    ensures |RotatedRight(s)| == |RotatedLeft(s)| == |s|
    ensures RotatedRight(s)[if i + 1 < |s| then i + 1 else 0] == s[i]
    ensures RotatedLeft(s)[if i > 0 then i - 1 else |s| - 1] == s[i]
  {
  }

  /** A rotation one way and one the other way give back the tree. */
  lemma {:induction false} RotationsCancel<L, N>(t: Tree<L, N>, u: Tree<L, N>, v: Tree<L, N>)
    requires SameShape(t, u) && SameShape(u, v)
    requires (Leaves(u) == RotatedRight(Leaves(t)) && Leaves(v) == RotatedLeft(Leaves(u)))
             || (Leaves(u) == RotatedLeft(Leaves(t)) && Leaves(v) == RotatedRight(Leaves(u)))
    ensures v == t
  {
    SameShapeTransitive(t, u, v);
    SameShapeSymmetric(t, v);
    ShapeLeaves(t, u);
    assert Leaves(v) == Leaves(t);
    ShapeAndLeaves(v, t);
  }
}
