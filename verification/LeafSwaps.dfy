/** Panes that trade places in the tree, `swap_active_with_index` and `swap_panes`
    of `mux/src/tab.rs`.

    A tree is its shape and its leaves from left to right. Writing to the leaf
    under the cursor keeps the shape, and trading places keeps a subtree of two
    or more leaves exactly when it holds both of the panes or neither. */
module LeafSwaps {
  import opened Wrappers
  import opened Sequences
  import opened BinTree
  import opened SubtreeSets

  // ----- Trees of one shape -----

  predicate SameShape<L, N(==)>(t: Tree<L, N>, u: Tree<L, N>) {
    match (t, u)
    case (Empty, Empty) => true
    case (Leaf(_), Leaf(_)) => true
    case (Node(l, r, d), Node(l', r', d')) => d == d' && SameShape(l, l') && SameShape(r, r')
    case _ => false
  }

  lemma {:induction false} ShapeLeaves<L, N>(t: Tree<L, N>, u: Tree<L, N>)
    requires SameShape(t, u)
    ensures |Leaves(t)| == |Leaves(u)|
  {
    if t.Node? {
      ShapeLeaves(t.left, u.left);
      ShapeLeaves(t.right, u.right);
    }
  }

  /** A tree is its shape and its leaves. */
  lemma {:induction false} ShapeAndLeaves<L, N>(t: Tree<L, N>, u: Tree<L, N>)
    requires SameShape(t, u) && Leaves(t) == Leaves(u)
    ensures t == u
  {
    match t
    case Empty =>
    case Leaf(x) => assert Leaves(u)[0] == x;
    case Node(l, r, _) =>
      ShapeLeaves(l, u.left);
      var whole := Leaves(t);
      assert whole[..|Leaves(l)|] == Leaves(l) && whole[|Leaves(l)|..] == Leaves(r);
      assert whole[..|Leaves(l)|] == Leaves(u.left) && whole[|Leaves(l)|..] == Leaves(u.right);
      ShapeAndLeaves(l, u.left);
      ShapeAndLeaves(r, u.right);
  }

  lemma {:induction false} SameShapeTransitive<L, N>(t: Tree<L, N>, u: Tree<L, N>, v: Tree<L, N>)
    requires SameShape(t, u) && SameShape(u, v)
    ensures SameShape(t, v)
  {
    if t.Node? {
      SameShapeTransitive(t.left, u.left, v.left);
      SameShapeTransitive(t.right, u.right, v.right);
    }
  }

  lemma {:induction false} SameShapeReflexive<L, N>(t: Tree<L, N>)
    ensures SameShape(t, t)
  {
    if t.Node? {
      SameShapeReflexive(t.left);
      SameShapeReflexive(t.right);
    }
  }

  lemma {:induction false} ShapeFull<L, N>(t: Tree<L, N>, u: Tree<L, N>)
    requires SameShape(t, u) && Full(t)
    ensures Full(u)
  {
    if t.Node? {
      ShapeFull(t.left, u.left);
      ShapeFull(t.right, u.right);
    }
  }

  // ----- Writing to the leaf under the cursor -----

  /** The leaves left of the hole. */
  function Before<L, N>(path: Path<L, N>): seq<L> {
    match path
    case Top => []
    case Left(_, _, up) => Before(up)
    case Right(left, _, up) => Before(up) + Leaves(left)
  }

  function After<L, N>(path: Path<L, N>): seq<L> {
    match path
    case Top => []
    case Left(right, _, up) => Leaves(right) + After(up)
    case Right(_, _, up) => After(up)
  }

  lemma {:induction false} PlugLeaves<L, N>(path: Path<L, N>, it: Tree<L, N>)
    ensures Leaves(Plug(path, it)) == Before(path) + Leaves(it) + After(path)
    decreases path
  {
    match path
    case Top =>
    case Left(right, data, up) =>
      PlugLeaves(up, Node(it, right, data));
      Assoc(Before(up), Leaves(it), Leaves(right));
      Assoc(Before(up) + Leaves(it), Leaves(right), After(up));
    case Right(left, data, up) =>
      PlugLeaves(up, Node(left, it, data));
      Assoc(Before(up), Leaves(left), Leaves(it));
  }

  lemma {:induction false} PlugShape<L, N>(path: Path<L, N>, it: Tree<L, N>, it': Tree<L, N>)
    requires SameShape(it, it')
    ensures SameShape(Plug(path, it), Plug(path, it'))
    decreases path
  {
    match path
    case Top =>
    case Left(right, data, up) =>
      SameShapeReflexive(right);
      PlugShape(up, Node(it, right, data), Node(it', right, data));
    case Right(left, data, up) =>
      SameShapeReflexive(left);
      PlugShape(up, Node(left, it, data), Node(left, it', data));
  }

  /** Left of the nth leaf of a walk are n leaves more than left of its start. */
  lemma {:induction false} NthBefore<L, N>(it: Tree<L, N>, path: Path<L, N>, n: nat)
    requires n < NumLeaves(it)
    ensures |LeafCursors(Preorder(it, path))| == NumLeaves(it) == |Leaves(it)|
    ensures |Before(LeafCursors(Preorder(it, path))[n].path)| == |Before(path)| + n
    decreases it
  {
    NthLeafIsNthFromLeft(it, path);
    if it.Node? {
      var (l, r) := (Left(it.right, it.data, path), Right(it.left, it.data, path));
      NthLeafIsNthFromLeft(it.left, l);
      LeafCursorsConcat([Cursor(it, path)], Preorder(it.left, l) + Preorder(it.right, r));
      LeafCursorsConcat(Preorder(it.left, l), Preorder(it.right, r));
      assert LeafCursors([Cursor(it, path)]) == [];
      if n < NumLeaves(it.left) {
        NthBefore(it.left, l, n);
      } else {
        NthBefore(it.right, r, n - NumLeaves(it.left));
      }
    } else {
      assert Preorder(it, path) == [Cursor(it, path)];
    }
  }

  /** `cursor.go_to_nth_leaf(n)` from the root, with `v` written to that leaf. */
  method WriteNthLeaf<L, N>(t: Tree<L, N>, n: nat, v: L) returns (u: Tree<L, N>, found: Option<L>)
    requires Full(t)
    ensures SameShape(t, u)
    ensures n < |Leaves(t)| ==> found == Some(Leaves(t)[n]) && Leaves(u) == Leaves(t)[n := v]
    ensures n >= |Leaves(t)| ==> found == None && u == t
  {
    var c := Cursor(t, Top);
    assert Ahead(c) == Preorder(t, Top) + [] == Preorder(t, Top);
    NthLeafIsNthFromLeft(t, Top);
    SameShapeReflexive(t);
    var at := GoToNthLeaf(c, n);
    match at {
      case Ok(leaf) =>
        NthBefore(t, Top, n);
        PreorderVisitsEachPositionOnce(t, leaf);
        LeafOfWalk(Preorder(t, Top), n);
        PlugLeaves(leaf.path, leaf.it);
        PlugLeaves(leaf.path, Leaf(v));
        PlugShape(leaf.path, leaf.it, Leaf(v));
        u := ToTree(leaf.(it := Leaf(v)));
        found := Some(leaf.it.value);
      case Err(top) =>
        u := ToTree(top);
        found := None;
    }
  }

  lemma {:induction false} LeafOfWalk<L, N>(cs: seq<Cursor<L, N>>, n: nat)
    requires n < |LeafCursors(cs)|
    ensures LeafCursors(cs)[n] in cs && LeafCursors(cs)[n].IsLeaf()
  {
    if cs[0].IsLeaf() && n == 0 {
    } else {
      LeafOfWalk(cs[1..], if cs[0].IsLeaf() then n - 1 else n);
    }
  }

  // ----- Two leaves trade places -----

  function SwapOf<L(==)>(p: L, x: L, y: L): L { if p == x then y else if p == y then x else p }

  function Swapped<L(==), N>(t: Tree<L, N>, x: L, y: L): Tree<L, N> {
    match t
    case Empty => Empty
    case Leaf(p) => Leaf(SwapOf(p, x, y))
    case Node(left, right, data) => Node(Swapped(left, x, y), Swapped(right, x, y), data)
  }

  lemma {:induction false} SwappedLeaves<L, N>(t: Tree<L, N>, x: L, y: L)
    ensures SameShape(t, Swapped(t, x, y))
    ensures |Leaves(Swapped(t, x, y))| == |Leaves(t)|
    ensures forall k :: 0 <= k < |Leaves(t)| ==> Leaves(Swapped(t, x, y))[k] == SwapOf(Leaves(t)[k], x, y)
  {
    if t.Node? {
      SwappedLeaves(t.left, x, y);
      SwappedLeaves(t.right, x, y);
    }
  }

  lemma {:induction false} LeavesAreLeafSet<L, N>(t: Tree<L, N>)
    ensures ToSet(Leaves(t)) == LeafSet(t)
  {
    if t.Node? {
      LeavesAreLeafSet(t.left);
      LeavesAreLeafSet(t.right);
      assert ToSet(Leaves(t.left) + Leaves(t.right)) == ToSet(Leaves(t.left)) + ToSet(Leaves(t.right));
    }
  }

  lemma {:induction false} DistinctNoRepeats<L, N>(t: Tree<L, N>)
    ensures DistinctLeaves(t) <==> NoRepeats(Leaves(t))
  {
    if t.Node? {
      DistinctNoRepeats(t.left);
      DistinctNoRepeats(t.right);
      LeavesAreLeafSet(t.left);
      LeavesAreLeafSet(t.right);
      NoRepeatsParts(Leaves(t.left), Leaves(t.right));
    }
  }

  lemma {:induction false} NoRepeatsParts<T>(a: seq<T>, b: seq<T>)
    ensures NoRepeats(a + b) <==> NoRepeats(a) && NoRepeats(b) && ToSet(a) !! ToSet(b)
  {
    var s := a + b;
    if NoRepeats(s) {
      assert forall i :: 0 <= i < |a| ==> s[i] == a[i];
      assert forall i :: 0 <= i < |b| ==> s[|a| + i] == b[i];
    } else if ToSet(a) !! ToSet(b) && NoRepeats(a) && NoRepeats(b) {
      assert forall x :: x in a ==> x in ToSet(a);
      assert forall x :: x in b ==> x in ToSet(b);
      NoRepeatsConcat(a, b);
    }
  }

  lemma {:induction false} TwoLeavesSwapped<L, N>(t: Tree<L, N>, u: Tree<L, N>, i: nat, j: nat)
    requires DistinctLeaves(t) && SameShape(t, u) && i < |Leaves(t)| && j < |Leaves(t)|
    requires Leaves(u) == Leaves(t)[j := Leaves(t)[i]][i := Leaves(t)[j]]
    ensures u == Swapped(t, Leaves(t)[i], Leaves(t)[j])
  {
    var s := Leaves(t);
    var v := Swapped(t, s[i], s[j]);
    DistinctNoRepeats(t);
    SwappedLeaves(t, s[i], s[j]);
    assert Leaves(u) == Leaves(v);
    SameShapeSymmetric(t, u);
    SameShapeTransitive(u, t, v);
    ShapeAndLeaves(u, v);
  }

  lemma {:induction false} SameShapeSymmetric<L, N>(t: Tree<L, N>, u: Tree<L, N>)
    requires SameShape(t, u)
    ensures SameShape(u, t)
  {
    if t.Node? {
      SameShapeSymmetric(t.left, u.left);
      SameShapeSymmetric(t.right, u.right);
    }
  }

  /** The panes at two leaf indices trade places: the active pane goes to `index`,
      and the pane found there to the active index. */
  method SwapActiveWithIndex<L, N>(t: Tree<L, N>, active: nat, index: nat) returns (u: Tree<L, N>)
    requires Full(t) && active < |Leaves(t)|
    ensures SameShape(t, u)
    ensures Leaves(u) == if index < |Leaves(t)| then Leaves(t)[index := Leaves(t)[active]][active := Leaves(t)[index]]
                         else Leaves(t)
    ensures DistinctLeaves(t) && index < |Leaves(t)| ==> u == Swapped(t, Leaves(t)[active], Leaves(t)[index])
  {
    var pane := Leaves(t)[active];
    var swapped, found := WriteNthLeaf(t, index, pane);
    u := swapped;
    if found.Some? {
      ShapeFull(t, swapped);
      u, found := WriteNthLeaf(swapped, active, found.value);
      SameShapeTransitive(t, swapped, u);
      if DistinctLeaves(t) {
        TwoLeavesSwapped(t, u, active, index);
      }
    }
  }

  // ----- What trading places does to the subtrees -----

  function SwapSet<L>(s: set<L>, x: L, y: L): set<L> { set p | p in s :: SwapOf(p, x, y) }

  lemma {:induction false} InSwapSet<L>(s: set<L>, x: L, y: L, p: L)
    ensures p in SwapSet(s, x, y) <==> SwapOf(p, x, y) in s
  {
    assert SwapOf(SwapOf(p, x, y), x, y) == p;
  }

  lemma {:induction false} SwapSetTwice<L>(s: set<L>, x: L, y: L)
    ensures forall p :: p in SwapSet(s, x, y) <==> SwapOf(p, x, y) in s
    ensures SwapSet(SwapSet(s, x, y), x, y) == s
    ensures (x in s <==> y in s) ==> SwapSet(s, x, y) == s
  {
    forall p
      ensures p in SwapSet(s, x, y) <==> SwapOf(p, x, y) in s
      ensures p in SwapSet(SwapSet(s, x, y), x, y) <==> p in s
    {
      InSwapSet(s, x, y, p);
      InSwapSet(s, x, y, SwapOf(p, x, y));
      InSwapSet(SwapSet(s, x, y), x, y, p);
      assert SwapOf(SwapOf(p, x, y), x, y) == p;
    }
  }

  lemma {:induction false} SwappedLeafSet<L, N>(t: Tree<L, N>, x: L, y: L)
    ensures LeafSet(Swapped(t, x, y)) == SwapSet(LeafSet(t), x, y)
  {
    if t.Node? {
      SwappedLeafSet(t.left, x, y);
      SwappedLeafSet(t.right, x, y);
    }
  }

  lemma {:induction false} SwappedSubtrees<L, N>(t: Tree<L, N>, x: L, y: L, s: set<L>)
    ensures IsSubtree(Swapped(t, x, y), s) <==> IsSubtree(t, SwapSet(s, x, y))
  {
    SwappedLeafSet(t, x, y);
    SwapSetTwice(s, x, y);
    SwapSetTwice(LeafSet(t), x, y);
    if t.Node? {
      SwappedSubtrees(t.left, x, y, s);
      SwappedSubtrees(t.right, x, y, s);
    }
  }

  lemma {:induction false} SwapSetDisjoint<L>(a: set<L>, b: set<L>, x: L, y: L)
    requires a !! b
    ensures SwapSet(a, x, y) !! SwapSet(b, x, y)
  {
    SwapSetTwice(a, x, y);
    SwapSetTwice(b, x, y);
  }

  lemma {:induction false} SwappedDistinct<L, N>(t: Tree<L, N>, x: L, y: L)
    requires DistinctLeaves(t)
    ensures DistinctLeaves(Swapped(t, x, y))
  {
    if t.Node? {
      SwappedDistinct(t.left, x, y);
      SwappedDistinct(t.right, x, y);
      SwappedLeafSet(t.left, x, y);
      SwappedLeafSet(t.right, x, y);
      SwapSetDisjoint(LeafSet(t.left), LeafSet(t.right), x, y);
    }
  }

  /** Trading places keeps the leaves and the tree proper. */
  lemma {:induction false} SwappedWhole<L, N>(t: Tree<L, N>, x: L, y: L)
    requires Full(t) && DistinctLeaves(t) && {x, y} <= LeafSet(t)
    ensures var u := Swapped(t, x, y); Full(u) && DistinctLeaves(u) && LeafSet(u) == LeafSet(t)
  {
    SwappedLeafSet(t, x, y);
    SwapSetTwice(LeafSet(t), x, y);
    SwappedDistinct(t, x, y);
    SwappedLeaves(t, x, y);
    ShapeFull(t, Swapped(t, x, y));
  }

  /** Two subtrees are apart, or one is inside the other. */
  lemma {:induction false} Laminar<L, N>(t: Tree<L, N>, a: set<L>, b: set<L>)
    requires Full(t) && DistinctLeaves(t) && IsSubtree(t, a) && IsSubtree(t, b)
    ensures a !! b || a <= b || b <= a
  {
    SubtreeSetsInside(t, a);
    SubtreeSetsInside(t, b);
    if a != LeafSet(t) && b != LeafSet(t) {
      var (inLeft, inRight) := (IsSubtree(t.left, a), IsSubtree(t.left, b));
      SubtreeSetsInside(if inLeft then t.left else t.right, a);
      SubtreeSetsInside(if inRight then t.left else t.right, b);
      if inLeft == inRight {
        Laminar(if inLeft then t.left else t.right, a, b);
      }
    }
  }

  /** A subtree of two or more leaves is one afterwards exactly when it held both
      or neither of the leaves that traded places. */
  lemma {:induction false} SubtreeSurvivesSwapIff<L, N>(t: Tree<L, N>, x: L, y: L, s: set<L>, p: L, q: L)
    requires Full(t) && DistinctLeaves(t) && IsSubtree(t, s) && p != q && {p, q} <= s
    ensures IsSubtree(Swapped(t, x, y), s) <==> (x in s <==> y in s)
  {
    SwappedSubtrees(t, x, y, s);
    SwapSetTwice(s, x, y);
    var s' := SwapSet(s, x, y);
    if x in s <==> y in s {
      assert s' == s;
    } else {
      var out, other := if x in s then x else y, if x in s then y else x;
      var third := if p == out then q else p;
      assert out in s && out !in s' && other in s' && other !in s && third in s && third in s';
      if IsSubtree(t, s') {
        Laminar(t, s, s');
      }
    }
  }
}
