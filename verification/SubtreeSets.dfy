/** Leaf sets of subtrees, and how the zipper's surgery changes them. */
module SubtreeSets {
  import opened Wrappers
  import opened BinTree

  function LeafSet<L, N>(t: Tree<L, N>): set<L> {
    match t
    case Empty => {}
    case Leaf(l) => {l}
    case Node(left, right, _) => LeafSet(left) + LeafSet(right)
  }

  /** No leaf value occurs twice. */
  predicate DistinctLeaves<L(==), N>(t: Tree<L, N>) {
    t.Node? ==> DistinctLeaves(t.left) && DistinctLeaves(t.right) && LeafSet(t.left) !! LeafSet(t.right)
  }

  /** `s` is the leaf set of some subtree of `t`. */
  predicate IsSubtree<L(==), N>(t: Tree<L, N>, s: set<L>) {
    !t.Empty? && (s == LeafSet(t) || (t.Node? && (IsSubtree(t.left, s) || IsSubtree(t.right, s))))
  }

  /** The leaf set of every subtree, children first (`mux/src/tab.rs`). */
  function SubtreeLeafSets<L(!new), N>(t: Tree<L, N>): (r: seq<set<L>>)
    ensures forall s :: s in r <==> IsSubtree(t, s)
  {
    match t
    case Empty => []
    case Leaf(l) => [{l}]
    case Node(left, right, _) => SubtreeLeafSets(left) + SubtreeLeafSets(right) + [LeafSet(t)]
  }

  lemma SubtreeSetsInside<L, N>(t: Tree<L, N>, s: set<L>)
    requires Full(t) && IsSubtree(t, s)
    ensures {} < s <= LeafSet(t)
  {
    if t.Leaf? {
      assert t.value in s;
    } else if s == LeafSet(t) {
      SubtreeSetsInside(t.left, LeafSet(t.left));
    }
  }

  lemma {:induction false} PartsOfWhole<L, N>(path: Path<L, N>, it: Tree<L, N>)
    requires DistinctLeaves(Plug(path, it)) && Full(Plug(path, it))
    ensures DistinctLeaves(it) && Full(it) && FullPath(path)
    ensures LeafSet(it) <= LeafSet(Plug(path, it))
    decreases path
  {
    match path
    case Top =>
    case Left(right, data, up) => PartsOfWhole(up, Node(it, right, data));
    case Right(left, data, up) => PartsOfWhole(up, Node(left, it, data));
  }

  // ----- Replacing what is in the hole -----

  /** Going from `t` to `u` removes the leaf `p` and nothing else: the subtree
      leaf sets of `u` are those of `t` with `p` taken out. */
  ghost predicate Removes<L(!new), N>(t: Tree<L, N>, u: Tree<L, N>, p: L) {
    && Full(u) && DistinctLeaves(u) && LeafSet(u) == LeafSet(t) - {p}
    && (forall s :: IsSubtree(t, s) && s != {p} ==> IsSubtree(u, s - {p}))
    && (forall s :: IsSubtree(u, s) ==> IsSubtree(t, s) || IsSubtree(t, s + {p}))
  }

  /** Going from `t` to `u` puts the leaf `n` beside the leaf `e`: every subtree
      that held `e` now holds both, the two of them are a subtree, and so is
      each alone. */
  ghost predicate Inserts<L(!new), N>(t: Tree<L, N>, u: Tree<L, N>, e: L, n: L) {
    && Full(u) && DistinctLeaves(u) && LeafSet(u) == LeafSet(t) + {n}
    && (forall s :: IsSubtree(t, s) ==> IsSubtree(u, Grown(s, e, n)))
    && (forall s :: IsSubtree(u, s) ==> s == {e} || s == {n} || (IsSubtree(t, s - {n}) && s == Grown(s - {n}, e, n)))
    && IsSubtree(u, {e, n}) && IsSubtree(u, {e}) && IsSubtree(u, {n})
  }

  function Grown<L(==)>(s: set<L>, e: L, n: L): set<L> { if e in s then s + {n} else s }

  lemma {:induction false} RemovesUnderPath<L(!new), N>(path: Path<L, N>, it: Tree<L, N>, it': Tree<L, N>, p: L)
    requires Full(Plug(path, it)) && DistinctLeaves(Plug(path, it))
    requires p in LeafSet(it) && Removes(it, it', p)
    ensures Removes(Plug(path, it), Plug(path, it'), p)
    decreases path
  {
    PartsOfWhole(path, it);
    match path
    case Top =>
    case Left(right, data, up) =>
      PartsOfWhole(up, Node(it, right, data));
      RemovesInNode(it, it', right, data, p);
      RemovesUnderPath(up, Node(it, right, data), Node(it', right, data), p);
    case Right(left, data, up) =>
      PartsOfWhole(up, Node(left, it, data));
      RemovesInNode(it, it', left, data, p);
      RemovesUnderPath(up, Node(left, it, data), Node(left, it', data), p);
  }

  lemma {:induction false} RemovesInNode<L(!new), N>(it: Tree<L, N>, it': Tree<L, N>, sibling: Tree<L, N>,
                                                     data: Option<N>, p: L)
    requires p in LeafSet(it) && Removes(it, it', p)
    requires Full(it) && Full(sibling) && DistinctLeaves(sibling) && LeafSet(it) !! LeafSet(sibling)
    ensures Removes(Node(it, sibling, data), Node(it', sibling, data), p)
    ensures Removes(Node(sibling, it, data), Node(sibling, it', data), p)
  {
    forall s | IsSubtree(sibling, s)
      ensures s - {p} == s && s != {p}
    {
      SubtreeSetsInside(sibling, s);
    }
  }

  /** Unsplitting the leaf under the cursor takes it out of every subtree. */
  lemma {:induction false} UnsplitRemovesLeaf<L(!new), N>(c: Cursor<L, N>)
    requires Full(c.Whole()) && DistinctLeaves(c.Whole())
    requires c.IsLeaf() && !c.IsTop()
    ensures c.UnsplitLeaf().Ok? && c.UnsplitLeaf().value.1 == c.it.value
    ensures c.it.value in LeafSet(c.Whole())
    ensures Removes(c.Whole(), c.UnsplitLeaf().value.0.Whole(), c.it.value)
  {
    var p := c.it.value;
    var parent := c.GoUp().value;
    var sibling := c.UnsplitLeaf().value.0.it;
    PartsOfWhole(parent.path, parent.it);
    assert Removes(parent.it, sibling, p) by {
      forall s | IsSubtree(sibling, s)
        ensures s - {p} == s && s != {p}
      {
        SubtreeSetsInside(sibling, s);
      }
      SubtreeSetsInside(sibling, LeafSet(sibling));
      assert LeafSet(parent.it) - {p} == LeafSet(sibling);
      assert forall s :: IsSubtree(c.it, s) <==> s == {p};
    }
    RemovesUnderPath(parent.path, parent.it, sibling, p);
  }

  lemma {:induction false} InsertsUnderPath<L(!new), N>(path: Path<L, N>, it: Tree<L, N>, it': Tree<L, N>, e: L, n: L)
    requires Full(Plug(path, it)) && DistinctLeaves(Plug(path, it))
    requires e in LeafSet(it) && n !in LeafSet(Plug(path, it)) && Inserts(it, it', e, n)
    ensures Inserts(Plug(path, it), Plug(path, it'), e, n)
    decreases path
  {
    PartsOfWhole(path, it);
    match path
    case Top =>
    case Left(right, data, up) =>
      PartsOfWhole(up, Node(it, right, data));
      InsertsInNode(it, it', right, data, e, n);
      InsertsUnderPath(up, Node(it, right, data), Node(it', right, data), e, n);
    case Right(left, data, up) =>
      PartsOfWhole(up, Node(left, it, data));
      InsertsInNode(it, it', left, data, e, n);
      InsertsUnderPath(up, Node(left, it, data), Node(left, it', data), e, n);
  }

  lemma {:induction false} InsertsInNode<L(!new), N>(it: Tree<L, N>, it': Tree<L, N>, sibling: Tree<L, N>,
                                                     data: Option<N>, e: L, n: L)
    requires e in LeafSet(it) && n !in LeafSet(it) && n !in LeafSet(sibling) && Inserts(it, it', e, n)
    requires Full(it) && Full(sibling) && DistinctLeaves(sibling) && LeafSet(it) !! LeafSet(sibling)
    ensures Inserts(Node(it, sibling, data), Node(it', sibling, data), e, n)
    ensures Inserts(Node(sibling, it, data), Node(sibling, it', data), e, n)
  {
    forall s | IsSubtree(sibling, s)
      ensures s - {n} == s && Grown(s, e, n) == s
    {
      SubtreeSetsInside(sibling, s);
    }
  }

  /** Splitting the leaf under the cursor, on either side, puts `n` beside it. */
  lemma {:induction false} SplitInsertsLeaf<L(!new), N>(c: Cursor<L, N>, n: L)
    requires Full(c.Whole()) && DistinctLeaves(c.Whole())
    requires c.IsLeaf() && n !in LeafSet(c.Whole())
    ensures c.it.value in LeafSet(c.Whole())
    ensures c.SplitLeafAndInsertRight(n).Ok? && c.SplitLeafAndInsertLeft(n).Ok?
    ensures Inserts(c.Whole(), c.SplitLeafAndInsertRight(n).value.Whole(), c.it.value, n)
    ensures Inserts(c.Whole(), c.SplitLeafAndInsertLeft(n).value.Whole(), c.it.value, n)
  {
    var e := c.it.value;
    PartsOfWhole(c.path, c.it);
    assert e != n;
    var leaf: Tree<L, N> := Leaf(n);
    var right := c.SplitLeafAndInsertRight(n).value.it;
    var left := c.SplitLeafAndInsertLeft(n).value.it;
    assert {e, n} - {n} == {e} && {e} + {n} == {e, n} == {n} + {e};
    assert forall s :: IsSubtree(c.it, s) <==> s == {e};
    assert forall s :: IsSubtree(leaf, s) <==> s == {n};
    assert LeafSet(right) == LeafSet(c.it) + LeafSet(leaf) && LeafSet(left) == LeafSet(leaf) + LeafSet(c.it);
    InsertsUnderPath(c.path, c.it, right, e, n);
    InsertsUnderPath(c.path, c.it, left, e, n);
  }
}
