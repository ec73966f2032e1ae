/** Moving a unit's panes next to another unit: the tree surgery of
    `dock_unit` in `mux/src/tab.rs`, and what it does to subtree leaf sets. */
module Docking {
  import opened Wrappers
  import opened Sequences
  import opened BinTree
  import opened SubtreeSets

  /** The tree without the leaf `p`, whose parent is replaced by its sibling. */
  function RemoveLeaf<L(==), N>(t: Tree<L, N>, p: L): Tree<L, N> {
    match t
    case Empty => Empty
    case Leaf(l) => if l == p then Empty else t
    case Node(left, right, data) =>
      if left == Leaf(p) then right
      else if right == Leaf(p) then left
      else Node(RemoveLeaf(left, p), RemoveLeaf(right, p), data)
  }

  function RemoveLeaves<L(==), N>(t: Tree<L, N>, ps: seq<L>): Tree<L, N>
    decreases ps
  {
    if ps == [] then t else RemoveLeaves(RemoveLeaf(t, ps[0]), ps[1..])
  }

  /** `panes` chained left to right. */
  function Chain<L, N>(panes: seq<L>, data: Option<N>): Tree<L, N> {
    if panes == [] then Empty
    else if |panes| == 1 then Leaf(panes[0])
    else Node(Leaf(panes[0]), Chain(panes[1..], data), data)
  }

  /** Replaces the subtree whose leaves are exactly `target` with a node
      holding that subtree and `docked`; says whether it found the subtree. */
  function ReplaceSubtreeWithPair<L(==), N>(t: Tree<L, N>, target: set<L>, docked: Tree<L, N>, data: Option<N>,
                                            dockedSecond: bool): (Tree<L, N>, bool)
  {
    if LeafSet(t) == target then
      (if dockedSecond then Node(t, docked, data) else Node(docked, t, data), true)
    else match t
      case Node(left, right, nodeData) =>
        var (left', found) := ReplaceSubtreeWithPair(left, target, docked, data, dockedSecond);
        if found then (Node(left', right, nodeData), true)
        else
          var (right', found') := ReplaceSubtreeWithPair(right, target, docked, data, dockedSecond);
          (Node(left', right', nodeData), found')
      case _ => (t, false)
  }

  // ----- Removing leaves -----

  lemma RemoveAbsentLeaf<L, N>(t: Tree<L, N>, p: L)
    requires p !in LeafSet(t)
    ensures RemoveLeaf(t, p) == t
  {
  }

  lemma {:induction false} RemoveLeafUnderPath<L, N>(path: Path<L, N>, it: Tree<L, N>, p: L)
    requires DistinctLeaves(Plug(path, it)) && Full(Plug(path, it))
    requires p in LeafSet(it) && it != Leaf(p)
    ensures RemoveLeaf(Plug(path, it), p) == Plug(path, RemoveLeaf(it, p))
    decreases path
  {
    match path
    case Top =>
    case Left(right, data, up) =>
      PartsOfWhole(up, Node(it, right, data));
      RemoveAbsentLeaf(right, p);
      RemoveLeafUnderPath(up, Node(it, right, data), p);
    case Right(left, data, up) =>
      PartsOfWhole(up, Node(left, it, data));
      RemoveAbsentLeaf(left, p);
      RemoveLeafUnderPath(up, Node(left, it, data), p);
  }

  /** Unsplitting at a cursor depends only on the leaf it stands on. */
  lemma {:induction false} UnsplitIsRemoveLeaf<L, N>(c: Cursor<L, N>)
    requires Full(c.Whole()) && DistinctLeaves(c.Whole()) && c.IsLeaf() && !c.IsTop()
    ensures c.UnsplitLeaf().Ok?
    ensures c.UnsplitLeaf().value.0.Whole() == RemoveLeaf(c.Whole(), c.it.value)
  {
    var parent := c.GoUp().value;
    RemoveLeafUnderPath(parent.path, parent.it, c.it.value);
    PartsOfWhole(parent.path, parent.it);
  }

  lemma {:induction false} RemoveLeafRemoves<L(!new), N>(t: Tree<L, N>, p: L)
    requires Full(t) && DistinctLeaves(t) && p in LeafSet(t) && t != Leaf(p)
    ensures Removes(t, RemoveLeaf(t, p), p)
  {
    if t.left == Leaf(p) {
      var c := Cursor(t.left, Left(t.right, t.data, Top));
      assert c.Whole() == Plug(Top, t) == t && Plug(Top, t.right) == t.right;
      UnsplitRemovesLeaf(c);
    } else if t.right == Leaf(p) {
      var c := Cursor(t.right, Right(t.left, t.data, Top));
      assert c.Whole() == Plug(Top, t) == t && Plug(Top, t.left) == t.left;
      UnsplitRemovesLeaf(c);
    } else if p in LeafSet(t.left) {
      RemoveLeafRemoves(t.left, p);
      RemoveAbsentLeaf(t.right, p);
      RemovesInNode(t.left, RemoveLeaf(t.left, p), t.right, t.data, p);
    } else {
      RemoveLeafRemoves(t.right, p);
      RemoveAbsentLeaf(t.left, p);
      RemovesInNode(t.right, RemoveLeaf(t.right, p), t.left, t.data, p);
    }
  }

  /** Removing some leaves, but not all, leaves alone every subtree without them. */
  lemma {:induction false} RemoveLeavesKeepsRest<L(!new), N>(t: Tree<L, N>, ps: seq<L>)
    requires Full(t) && DistinctLeaves(t) && NoRepeats(ps) && ToSet(ps) < LeafSet(t)
    ensures var u := RemoveLeaves(t, ps);
            && Full(u) && DistinctLeaves(u) && LeafSet(u) == LeafSet(t) - ToSet(ps)
            && forall s :: IsSubtree(t, s) && s !! ToSet(ps) ==> IsSubtree(u, s)
    decreases ps
  {
    if ps != [] {
      var p := ps[0];
      assert p in ToSet(ps);
      RemoveLeafRemoves(t, p);
      assert ToSet(ps) == ToSet(ps[1..]) + {p};
      assert p !in ToSet(ps[1..]);
      RemoveLeavesKeepsRest(RemoveLeaf(t, p), ps[1..]);
      forall s | IsSubtree(t, s) && s !! ToSet(ps)
        ensures IsSubtree(RemoveLeaves(t, ps), s)
      {
        SubtreeSetsInside(t, s);
        assert s - {p} == s && s != {p};
      }
    }
  }

  // ----- Docking -----

  lemma ChainLeaves<L, N>(panes: seq<L>, data: Option<N>)
    requires panes != [] && NoRepeats(panes)
    ensures var t := Chain(panes, data); Full(t) && DistinctLeaves(t) && LeafSet(t) == ToSet(panes)
  {
    if |panes| > 1 {
      assert ToSet(panes) == {panes[0]} + ToSet(panes[1..]);
    }
  }

  /** After docking, the target and the docked leaves are subtrees, and so are
      they together; a subtree that strictly held the target gained the docked
      leaves, and every other subtree is as it was. */
  ghost predicate Docks<L(!new), N>(t: Tree<L, N>, u: Tree<L, N>, target: set<L>, docked: set<L>) {
    && Full(u) && DistinctLeaves(u) && LeafSet(u) == LeafSet(t) + docked
    && IsSubtree(u, docked) && IsSubtree(u, target + docked)
    && forall s :: IsSubtree(t, s) ==> IsSubtree(u, if target < s then s + docked else s)
  }

  lemma {:induction false} NotFoundUnchanged<L(!new), N>(t: Tree<L, N>, target: set<L>, docked: Tree<L, N>,
                                                         data: Option<N>, second: bool)
    requires Full(t)
    ensures var (u, found) := ReplaceSubtreeWithPair(t, target, docked, data, second);
            (found <==> IsSubtree(t, target)) && (!found ==> u == t)
  {
    if LeafSet(t) != target && t.Node? {
      NotFoundUnchanged(t.left, target, docked, data, second);
      NotFoundUnchanged(t.right, target, docked, data, second);
    }
  }

  lemma {:induction false} DocksInNode<L(!new), N>(it: Tree<L, N>, it': Tree<L, N>, sibling: Tree<L, N>,
                                                   data: Option<N>, target: set<L>, docked: set<L>)
    requires Docks(it, it', target, docked) && IsSubtree(it, target)
    requires Full(it) && Full(sibling) && DistinctLeaves(sibling) && LeafSet(it) !! LeafSet(sibling)
    requires docked !! LeafSet(sibling)
    ensures Docks(Node(it, sibling, data), Node(it', sibling, data), target, docked)
    ensures Docks(Node(sibling, it, data), Node(sibling, it', data), target, docked)
  {
    SubtreeSetsInside(it, target);
    var x :| x in target;
    forall s | IsSubtree(sibling, s)
      ensures !(target < s)
    {
      SubtreeSetsInside(sibling, s);
    }
    SubtreeSetsInside(sibling, LeafSet(sibling));
    var y :| y in LeafSet(sibling);
    assert y !in target;
    assert target < LeafSet(Node(it, sibling, data)) && target < LeafSet(Node(sibling, it, data));
  }

  lemma {:induction false} ReplaceDocks<L(!new), N>(t: Tree<L, N>, target: set<L>, docked: Tree<L, N>,
                                                    data: Option<N>, second: bool)
    requires Full(t) && DistinctLeaves(t) && IsSubtree(t, target)
    requires Full(docked) && DistinctLeaves(docked) && LeafSet(docked) !! LeafSet(t)
    ensures ReplaceSubtreeWithPair(t, target, docked, data, second).1
    ensures Docks(t, ReplaceSubtreeWithPair(t, target, docked, data, second).0, target, LeafSet(docked))
  {
    if LeafSet(t) == target {
      forall s | IsSubtree(t, s)
        ensures !(target < s)
      {
        SubtreeSetsInside(t, s);
      }
      assert target + LeafSet(docked) == LeafSet(docked) + target;
    } else {
      NotFoundUnchanged(t.left, target, docked, data, second);
      if IsSubtree(t.left, target) {
        ReplaceDocks(t.left, target, docked, data, second);
        var left := ReplaceSubtreeWithPair(t.left, target, docked, data, second).0;
        DocksInNode(t.left, left, t.right, t.data, target, LeafSet(docked));
      } else {
        ReplaceDocks(t.right, target, docked, data, second);
        var right := ReplaceSubtreeWithPair(t.right, target, docked, data, second).0;
        DocksInNode(t.right, right, t.left, t.data, target, LeafSet(docked));
      }
    }
  }

  // ----- Where the leaves come to lie -----

  /** Those of `s` that are not among `gone`, in order. */
  function Kept<L(==)>(s: seq<L>, gone: seq<L>): seq<L> {
    if s == [] then [] else (if s[0] in gone then [] else [s[0]]) + Kept(s[1..], gone)
  }

  lemma {:induction false} KeptConcat<L>(a: seq<L>, b: seq<L>, gone: seq<L>)
    ensures Kept(a + b, gone) == Kept(a, gone) + Kept(b, gone)
  {
    if a == [] {
      assert a + b == b;
    } else {
      assert (a + b)[1..] == a[1..] + b;
      KeptConcat(a[1..], b, gone);
    }
  }

  lemma {:induction false} KeptTwice<L>(s: seq<L>, p: L, gone: seq<L>)
    ensures Kept(Kept(s, [p]), gone) == Kept(s, [p] + gone)
  {
    if s != [] {
      var rest := Kept(s[1..], [p]);
      KeptTwice(s[1..], p, gone);
      assert ([s[0]] + rest)[1..] == rest && [] + rest == rest;
      assert s[0] in [p] + gone <==> s[0] == p || s[0] in gone;
    }
  }

  lemma {:induction false} RemovedLeaf<L, N>(t: Tree<L, N>, p: L)
    requires DistinctLeaves(t)
    ensures Leaves(RemoveLeaf(t, p)) == Kept(Leaves(t), [p])
  {
    match t
    case Empty =>
    case Leaf(_) =>
    case Node(left, right, _) =>
      KeptConcat(Leaves(left), Leaves(right), [p]);
      RemovedLeaf(left, p);
      RemovedLeaf(right, p);
      if left == Leaf(p) {
        RemoveAbsentLeaf(right, p);
      } else if right == Leaf(p) {
        RemoveAbsentLeaf(left, p);
      }
  }

  /** Taking panes out leaves the others in the order they were in. */
  lemma {:induction false} RemovedLeaves<L(!new), N>(t: Tree<L, N>, ps: seq<L>)
    requires Full(t) && DistinctLeaves(t) && NoRepeats(ps) && ToSet(ps) < LeafSet(t)
    ensures Leaves(RemoveLeaves(t, ps)) == Kept(Leaves(t), ps)
    decreases ps
  {
    if ps == [] {
      KeptAll(Leaves(t));
    } else {
      var p := ps[0];
      assert p in ToSet(ps) && p !in ToSet(ps[1..]);
      assert ToSet(ps) == ToSet(ps[1..]) + {p};
      RemoveLeafRemoves(t, p);
      RemovedLeaf(t, p);
      RemovedLeaves(RemoveLeaf(t, p), ps[1..]);
      KeptTwice(Leaves(t), p, ps[1..]);
      assert [p] + ps[1..] == ps;
    }
  }

  lemma {:induction false} KeptAll<L>(s: seq<L>)
    ensures Kept(s, []) == s
  {
    if s != [] {
      KeptAll(s[1..]);
    }
  }

  lemma {:induction false} ChainOrder<L, N>(panes: seq<L>, data: Option<N>)
    ensures Leaves(Chain(panes, data)) == panes
  {
    if |panes| > 1 {
      ChainOrder(panes[1..], data);
    }
  }

  /** The docked tree is put beside the target, on the side asked for, under a new
      node, and the rest of the tree is as it was. */
  lemma {:induction false} ReplacedAt<L(!new), N>(up: Path<L, N>, t: Tree<L, N>, target: set<L>, docked: Tree<L, N>,
                                            data: Option<N>, second: bool)
    returns (path: Path<L, N>, it: Tree<L, N>)
    requires Full(t) && IsSubtree(t, target)
    ensures LeafSet(it) == target && Plug(path, it) == Plug(up, t)
    ensures Plug(up, ReplaceSubtreeWithPair(t, target, docked, data, second).0)
            == Plug(path, if second then Node(it, docked, data) else Node(docked, it, data))
    decreases t
  {
    if LeafSet(t) == target {
      path, it := up, t;
    } else {
      NotFoundUnchanged(t.left, target, docked, data, second);
      if IsSubtree(t.left, target) {
        path, it := ReplacedAt(Left(t.right, t.data, up), t.left, target, docked, data, second);
      } else {
        path, it := ReplacedAt(Right(t.left, t.data, up), t.right, target, docked, data, second);
      }
    }
  }
}
