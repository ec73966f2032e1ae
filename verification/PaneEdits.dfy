/** Removing a pane and splitting one keep the invariant (`mux/src/pane_group.rs`). */
module PaneEdits {
  import opened Wrappers
  import opened Sequences
  import opened BinTree
  import opened SubtreeSets
  import opened PaneGroup
  import opened PaneLayout

  /** What the tab does when the leaf of pane `p` goes: the group state forgets
      it, and the unit it asks for is shown. */
  ghost function AfterRemoval(st: Groups, hidden: set<PaneId>, p: PaneId): (Groups, set<PaneId>) {
    var (st', shown) := st.RemovePane(p);
    (st', Revealed(st', hidden - {p}, shown))
  }

  /** Unsplitting a leaf from the tree together with `RemovePane` keeps the invariant. */
  lemma {:induction false} RemovalKeepsInv<N(!new)>(st: Groups, hidden: set<PaneId>, c: Cursor<PaneId, N>)
    requires Inv(st, c.Whole(), hidden) && c.IsLeaf() && !c.IsTop()
    ensures c.UnsplitLeaf().Ok?
    ensures var (st', hidden') := AfterRemoval(st, hidden, c.it.value);
            Inv(st', c.UnsplitLeaf().value.0.Whole(), hidden')
  {
    var t, t', p := c.Whole(), c.UnsplitLeaf().value.0.Whole(), c.it.value;
    WholeOfLeaf(c.path, c.it);
    UnsplitRemovesLeaf(c);
    match FindMember(st.groups, p)
    case None => LeaveStackKeepsInv(st, t, t', hidden, p);
    case Some(i) =>
      GroupFound(st, i);
      assert GroupOk(st.groups[i], st.nextId);
      WithoutShrinks(st.groups[i].members, p);
      LeaveGroupKeepsInv(st, t, t', hidden, i, p);
  }

  /** The tree after splitting the leaf under the cursor, the new pane on either side. */
  function SplitTree<N>(c: Cursor<PaneId, N>, n: PaneId, onRight: bool): Tree<PaneId, N>
    requires c.IsLeaf()
  {
    if onRight then c.SplitLeafAndInsertRight(n).value.Whole() else c.SplitLeafAndInsertLeft(n).value.Whole()
  }

  /** Splitting a leaf together with `Adopt` keeps the invariant, whichever side
      the new pane goes to and however the old one was grouped and stacked. */
  lemma {:induction false} SplitKeepsInv<N(!new)>(st: Groups, hidden: set<PaneId>, hidden': set<PaneId>,
                                                  c: Cursor<PaneId, N>, n: PaneId, onRight: bool)
    requires Inv(st, c.Whole(), hidden) && c.IsLeaf() && n !in LeafSet(c.Whole())
    requires st.nextId + 1 < ID_LIMIT
    requires hidden' - {n} == hidden - {n} && (n in hidden' <==> c.it.value in hidden)
    ensures Inv(st.Adopt(c.it.value, n), SplitTree(c, n, onRight), hidden')
  {
    var t, t', e := c.Whole(), SplitTree(c, n, onRight), c.it.value;
    WholeOfLeaf(c.path, c.it);
    SplitInsertsLeaf(c, n);
    match FindMember(st.groups, e)
    case Some(i) =>
      GroupFound(st, i);
      JoinedKeepsInv(st, t, t', hidden, hidden', i, e, n);
    case None =>
      if st.StackOf(Pane(e)).None? {
        LoneUnstackedKeepsInv(st, t, t', hidden, hidden', e, n);
      } else {
        NewPaneInNoGroup(st, t, n);
        WrappedGroups(st, e, n);
        WrappedKeepsInv(st, t, t', hidden, hidden', e, n);
      }
  }
}
