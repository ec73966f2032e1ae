/** What the operations of a tab do to its tree, its stacks and what is
    visible (`mux/src/tab.rs`). */
module TabEffects {
  import opened Wrappers
  import opened Sequences
  import opened BinTree
  import opened SubtreeSets
  import opened Docking
  import opened PaneGroup
  import opened PaneLayout
  import opened PaneEdits
  import opened TabLayout
  import opened UnitMoves
  import opened LeafSwaps
  import opened PaneEffects
  import PaneRestore

  // ----- Showing, focusing and hiding -----

  /** The unit comes on show in its stack: its panes are visible, those of the unit
      that was on show are hidden, and nothing else changes. */
  lemma {:induction false} ShownUnit<N(!new)>(l: Layout<N>, k: nat, to: nat)
    requires Sound(l) && k < |l.st.stacks| && to < |l.st.stacks[k].units|
    ensures l.st.stacks[k].active < |l.st.stacks[k].units|
    ensures var (stack, l') := (l.st.stacks[k], ShowStackUnit(l, l.st.stacks[k].units[to]));
            && l'.tree == l.tree && l'.st.groups == l.st.groups && l'.st.nextId == l.st.nextId
            && |l'.st.stacks| == |l.st.stacks|
            && (forall j :: 0 <= j < |l.st.stacks| && j != k ==> l'.st.stacks[j] == l.st.stacks[j])
            && l'.st.stacks[k].units == stack.units && l'.st.stacks[k].active == to
            && forall q :: q in l'.hidden <==>
                 q !in l.st.UnitPanes(stack.units[to]) && (q in l.st.UnitPanes(OnShow(stack)) || q in l.hidden)
  {
    var stack := l.st.stacks[k];
    assert StackOk(l.st, l.tree, l.hidden, stack);
    SameStack(l.st, stack.units[to], k);
    assert Position(stack.units, stack.units[to]) == to;
    if to != stack.active {
      UnitsApart(l.st, stack.units[to], OnShow(stack));
    }
  }

  /** Focusing a pane makes it visible if its unit is stacked, and its group remembers it. */
  lemma {:induction false} Focused<N(!new)>(l: Layout<N>, p: PaneId)
    requires Sound(l)
    ensures var l' := Focus(l, p);
            && l'.tree == l.tree
            && (p !in l.hidden ==> l'.hidden == l.hidden && l'.st.stacks == l.st.stacks)
            && (l.st.StackOf(l.st.UnitOf(p)).Some? ==> p !in l'.hidden)
            && (p in l.hidden ==>
                  var shown := ShowStackUnit(l, l.st.UnitOf(p));
                  l'.hidden == shown.hidden && l'.st.stacks == shown.st.stacks)
            && (l.st.StackOf(l.st.UnitOf(p)).None? ==> l'.hidden == l.hidden && l'.st.stacks == l.st.stacks)
            && Remembered(l'.st, p) == (if l.st.UnitOf(p).Group? then Some(p) else None)
            && forall q :: && l'.st.UnitOf(q) == l.st.UnitOf(q)
                           && (l.st.UnitOf(q) != l.st.UnitOf(p) ==> Remembered(l'.st, q) == Remembered(l.st, q))
  {
    var unit := l.st.UnitOf(p);
    var shown := if p in l.hidden then ShowStackUnit(l, unit) else l;
    ShowStackUnitKeepsSound(l, unit);
    NotedActive(shown.st, p);
    UnitOfCanonical(l.st, p);
    match l.st.StackOf(unit)
    case Some(k) => ShownUnit(l, k, Position(l.st.stacks[k].units, unit));
    case None =>
    SameNames(l.st, shown.st);
  }

  lemma {:induction false} SameNames(st: Groups, st': Groups)
    requires st.groups == st'.groups
    ensures forall q :: st'.UnitOf(q) == st.UnitOf(q) && Remembered(st', q) == Remembered(st, q)
  {
  }

  /** Toggling a lone or grouped pane changes what is visible of it alone, unless it
      is the last visible pane; a stacked pane that is hidden comes on show, and one
      on show stays. */
  lemma {:induction false} Toggled<N(!new)>(l: Layout<N>, p: PaneId)
    requires Sound(l)
    ensures var (l', stacked) := (TogglePaneHidden(l, p), l.st.StackOf(l.st.UnitOf(p)).Some?);
            && l'.tree == l.tree && l'.st.groups == l.st.groups
            && (stacked && p !in l.hidden ==> l' == l)
            && (stacked && p in l.hidden ==> p !in l'.hidden && l' == ShowStackUnit(l, l.st.UnitOf(p)))
            && (!stacked ==> l'.st == l.st && forall q :: q != p ==> (q in l'.hidden <==> q in l.hidden))
            && (!stacked && p in l.hidden ==> p !in l'.hidden)
            && (!stacked && p !in l.hidden ==>
                  (p in l'.hidden <==> exists q :: q in LeafSet(l.tree) && q != p && q !in l.hidden))
  {
    var unit := l.st.UnitOf(p);
    UnitOfCanonical(l.st, p);
    match l.st.StackOf(unit)
    case Some(k) =>
      ShownUnit(l, k, Position(l.st.stacks[k].units, unit));
    case None =>
      var others := LeafSet(l.tree) - l.hidden - {p};
      if others != {} {
        var q :| q in others;
      } else {
        assert forall q :: q in LeafSet(l.tree) && q != p && q !in l.hidden ==> q in others;
      }
  }

  // ----- Closing and splitting -----

  /** The unit that is to be shown once the lone pane `p` is gone from the front of its stack. */
  function Successor(st: Groups, p: PaneId): Option<Unit> {
    match (FindMember(st.groups, p), st.StackOf(Pane(p)))
    case (None, Some(k)) =>
      var (units, front) := (st.stacks[k].units, st.stacks[k].active);
      if front >= |units| || units[front] != Pane(p) then None
      else if front + 1 < |units| then Some(units[front + 1])
      else if front > 0 then Some(units[front - 1])
      else None
    case _ => None
  }

  /** The pane is gone from the tree and from the hidden ones, the successor's panes
      are visible, and all others are as visible as before. */
  lemma {:induction false} Closed<N(!new)>(l: Layout<N>, c: Cursor<PaneId, N>)
    requires Sound(l) && c.Whole() == l.tree && c.IsLeaf()
    ensures var (p, l') := (c.it.value, ClosePane(l, c));
            && l'.tree == RemoveLeaf(l.tree, p) && Leaves(l'.tree) == Kept(Leaves(l.tree), [p])
            && l'.st == l.st.RemovePane(p).0
            && l'.hidden == l.hidden - {p}
                            - match Successor(l.st, p) case Some(u) => ToSet(l.st.UnitPanes(u)) case None => {}
  {
    var p := c.it.value;
    RemovedLeaf(l.tree, p);
    if c.IsTop() {
      assert Plug(Top, c.it) == c.it;
      SoleLeafUngrouped<N>(l.st, p, l.hidden);
    } else {
      WholeOfLeaf(c.path, c.it);
      UnsplitIsRemoveLeaf(c);
    }
    Revealing(l, p);
  }

  /** What `RemovePane` has to be shown is the successor, which the removal leaves as it was. */
  lemma {:induction false} Revealing<N(!new)>(l: Layout<N>, p: PaneId)
    requires Sound(l)
    ensures var (st', shown) := l.st.RemovePane(p);
            shown == Successor(l.st, p) && (shown.Some? ==> st'.UnitPanes(shown.value) == l.st.UnitPanes(shown.value))
  {
    match FindMember(l.st.groups, p)
    case Some(i) => NothingRevealed(l, p, i);
    case None =>
      match l.st.StackOf(Pane(p)) {
        case None => RemovedUnknown(l.st, p);
        case Some(k) => NextRevealed(l, p, k);
      }
  }

  lemma {:induction false} NothingRevealed<N(!new)>(l: Layout<N>, p: PaneId, i: nat)
    requires Sound(l) && FindMember(l.st.groups, p) == Some(i)
    ensures l.st.RemovePane(p).1 == None
  {
    GroupFound(l.st, i);
    var j :| 0 <= j < |l.st.groups[i].members| && l.st.groups[i].members[j] == p;
    assert GroupOk(l.st.groups[i], l.st.nextId);
    if |l.st.groups[i].members| > 2 {
      RemovedFromGroup(l.st, i, j);
    } else {
      RemovedFromPair(l.st, i, j);
    }
  }

  lemma {:induction false} NextRevealed<N(!new)>(l: Layout<N>, p: PaneId, k: nat)
    requires Sound(l) && FindMember(l.st.groups, p).None? && l.st.StackOf(Pane(p)) == Some(k)
    ensures var (st', shown) := l.st.RemovePane(p);
            shown == Successor(l.st, p) && (shown.Some? ==> st'.UnitPanes(shown.value) == l.st.UnitPanes(shown.value))
  {
    var pos := PlaceInStack(l, Pane(p), k);
    RemovedFromStack(l.st, p, k, pos);
    SuccessorIs(l.st, p, k, pos);
    SamePanes(l.st, l.st.RemovePane(p).0);
  }

  lemma {:induction false} PlaceInStack<N(!new)>(l: Layout<N>, u: Unit, k: nat) returns (pos: nat)
    requires Sound(l) && l.st.StackOf(u) == Some(k)
    ensures k < |l.st.stacks| && |l.st.stacks[k].units| >= 2 && l.st.stacks[k].active < |l.st.stacks[k].units|
    ensures pos < |l.st.stacks[k].units| && l.st.stacks[k].units[pos] == u
    ensures forall a :: 0 <= a < |l.st.stacks[k].units| && l.st.stacks[k].units[a] == u ==> a == pos
  {
    SameStack(l.st, u, k);
    assert StackOk(l.st, l.tree, l.hidden, l.st.stacks[k]);
    pos := Position(l.st.stacks[k].units, u);
  }

  lemma {:induction false} SuccessorIs(st: Groups, p: PaneId, k: nat, pos: nat)
    requires FindMember(st.groups, p).None? && st.StackOf(Pane(p)) == Some(k)
    requires k < |st.stacks| && st.stacks[k].active < |st.stacks[k].units| && |st.stacks[k].units| >= 2
    requires pos < |st.stacks[k].units| && st.stacks[k].units[pos] == Pane(p)
    requires forall a :: 0 <= a < |st.stacks[k].units| && st.stacks[k].units[a] == Pane(p) ==> a == pos
    ensures var units := st.stacks[k].units;
            Successor(st, p) == if pos != st.stacks[k].active then None
                                else if pos + 1 < |units| then Some(units[pos + 1])
                                else Some(units[pos - 1])
  {
  }

  lemma {:induction false} SamePanes(st: Groups, st': Groups)
    requires st'.groups == st.groups
    ensures forall u :: st'.UnitPanes(u) == st.UnitPanes(u)
  {
  }

  /** The new pane comes to lie right before or right after the one that is split, and nothing is hidden or shown. */
  lemma {:induction false} SplitBeside<N(!new)>(l: Layout<N>, c: Cursor<PaneId, N>, n: PaneId, onRight: bool)
    requires c.Whole() == l.tree && c.IsLeaf()
    ensures var (e, l') := (c.it.value, SplitPane(l, c, n, onRight));
            && Leaves(l.tree) == Before(c.path) + [e] + After(c.path)
            && Leaves(l'.tree) == Before(c.path) + (if onRight then [e, n] else [n, e]) + After(c.path)
            && l'.hidden == l.hidden && l'.st == l.st.Adopt(e, n)
  {
    var leaf: Tree<PaneId, N> := Leaf(n);
    PlugLeaves(c.path, c.it);
    PlugLeaves(c.path, if onRight then Node(c.it, leaf, None) else Node(leaf, c.it, None));
    assert [c.it.value] + [n] == [c.it.value, n] && [n] + [c.it.value] == [n, c.it.value];
  }

  lemma {:induction false} SplitTopBeside<N(!new)>(l: Layout<N>, n: PaneId, onRight: bool)
    requires l.tree.Node?
    ensures var l' := SplitTop(l, n, onRight);
            && Leaves(l'.tree) == (if onRight then Leaves(l.tree) + [n] else [n] + Leaves(l.tree))
            && l'.hidden == l.hidden && l'.st == l.st
  {
    var leaf: Tree<PaneId, N> := Leaf(n);
    var t := if onRight then Node(l.tree, leaf, None) else Node(leaf, l.tree, None);
    assert Plug(Top, t) == t == SplitTop(l, n, onRight).tree;
    assert Leaves(leaf) == [n];
  }

  // ----- Grouping, ungrouping and stacking -----

  /** Ungrouping makes lone panes of a group that is not stacked. */
  lemma {:induction false} Ungrouped<N(!new)>(l: Layout<N>, p: PaneId)
    requires Sound(l)
    ensures var (u, l') := (l.st.UnitOf(p), Ungroup(l, p));
            if u.Pane? || l.st.StackOf(u).Some? then l' == l
            else
              && l'.tree == l.tree && l'.hidden == l.hidden && l'.st.stacks == l.st.stacks
              && forall q :: if l.st.UnitOf(q) == u then l'.st.UnitOf(q) == Pane(q) else SameFor(l.st, l'.st, q)
  {
    match FindMember(l.st.groups, p)
    case None =>
    case Some(i) =>
      DissolvedPanes(l.st, i);
      forall q
        ensures l.st.UnitOf(q) == l.st.UnitOf(p) <==> q in l.st.groups[i].members
      {
        MemberIff(l.st, i, q);
      }
  }

  lemma {:induction false} MemberIff(st: Groups, i: nat, q: PaneId)
    requires GroupsOk(st) && i < |st.groups|
    ensures st.UnitOf(q) == Group(st.groups[i].id) <==> q in st.groups[i].members
  {
    GroupFound(st, i);
    match FindMember(st.groups, q)
    case Some(j) => GroupFound(st, j);
    case None =>
  }

  /** Docking takes the panes of `source` out, all others staying in order, and puts
      them, in order, beside the subtree of `target` on the side asked for. */
  lemma {:induction false} DockedBeside<N(!new)>(t: Tree<PaneId, N>, source: seq<PaneId>, target: seq<PaneId>,
                                                 data: Option<N>, second: bool)
    returns (path: Path<PaneId, N>, it: Tree<PaneId, N>, chain: Tree<PaneId, N>)
    requires Full(t) && DistinctLeaves(t) && source != [] && NoRepeats(source) && ToSet(source) <= LeafSet(t)
    requires ToSet(source) !! ToSet(target) && IsSubtree(t, ToSet(target))
    ensures LeafSet(it) == ToSet(target) && Leaves(chain) == source
    ensures Leaves(Plug(path, it)) == Kept(Leaves(t), source)
    ensures Dock(t, source, target, data, second)
         == Plug(path, if second then Node(it, chain, data) else Node(chain, it, data))
  {
    SubtreeSetsInside(t, ToSet(target));
    var x :| x in ToSet(target);
    assert x !in ToSet(source);
    RemoveLeavesKeepsRest(t, source);
    RemovedLeaves(t, source);
    ChainOrder(source, data);
    chain := Chain(source, data);
    path, it := ReplacedAt(Top, RemoveLeaves(t, source), ToSet(target), chain, data, second);
    assert Plug(Top, RemoveLeaves(t, source)) == RemoveLeaves(t, source);
    var u := ReplaceSubtreeWithPair(RemoveLeaves(t, source), ToSet(target), chain, data, second).0;
    assert Plug(Top, u) == u;
  }

  /** What `stack_units` does: it refuses two panes of one unit and a unit that is stacked
      already; else the unit of `active` is put in front of that of its neighbour, whose
      panes are hidden. */
  lemma {:induction false} StackedUnits<N(!new)>(l: Layout<N>, active: PaneId, neighbour: PaneId, data: Option<N>)
    requires Sound(l) && StackAsked(l, active, neighbour)
    ensures var (a, b, l') := (l.st.UnitOf(active), l.st.UnitOf(neighbour), StackUnits(l, active, neighbour, data));
            if a == b || l.st.StackOf(a).Some? then l' == l
            else
              && l'.st.groups == l.st.groups && l'.st.nextId == l.st.nextId
              && l'.tree == Dock(l.tree, l.st.UnitPanes(a), l.st.UnitPanes(b), data, true)
              && (forall q :: q in l'.hidden <==> q in l.hidden || q in l.st.UnitPanes(b))
              && match l.st.StackOf(b)
                 case None => l'.st.stacks == l.st.stacks + [PaneStack([b, a], 1)]
                 case Some(k) =>
                   && |l'.st.stacks| == |l.st.stacks|
                   && (forall j :: 0 <= j < |l.st.stacks| && j != k ==> l'.st.stacks[j] == l.st.stacks[j])
                   && l'.st.stacks[k].units == l.st.stacks[k].units + [a]
                   && l'.st.stacks[k].active == |l.st.stacks[k].units|
  {
  }

  /** What `group_units` does: the panes of both units are one new group, those of
      `active` first, that remembers `active`, and all other panes are as they were.
      The units are moved together only if they are not one subtree already. */
  lemma {:induction false} GroupedUnits<N(!new)>(l: Layout<N>, active: PaneId, neighbour: PaneId, data: Option<N>,
                                                 second: bool)
    requires Sound(l) && {active, neighbour} <= LeafSet(l.tree) && l.st.nextId + 1 < ID_LIMIT
    ensures var (a, b) := (l.st.UnitOf(active), l.st.UnitOf(neighbour));
            var l' := GroupUnits(l, active, neighbour, data, second);
            if a == b || l.st.StackOf(a).Some? || l.st.StackOf(b).Some? then l' == l
            else
              var members := l.st.UnitPanes(a) + l.st.UnitPanes(b);
              && l'.hidden == l.hidden && l'.st.stacks == l.st.stacks
              && l'.tree == (if IsSubtree(l.tree, ToSet(members)) then l.tree
                             else Dock(l.tree, l.st.UnitPanes(a), l.st.UnitPanes(b), data, second))
              && l'.st.UnitOf(active) == l'.st.UnitOf(neighbour)
              && l'.st.UnitPanes(l'.st.UnitOf(active)) == members && Remembered(l'.st, active) == Some(active)
              && forall q :: q !in members ==> SameFor(l.st, l'.st, q)
  {
    var (a, b, st) := (l.st.UnitOf(active), l.st.UnitOf(neighbour), l.st);
    if a != b && st.StackOf(a).None? && st.StackOf(b).None? {
      var members := st.UnitPanes(a) + st.UnitPanes(b);
      UnitPlaced(st, l.tree, l.hidden, active);
      UnitPlaced(st, l.tree, l.hidden, neighbour);
      GroupedMembers(l, active, neighbour);
      GroupUnitsTree(l, active, neighbour, data, second);
      var t' := GroupUnits(l, active, neighbour, data, second).tree;
      GroupLoosened(st, l.tree, t', l.hidden, a, b, members, active);
      LooseUnits(st, l.tree, l.hidden, a, b);
      var loose := Loosen(Loosen(st, a), b);
      NewGroupHolds(loose, members, active, neighbour);
      forall q | q !in members
        ensures SameFor(st, WithGroup(loose, members, active), q)
      {
        LoosenedElsewhere(st, a, q);
        LoosenKeepsUnit(st, a, b);
        LoosenKeepsInv(st, l.tree, l.hidden, a);
        LoosenedElsewhere(Loosen(st, a), b, q);
        NewGroupElsewhere(loose, WithGroup(loose, members, active), members, q);
      }
    }
  }

  lemma {:induction false} NewGroupHolds(st: Groups, members: seq<PaneId>, p: PaneId, q: PaneId)
    requires GroupsOk(WithGroup(st, members, p)) && p in members && q in members
    ensures var st' := WithGroup(st, members, p);
            && st'.UnitOf(p) == st'.UnitOf(q) && st'.UnitPanes(st'.UnitOf(p)) == members
            && Remembered(st', p) == Some(p)
  {
    GroupFound(WithGroup(st, members, p), |st.groups|);
  }

  lemma {:induction false} LoosenedElsewhere(st: Groups, u: Unit, q: PaneId)
    requires GroupsOk(st) && Canonical(st, u) && q !in st.UnitPanes(u)
    ensures SameFor(st, Loosen(st, u), q)
  {
    var i := CanonicalUnit(st, u);
    if u.Group? {
      DissolvedPanes(st, i);
    }
  }

  /** After a restore the pane with the focus is remembered by its group; a restore that
      does not fit changes nothing. */
  lemma {:induction false} RestoredFocus<N(!new)>(l: Layout<N>, infos: seq<PaneRestore.LeafInfo>, focus: Option<PaneId>)
    requires Sound(l) && Full(l.tree) && |Leaves(l.tree)| < ID_LIMIT
    ensures var (l', made) := (PaneRestore.RestoreOn(l, infos, focus),
                               PaneRestore.Restored(infos, Leaves(l.tree), SubtreeLeafSets(l.tree), l.hidden));
            && l'.tree == l.tree && l'.hidden == l.hidden
            && (made.None? ==> l' == l)
            && (made.Some? ==>
                  && l'.st.stacks == made.value.stacks
                  && (forall q :: l'.st.UnitOf(q) == made.value.UnitOf(q))
                  && (focus.Some? && l'.st.UnitOf(focus.value).Group? ==>
                        Remembered(l'.st, focus.value) == focus))
  {
    var made := PaneRestore.Restored(infos, Leaves(l.tree), SubtreeLeafSets(l.tree), l.hidden);
    if made.Some? {
      PaneRestore.RestoredInv(infos, l.tree, l.hidden);
      if focus.Some? {
        NotedActive(made.value, focus.value);
      }
    }
  }
}
