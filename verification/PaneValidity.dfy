/** The invariant of a tab's layout implies what `validate` checks
    (`mux/src/pane_group.rs`), and what that finds after units were stacked. */
module PaneValidity {
  import opened Wrappers
  import opened BinTree
  import opened SubtreeSets
  import opened PaneGroup
  import opened PaneLayout
  import opened TabLayout
  import opened UnitMoves
  import opened GroupStates

  lemma {:induction false} ShownOnce(st: Groups, units: seq<Unit>, active: nat, n: nat, hidden: set<PaneId>)
    requires active < |units| && n <= |units| && Shown(st, units[active], hidden)
    requires forall a :: 0 <= a < |units| && a != active ==>
               Concealed(st, units[a], hidden) && st.UnitPanes(units[a]) != []
    ensures ShownCount(st, units[..n], hidden) == if active < n then 1 else 0
  {
    if n > 0 {
      assert units[..n][..n - 1] == units[..n - 1];
      ShownOnce(st, units, active, n - 1, hidden);
      if n - 1 != active {
        var q := st.UnitPanes(units[n - 1])[0];
        assert q in st.UnitPanes(units[n - 1]);
      }
    }
  }

  lemma {:induction false} InvValidates<N(!new)>(st: Groups, t: Tree<PaneId, N>, hidden: set<PaneId>)
    requires Inv(st, t, hidden)
    ensures Validates(st, SubtreeLeafSets(t), hidden)
  {
    forall i | 0 <= i < |st.groups|
      ensures GroupValid(st.groups[i], SubtreeLeafSets(t))
    {
      assert GroupOk(st.groups[i], st.nextId);
    }
    forall k | 0 <= k < |st.stacks|
      ensures StackValid(st, st.stacks[k], SubtreeLeafSets(t), hidden)
    {
      var stack := st.stacks[k];
      assert StackOk(st, t, hidden, stack);
      ShownOnce(st, stack.units, stack.active, |stack.units|, hidden);
      assert stack.units[..|stack.units|] == stack.units;
    }
  }

  // ----- What `validate` finds after stacking -----

  /** When every unit is hidden, none is counted as visible. */
  lemma {:induction false} NoneShown(st: Groups, units: seq<Unit>, n: nat, hidden: set<PaneId>)
    requires n <= |units|
    requires forall a :: 0 <= a < |units| ==> Concealed(st, units[a], hidden) && st.UnitPanes(units[a]) != []
    ensures ShownCount(st, units[..n], hidden) == 0
  {
    if n > 0 {
      assert units[..n][..n - 1] == units[..n - 1];
      NoneShown(st, units, n - 1, hidden);
      var q := st.UnitPanes(units[n - 1])[0];
      assert q in st.UnitPanes(units[n - 1]);
    }
  }

  /** The slot a unit is stacked into: its neighbour's stack, or a new one. */
  function SlotOf(st: Groups, b: Unit): nat {
    match st.StackOf(b) case Some(k) => k case None => |st.stacks|
  }

  /** Every unit behind the one on show is hidden after stacking. */
  lemma {:induction false} BehindConcealed<N(!new)>(l: Layout<N>, active: PaneId, neighbour: PaneId, data: Option<N>,
                                                    i: nat)
    requires Sound(l) && CanStack(l, active, neighbour)
    requires var l' := StackUnits(l, active, neighbour, data); var k := SlotOf(l.st, l.st.UnitOf(neighbour));
             k < |l'.st.stacks| && i + 1 < |l'.st.stacks[k].units|
    ensures var l' := StackUnits(l, active, neighbour, data); var k := SlotOf(l.st, l.st.UnitOf(neighbour));
            Concealed(l.st, l'.st.stacks[k].units[i], l'.hidden)
  {
    var b := l.st.UnitOf(neighbour);
    match l.st.StackOf(b)
    case None =>
    case Some(k) =>
      assert StackOk(l.st, l.tree, l.hidden, l.st.stacks[k]);
      UnitOfCanonical(l.st, neighbour);
      VisibleUnitActive(l.st, l.tree, l.hidden, l.st.stacks[k], neighbour);
  }

  /** A unit on show with a hidden pane is refused, and so is a stack that is all hidden. */
  lemma {:induction false} HalfHiddenRefused(st: Groups, stack: PaneStack, subtrees: seq<set<PaneId>>,
                                             hidden: set<PaneId>)
    requires stack.units != [] && !Shown(st, stack.units[|stack.units| - 1], hidden)
    requires forall i :: 0 <= i < |stack.units| - 1 ==> Concealed(st, stack.units[i], hidden)
    ensures !StackValid(st, stack, subtrees, hidden)
  {
    assert stack.units[..|stack.units|] == stack.units;
    if StackValid(st, stack, subtrees, hidden) {
      NoneShown(st, stack.units, |stack.units|, hidden);
    }
  }

  lemma {:induction false} SameUnitPanes(st: Groups, st': Groups, units: seq<Unit>, hidden: set<PaneId>)
    requires st.groups == st'.groups
    ensures forall i :: 0 <= i < |units| ==>
              && (Concealed(st, units[i], hidden) <==> Concealed(st', units[i], hidden))
              && (Shown(st, units[i], hidden) <==> Shown(st', units[i], hidden))
  {
  }

  lemma {:induction false} HalfHiddenNotValid<N(!new)>(l: Layout<N>, active: PaneId, neighbour: PaneId, data: Option<N>)
    requires Sound(l) && CanStack(l, active, neighbour) && !Shown(l.st, l.st.UnitOf(active), l.hidden)
    ensures var l' := StackUnits(l, active, neighbour, data); !Validates(l'.st, SubtreeLeafSets(l'.tree), l'.hidden)
  {
    var (a, b, l') := (l.st.UnitOf(active), l.st.UnitOf(neighbour), StackUnits(l, active, neighbour, data));
    var k := SlotOf(l.st, b);
    var stack := l'.st.stacks[k];
    assert stack.units[|stack.units| - 1] == a;
    forall i | 0 <= i < |stack.units| - 1
      ensures Concealed(l.st, stack.units[i], l'.hidden)
    {
      BehindConcealed(l, active, neighbour, data, i);
    }
    SameUnitPanes(l.st, l'.st, stack.units, l'.hidden);
    HalfHiddenRefused(l'.st, stack, SubtreeLeafSets(l'.tree), l'.hidden);
  }

  /** What `validate` finds after stacking: it accepts the layout exactly when the
      call was refused or no pane of the unit in front was hidden on its own. */
  lemma {:induction false} StackUnitsValidatesIff<N(!new)>(l: Layout<N>, active: PaneId, neighbour: PaneId,
                                                           data: Option<N>)
    requires Sound(l) && StackAsked(l, active, neighbour)
    ensures var l' := StackUnits(l, active, neighbour, data);
            Validates(l'.st, SubtreeLeafSets(l'.tree), l'.hidden) <==>
              (Stackable(l, active, neighbour) ==> Shown(l.st, l.st.UnitOf(active), l.hidden))
  {
    if Stackable(l, active, neighbour) && !Shown(l.st, l.st.UnitOf(active), l.hidden) {
      HalfHiddenNotValid(l, active, neighbour, data);
    } else {
      StackUnitsSoundIff(l, active, neighbour, data);
      var l' := StackUnits(l, active, neighbour, data);
      InvValidates(l'.st, l'.tree, l'.hidden);
    }
  }
}
