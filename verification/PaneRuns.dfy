/** Whole runs of a tab. What they leave out because it breaks the invariant is
    in `PaneLimits`. */
module PaneRuns {
  import opened Wrappers
  import opened BinTree
  import opened SubtreeSets
  import opened PaneGroup
  import opened PaneLayout
  import opened TabLayout
  import opened UnitMoves
  import opened GroupStates
  import opened LeafSwaps
  import opened PaneValidity
  import opened PaneSwaps
  import opened PaneRestore

  // ----- Runs -----

  datatype Event<N> =
    | Split(at: Cursor<PaneId, N>, added: PaneId, onRight: bool)
    | SplitWhole(added: PaneId, onRight: bool)
    | Close(at: Cursor<PaneId, N>)
    | FocusOn(pane: PaneId)
    | Toggle(pane: PaneId)
    | ShowUnit(unit: Unit)
    | GroupWith(active: PaneId, neighbour: PaneId, data: Option<N>, second: bool)
    | UngroupOf(pane: PaneId)
    | StackWith(active: PaneId, neighbour: PaneId, data: Option<N>)
    | SwapWith(active: PaneId, other: PaneId)
    | Rotate(to: Tree<PaneId, N>)
    | Restore(infos: seq<LeafInfo>, focus: Option<PaneId>)

  /** New panes are new, splits are at visible leaves or the only one, ids do
      not run out, a unit is stacked only when all of it is visible, and panes
      trade places only within a slot or when there are no groups and stacks. */
  ghost predicate Enabled<N(!new)>(l: Layout<N>, e: Event<N>) {
    match e
    case Split(at, added, _) =>
      && at.Whole() == l.tree && at.IsLeaf() && (at.it.value !in l.hidden || at.IsTop())
      && added !in LeafSet(l.tree) + l.hidden && l.st.nextId + 1 < ID_LIMIT
    case SplitWhole(added, _) => l.tree.Node? && added !in LeafSet(l.tree)
    case Close(at) => at.Whole() == l.tree && at.IsLeaf()
    case FocusOn(_) => true
    case Toggle(_) => true
    case ShowUnit(_) => true
    case GroupWith(active, neighbour, _, _) => {active, neighbour} <= LeafSet(l.tree) && l.st.nextId + 1 < ID_LIMIT
    case UngroupOf(_) => true
    case StackWith(active, neighbour, _) =>
      && StackAsked(l, active, neighbour)
      && (Stackable(l, active, neighbour) ==> Shown(l.st, l.st.UnitOf(active), l.hidden))
    case SwapWith(active, other) => {active, other} <= LeafSet(l.tree) && SameSlot(l.st, active, other)
    case Rotate(to) =>
      && l.st.groups == [] && l.st.stacks == [] && Full(l.tree)
      && SameShape(l.tree, to) && multiset(Leaves(to)) == multiset(Leaves(l.tree))
    case Restore(_, _) => Full(l.tree) && |Leaves(l.tree)| < ID_LIMIT
  }

  ghost function Apply<N(!new)>(l: Layout<N>, e: Event<N>): Layout<N>
    requires Enabled(l, e)
  {
    match e
    case Split(at, added, onRight) => SplitPane(l, at, added, onRight)
    case SplitWhole(added, onRight) => SplitTop(l, added, onRight)
    case Close(at) => ClosePane(l, at)
    case FocusOn(pane) => Focus(l, pane)
    case Toggle(pane) => TogglePaneHidden(l, pane)
    case ShowUnit(unit) => ShowStackUnit(l, unit)
    case GroupWith(active, neighbour, data, second) => GroupUnits(l, active, neighbour, data, second)
    case UngroupOf(pane) => Ungroup(l, pane)
    case StackWith(active, neighbour, data) => StackUnits(l, active, neighbour, data)
    case SwapWith(active, other) => SwapLeaves(l, active, other)
    case Rotate(to) => l.(tree := to)
    case Restore(infos, focus) => RestoreOn(l, infos, focus)
  }

  /** `run` is a sequence of layouts, each reached from the one before by an operation. */
  ghost predicate IsRun<N(!new)>(run: seq<Layout<N>>) {
    run != [] && forall i :: 0 <= i < |run| - 1 ==> Steps(run[i], run[i + 1])
  }

  ghost predicate Steps<N(!new)>(l: Layout<N>, l': Layout<N>) {
    exists e :: Enabled(l, e) && l' == Apply(l, e)
  }

  /** A tab with the one pane `p`. */
  function NewTab<N>(p: PaneId): Layout<N> { Layout(Leaf(p), Groups([], [], 0), {}) }

  lemma {:induction false} SoundAfterSplit<N(!new)>(l: Layout<N>, e: Event<N>)
    requires Sound(l) && Enabled(l, e) && e.Split?
    ensures Sound(Apply(l, e))
  {
    SplitPaneKeepsSound(l, e.at, e.added, e.onRight);
  }

  lemma {:induction false} SoundAfterSplitWhole<N(!new)>(l: Layout<N>, e: Event<N>)
    requires Sound(l) && Enabled(l, e) && e.SplitWhole?
    ensures Sound(Apply(l, e))
  {
    SplitTopKeepsSound(l, e.added, e.onRight);
  }

  lemma {:induction false} SoundAfterClose<N(!new)>(l: Layout<N>, e: Event<N>)
    requires Sound(l) && Enabled(l, e) && e.Close?
    ensures Sound(Apply(l, e))
  {
    ClosePaneKeepsSound(l, e.at);
  }

  lemma {:induction false} SoundAfterFocusOn<N(!new)>(l: Layout<N>, e: Event<N>)
    requires Sound(l) && Enabled(l, e) && e.FocusOn?
    ensures Sound(Apply(l, e))
  {
    FocusKeepsSound(l, e.pane);
  }

  lemma {:induction false} SoundAfterToggle<N(!new)>(l: Layout<N>, e: Event<N>)
    requires Sound(l) && Enabled(l, e) && e.Toggle?
    ensures Sound(Apply(l, e))
  {
    ToggleKeepsSound(l, e.pane);
  }

  lemma {:induction false} SoundAfterShowUnit<N(!new)>(l: Layout<N>, e: Event<N>)
    requires Sound(l) && Enabled(l, e) && e.ShowUnit?
    ensures Sound(Apply(l, e))
  {
    ShowStackUnitKeepsSound(l, e.unit);
  }

  lemma {:induction false} SoundAfterGroupWith<N(!new)>(l: Layout<N>, e: Event<N>)
    requires Sound(l) && Enabled(l, e) && e.GroupWith?
    ensures Sound(Apply(l, e))
  {
    GroupUnitsKeepsSound(l, e.active, e.neighbour, e.data, e.second);
  }

  lemma {:induction false} SoundAfterUngroupOf<N(!new)>(l: Layout<N>, e: Event<N>)
    requires Sound(l) && Enabled(l, e) && e.UngroupOf?
    ensures Sound(Apply(l, e))
  {
    UngroupKeepsSound(l, e.pane);
  }

  lemma {:induction false} SoundAfterStackWith<N(!new)>(l: Layout<N>, e: Event<N>)
    requires Sound(l) && Enabled(l, e) && e.StackWith?
    ensures Sound(Apply(l, e))
  {
    StackUnitsSoundIff(l, e.active, e.neighbour, e.data);
  }

  lemma {:induction false} StepKeepsSound<N(!new)>(l: Layout<N>, e: Event<N>)
    requires Sound(l) && Enabled(l, e)
    ensures Sound(Apply(l, e))
  {
    match e
    case Split(_, _, _) => SoundAfterSplit(l, e);
    case SplitWhole(_, _) => SoundAfterSplitWhole(l, e);
    case Close(_) => SoundAfterClose(l, e);
    case FocusOn(_) => SoundAfterFocusOn(l, e);
    case Toggle(_) => SoundAfterToggle(l, e);
    case ShowUnit(_) => SoundAfterShowUnit(l, e);
    case GroupWith(_, _, _, _) => SoundAfterGroupWith(l, e);
    case UngroupOf(_) => SoundAfterUngroupOf(l, e);
    case StackWith(_, _, _) => SoundAfterStackWith(l, e);
    case SwapWith(_, _) => SwapKeepsSound(l, e.active, e.other);
    case Rotate(_) => RotationKeepsSound(l, e.to);
    case Restore(_, _) => RestoreKeepsSound(l, e.infos, e.focus);
  }

  lemma {:induction false} StepsKeepSound<N(!new)>(l: Layout<N>, l': Layout<N>)
    requires Sound(l) && Steps(l, l')
    ensures Sound(l')
  {
    var e :| Enabled(l, e) && l' == Apply(l, e);
    StepKeepsSound(l, e);
  }

  lemma {:induction false} ReachableSound<N(!new)>(run: seq<Layout<N>>, i: nat)
    requires IsRun(run) && Sound(run[0]) && i < |run|
    ensures Sound(run[i])
  {
    if i > 0 {
      ReachableSound(run, i - 1);
      assert Steps(run[i - 1], run[i - 1 + 1]);
      StepsKeepSound(run[i - 1], run[i]);
    }
  }

  lemma {:induction false} NewTabSound<N(!new)>(p: PaneId)
    ensures Sound(NewTab<N>(p))
  {
  }

  ghost predicate Reachable<N(!new)>(l: Layout<N>) {
    exists run: seq<Layout<N>>, p: PaneId :: IsRun(run) && run[0] == NewTab(p) && run[|run| - 1] == l
  }

  lemma {:induction false} NewTabReachable<N(!new)>(p: PaneId)
    ensures Reachable(NewTab<N>(p))
  {
    assert IsRun([NewTab<N>(p)]);
  }

  lemma {:induction false} StepReachable<N(!new)>(l: Layout<N>, l': Layout<N>)
    requires Reachable(l) && Steps(l, l')
    ensures Reachable(l')
  {
    var run, p :| IsRun(run) && run[0] == NewTab(p) && run[|run| - 1] == l;
    var run' := run + [l'];
    forall i | 0 <= i < |run'| - 1
      ensures Steps(run'[i], run'[i + 1])
    {
      if i < |run| - 1 {
        assert Steps(run[i], run[i + 1]);
      }
    }
    assert IsRun(run') && run'[0] == NewTab(p) && run'[|run'| - 1] == l';
  }

  lemma {:induction false} ReachableIsSound<N(!new)>(l: Layout<N>)
    requires Reachable(l)
    ensures Sound(l)
  {
    var run, p :| IsRun(run) && run[0] == NewTab(p) && run[|run| - 1] == l;
    NewTabSound<N>(p);
    ReachableSound(run, |run| - 1);
  }

  /** Every layout of every such run from a new tab passes `validate`. */
  lemma {:induction false} EveryRunValidates<N(!new)>(run: seq<Layout<N>>, p: PaneId, i: nat)
    requires IsRun(run) && run[0] == NewTab(p) && i < |run|
    ensures Validates(run[i].st, SubtreeLeafSets(run[i].tree), run[i].hidden)
  {
    ReachableSound(run, i);
    InvValidates(run[i].st, run[i].tree, run[i].hidden);
  }
}
