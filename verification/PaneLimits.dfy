/** What does not hold of panes and their groups, with the layouts that show it. */
module PaneLimits {
  import opened Wrappers
  import opened Sequences
  import opened BinTree
  import opened SubtreeSets
  import opened PaneGroup
  import opened PaneLayout
  import opened TabLayout
  import opened UnitMoves
  import opened GroupStates
  import opened LeafSwaps
  import opened PaneValidity
  import opened PaneSwaps
  import opened PaneRuns

  /** A stack that holds a pane and the group of that pane. */
  function Overlapping(): Groups {
    Groups([GroupInfo(0, [1, 2], 1)], [PaneStack([Pane(3), Group(0), Pane(2)], 0)], 1)
  }

  /** The tree ((1, 2), 3), standing on 1. */
  function OnFirst(): Cursor<PaneId, ()> {
    Cursor(Leaf(1), Left(Leaf(2), None, Left(Leaf(3), None, Top)))
  }

  lemma {:induction false} FirstWhole()
    ensures OnFirst().Whole() == Node(Node(Leaf(1), Leaf(2), None), Leaf(3), None)
  {
    var pair: Tree<PaneId, ()> := Node(Leaf(1), Leaf(2), None);
    var whole: Tree<PaneId, ()> := Node(pair, Leaf(3), None);
    assert Plug(Left(Leaf(3), None, Top), pair) == Plug(Top, whole) == whole;
  }

  lemma {:induction false} OverlappingUnits()
    ensures UnitsSet(Overlapping(), [Pane(3), Group(0), Pane(2)]) == {1, 2, 3}
    ensures ToSet([1, 2]) == {1, 2}
  {
    var st := Overlapping();
    assert st.UnitPanes(Group(0)) == [1, 2] && st.UnitPanes(Pane(2)) == [2] && st.UnitPanes(Pane(3)) == [3];
    UnitsSetOfThree(st, Pane(3), Group(0), Pane(2));
  }

  lemma {:induction false} UnitsSetOfThree(st: Groups, u: Unit, v: Unit, w: Unit)
    ensures UnitsSet(st, [u, v, w]) == ToSet(st.UnitPanes(u)) + ToSet(st.UnitPanes(v)) + ToSet(st.UnitPanes(w))
  {
    assert [u, v, w] == [u, v] + [w];
    UnitsSetSnoc(st, [u, v], w);
    PairSet(st, v, u);
  }

  lemma {:induction false} OverlappingSets()
    ensures OnFirst().Whole() == Node(Node(Leaf(1), Leaf(2), None), Leaf(3), None)
    ensures IsSubtree(OnFirst().Whole(), ToSet(Overlapping().groups[0].members))
    ensures IsSubtree(OnFirst().Whole(), UnitsSet(Overlapping(), Overlapping().stacks[0].units))
  {
    FirstWhole();
    OverlappingUnits();
    var pair: Tree<PaneId, ()> := Node(Leaf(1), Leaf(2), None);
    assert LeafSet(pair) == {1, 2} && IsSubtree(pair, {1, 2});
    assert LeafSet(OnFirst().Whole()) == {1, 2, 3};
  }

  lemma {:induction false} OverlappingStackValid(subtrees: seq<set<PaneId>>)
    requires UnitsSet(Overlapping(), Overlapping().stacks[0].units) in subtrees
    ensures StackValid(Overlapping(), Overlapping().stacks[0], subtrees, {1, 2})
  {
    var st, units, hidden := Overlapping(), Overlapping().stacks[0].units, {1, 2};
    assert st.UnitPanes(Group(0)) == [1, 2] && st.UnitPanes(Pane(2)) == [2] && st.UnitPanes(Pane(3)) == [3];
    assert Concealed(st, units[1], hidden) && Concealed(st, units[2], hidden) && Shown(st, units[0], hidden);
    ShownOnce(st, units, 0, 3, hidden);
    assert units[..3] == units;
  }

  lemma {:induction false} OverlappingValid(subtrees: seq<set<PaneId>>)
    requires UnitsSet(Overlapping(), Overlapping().stacks[0].units) in subtrees
    requires ToSet(Overlapping().groups[0].members) in subtrees
    ensures Validates(Overlapping(), subtrees, {1, 2})
  {
    OverlappingStackValid(subtrees);
    assert NoRepeats(Overlapping().groups[0].members);
  }

  /** `validate` alone is not kept by removing a pane: here a pane is stacked
      beside the group that holds it, and removing the other member gives the
      group that pane's name. */
  lemma {:induction false} ValidateNotKept()
    ensures Validates(Overlapping(), SubtreeLeafSets(OnFirst().Whole()), {1, 2})
    ensures forall subtrees, hidden :: !Validates(Overlapping().RemovePane(OnFirst().it.value).0, subtrees, hidden)
  {
    OverlappingSets();
    OverlappingValid(SubtreeLeafSets(OnFirst().Whole()));
    var st := Overlapping();
    var st' := st.RemovePane(1).0;
    assert [1, 2][1..] == [2];
    assert Without([1, 2], 1) == [2];
    assert st' == st.LeaveGroup(0, 1);
    assert st'.stacks == RenameStacks(st.stacks, Group(0), Pane(2));
    assert st'.stacks[0].units[1] == st'.stacks[0].units[2];
    assert !UnitsDistinct(st'.stacks);
  }

  // ----- A run that ends half hidden -----

  /** The panes ((1, 2), 3) with 1 and 2 grouped and 2 hidden on its own. */
  function HalfHidden(): Layout<()> {
    Layout(OnFirst().Whole(), Groups([GroupInfo(0, [1, 2], 1)], [], 1), {2})
  }

  function Grouped(): Layout<()> { Layout(OnFirst().Whole(), Groups([GroupInfo(0, [1, 2], 1)], [], 1), {}) }

  lemma {:induction false} FirstSplit(l: Layout<()>)
    requires l == NewTab(1)
    ensures Steps(l, Layout(Node(Leaf(1), Leaf(2), None), Groups([], [], 0), {}))
  {
    var c := Cursor(l.tree, Top);
    assert c.Whole() == Plug(Top, l.tree) == l.tree;
    var l' := SplitPane(l, c, 2, true);
    var pair: Tree<PaneId, ()> := Node(Leaf(1), Leaf(2), None);
    assert c.SplitLeafAndInsertRight(2) == Ok(Cursor(pair, Top)) && Plug(Top, pair) == pair;
    assert l.st.UnitOf(1) == Pane(1) && l.st.StackOf(Pane(1)).None?;
    assert Enabled(l, Split(c, 2, true)) && l' == Apply(l, Split(c, 2, true));
  }

  lemma {:induction false} SecondSplit(l: Layout<()>)
    requires l == Layout(Node(Leaf(1), Leaf(2), None), Groups([], [], 0), {})
    ensures Steps(l, Layout(OnFirst().Whole(), Groups([], [], 0), {}))
  {
    FirstWhole();
    var l' := SplitTop(l, 3, true);
    var whole: Tree<PaneId, ()> := Node(l.tree, Leaf(3), None);
    assert Plug(Top, whole) == whole == l'.tree;
    assert LeafSet(l.tree) == {1, 2};
    assert Enabled(l, SplitWhole(3, true)) && l' == Apply(l, SplitWhole(3, true));
  }

  lemma {:induction false} OnePairLeaves()
    ensures LeafSet(OnFirst().Whole()) == {1, 2, 3}
  {
    FirstWhole();
    var pair: Tree<PaneId, ()> := Node(Leaf(1), Leaf(2), None);
    assert LeafSet(pair) == {1, 2};
  }

  lemma {:induction false} OnePairGroup()
    ensures Groups([], [], 0).CreateGroup([1, 2]).RememberIn(0, 1) == Groups([GroupInfo(0, [1, 2], 1)], [], 1)
  {
    var made := Groups([], [], 0).CreateGroup([1, 2]);
    assert made.groups == [GroupInfo(0, [1, 2], 1)];
    assert FindId(made.groups, 0) == Some(0);
  }

  lemma {:induction false} LoneUnits(p: PaneId)
    ensures var st := Groups([], [], 0);
            st.UnitOf(p) == Pane(p) && st.UnitPanes(Pane(p)) == [p] && st.StackOf(Pane(p)).None?
  {
  }

  lemma {:induction false} GroupFirstTwo(l: Layout<()>)
    requires l == Layout(OnFirst().Whole(), Groups([], [], 0), {})
    ensures Steps(l, Grouped())
  {
    LoneUnits(1);
    LoneUnits(2);
    OverlappingSets();
    OnePairLeaves();
    OnePairGroup();
    assert [1] + [2] == [1, 2];
    var e: Event<()> := GroupWith(1, 2, None, false);
    assert GroupUnits(l, 1, 2, None, false).tree == l.tree;
    assert Enabled(l, e) && Grouped() == Apply(l, e);
  }

  lemma {:induction false} HideSecond(l: Layout<()>)
    requires l == Grouped()
    ensures Steps(l, HalfHidden())
  {
    FirstWhole();
    OnePairLeaves();
    assert 1 in LeafSet(l.tree) - l.hidden - {2};
    assert l.st.UnitOf(2) == Group(0) && l.st.StackOf(Group(0)).None?;
    assert {} + {2} == {2};
    assert Enabled(l, Toggle(2)) && HalfHidden() == Apply(l, Toggle(2));
  }

  /** Two splits and a grouping. */
  lemma {:induction false} GroupedReachable()
    ensures Reachable(Grouped())
  {
    var pair: Layout<()> := Layout(Node(Leaf(1), Leaf(2), None), Groups([], [], 0), {});
    var three: Layout<()> := Layout(OnFirst().Whole(), Groups([], [], 0), {});
    NewTabReachable<()>(1);
    FirstSplit(NewTab(1));
    StepReachable(NewTab(1), pair);
    SecondSplit(pair);
    StepReachable(pair, three);
    GroupFirstTwo(three);
    StepReachable(three, Grouped());
  }

  lemma {:induction false} HalfHiddenCanStack()
    ensures var l := HalfHidden();
            CanStack(l, 1, 3) && 2 in l.st.UnitPanes(l.st.UnitOf(1)) && 2 in l.hidden
  {
    FirstWhole();
    var l := HalfHidden();
    OnePairLeaves();
    assert l.st.UnitOf(1) == Group(0) && l.st.UnitOf(3) == Pane(3) && l.st.UnitPanes(Group(0)) == [1, 2];
  }

  /** A reachable layout where stacking breaks `validate`. */
  lemma {:induction false} StackedHalfHidden() returns (l: Layout<()>)
    ensures Reachable(l) && StackAsked(l, 1, 3)
    ensures var l' := StackUnits(l, 1, 3, None); !Validates(l'.st, SubtreeLeafSets(l'.tree), l'.hidden)
  {
    l := HalfHidden();
    GroupedReachable();
    HideSecond(Grouped());
    StepReachable(Grouped(), l);
    ReachableIsSound(l);
    HalfHiddenCanStack();
    StackUnitsValidatesIff(l, 1, 3, None);
  }

  /** A reachable layout where `swap_active_with_index` breaks `validate`: pane 1 is
      grouped with 2, and trades places with 3. */
  lemma {:induction false} SwapTearsGroup() returns (l: Layout<()>)
    ensures Reachable(l) && {1, 3} <= LeafSet(l.tree)
    ensures !Validates(l.st, SubtreeLeafSets(SwapLeaves(l, 1, 3).tree), l.hidden)
  {
    l := Grouped();
    GroupedReachable();
    ReachableIsSound(l);
    OnePairLeaves();
    assert l.st.UnitOf(1) == Group(0) && l.st.UnitOf(3) == Pane(3);
    SwapValidatesIff(l, 1, 3);
  }
}
