/** The operations of a tab that move units in the tree, docking one beside
    another to stack or to group them (`mux/src/tab.rs`), keep the invariant.

    Docking takes the panes of one unit out of the tree and chains them beside
    the subtree of another; the lemmas say what that leaves of the subtrees
    that groups and stacks stand on. */
module UnitMoves {
  import opened Wrappers
  import opened Sequences
  import opened BinTree
  import opened SubtreeSets
  import opened Docking
  import opened PaneGroup
  import opened PaneLayout
  import opened TabLayout
  import GroupStates

  /** Docking some panes beside a subtree of others: what is a subtree afterwards. */
  lemma {:induction false} DockSubtrees<N(!new)>(t: Tree<PaneId, N>, source: seq<PaneId>, target: seq<PaneId>,
                                                 data: Option<N>, second: bool)
    requires Full(t) && DistinctLeaves(t) && source != [] && NoRepeats(source) && ToSet(source) <= LeafSet(t)
    requires ToSet(source) !! ToSet(target) && IsSubtree(t, ToSet(target))
    ensures var t' := Dock(t, source, target, data, second);
            && Full(t') && DistinctLeaves(t') && LeafSet(t') == LeafSet(t)
            && IsSubtree(t', ToSet(source)) && IsSubtree(t', ToSet(target) + ToSet(source))
            && forall s :: IsSubtree(t, s) && s !! ToSet(source) ==>
                 IsSubtree(t', if ToSet(target) < s then s + ToSet(source) else s)
  {
    SubtreeSetsInside(t, ToSet(target));
    RemoveLeavesKeepsRest(t, source);
    ChainLeaves(source, data);
    ReplaceDocks(RemoveLeaves(t, source), ToSet(target), Chain(source, data), data, second);
    var x :| x in ToSet(target);
    assert x !in ToSet(source);
  }

  lemma LeafIsSubtree<N(!new)>(t: Tree<PaneId, N>, p: PaneId)
    requires p in LeafSet(t)
    ensures IsSubtree(t, {p})
  {
  }

  /** The unit of a pane of the layout: its panes are one subtree, each once. */
  lemma {:induction false} UnitPlaced<N(!new)>(st: Groups, t: Tree<PaneId, N>, hidden: set<PaneId>, p: PaneId)
    requires Inv(st, t, hidden) && p in LeafSet(t)
    ensures var u := st.UnitOf(p);
            && Canonical(st, u) && p in st.UnitPanes(u) && NoRepeats(st.UnitPanes(u))
            && IsSubtree(t, ToSet(st.UnitPanes(u))) && {} < ToSet(st.UnitPanes(u)) <= LeafSet(t)
  {
    UnitOfCanonical(st, p);
    match FindMember(st.groups, p)
    case Some(i) =>
      GroupFound(st, i);
      assert GroupOk(st.groups[i], st.nextId);
      SubtreeSetsInside(t, ToSet(st.groups[i].members));
    case None =>
      assert ToSet([p]) == {p};
      LeafIsSubtree(t, p);
  }

  lemma {:induction false} UnitsApart(st: Groups, u: Unit, v: Unit)
    requires Canonical(st, u) && Canonical(st, v) && u != v
    ensures ToSet(st.UnitPanes(u)) !! ToSet(st.UnitPanes(v))
  {
    forall q | q in ToSet(st.UnitPanes(u))
      ensures q !in ToSet(st.UnitPanes(v))
    {
      if q in ToSet(st.UnitPanes(v)) {
        UnitsShareNoPane(st, u, v, q);
      }
    }
  }

  lemma {:induction false} UnitOutsideStack<N(!new)>(st: Groups, t: Tree<PaneId, N>, hidden: set<PaneId>,
                                                     stack: PaneStack, u: Unit)
    requires GroupsOk(st) && StackOk(st, t, hidden, stack) && Canonical(st, u) && u !in stack.units
    ensures ToSet(st.UnitPanes(u)) !! UnitsSet(st, stack.units)
  {
    forall q | q in UnitsSet(st, stack.units)
      ensures q !in ToSet(st.UnitPanes(u))
    {
      var a :| 0 <= a < |stack.units| && q in st.UnitPanes(stack.units[a]);
      UnitsApart(st, stack.units[a], u);
      assert q in ToSet(st.UnitPanes(stack.units[a]));
    }
  }

  /** Docking unit `a` beside unit `b` keeps every group one subtree. */
  lemma {:induction false} DockKeepsGroup<N(!new)>(st: Groups, t: Tree<PaneId, N>, t': Tree<PaneId, N>, a: Unit,
                                                   b: Unit, i: nat)
    requires GroupsOk(st) && Canonical(st, a) && Canonical(st, b) && a != b && i < |st.groups|
    requires IsSubtree(t, ToSet(st.groups[i].members))
    requires IsSubtree(t', ToSet(st.UnitPanes(a)))
    requires forall s :: IsSubtree(t, s) && s !! ToSet(st.UnitPanes(a)) ==>
               IsSubtree(t', if ToSet(st.UnitPanes(b)) < s then s + ToSet(st.UnitPanes(a)) else s)
    ensures IsSubtree(t', ToSet(st.groups[i].members))
  {
    var g := Group(st.groups[i].id);
    GroupFound(st, i);
    assert GroupOk(st.groups[i], st.nextId);
    assert Canonical(st, g);
    if g != a {
      UnitsApart(st, g, a);
      if g != b {
        UnitsApart(st, g, b);
        assert st.UnitPanes(b)[0] in ToSet(st.UnitPanes(b));
      }
    }
  }

  /** Docking leaves alone a stack that holds neither unit. */
  lemma {:induction false} DockKeepsOtherStack<N(!new)>(st: Groups, t: Tree<PaneId, N>, t': Tree<PaneId, N>,
                                                        hidden: set<PaneId>, a: Unit, b: Unit, stack: PaneStack)
    requires GroupsOk(st) && Canonical(st, a) && Canonical(st, b) && a != b
    requires StackOk(st, t, hidden, stack) && a !in stack.units && b !in stack.units
    requires forall s :: IsSubtree(t, s) && s !! ToSet(st.UnitPanes(a)) ==>
               IsSubtree(t', if ToSet(st.UnitPanes(b)) < s then s + ToSet(st.UnitPanes(a)) else s)
    ensures StackOk(st, t', hidden + ToSet(st.UnitPanes(b)), stack)
    ensures IsSubtree(t', UnitsSet(st, stack.units))
  {
    UnitOutsideStack(st, t, hidden, stack, a);
    UnitOutsideStack(st, t, hidden, stack, b);
    assert st.UnitPanes(b)[0] in ToSet(st.UnitPanes(b));
    forall i, q | 0 <= i < |stack.units| && q in st.UnitPanes(stack.units[i])
      ensures q !in ToSet(st.UnitPanes(b))
    {
      assert q in UnitsSet(st, stack.units);
    }
    StackKept(st, st, t, t', hidden, hidden + ToSet(st.UnitPanes(b)), stack);
  }

  /** The unit on show is not all of its stack. */
  lemma {:induction false} ActiveInside<N(!new)>(st: Groups, t: Tree<PaneId, N>, hidden: set<PaneId>, stack: PaneStack)
    requires GroupsOk(st) && StackOk(st, t, hidden, stack)
    requires Once(stack.units)
    ensures ToSet(st.UnitPanes(stack.units[stack.active])) < UnitsSet(st, stack.units)
  {
    var (b, other) := (stack.units[stack.active], stack.units[if stack.active == 0 then 1 else 0]);
    UnitsApart(st, other, b);
    var q := st.UnitPanes(other)[0];
    assert q in ToSet(st.UnitPanes(other)) && q in UnitsSet(st, stack.units);
  }

  /** Unit `a` joins the stack whose visible unit is `b`, in front of it. */
  lemma {:induction false} StackTakesUnit<N(!new)>(st: Groups, t: Tree<PaneId, N>, t': Tree<PaneId, N>,
                                                   hidden: set<PaneId>, a: Unit, b: Unit, stack: PaneStack)
    requires GroupsOk(st) && Full(t) && Canonical(st, a) && Canonical(st, b) && a != b
    requires StackOk(st, t, hidden, stack) && a !in stack.units && stack.units[stack.active] == b
    requires Once(stack.units)
    requires Shown(st, a, hidden)
    requires forall s :: IsSubtree(t, s) && s !! ToSet(st.UnitPanes(a)) ==>
               IsSubtree(t', if ToSet(st.UnitPanes(b)) < s then s + ToSet(st.UnitPanes(a)) else s)
    ensures StackOk(st, t', hidden + ToSet(st.UnitPanes(b)), PaneStack(stack.units + [a], |stack.units|))
  {
    var units := stack.units + [a];
    UnitOutsideStack(st, t, hidden, stack, a);
    UnitsApart(st, a, b);
    ActiveInside(st, t, hidden, stack);
    GroupStates.UnitsSetSnoc(st, stack.units, a);
  }

  /** Two units that were not stacked become a stack. */
  lemma {:induction false} PairSet(st: Groups, a: Unit, b: Unit)
    ensures UnitsSet(st, [b, a]) == ToSet(st.UnitPanes(b)) + ToSet(st.UnitPanes(a))
  {
    GroupStates.UnitsSetSnoc(st, [b], a);
    GroupStates.UnitsSetSnoc(st, [], b);
    assert [] + [b] == [b] && [b] + [a] == [b, a];
    assert UnitsSet(st, []) == {};
  }

  lemma {:induction false} HidingConceals(st: Groups, a: Unit, b: Unit, hidden: set<PaneId>)
    requires Canonical(st, a) && Canonical(st, b) && a != b && Shown(st, a, hidden)
    ensures Shown(st, a, hidden + ToSet(st.UnitPanes(b))) && Concealed(st, b, hidden + ToSet(st.UnitPanes(b)))
  {
    UnitsApart(st, a, b);
    forall p | p in st.UnitPanes(a) ensures p !in hidden + ToSet(st.UnitPanes(b)) {
      assert p in ToSet(st.UnitPanes(a));
    }
  }

  lemma {:induction false} NewStackOk<N(!new)>(st: Groups, t': Tree<PaneId, N>, hidden: set<PaneId>, a: Unit, b: Unit)
    requires GroupsOk(st) && Canonical(st, a) && Canonical(st, b) && a != b && Shown(st, a, hidden)
    requires IsSubtree(t', ToSet(st.UnitPanes(b)) + ToSet(st.UnitPanes(a)))
    ensures StackOk(st, t', hidden + ToSet(st.UnitPanes(b)), PaneStack([b, a], 1))
  {
    HidingConceals(st, a, b, hidden);
    PairSet(st, a, b);
  }

  /** The visible unit of a stack is the one with a visible pane. */
  lemma {:induction false} VisibleUnitActive<N(!new)>(st: Groups, t: Tree<PaneId, N>, hidden: set<PaneId>,
                                                      stack: PaneStack, p: PaneId)
    requires StackOk(st, t, hidden, stack) && p !in hidden
    requires st.UnitOf(p) in stack.units && p in st.UnitPanes(st.UnitOf(p))
    ensures stack.units[stack.active] == st.UnitOf(p)
  {
    var a :| 0 <= a < |stack.units| && stack.units[a] == st.UnitOf(p);
    assert a != stack.active ==> Concealed(st, stack.units[a], hidden);
  }

  /** What `stack_units` is called with: two panes of the layout, the second visible. */
  ghost predicate StackAsked<N(!new)>(l: Layout<N>, active: PaneId, neighbour: PaneId) {
    {active, neighbour} <= LeafSet(l.tree) && neighbour !in l.hidden
  }

  /** What `stack_units` does not refuse: panes of different units, the first not stacked. */
  predicate Stackable<N>(l: Layout<N>, active: PaneId, neighbour: PaneId) {
    l.st.UnitOf(active) != l.st.UnitOf(neighbour) && l.st.StackOf(l.st.UnitOf(active)).None?
  }

  ghost predicate CanStack<N(!new)>(l: Layout<N>, active: PaneId, neighbour: PaneId) {
    StackAsked(l, active, neighbour) && Stackable(l, active, neighbour)
  }

  /** Docking the unit of one pane beside that of another: what is a subtree afterwards. */
  lemma {:induction false} DockedUnits<N(!new)>(l: Layout<N>, active: PaneId, neighbour: PaneId, data: Option<N>,
                                                second: bool)
    requires Sound(l) && {active, neighbour} <= LeafSet(l.tree) && l.st.UnitOf(active) != l.st.UnitOf(neighbour)
    ensures var (a, b) := (l.st.UnitOf(active), l.st.UnitOf(neighbour));
            var t' := Dock(l.tree, l.st.UnitPanes(a), l.st.UnitPanes(b), data, second);
            && Canonical(l.st, a) && Canonical(l.st, b)
            && Full(t') && DistinctLeaves(t') && LeafSet(t') == LeafSet(l.tree)
            && IsSubtree(t', ToSet(l.st.UnitPanes(a)))
            && IsSubtree(t', ToSet(l.st.UnitPanes(b)) + ToSet(l.st.UnitPanes(a)))
            && forall s :: IsSubtree(l.tree, s) && s !! ToSet(l.st.UnitPanes(a)) ==>
                 IsSubtree(t', if ToSet(l.st.UnitPanes(b)) < s then s + ToSet(l.st.UnitPanes(a)) else s)
  {
    var (a, b) := (l.st.UnitOf(active), l.st.UnitOf(neighbour));
    UnitPlaced(l.st, l.tree, l.hidden, active);
    UnitPlaced(l.st, l.tree, l.hidden, neighbour);
    UnitsApart(l.st, a, b);
    assert ToSet(l.st.UnitPanes(a)) != {} ==> l.st.UnitPanes(a) != [];
    DockSubtrees(l.tree, l.st.UnitPanes(a), l.st.UnitPanes(b), data, second);
  }

  /** A unit is in one stack only. */
  lemma {:induction false} SameStack(st: Groups, u: Unit, k: nat)
    requires UnitsDistinct(st.stacks) && k < |st.stacks| && u in st.stacks[k].units
    ensures st.StackOf(u) == Some(k)
    ensures Once(st.stacks[k].units)
  {
    var j := st.StackOf(u).value;
    var a := Position(st.stacks[j].units, u);
    var b := Position(st.stacks[k].units, u);
    assert st.stacks[j].units[a] == st.stacks[k].units[b];
  }

  lemma {:induction false} PushedDistinct(ss: seq<PaneStack>, k: nat, u: Unit, active: nat)
    requires UnitsDistinct(ss) && k < |ss| && forall j :: 0 <= j < |ss| ==> u !in ss[j].units
    ensures UnitsDistinct(ss[k := PaneStack(ss[k].units + [u], active)])
  {
  }

  lemma {:induction false} AppendedDistinct(ss: seq<PaneStack>, u: Unit, v: Unit)
    requires UnitsDistinct(ss) && u != v && forall j :: 0 <= j < |ss| ==> u !in ss[j].units && v !in ss[j].units
    ensures UnitsDistinct(ss + [PaneStack([u, v], 1)])
  {
  }

  lemma {:induction false} StackedInFrontOk<N(!new)>(st: Groups, t: Tree<PaneId, N>, t': Tree<PaneId, N>,
                                                     hidden: set<PaneId>, a: Unit, b: Unit, p: PaneId, k: nat)
    requires GroupsOk(st) && Full(t) && UnitsDistinct(st.stacks) && Canonical(st, a) && Canonical(st, b) && a != b
    requires st.StackOf(a).None? && Shown(st, a, hidden)
    requires b == st.UnitOf(p) && p !in hidden && p in st.UnitPanes(b)
    requires IsSubtree(t', ToSet(st.UnitPanes(b)) + ToSet(st.UnitPanes(a)))
    requires forall s :: IsSubtree(t, s) && s !! ToSet(st.UnitPanes(a)) ==>
               IsSubtree(t', if ToSet(st.UnitPanes(b)) < s then s + ToSet(st.UnitPanes(a)) else s)
    requires k < |st.stacks| ==> StackOk(st, t, hidden, st.stacks[k])
    requires k < |StackedInFront(st, a, b)|
    ensures StackOk(st, t', hidden + ToSet(st.UnitPanes(b)), StackedInFront(st, a, b)[k])
  {
    if k < |st.stacks| {
      var stack := st.stacks[k];
      if b in stack.units {
        SameStack(st, b, k);
        VisibleUnitActive(st, t, hidden, stack, p);
        StackTakesUnit(st, t, t', hidden, a, b, stack);
      } else {
        DockKeepsOtherStack(st, t, t', hidden, a, b, stack);
      }
    } else {
      NewStackOk(st, t', hidden, a, b);
    }
  }

  lemma {:induction false} StackUnitsKeepsSound<N(!new)>(l: Layout<N>, active: PaneId, neighbour: PaneId,
                                                         data: Option<N>)
    requires Sound(l) && CanStack(l, active, neighbour) && Shown(l.st, l.st.UnitOf(active), l.hidden)
    ensures Sound(StackUnits(l, active, neighbour, data))
  {
    var (a, b, l') := (l.st.UnitOf(active), l.st.UnitOf(neighbour), StackUnits(l, active, neighbour, data));
    DockedUnits(l, active, neighbour, data, true);
    UnitOfCanonical(l.st, neighbour);
    forall i | 0 <= i < |l.st.groups|
      ensures IsSubtree(l'.tree, ToSet(l.st.groups[i].members))
    {
      DockKeepsGroup(l.st, l.tree, l'.tree, a, b, i);
    }
    forall k | 0 <= k < |l'.st.stacks|
      ensures StackOk(l'.st, l'.tree, l'.hidden, l'.st.stacks[k])
    {
      StackedInFrontOk(l.st, l.tree, l'.tree, l.hidden, a, b, neighbour, k);
      SameGroupsSameStack(l.st, l'.st, l'.tree, l'.hidden, l'.st.stacks[k]);
    }
    StackedInFrontDistinct(l.st, a, b);
  }

  lemma {:induction false} StackedInFrontDistinct(st: Groups, a: Unit, b: Unit)
    requires UnitsDistinct(st.stacks) && a != b && st.StackOf(a).None?
    ensures UnitsDistinct(StackedInFront(st, a, b))
  {
    match st.StackOf(b)
    case Some(k) => PushedDistinct(st.stacks, k, a, |st.stacks[k].units|);
    case None => AppendedDistinct(st.stacks, b, a);
  }

  /** Stacking keeps the invariant exactly when no pane of the unit that comes to
      the front was hidden on its own: `stack_units` hides the other unit but
      never shows this one. */
  lemma {:induction false} StackUnitsSoundIff<N(!new)>(l: Layout<N>, active: PaneId, neighbour: PaneId, data: Option<N>)
    requires Sound(l) && StackAsked(l, active, neighbour)
    ensures Sound(StackUnits(l, active, neighbour, data)) <==>
              (Stackable(l, active, neighbour) ==> Shown(l.st, l.st.UnitOf(active), l.hidden))
  {
    if Stackable(l, active, neighbour) {
      if Shown(l.st, l.st.UnitOf(active), l.hidden) {
        StackUnitsKeepsSound(l, active, neighbour, data);
      } else {
        HalfHiddenNotSound(l, active, neighbour, data);
      }
    }
  }

  lemma {:induction false} HalfHiddenNotSound<N(!new)>(l: Layout<N>, active: PaneId, neighbour: PaneId, data: Option<N>)
    requires Sound(l) && CanStack(l, active, neighbour) && !Shown(l.st, l.st.UnitOf(active), l.hidden)
    ensures !Sound(StackUnits(l, active, neighbour, data))
  {
    var (a, b, l') := (l.st.UnitOf(active), l.st.UnitOf(neighbour), StackUnits(l, active, neighbour, data));
    var k := match l.st.StackOf(b) case Some(k) => k case None => |l.st.stacks|;
    var stack := l'.st.stacks[k];
    assert stack.units[stack.active] == a;
    assert l.st.UnitPanes(a) == l'.st.UnitPanes(a);
    assert !StackOk(l'.st, l'.tree, l'.hidden, stack);
  }

  // ----- Grouping two units -----

  lemma {:induction false} LoosenKeepsInv<N(!new)>(st: Groups, t: Tree<PaneId, N>, hidden: set<PaneId>, u: Unit)
    requires Inv(st, t, hidden) && Canonical(st, u) && st.StackOf(u).None?
    ensures Inv(Loosen(st, u), t, hidden)
    ensures Loosen(st, u).stacks == st.stacks && Loosen(st, u).nextId == st.nextId
    ensures forall g :: g in Loosen(st, u).groups ==> g in st.groups
    ensures forall p :: p in st.UnitPanes(u) ==> Loosen(st, u).UnitOf(p) == Pane(p)
  {
    var i := CanonicalUnit(st, u);
    if u.Group? {
      DissolveKeepsInv(st, t, hidden, i);
      DissolveGroups(st, i);
    }
  }

  lemma {:induction false} LoosenKeepsUnit(st: Groups, u: Unit, v: Unit)
    requires GroupsOk(st) && Canonical(st, u) && Canonical(st, v) && u != v
    ensures Canonical(Loosen(st, u), v) && Loosen(st, u).UnitPanes(v) == st.UnitPanes(v)
  {
    var i := CanonicalUnit(st, u);
    if u.Group? {
      DissolveUnits(st, i, v);
    }
  }

  lemma {:induction false} LoosenKeepsLone(st: Groups, u: Unit, p: PaneId)
    requires st.UnitOf(p) == Pane(p)
    ensures Loosen(st, u).UnitOf(p) == Pane(p)
  {
  }

  /** Both units' panes are lone and unstacked once the two are loosened. */
  lemma {:induction false} LooseUnits<N(!new)>(st: Groups, t: Tree<PaneId, N>, hidden: set<PaneId>, a: Unit, b: Unit)
    requires Inv(st, t, hidden) && Canonical(st, a) && Canonical(st, b) && a != b
    requires st.StackOf(a).None? && st.StackOf(b).None?
    ensures var loose := Loosen(Loosen(st, a), b);
            && Inv(loose, t, hidden) && loose.stacks == st.stacks && loose.nextId == st.nextId
            && (forall g :: g in loose.groups ==> g in st.groups)
            && (forall p :: p in st.UnitPanes(a) + st.UnitPanes(b) ==>
                  loose.UnitOf(p) == Pane(p) && loose.StackOf(Pane(p)).None?)
  {
    var st1 := Loosen(st, a);
    var loose := Loosen(st1, b);
    LoosenKeepsInv(st, t, hidden, a);
    LoosenKeepsUnit(st, a, b);
    LoosenKeepsInv(st1, t, hidden, b);
    forall p | p in st.UnitPanes(a) + st.UnitPanes(b)
      ensures loose.UnitOf(p) == Pane(p) && loose.StackOf(Pane(p)).None?
    {
      if p in st.UnitPanes(a) {
        LoosenKeepsLone(st1, b, p);
      }
      assert st.UnitOf(p) == if p in st.UnitPanes(a) then a else b;
      NowhereStackedAlone(st, t, hidden, p);
    }
  }

  lemma {:induction false} NowhereStackedAlone<N(!new)>(st: Groups, t: Tree<PaneId, N>, hidden: set<PaneId>, p: PaneId)
    requires Inv(st, t, hidden) && st.StackOf(st.UnitOf(p)).None?
    ensures st.StackOf(Pane(p)).None?
  {
    forall k | 0 <= k < |st.stacks|
      ensures Pane(p) !in st.stacks[k].units
    {
      NotStackedAlone(st, t, hidden, st.stacks[k], p);
    }
  }

  /** A pane is not stacked on its own when its unit is not in the stack. */
  lemma {:induction false} NotStackedAlone<N(!new)>(st: Groups, t: Tree<PaneId, N>, hidden: set<PaneId>,
                                                    stack: PaneStack, p: PaneId)
    requires StackOk(st, t, hidden, stack) && st.UnitOf(p) !in stack.units
    ensures Pane(p) !in stack.units
  {
    assert p in st.UnitPanes(Pane(p));
  }

  lemma {:induction false} LooseStackSet<N(!new)>(st: Groups, t: Tree<PaneId, N>, hidden: set<PaneId>, a: Unit,
                                                  b: Unit, stack: PaneStack)
    requires GroupsOk(st) && Canonical(st, a) && Canonical(st, b) && a != b && StackOk(st, t, hidden, stack)
    requires a !in stack.units && b !in stack.units && GroupsOk(Loosen(st, a))
    ensures UnitsSet(Loosen(Loosen(st, a), b), stack.units) == UnitsSet(st, stack.units)
  {
    LoosenKeepsUnit(st, a, b);
    forall i | 0 <= i < |stack.units|
      ensures Loosen(Loosen(st, a), b).UnitPanes(stack.units[i]) == st.UnitPanes(stack.units[i])
    {
      LoosenKeepsUnit(st, a, stack.units[i]);
      LoosenKeepsUnit(Loosen(st, a), b, stack.units[i]);
    }
  }

  /** In the tree `t` the members are one subtree, and so is every group and stack. */
  ghost predicate LiesTogether<N(!new)>(l: Layout<N>, t: Tree<PaneId, N>, members: seq<PaneId>) {
    && Full(t) && DistinctLeaves(t) && LeafSet(t) == LeafSet(l.tree)
    && IsSubtree(t, ToSet(members))
    && (forall i :: 0 <= i < |l.st.groups| ==> IsSubtree(t, ToSet(l.st.groups[i].members)))
    && (forall k :: 0 <= k < |l.st.stacks| ==> IsSubtree(t, UnitsSet(l.st, l.st.stacks[k].units)))
  }

  lemma {:induction false} DockedTogether<N(!new)>(l: Layout<N>, active: PaneId, neighbour: PaneId, data: Option<N>,
                                                   second: bool)
    requires Sound(l) && {active, neighbour} <= LeafSet(l.tree) && l.st.UnitOf(active) != l.st.UnitOf(neighbour)
    requires l.st.StackOf(l.st.UnitOf(active)).None? && l.st.StackOf(l.st.UnitOf(neighbour)).None?
    ensures var (a, b) := (l.st.UnitPanes(l.st.UnitOf(active)), l.st.UnitPanes(l.st.UnitOf(neighbour)));
            LiesTogether(l, Dock(l.tree, a, b, data, second), a + b)
  {
    var (a, b) := (l.st.UnitOf(active), l.st.UnitOf(neighbour));
    var t' := Dock(l.tree, l.st.UnitPanes(a), l.st.UnitPanes(b), data, second);
    DockedUnits(l, active, neighbour, data, second);
    assert ToSet(l.st.UnitPanes(a) + l.st.UnitPanes(b)) == ToSet(l.st.UnitPanes(b)) + ToSet(l.st.UnitPanes(a));
    DockKeepsAll(l, t', a, b);
  }

  lemma {:induction false} DockKeepsAll<N(!new)>(l: Layout<N>, t': Tree<PaneId, N>, a: Unit, b: Unit)
    requires Sound(l) && Canonical(l.st, a) && Canonical(l.st, b) && a != b
    requires l.st.StackOf(a).None? && l.st.StackOf(b).None? && IsSubtree(t', ToSet(l.st.UnitPanes(a)))
    requires forall s :: IsSubtree(l.tree, s) && s !! ToSet(l.st.UnitPanes(a)) ==>
               IsSubtree(t', if ToSet(l.st.UnitPanes(b)) < s then s + ToSet(l.st.UnitPanes(a)) else s)
    ensures forall i :: 0 <= i < |l.st.groups| ==> IsSubtree(t', ToSet(l.st.groups[i].members))
    ensures forall k :: 0 <= k < |l.st.stacks| ==> IsSubtree(t', UnitsSet(l.st, l.st.stacks[k].units))
  {
    forall i | 0 <= i < |l.st.groups|
      ensures IsSubtree(t', ToSet(l.st.groups[i].members))
    {
      DockKeepsGroup(l.st, l.tree, t', a, b, i);
    }
    forall k | 0 <= k < |l.st.stacks|
      ensures IsSubtree(t', UnitsSet(l.st, l.st.stacks[k].units))
    {
      DockKeepsOtherStack(l.st, l.tree, t', l.hidden, a, b, l.st.stacks[k]);
    }
  }

  lemma {:induction false} AlreadyTogether<N(!new)>(l: Layout<N>, members: seq<PaneId>)
    requires Sound(l) && IsSubtree(l.tree, ToSet(members))
    ensures LiesTogether(l, l.tree, members)
  {
    forall k | 0 <= k < |l.st.stacks|
      ensures IsSubtree(l.tree, UnitsSet(l.st, l.st.stacks[k].units))
    {
      assert StackOk(l.st, l.tree, l.hidden, l.st.stacks[k]);
    }
  }

  /** The tree that `group_units` makes: both units together are one subtree. */
  lemma {:induction false} GroupUnitsTree<N(!new)>(l: Layout<N>, active: PaneId, neighbour: PaneId, data: Option<N>,
                                                   second: bool)
    requires Sound(l) && {active, neighbour} <= LeafSet(l.tree) && l.st.UnitOf(active) != l.st.UnitOf(neighbour)
    requires l.st.StackOf(l.st.UnitOf(active)).None? && l.st.StackOf(l.st.UnitOf(neighbour)).None?
    ensures var (a, b) := (l.st.UnitPanes(l.st.UnitOf(active)), l.st.UnitPanes(l.st.UnitOf(neighbour)));
            LiesTogether(l, GroupUnits(l, active, neighbour, data, second).tree, a + b)
  {
    var (a, b) := (l.st.UnitPanes(l.st.UnitOf(active)), l.st.UnitPanes(l.st.UnitOf(neighbour)));
    if ToSet(a + b) in SubtreeLeafSets(l.tree) {
      AlreadyTogether(l, a + b);
    } else {
      DockedTogether(l, active, neighbour, data, second);
    }
  }

  /** The units grouped share no pane, and list each pane once. */
  lemma {:induction false} GroupedMembers<N(!new)>(l: Layout<N>, active: PaneId, neighbour: PaneId)
    requires Sound(l) && {active, neighbour} <= LeafSet(l.tree) && l.st.UnitOf(active) != l.st.UnitOf(neighbour)
    ensures NoRepeats(l.st.UnitPanes(l.st.UnitOf(active)) + l.st.UnitPanes(l.st.UnitOf(neighbour)))
  {
    var (a, b) := (l.st.UnitOf(active), l.st.UnitOf(neighbour));
    UnitPlaced(l.st, l.tree, l.hidden, active);
    UnitPlaced(l.st, l.tree, l.hidden, neighbour);
    UnitsApart(l.st, a, b);
    forall p | p in l.st.UnitPanes(a)
      ensures p !in l.st.UnitPanes(b)
    {
      assert p in ToSet(l.st.UnitPanes(a));
    }
    NoRepeatsConcat(l.st.UnitPanes(a), l.st.UnitPanes(b));
  }

  /** Two loosened units made one group, in a tree where they lie together. */
  lemma {:induction false} GroupLoosened<N(!new)>(st: Groups, t: Tree<PaneId, N>, t': Tree<PaneId, N>,
                                                  hidden: set<PaneId>, a: Unit, b: Unit, members: seq<PaneId>,
                                                  last: PaneId)
    requires Inv(st, t, hidden) && Canonical(st, a) && Canonical(st, b) && a != b && st.nextId + 1 < ID_LIMIT
    requires st.StackOf(a).None? && st.StackOf(b).None?
    requires members == st.UnitPanes(a) + st.UnitPanes(b) && |members| >= 2 && NoRepeats(members) && last in members
    requires Full(t') && DistinctLeaves(t') && IsSubtree(t', ToSet(members))
    requires forall i :: 0 <= i < |st.groups| ==> IsSubtree(t', ToSet(st.groups[i].members))
    requires forall k :: 0 <= k < |st.stacks| ==> IsSubtree(t', UnitsSet(st, st.stacks[k].units))
    ensures var loose := Loosen(Loosen(st, a), b);
            && loose.CreateGroup(members).RememberIn(loose.nextId, last) == WithGroup(loose, members, last)
            && Inv(WithGroup(loose, members, last), t', hidden)
  {
    var loose := Loosen(Loosen(st, a), b);
    LooseUnits(st, t, hidden, a, b);
    LoosenKeepsInv(st, t, hidden, a);
    forall k | 0 <= k < |loose.stacks|
      ensures IsSubtree(t', UnitsSet(loose, loose.stacks[k].units))
    {
      LooseStackSet(st, t, hidden, a, b, st.stacks[k]);
    }
    CreatedGroup(loose, members, last);
    CreateKeepsInv(loose, t, t', hidden, members, last);
  }

  lemma {:induction false} GroupUnitsKeepsSound<N(!new)>(l: Layout<N>, active: PaneId, neighbour: PaneId,
                                                         data: Option<N>, second: bool)
    requires Sound(l) && {active, neighbour} <= LeafSet(l.tree) && l.st.nextId + 1 < ID_LIMIT
    ensures Sound(GroupUnits(l, active, neighbour, data, second))
  {
    var (a, b) := (l.st.UnitOf(active), l.st.UnitOf(neighbour));
    if a != b && l.st.StackOf(a).None? && l.st.StackOf(b).None? {
      UnitPlaced(l.st, l.tree, l.hidden, active);
      UnitPlaced(l.st, l.tree, l.hidden, neighbour);
      GroupedMembers(l, active, neighbour);
      GroupUnitsTree(l, active, neighbour, data, second);
      var t' := GroupUnits(l, active, neighbour, data, second).tree;
      GroupLoosened(l.st, l.tree, t', l.hidden, a, b, l.st.UnitPanes(a) + l.st.UnitPanes(b), active);
    }
  }
}
