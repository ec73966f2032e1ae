/** A tab's layout: split tree, group state and hidden panes together, and the
    operations of `mux/src/tab.rs` that change them and keep the invariant. */
module TabLayout {
  import opened Wrappers
  import opened Sequences
  import opened BinTree
  import opened SubtreeSets
  import opened Docking
  import opened PaneGroup
  import opened PaneLayout
  import opened PaneEdits

  datatype Layout<N> = Layout(tree: Tree<PaneId, N>, st: Groups, hidden: set<PaneId>)

  ghost predicate Sound<N(!new)>(l: Layout<N>) {
    Inv(l.st, l.tree, l.hidden)
  }

  // ----- The operations -----

  function ClosePane<N>(l: Layout<N>, c: Cursor<PaneId, N>): Layout<N>
    requires c.IsLeaf()
  {
    var p := c.it.value;
    var (st', shown) := l.st.RemovePane(p);
    var tree := match c.UnsplitLeaf() case Ok((u, _, _)) => u.Whole() case Err(_) => Empty;
    Layout(tree, st', Revealed(st', l.hidden - {p}, shown))
  }

  function SplitPane<N>(l: Layout<N>, c: Cursor<PaneId, N>, added: PaneId, onRight: bool): Layout<N>
    requires c.IsLeaf()
  {
    Layout(SplitTree(c, added, onRight), l.st.Adopt(c.it.value, added), l.hidden)
  }

  /** A split of the whole tab: no unit takes the new pane in. */
  function SplitTop<N>(l: Layout<N>, added: PaneId, onRight: bool): Layout<N> {
    var c := Cursor(l.tree, Top);
    match if onRight then c.SplitNodeAndInsertRight(added) else c.SplitNodeAndInsertLeft(added)
    case Ok(split) => l.(tree := split.Whole())
    case Err(_) => l
  }

  function ShowStackUnit<N>(l: Layout<N>, unit: Unit): Layout<N> {
    match l.st.StackOf(unit)
    case None => l
    case Some(k) =>
      var stack := l.st.stacks[k];
      var to := Position(stack.units, unit);
      if to == stack.active || stack.active >= |stack.units| then l
      else
        var old_ := stack.units[stack.active];
        Layout(l.tree,
               l.st.(stacks := l.st.stacks[k := stack.(active := to)]),
               (l.hidden - ToSet(l.st.UnitPanes(unit))) + ToSet(l.st.UnitPanes(old_)))
  }

  /** Focus brings a pane hidden in a stack on show, and its group remembers it. */
  function Focus<N>(l: Layout<N>, pane: PaneId): Layout<N> {
    var shown := if pane in l.hidden then ShowStackUnit(l, l.st.UnitOf(pane)) else l;
    shown.(st := shown.st.NoteActive(pane))
  }

  /** Hides or shows a single pane, unless it is stacked. */
  function TogglePaneHidden<N>(l: Layout<N>, pane: PaneId): Layout<N> {
    var unit := l.st.UnitOf(pane);
    if l.st.StackOf(unit).Some? then
      if pane in l.hidden then ShowStackUnit(l, unit) else l
    else if pane in l.hidden then l.(hidden := l.hidden - {pane})
    else if LeafSet(l.tree) - l.hidden - {pane} == {} then l
    else l.(hidden := l.hidden + {pane})
  }

  function Ungroup<N>(l: Layout<N>, pane: PaneId): Layout<N> {
    match l.st.UnitOf(pane)
    case Group(id) => if l.st.StackOf(Group(id)).None? then l.(st := l.st.Dissolve(id)) else l
    case Pane(_) => l
  }

  /** Takes the panes of `source` out and chains them beside the subtree `target`. */
  function Dock<N>(t: Tree<PaneId, N>, source: seq<PaneId>, target: seq<PaneId>, data: Option<N>, second: bool)
    : Tree<PaneId, N> {
    ReplaceSubtreeWithPair(RemoveLeaves(t, source), ToSet(target), Chain(source, data), data, second).0
  }

  function GroupUnits<N>(l: Layout<N>, active: PaneId, neighbour: PaneId, data: Option<N>, second: bool): Layout<N> {
    var (a, b) := (l.st.UnitOf(active), l.st.UnitOf(neighbour));
    if a == b || l.st.StackOf(a).Some? || l.st.StackOf(b).Some? then l
    else
      var (panesA, panesB) := (l.st.UnitPanes(a), l.st.UnitPanes(b));
      var tree := if ToSet(panesA + panesB) in SubtreeLeafSets(l.tree) then l.tree
                  else Dock(l.tree, panesA, panesB, data, second);
      var loose := Loosen(Loosen(l.st, a), b);
      Layout(tree, loose.CreateGroup(panesA + panesB).RememberIn(loose.nextId, active), l.hidden)
  }

  /** Dissolves a unit that is a group. */
  function Loosen(st: Groups, u: Unit): Groups {
    match u
    case Group(id) => st.Dissolve(id)
    case Pane(_) => st
  }

  /** Puts the unit of `active` in front of the unit of its neighbour, in one slot. */
  function StackUnits<N>(l: Layout<N>, active: PaneId, neighbour: PaneId, data: Option<N>): Layout<N> {
    var (a, b) := (l.st.UnitOf(active), l.st.UnitOf(neighbour));
    if a == b || l.st.StackOf(a).Some? then l
    else
      var (panesA, panesB) := (l.st.UnitPanes(a), l.st.UnitPanes(b));
      Layout(Dock(l.tree, panesA, panesB, data, true),
             l.st.(stacks := StackedInFront(l.st, a, b)),
             l.hidden + ToSet(panesB))
  }

  /** The stacks once unit `a` is on show in the slot of unit `b`. */
  function StackedInFront(st: Groups, a: Unit, b: Unit): seq<PaneStack> {
    match st.StackOf(b)
    case Some(k) =>
      var units := st.stacks[k].units + [a];
      st.stacks[k := PaneStack(units, |units| - 1)]
    case None => st.stacks + [PaneStack([b, a], 1)]
  }

  // ----- Each operation keeps the invariant -----

  /** A stack none of whose panes changed unit or visibility is still in order. */
  lemma {:induction false} StackKept<N(!new)>(st: Groups, st': Groups, t: Tree<PaneId, N>, t': Tree<PaneId, N>,
                                              hidden: set<PaneId>, hidden': set<PaneId>, stack: PaneStack)
    requires StackOk(st, t, hidden, stack)
    requires forall a :: 0 <= a < |stack.units| ==>
               Canonical(st', stack.units[a]) && st'.UnitPanes(stack.units[a]) == st.UnitPanes(stack.units[a])
    requires forall a, q :: 0 <= a < |stack.units| && q in st.UnitPanes(stack.units[a]) ==>
               (q in hidden' <==> q in hidden)
    requires IsSubtree(t', UnitsSet(st, stack.units))
    ensures StackOk(st', t', hidden', stack)
  {
    assert UnitsSet(st', stack.units) == UnitsSet(st, stack.units);
  }

  lemma {:induction false} NoteActiveKeepsInv<N(!new)>(st: Groups, t: Tree<PaneId, N>, hidden: set<PaneId>, i: nat,
                                                       p: PaneId)
    requires Inv(st, t, hidden) && i < |st.groups| && p in st.groups[i].members
    ensures Inv(st.(groups := st.groups[i := st.groups[i].(lastActive := p)]), t, hidden)
  {
    var st' := st.(groups := st.groups[i := st.groups[i].(lastActive := p)]);
    assert forall j :: 0 <= j < |st.groups| ==>
        && st'.groups[j].members == st.groups[j].members && st'.groups[j].id == st.groups[j].id
        && GroupOk(st.groups[j], st.nextId);
    assert forall j, k :: 0 <= j < |st.groups| && 0 <= k < |st.groups| && j != k ==>
        Disjoint(st.groups[j].members, st.groups[k].members);
    assert GroupsOk(st');
    forall k | 0 <= k < |st.stacks|
      ensures StackOk(st', t, hidden, st.stacks[k])
    {
      var stack := st.stacks[k];
      forall a | 0 <= a < |stack.units|
        ensures Canonical(st', stack.units[a]) && st'.UnitPanes(stack.units[a]) == st.UnitPanes(stack.units[a])
      {
        SameMembersSameUnit(st, st', stack.units[a]);
      }
      StackKept(st, st', t, t, hidden, hidden, stack);
    }
  }

  lemma {:induction false} SameMembersSameUnit(st: Groups, st': Groups, u: Unit)
    requires GroupsOk(st) && GroupsOk(st') && Canonical(st, u) && |st.groups| == |st'.groups|
    requires forall j :: 0 <= j < |st.groups| ==>
               st'.groups[j].members == st.groups[j].members && st'.groups[j].id == st.groups[j].id
    ensures Canonical(st', u) && st'.UnitPanes(u) == st.UnitPanes(u)
  {
    var k := CanonicalUnit(st, u);
    if u.Group? {
      GroupFound(st', k);
    } else {
      LonePane(st', u.pane);
    }
  }

  /** Two canonical units that share a pane are the same unit. */
  lemma {:induction false} UnitsShareNoPane(st: Groups, u: Unit, v: Unit, q: PaneId)
    requires Canonical(st, u) && Canonical(st, v) && q in st.UnitPanes(u) && q in st.UnitPanes(v)
    ensures u == v
  {
  }

  lemma {:induction false} ShowStackUnitKeepsStack<N(!new)>(l: Layout<N>, k: nat, to: nat, j: nat)
    requires Inv(l.st, l.tree, l.hidden) && k < |l.st.stacks| && to < |l.st.stacks[k].units| && j < |l.st.stacks|
    requires to != l.st.stacks[k].active < |l.st.stacks[k].units|
    ensures var stack := l.st.stacks[k];
            var front := ToSet(l.st.UnitPanes(stack.units[to]));
            var behind := ToSet(l.st.UnitPanes(stack.units[stack.active]));
            var hidden' := (l.hidden - front) + behind;
            StackOk(l.st, l.tree, hidden', l.st.stacks[k := stack.(active := to)][j])
  {
    var st, stack := l.st, l.st.stacks[k];
    var unit, old_ := stack.units[to], stack.units[stack.active];
    var hidden' := (l.hidden - ToSet(st.UnitPanes(unit))) + ToSet(st.UnitPanes(old_));
    assert StackOk(st, l.tree, l.hidden, stack) && StackOk(st, l.tree, l.hidden, st.stacks[j]);
    forall a, q | 0 <= a < |st.stacks[j].units| && q in st.UnitPanes(st.stacks[j].units[a])
      ensures (q in ToSet(st.UnitPanes(unit)) <==> j == k && a == to)
           && (q in ToSet(st.UnitPanes(old_)) <==> j == k && a == stack.active)
    {
      if q in st.UnitPanes(unit) {
        UnitsShareNoPane(st, unit, st.stacks[j].units[a], q);
      }
      if q in st.UnitPanes(old_) {
        UnitsShareNoPane(st, old_, st.stacks[j].units[a], q);
      }
    }
    if j != k {
      StackKept(st, st, l.tree, l.tree, l.hidden, hidden', st.stacks[j]);
    }
  }

  lemma {:induction false} SameUnitsStillDistinct(ss: seq<PaneStack>, k: nat, active: nat)
    requires UnitsDistinct(ss) && k < |ss|
    ensures UnitsDistinct(ss[k := ss[k].(active := active)])
  {
    var ss' := ss[k := ss[k].(active := active)];
    assert forall j :: 0 <= j < |ss| ==> ss'[j].units == ss[j].units;
  }

  /** Invariant after only the stacks and the hidden panes changed. */
  lemma {:induction false} StacksReplaced<N(!new)>(st: Groups, ss: seq<PaneStack>, t: Tree<PaneId, N>,
                                                   hidden: set<PaneId>, hidden': set<PaneId>)
    requires Inv(st, t, hidden) && UnitsDistinct(ss)
    requires forall j :: 0 <= j < |ss| ==> StackOk(st, t, hidden', ss[j])
    ensures Inv(st.(stacks := ss), t, hidden')
  {
    forall j | 0 <= j < |ss|
      ensures StackOk(st.(stacks := ss), t, hidden', ss[j])
    {
      SameGroupsSameStack(st, st.(stacks := ss), t, hidden', ss[j]);
    }
  }

  lemma {:induction false} ShowStackUnitKeepsSound<N(!new)>(l: Layout<N>, unit: Unit)
    requires Sound(l)
    ensures Sound(ShowStackUnit(l, unit))
  {
    match l.st.StackOf(unit)
    case None =>
    case Some(k) =>
      var stack := l.st.stacks[k];
      var to := Position(stack.units, unit);
      assert StackOk(l.st, l.tree, l.hidden, stack);
      if to != stack.active {
        var l' := ShowStackUnit(l, unit);
        SameUnitsStillDistinct(l.st.stacks, k, to);
        forall j | 0 <= j < |l'.st.stacks|
          ensures StackOk(l.st, l'.tree, l'.hidden, l'.st.stacks[j])
        {
          ShowStackUnitKeepsStack(l, k, to, j);
        }
        StacksReplaced(l.st, l'.st.stacks, l.tree, l.hidden, l'.hidden);
      }
  }

  lemma {:induction false} FocusKeepsSound<N(!new)>(l: Layout<N>, pane: PaneId)
    requires Sound(l)
    ensures Sound(Focus(l, pane))
  {
    var shown := if pane in l.hidden then ShowStackUnit(l, l.st.UnitOf(pane)) else l;
    ShowStackUnitKeepsSound(l, l.st.UnitOf(pane));
    match FindMember(shown.st.groups, pane)
    case Some(i) => NoteActiveKeepsInv(shown.st, shown.tree, shown.hidden, i, pane);
    case None =>
  }

  lemma {:induction false} ToggleKeepsSound<N(!new)>(l: Layout<N>, pane: PaneId)
    requires Sound(l)
    ensures Sound(TogglePaneHidden(l, pane))
  {
    var unit := l.st.UnitOf(pane);
    ShowStackUnitKeepsSound(l, unit);
    var l' := TogglePaneHidden(l, pane);
    if l.st.StackOf(unit).None? {
      forall k | 0 <= k < |l.st.stacks|
        ensures StackOk(l.st, l.tree, l'.hidden, l.st.stacks[k])
      {
        var stack := l.st.stacks[k];
        assert StackOk(l.st, l.tree, l.hidden, stack);
        StackKept(l.st, l.st, l.tree, l.tree, l.hidden, l'.hidden, stack);
      }
    }
  }

  // ----- Closing and splitting -----

  lemma {:induction false} GroupHoldsTwo<N(!new)>(st: Groups, t: Tree<PaneId, N>, hidden: set<PaneId>, i: nat)
    returns (x: PaneId, y: PaneId)
    requires Inv(st, t, hidden) && i < |st.groups|
    ensures x != y && {x, y} <= LeafSet(t)
  {
    var m := st.groups[i].members;
    assert GroupOk(st.groups[i], st.nextId);
    x, y := m[0], m[1];
    SubtreeSetsInside(t, ToSet(m));
    assert x in ToSet(m) && y in ToSet(m);
  }

  lemma {:induction false} StackHoldsTwo<N(!new)>(st: Groups, t: Tree<PaneId, N>, hidden: set<PaneId>, k: nat)
    returns (x: PaneId, y: PaneId)
    requires Inv(st, t, hidden) && k < |st.stacks|
    ensures x != y && {x, y} <= LeafSet(t)
  {
    var units := st.stacks[k].units;
    assert StackOk(st, t, hidden, st.stacks[k]);
    x, y := st.UnitPanes(units[0])[0], st.UnitPanes(units[1])[0];
    assert x in st.UnitPanes(units[0]) && y in st.UnitPanes(units[1]);
    SubtreeSetsInside(t, UnitsSet(st, units));
    assert x in UnitsSet(st, units) && y in UnitsSet(st, units);
  }

  /** The last pane of a tab is in no group and no stack. */
  lemma {:induction false} SoleLeafUngrouped<N(!new)>(st: Groups, p: PaneId, hidden: set<PaneId>)
    requires Inv(st, Tree<PaneId, N>.Leaf(p), hidden)
    ensures st.groups == [] && st.stacks == []
  {
    if st.groups != [] {
      var x, y := GroupHoldsTwo(st, Tree<PaneId, N>.Leaf(p), hidden, 0);
      assert false;
    }
    if st.stacks != [] {
      var x, y := StackHoldsTwo(st, Tree<PaneId, N>.Leaf(p), hidden, 0);
      assert false;
    }
  }

  lemma {:induction false} ClosePaneKeepsSound<N(!new)>(l: Layout<N>, c: Cursor<PaneId, N>)
    requires Sound(l) && c.Whole() == l.tree && c.IsLeaf()
    ensures Sound(ClosePane(l, c))
  {
    if c.IsTop() {
      SoleLeafUngrouped<N>(l.st, c.it.value, l.hidden);
    } else {
      RemovalKeepsInv(l.st, l.hidden, c);
    }
  }

  /** A split is asked for at a visible pane, or at the only one. */
  lemma {:induction false} SplitPaneKeepsSound<N(!new)>(l: Layout<N>, c: Cursor<PaneId, N>, added: PaneId,
                                                        onRight: bool)
    requires Sound(l) && c.Whole() == l.tree && c.IsLeaf() && (c.it.value !in l.hidden || c.IsTop())
    requires added !in LeafSet(l.tree) + l.hidden && l.st.nextId + 1 < ID_LIMIT
    ensures Sound(SplitPane(l, c, added, onRight))
  {
    if c.it.value !in l.hidden {
      SplitKeepsInv(l.st, l.hidden, l.hidden, c, added, onRight);
    } else {
      SoleLeafUngrouped<N>(l.st, c.it.value, l.hidden);
      SplitKeepsInv(l.st, l.hidden, l.hidden + {added}, c, added, onRight);
    }
  }

  lemma {:induction false} SplitTopKeepsSound<N(!new)>(l: Layout<N>, added: PaneId, onRight: bool)
    requires Sound(l) && l.tree.Node? && added !in LeafSet(l.tree)
    ensures Sound(SplitTop(l, added, onRight))
  {
    var l' := SplitTop(l, added, onRight);
    var leaf: Tree<PaneId, N> := Leaf(added);
    assert l'.tree == if onRight then Node(l.tree, leaf, None) else Node(leaf, l.tree, None);
    assert LeafSet(l'.tree) == if onRight then LeafSet(l.tree) + LeafSet(leaf) else LeafSet(leaf) + LeafSet(l.tree);
    assert Full(l'.tree) && DistinctLeaves(l'.tree);
    forall i | 0 <= i < |l.st.groups|
      ensures IsSubtree(l'.tree, ToSet(l.st.groups[i].members))
    {
    }
    forall k | 0 <= k < |l.st.stacks|
      ensures StackOk(l.st, l'.tree, l.hidden, l.st.stacks[k])
    {
      assert StackOk(l.st, l.tree, l.hidden, l.st.stacks[k]);
    }
  }

  // ----- Grouping -----

  lemma {:induction false} DissolveGroups(st: Groups, i: nat)
    requires GroupsOk(st) && i < |st.groups|
    ensures var st' := st.Dissolve(st.groups[i].id);
            && GroupsOk(st') && st'.groups == st.groups[..i] + st.groups[i + 1..]
            && forall p :: p in st.groups[i].members ==> st'.UnitOf(p) == Pane(p)
  {
    WithoutGroupAt(st.groups, i);
    var st' := st.Dissolve(st.groups[i].id);
    FewerGroupsOk(st, st', i);
    forall p, j | p in st.groups[i].members && 0 <= j < |st'.groups|
      ensures p !in st'.groups[j].members
    {
      assert Disjoint(st.groups[i].members, st.groups[if j < i then j else j + 1].members);
    }
  }

  lemma {:induction false} FewerGroupsOk(st: Groups, st': Groups, i: nat)
    requires GroupsOk(st) && i < |st.groups|
    requires st'.groups == st.groups[..i] + st.groups[i + 1..] && st'.nextId == st.nextId
    ensures GroupsOk(st')
  {
    assert forall j :: 0 <= j < |st'.groups| ==> st'.groups[j] == st.groups[if j < i then j else j + 1];
  }

  /** Another group is still there under its id, with its members. */
  lemma {:induction false} DissolveOthers(st: Groups, i: nat, k: nat)
    requires GroupsOk(st) && i < |st.groups| && k < |st.groups| && k != i
    ensures var (st', g) := (st.Dissolve(st.groups[i].id), st.groups[k]);
            Canonical(st', Group(g.id)) && st'.UnitPanes(Group(g.id)) == g.members
  {
    var st' := st.Dissolve(st.groups[i].id);
    DissolveGroups(st, i);
    var k' := if k < i then k else k - 1;
    assert st'.groups[k'] == st.groups[k];
    assert GroupOk(st.groups[k], st.nextId);
    GroupFound(st', k');
  }

  lemma {:induction false} DissolveUnits(st: Groups, i: nat, u: Unit)
    requires GroupsOk(st) && i < |st.groups| && Canonical(st, u) && u != Group(st.groups[i].id)
    ensures var st' := st.Dissolve(st.groups[i].id); Canonical(st', u) && st'.UnitPanes(u) == st.UnitPanes(u)
  {
    var k := CanonicalUnit(st, u);
    if u.Group? {
      DissolveOthers(st, i, k);
      GroupFound(st, k);
    } else {
      DissolveGroups(st, i);
      LonePane(st.Dissolve(st.groups[i].id), u.pane);
    }
  }

  lemma {:induction false} DissolveKeepsInv<N(!new)>(st: Groups, t: Tree<PaneId, N>, hidden: set<PaneId>, i: nat)
    requires Inv(st, t, hidden) && i < |st.groups| && st.StackOf(Group(st.groups[i].id)).None?
    ensures Inv(st.Dissolve(st.groups[i].id), t, hidden)
  {
    var st' := st.Dissolve(st.groups[i].id);
    DissolveGroups(st, i);
    forall k | 0 <= k < |st.stacks|
      ensures StackOk(st', t, hidden, st.stacks[k])
    {
      var stack := st.stacks[k];
      forall a | 0 <= a < |stack.units|
        ensures Canonical(st', stack.units[a]) && st'.UnitPanes(stack.units[a]) == st.UnitPanes(stack.units[a])
      {
        DissolveUnits(st, i, stack.units[a]);
      }
      StackKept(st, st', t, t, hidden, hidden, stack);
    }
  }

  lemma {:induction false} UngroupKeepsSound<N(!new)>(l: Layout<N>, pane: PaneId)
    requires Sound(l)
    ensures Sound(Ungroup(l, pane))
  {
    match FindMember(l.st.groups, pane)
    case None =>
    case Some(i) =>
      if l.st.StackOf(Group(l.st.groups[i].id)).None? {
        DissolveKeepsInv(l.st, l.tree, l.hidden, i);
      }
  }

  /** The group state with one more group. */
  function WithGroup(st: Groups, members: seq<PaneId>, last: PaneId): Groups {
    Groups(st.groups + [GroupInfo(st.nextId, members, last)], st.stacks, st.nextId + 1)
  }

  lemma {:induction false} CreatedGroup(st: Groups, members: seq<PaneId>, last: PaneId)
    requires GroupsOk(st) && st.nextId + 1 < ID_LIMIT
    requires |members| >= 2 && NoRepeats(members) && last in members
    requires forall p :: p in members ==> st.UnitOf(p) == Pane(p)
    ensures st.CreateGroup(members).RememberIn(st.nextId, last) == WithGroup(st, members, last)
    ensures GroupsOk(WithGroup(st, members, last))
  {
    var st' := WithGroup(st, members, last);
    var n := |st.groups|;
    assert forall j :: 0 <= j < n ==> st'.groups[j] == st.groups[j] && GroupOk(st.groups[j], st.nextId);
    assert forall j, k :: 0 <= j < n && 0 <= k < n && j != k ==> Disjoint(st.groups[j].members, st.groups[k].members);
    forall j | 0 <= j < n
      ensures Disjoint(st.groups[j].members, members) && Disjoint(members, st.groups[j].members)
    {
      GroupFound(st, j);
    }
    CreateRemembers(st, members, last);
  }

  lemma {:induction false} CreatedUnits(st: Groups, members: seq<PaneId>, last: PaneId, u: Unit)
    requires GroupsOk(st) && GroupsOk(WithGroup(st, members, last)) && Canonical(st, u)
    requires u.Pane? ==> u.pane !in members
    ensures Canonical(WithGroup(st, members, last), u) && WithGroup(st, members, last).UnitPanes(u) == st.UnitPanes(u)
  {
    var st' := WithGroup(st, members, last);
    var k := CanonicalUnit(st, u);
    if u.Group? {
      assert st'.groups[k] == st.groups[k];
      GroupFound(st', k);
    } else {
      LonePane(st', u.pane);
    }
  }

  /** Making a group of lone unstacked panes that are one subtree of `t'`, when
      every group and stack is still a subtree there. */
  lemma {:induction false} CreateKeepsInv<N(!new)>(st: Groups, t: Tree<PaneId, N>, t': Tree<PaneId, N>,
                                                   hidden: set<PaneId>, members: seq<PaneId>, last: PaneId)
    requires Inv(st, t, hidden) && Full(t') && DistinctLeaves(t') && st.nextId + 1 < ID_LIMIT
    requires |members| >= 2 && NoRepeats(members) && last in members && IsSubtree(t', ToSet(members))
    requires forall p :: p in members ==> st.UnitOf(p) == Pane(p) && st.StackOf(Pane(p)).None?
    requires forall i :: 0 <= i < |st.groups| ==> IsSubtree(t', ToSet(st.groups[i].members))
    requires forall k :: 0 <= k < |st.stacks| ==> IsSubtree(t', UnitsSet(st, st.stacks[k].units))
    ensures Inv(WithGroup(st, members, last), t', hidden)
  {
    var st' := WithGroup(st, members, last);
    CreatedGroup(st, members, last);
    forall k | 0 <= k < |st.stacks|
      ensures StackOk(st', t', hidden, st.stacks[k])
    {
      var stack := st.stacks[k];
      assert StackOk(st, t, hidden, stack);
      forall a | 0 <= a < |stack.units|
        ensures Canonical(st', stack.units[a]) && st'.UnitPanes(stack.units[a]) == st.UnitPanes(stack.units[a])
      {
        CreatedUnits(st, members, last, stack.units[a]);
      }
      StackKept(st, st', t, t', hidden, hidden, stack);
    }
  }
}
