/** Groups and stacks saved with a tab's layout and put back, `restore_groups` and
    `session_layout_tree` of `mux/src/tab.rs`.

    The panes are collected by group and by stack in the order in which the
    leaves come up, groups are made of them, stacks are made of their units
    sorted by position, and `validate` has the last word. */
module PaneRestore {
  import opened Wrappers
  import opened Sequences
  import opened BinTree
  import opened SubtreeSets
  import opened PaneGroup
  import opened PaneLayout
  import opened TabLayout
  import opened GroupStates

  /** What is saved of the unit of one pane. */
  datatype LeafInfo = LeafInfo(group: Option<nat>, stack: Option<nat>, pos: Option<nat>)

  // ----- Panes collected by key, in the order the keys come up -----

  function Index<T>(a: seq<(nat, T)>, key: nat): (r: Option<nat>)
    ensures r.Some? ==> r.value < |a| && a[r.value].0 == key
    ensures r.None? ==> forall i :: 0 <= i < |a| ==> a[i].0 != key
  {
    if a == [] then None
    else if a[0].0 == key then Some(0)
    else match Index(a[1..], key)
      case Some(i) => Some(i + 1)
      case None => None
  }

  /** No list is empty. */
  predicate Filled(a: seq<(nat, seq<PaneId>)>) { forall i :: 0 <= i < |a| ==> a[i].1 != [] }

  function AddMember(a: seq<(nat, seq<PaneId>)>, key: nat, p: PaneId): (r: seq<(nat, seq<PaneId>)>)
    ensures Filled(a) ==> Filled(r)
  {
    match Index(a, key)
    case Some(i) => a[i := (key, a[i].1 + [p])]
    case None => a + [(key, [p])]
  }

  /** The panes `panes[..n]` by their keys. */
  function Collected(keys: seq<Option<nat>>, panes: seq<PaneId>, n: nat): (r: seq<(nat, seq<PaneId>)>)
    requires n <= |keys| == |panes|
    ensures Filled(r)
  {
    if n == 0 then []
    else
      var before := Collected(keys, panes, n - 1);
      match keys[n - 1]
      case Some(key) => AddMember(before, key, panes[n - 1])
      case None => before
  }

  function GroupKeys(infos: seq<LeafInfo>): seq<Option<nat>> {
    seq(|infos|, i requires 0 <= i < |infos| => infos[i].group)
  }

  /** The positions of the panes in stack `stack`. */
  function PosKeys(infos: seq<LeafInfo>, stack: nat): seq<Option<nat>> {
    seq(|infos|, i requires 0 <= i < |infos| => if infos[i].stack == Some(stack) then infos[i].pos else None)
  }

  type StackList = a: seq<(nat, seq<(nat, seq<PaneId>)>)> | forall i :: 0 <= i < |a| ==> Filled(a[i].1)

  function AddUnit(a: StackList, stack: nat, pos: nat, p: PaneId): StackList {
    match Index(a, stack)
    case Some(i) => a[i := (stack, AddMember(a[i].1, pos, p))]
    case None => a + [(stack, AddMember([], pos, p))]
  }

  /** The panes by their stacks, and in each by their positions. */
  function StackMembers(infos: seq<LeafInfo>, panes: seq<PaneId>, n: nat): StackList
    requires n <= |infos| == |panes|
  {
    if n == 0 then []
    else
      var before := StackMembers(infos, panes, n - 1);
      match (infos[n - 1].stack, infos[n - 1].pos)
      case (Some(stack), Some(pos)) => AddUnit(before, stack, pos, panes[n - 1])
      case _ => before
  }

  // ----- The state that is put together from them -----

  /** A group for each of the first `n` lists. */
  function Created(members: seq<(nat, seq<PaneId>)>, n: nat): Groups
    requires n <= |members|
  {
    if n == 0 then Groups([], [], 0) else Created(members, n - 1).CreateGroup(members[n - 1].1)
  }

  /** `sort_by_key`, which keeps equal keys in order. */
  function InsertByPos(a: seq<(nat, seq<PaneId>)>, x: (nat, seq<PaneId>)): (r: seq<(nat, seq<PaneId>)>)
    ensures Filled(a) && x.1 != [] ==> Filled(r)
  {
    if a == [] || a[|a| - 1].0 <= x.0 then a + [x]
    else InsertByPos(a[..|a| - 1], x) + [a[|a| - 1]]
  }

  function SortByPos(a: seq<(nat, seq<PaneId>)>): (r: seq<(nat, seq<PaneId>)>)
    ensures Filled(a) ==> Filled(r)
  {
    if a == [] then [] else InsertByPos(SortByPos(a[..|a| - 1]), a[|a| - 1])
  }

  function UnitsIn(st: Groups, a: seq<(nat, seq<PaneId>)>): seq<Unit>
    requires Filled(a)
  {
    seq(|a|, i requires 0 <= i < |a| => st.UnitOf(a[i].1[0]))
  }

  /** The positions below `n` where the flag is set. */
  function SetBelow(flags: seq<bool>, n: nat): seq<nat>
    requires n <= |flags|
  {
    if n == 0 then [] else SetBelow(flags, n - 1) + if flags[n - 1] then [n - 1] else []
  }

  function ShownFlags(st: Groups, units: seq<Unit>, hidden: set<PaneId>): seq<bool> {
    seq(|units|, i requires 0 <= i < |units| => Shown(st, units[i], hidden))
  }

  /** The positions of the units that are wholly visible. */
  function Visible(st: Groups, units: seq<Unit>, hidden: set<PaneId>): seq<nat> {
    SetBelow(ShownFlags(st, units, hidden), |units|)
  }

  /** A stack of the units in `list`; none if there is not just one visible unit. */
  function StackMade(st: Groups, list: seq<(nat, seq<PaneId>)>, hidden: set<PaneId>): Option<PaneStack>
    requires Filled(list)
  {
    var units := UnitsIn(st, SortByPos(list));
    var visible := Visible(st, units, hidden);
    if |visible| == 1 then Some(PaneStack(units, visible[0])) else None
  }

  /** The group state that `infos` make of `panes`, unless it does not fit. */
  ghost function Restored(infos: seq<LeafInfo>, panes: seq<PaneId>, subtrees: seq<set<PaneId>>, hidden: set<PaneId>)
    : Option<Groups> {
    if |infos| != |panes| then None
    else
      var members := Collected(GroupKeys(infos), panes, |panes|);
      var lists := StackMembers(infos, panes, |panes|);
      var st := Created(members, |members|);
      if AllMade(st, lists, hidden) && Validates(st.(stacks := StacksMade(st, lists, hidden)), subtrees, hidden)
      then Some(st.(stacks := StacksMade(st, lists, hidden)))
      else None
  }

  ghost predicate AllMade(st: Groups, lists: StackList, hidden: set<PaneId>) {
    forall k :: 0 <= k < |lists| ==> StackMade(st, lists[k].1, hidden).Some?
  }

  ghost function StacksMade(st: Groups, lists: StackList, hidden: set<PaneId>): seq<PaneStack>
    requires AllMade(st, lists, hidden)
  {
    seq(|lists|, k requires 0 <= k < |lists| => StackMade(st, lists[k].1, hidden).value)
  }

  method CollectMembers(infos: seq<LeafInfo>, panes: seq<PaneId>)
    returns (members: seq<(nat, seq<PaneId>)>, lists: StackList)
    requires |infos| == |panes|
    ensures members == Collected(GroupKeys(infos), panes, |panes|) && lists == StackMembers(infos, panes, |panes|)
  {
    members, lists := [], [];
    for i := 0 to |infos|
      invariant members == Collected(GroupKeys(infos), panes, i) && lists == StackMembers(infos, panes, i)
    {
      if infos[i].group.Some? {
        members := AddMember(members, infos[i].group.value, panes[i]);
      }
      if infos[i].stack.Some? && infos[i].pos.Some? {
        lists := AddUnit(lists, infos[i].stack.value, infos[i].pos.value, panes[i]);
      }
    }
  }

  method CreateGroups(members: seq<(nat, seq<PaneId>)>) returns (state: GroupState)
    ensures fresh(state) && state.View() == Created(members, |members|) && state.stacks == []
  {
    state := new GroupState();
    for i := 0 to |members|
      invariant fresh(state) && state.View() == Created(members, i)
    {
      var id := state.CreateGroup(members[i].1);
    }
    CreatedStacks(members, |members|);
  }

  /** Pushes the stack of the units in `list`. */
  method PushStack(state: GroupState, list: seq<(nat, seq<PaneId>)>, hidden: set<PaneId>, ghost st: Groups)
    returns (ok: bool)
    requires Filled(list) && st.groups == state.groups
    modifies state`stacks
    ensures ok <==> StackMade(st, list, hidden).Some?
    ensures state.stacks == old(state.stacks) + if ok then [StackMade(st, list, hidden).value] else []
  {
    SameStackMade(st, state.View(), list, hidden);
    var units := UnitsIn(state.View(), SortByPos(list));
    var visible := Visible(state.View(), units, hidden);
    ok := |visible| == 1;
    if ok {
      state.stacks := state.stacks + [PaneStack(units, visible[0])];
    }
  }

  method PushStacks(state: GroupState, lists: StackList, hidden: set<PaneId>, ghost st: Groups) returns (ok: bool)
    requires st == state.View() && st.stacks == []
    modifies state`stacks
    ensures ok <==> AllMade(st, lists, hidden)
    ensures ok ==> state.stacks == StacksMade(st, lists, hidden)
  {
    for i := 0 to |lists|
      invariant |state.stacks| == i
      invariant forall k :: 0 <= k < i ==> StackMade(st, lists[k].1, hidden) == Some(state.stacks[k])
    {
      ok := PushStack(state, lists[i].1, hidden, st);
      if !ok {
        assert StackMade(st, lists[i].1, hidden).None?;
        return;
      }
      assert StackMade(st, lists[i].1, hidden) == Some(state.stacks[i]);
    }
    ok := true;
    assert AllMade(st, lists, hidden);
    assert |StacksMade(st, lists, hidden)| == |state.stacks|;
  }

  method RestoreGroups(infos: seq<LeafInfo>, t: Tree<PaneId, ()>, hidden: set<PaneId>) returns (r: Option<Groups>)
    ensures r == Restored(infos, Leaves(t), SubtreeLeafSets(t), hidden)
  {
    if |infos| != |Leaves(t)| {
      return None;
    }
    var members, lists := CollectMembers(infos, Leaves(t));
    var state := CreateGroups(members);
    ghost var st := state.View();
    var ok := PushStacks(state, lists, hidden, st);
    if !ok {
      return None;
    }
    var fault := state.Validate(SubtreeLeafSets(t), hidden);
    assert state.View() == st.(stacks := StacksMade(st, lists, hidden));
    r := if fault.None? then Some(state.View()) else None;
  }

  lemma {:induction false} CreatedStacks(members: seq<(nat, seq<PaneId>)>, n: nat)
    requires n <= |members|
    ensures Created(members, n).stacks == []
  {
    if n > 0 {
      CreatedStacks(members, n - 1);
    }
  }

  lemma {:induction false} SameUnitsOf(st: Groups, st': Groups)
    requires st.groups == st'.groups
    ensures forall p :: st.UnitOf(p) == st'.UnitOf(p)
    ensures forall u :: st.UnitPanes(u) == st'.UnitPanes(u)
  {
  }

  lemma {:induction false} SameStackMade(st: Groups, st': Groups, list: seq<(nat, seq<PaneId>)>, hidden: set<PaneId>)
    requires st.groups == st'.groups && Filled(list)
    ensures StackMade(st, list, hidden) == StackMade(st', list, hidden)
  {
    SameUnitsOf(st, st');
    var units := UnitsIn(st, SortByPos(list));
    assert units == UnitsIn(st', SortByPos(list));
    assert ShownFlags(st, units, hidden) == ShownFlags(st', units, hidden);
  }

  // ----- A state that passes keeps the invariant -----

  lemma {:induction false} CollectedFew(keys: seq<Option<nat>>, panes: seq<PaneId>, n: nat)
    requires n <= |keys| == |panes|
    ensures |Collected(keys, panes, n)| <= n
  {
    if n > 0 {
      CollectedFew(keys, panes, n - 1);
    }
  }

  lemma {:induction false} CreatedGroups(members: seq<(nat, seq<PaneId>)>, n: nat)
    requires n <= |members| && n < ID_LIMIT && Filled(members)
    ensures var st := Created(members, n);
            && st.nextId == |st.groups| == n
            && forall i :: 0 <= i < n ==> st.groups[i] == GroupInfo(i, members[i].1, members[i].1[0])
  {
    if n > 0 {
      CreatedGroups(members, n - 1);
    }
  }

  lemma {:induction false} SetExact(flags: seq<bool>, n: nat)
    requires n <= |flags|
    ensures forall v: nat :: v in SetBelow(flags, n) <==> v < n && flags[v]
  {
    if n > 0 {
      SetExact(flags, n - 1);
    }
  }

  lemma {:induction false} VisibleExact(st: Groups, units: seq<Unit>, hidden: set<PaneId>)
    ensures forall v: nat :: v in Visible(st, units, hidden) <==> v < |units| && Shown(st, units[v], hidden)
  {
    SetExact(ShownFlags(st, units, hidden), |units|);
  }

  /** The active unit is the only one that is wholly visible. */
  ghost predicate OnlyActiveShown(st: Groups, stack: PaneStack, hidden: set<PaneId>) {
    && stack.active < |stack.units|
    && forall v :: 0 <= v < |stack.units| ==> (Shown(st, stack.units[v], hidden) <==> v == stack.active)
  }

  lemma {:induction false} StackMadeShows(st: Groups, list: seq<(nat, seq<PaneId>)>, hidden: set<PaneId>)
    requires Filled(list) && StackMade(st, list, hidden).Some?
    ensures StackMade(st, list, hidden).value.units == UnitsIn(st, SortByPos(list))
    ensures OnlyActiveShown(st, StackMade(st, list, hidden).value, hidden)
  {
    var units := UnitsIn(st, SortByPos(list));
    var visible := Visible(st, units, hidden);
    VisibleExact(st, units, hidden);
    assert visible == [visible[0]] && visible[0] in visible;
  }

  /** The groups of a state that passes `validate`, numbered from 0. */
  lemma {:induction false} NumberedGroupsOk(st: Groups, subtrees: seq<set<PaneId>>, hidden: set<PaneId>)
    requires Validates(st, subtrees, hidden) && st.nextId == |st.groups| < ID_LIMIT
    requires forall i :: 0 <= i < |st.groups| ==>
               st.groups[i].id == i && st.groups[i].lastActive in st.groups[i].members
    ensures GroupsOk(st)
  {
    forall i | 0 <= i < |st.groups|
      ensures GroupOk(st.groups[i], st.nextId)
    {
      assert GroupValid(st.groups[i], subtrees);
    }
    forall i, j | 0 <= i < |st.groups| && 0 <= j < |st.groups| && i != j
      ensures st.groups[i].id != st.groups[j].id && Disjoint(st.groups[i].members, st.groups[j].members)
    {
      var (low, high) := (if i < j then i else j, if i < j then j else i);
      assert Disjoint(st.groups[low].members, st.groups[high].members);
    }
  }

  ghost predicate Named(st: Groups, u: Unit) { exists p :: u == st.UnitOf(p) }

  /** A stack that passes, of units as `unit_of` names them. */
  lemma {:induction false} ValidStackOk<N(!new)>(st: Groups, t: Tree<PaneId, N>, hidden: set<PaneId>, stack: PaneStack)
    requires GroupsOk(st) && StackValid(st, stack, SubtreeLeafSets(t), hidden)
    requires forall a :: 0 <= a < |stack.units| ==> Named(st, stack.units[a])
    requires OnlyActiveShown(st, stack, hidden)
    ensures StackOk(st, t, hidden, stack)
  {
    forall a | 0 <= a < |stack.units|
      ensures Canonical(st, stack.units[a])
    {
      var p :| stack.units[a] == st.UnitOf(p);
      UnitOfCanonical(st, p);
    }
  }

  /** Whatever was saved: a state that `restore_groups` installs keeps the invariant. */
  lemma {:induction false} RestoredInv<N(!new)>(infos: seq<LeafInfo>, t: Tree<PaneId, N>, hidden: set<PaneId>)
    requires Full(t) && DistinctLeaves(t) && |Leaves(t)| < ID_LIMIT
    requires Restored(infos, Leaves(t), SubtreeLeafSets(t), hidden).Some?
    ensures Inv(Restored(infos, Leaves(t), SubtreeLeafSets(t), hidden).value, t, hidden)
  {
    var panes := Leaves(t);
    var members, lists := Collected(GroupKeys(infos), panes, |panes|), StackMembers(infos, panes, |panes|);
    var st := Created(members, |members|);
    var stacks := StacksMade(st, lists, hidden);
    var st' := st.(stacks := stacks);
    CollectedFew(GroupKeys(infos), panes, |panes|);
    CreatedGroups(members, |members|);
    NumberedGroupsOk(st', SubtreeLeafSets(t), hidden);
    forall k | 0 <= k < |stacks|
      ensures StackOk(st', t, hidden, stacks[k])
    {
      SameStackMade(st, st', lists[k].1, hidden);
      StackMadeShows(st', lists[k].1, hidden);
      UnitsNamed(st', lists[k].1);
      ValidStackOk(st', t, hidden, stacks[k]);
    }
  }

  lemma {:induction false} UnitsNamed(st: Groups, list: seq<(nat, seq<PaneId>)>)
    requires Filled(list)
    ensures forall a :: 0 <= a < |UnitsIn(st, SortByPos(list))| ==> Named(st, UnitsIn(st, SortByPos(list))[a])
  {
  }

  /** The tab afterwards; its group remembers the pane that has the focus. */
  ghost function RestoreOn<N(!new)>(l: Layout<N>, infos: seq<LeafInfo>, focus: Option<PaneId>): Layout<N> {
    match Restored(infos, Leaves(l.tree), SubtreeLeafSets(l.tree), l.hidden)
    case None => l
    case Some(st) => l.(st := match focus case Some(p) => st.NoteActive(p) case None => st)
  }

  lemma {:induction false} RestoreKeepsSound<N(!new)>(l: Layout<N>, infos: seq<LeafInfo>, focus: Option<PaneId>)
    requires Sound(l) && Full(l.tree) && |Leaves(l.tree)| < ID_LIMIT
    ensures Sound(RestoreOn(l, infos, focus))
  {
    match Restored(infos, Leaves(l.tree), SubtreeLeafSets(l.tree), l.hidden)
    case None =>
    case Some(st) =>
      RestoredInv(infos, l.tree, l.hidden);
      if focus.Some? && FindMember(st.groups, focus.value).Some? {
        NoteActiveKeepsInv(st, l.tree, l.hidden, FindMember(st.groups, focus.value).value, focus.value);
      }
  }
}
