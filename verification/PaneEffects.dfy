/** What the operations of a group state do to panes, units and stacks
    (`mux/src/pane_group.rs`). */
module PaneEffects {
  import opened Wrappers
  import opened Sequences
  import opened BinTree
  import opened SubtreeSets
  import opened PaneGroup
  import opened PaneLayout
  import opened TabLayout
  import opened UnitMoves

  function OnShow(stack: PaneStack): Unit
    requires stack.active < |stack.units|
  {
    stack.units[stack.active]
  }

  /** The pane that the group of `p` remembers. */
  function Remembered(st: Groups, p: PaneId): Option<PaneId> {
    match FindMember(st.groups, p)
    case Some(i) => Some(st.groups[i].lastActive)
    case None => None
  }

  /** The pane is in the same unit, of the same panes, and remembered as before. */
  ghost predicate SameFor(st: Groups, st': Groups, q: PaneId) {
    && st'.UnitOf(q) == st.UnitOf(q) && st'.UnitPanes(st'.UnitOf(q)) == st.UnitPanes(st.UnitOf(q))
    && Remembered(st', q) == Remembered(st, q)
  }

  /** The same stacks, but for `from` being called `to`. */
  ghost predicate RenamedIn(ss: seq<PaneStack>, ss': seq<PaneStack>, from: Unit, to: Unit) {
    && |ss'| == |ss|
    && forall k :: 0 <= k < |ss| ==>
         && ss'[k].active == ss[k].active && |ss'[k].units| == |ss[k].units|
         && forall a :: 0 <= a < |ss[k].units| ==>
              ss'[k].units[a] == if ss[k].units[a] == from then to else ss[k].units[a]
  }

  // ----- Removing a pane -----

  /** A lone pane leaves its stack. If it was on show, the unit that comes on show
      is the one after it, or without one the one before it; otherwise the stack
      goes on showing what it shows. A stack of one is no stack. */
  lemma {:induction false} RemovedFromStack(st: Groups, p: PaneId, k: nat, pos: nat)
    requires FindMember(st.groups, p).None? && UnitsDistinct(st.stacks)
    requires k < |st.stacks| && |st.stacks[k].units| >= 2 && st.stacks[k].active < |st.stacks[k].units|
    requires pos < |st.stacks[k].units| && st.stacks[k].units[pos] == Pane(p)
    ensures var (shown, units) := (st.RemovePane(p).1, st.stacks[k].units);
            shown == if pos != st.stacks[k].active then None
                     else if pos + 1 < |units| then Some(units[pos + 1])
                     else Some(units[pos - 1])
    ensures var (st', shown) := st.RemovePane(p);
            st'.groups == st.groups && st'.nextId == st.nextId
    ensures var (st', shown) := st.RemovePane(p);
            |st.stacks[k].units| == 2 ==> st'.stacks == st.stacks[..k] + st.stacks[k + 1..]
    ensures var (st', shown) := st.RemovePane(p); var units := st.stacks[k].units;
            |units| > 2 ==>
              && |st'.stacks| == |st.stacks|
              && (forall j :: 0 <= j < |st.stacks| && j != k ==> st'.stacks[j] == st.stacks[j])
              && st'.stacks[k].units == units[..pos] + units[pos + 1..] && st'.stacks[k].active < |units| - 1
              && OnShow(st'.stacks[k]) == if shown.Some? then shown.value else OnShow(st.stacks[k])
  {
    SameStack(st, Pane(p), k);
    assert Position(st.stacks[k].units, Pane(p)) == pos;
    DroppedUnit(st.stacks[k], pos);
  }

  lemma {:induction false} DroppedUnit(stack: PaneStack, pos: nat)
    requires |stack.units| >= 2 && stack.active < |stack.units| && pos < |stack.units|
    ensures var ((left, shown), units) := (Groups.DropUnit(stack, pos), stack.units);
            && left.units == units[..pos] + units[pos + 1..] && left.active < |units| - 1
            && shown == (if pos != stack.active then None
                         else if pos + 1 < |units| then Some(units[pos + 1])
                         else Some(units[pos - 1]))
            && OnShow(left) == if shown.Some? then shown.value else OnShow(stack)
  {
  }

  lemma {:induction false} RemovedUnknown(st: Groups, p: PaneId)
    requires FindMember(st.groups, p).None? && st.StackOf(Pane(p)).None?
    ensures st.RemovePane(p) == (st, None)
  {
  }

  lemma {:induction false} WithoutAt(s: seq<PaneId>, j: nat)
    requires j < |s| && NoRepeats(s)
    ensures Without(s, s[j]) == s[..j] + s[j + 1..]
  {
    if j == 0 {
      assert s[0] !in s[1..];
      assert s[..0] + s[1..] == s[1..];
    } else {
      assert NoRepeats(s[1..]);
      WithoutAt(s[1..], j - 1);
      assert s[..j] + s[j + 1..] == [s[0]] + (s[1..][..j - 1] + s[1..][j..]);
    }
  }

  /** A member leaves a group of three or more: the others stay in order, and the
      first of them is remembered in its place. */
  lemma {:induction false} RemovedFromGroup(st: Groups, i: nat, j: nat)
    requires GroupsOk(st) && i < |st.groups| && j < |st.groups[i].members| && |st.groups[i].members| > 2
    ensures var g := st.groups[i]; var rest := g.members[..j] + g.members[j + 1..];
            var remembered := if g.lastActive == g.members[j] then rest[0] else g.lastActive;
            st.RemovePane(g.members[j]) == (st.(groups := st.groups[i := GroupInfo(g.id, rest, remembered)]), None)
  {
    var g := st.groups[i];
    assert GroupOk(g, st.nextId);
    GroupFound(st, i);
    WithoutAt(g.members, j);
  }

  /** A group of two is no group without one of them: the other is a lone pane, and
      stacked where the group was. */
  lemma {:induction false} RemovedFromPair(st: Groups, i: nat, j: nat)
    requires GroupsOk(st) && i < |st.groups| && |st.groups[i].members| == 2 && j < 2
    ensures var g := st.groups[i]; var (st', shown) := st.RemovePane(g.members[j]);
            && shown == None && st'.nextId == st.nextId
            && st'.groups == st.groups[..i] + st.groups[i + 1..]
            && RenamedIn(st.stacks, st'.stacks, Group(g.id), Pane(g.members[1 - j]))
  {
    var g := st.groups[i];
    assert GroupOk(g, st.nextId);
    GroupFound(st, i);
    WithoutAt(g.members, j);
    WithoutGroupAt(st.groups, i);
    assert g.members[..j] + g.members[j + 1..] == [g.members[1 - j]];
  }

  // ----- The other operations -----

  /** A pane split off joins the unit of the other, if that is a group or stacked:
      after its panes, and remembered only if that makes the group. */
  lemma {:induction false} AdoptedJoins(st: Groups, e: PaneId, n: PaneId)
    requires GroupsOk(st) && st.nextId + 1 < ID_LIMIT && e != n && st.UnitOf(n) == Pane(n)
    requires st.UnitOf(e).Group? || st.StackOf(Pane(e)).Some?
    ensures var st' := st.Adopt(e, n);
            && st'.UnitOf(e) == st'.UnitOf(n) && st'.UnitOf(e).Group?
            && st'.UnitPanes(st'.UnitOf(e)) == st.UnitPanes(st.UnitOf(e)) + [n]
            && Remembered(st', e) == (if st.UnitOf(e).Group? then Remembered(st, e) else Some(n))
            && RenamedIn(st.stacks, st'.stacks, st.UnitOf(e), st'.UnitOf(e))
            && forall q :: q != n && st.UnitOf(q) != st.UnitOf(e) ==> SameFor(st, st', q)
  {
    match FindMember(st.groups, e)
    case Some(i) => AdoptedIntoGroup(st, e, n, i);
    case None => AdoptedIntoNew(st, e, n);
  }

  lemma {:induction false} AdoptedUnstacked(st: Groups, e: PaneId, n: PaneId)
    requires st.UnitOf(e) == Pane(e) && st.StackOf(Pane(e)).None?
    ensures st.Adopt(e, n) == st
  {
  }

  lemma {:induction false} AdoptedIntoGroup(st: Groups, e: PaneId, n: PaneId, i: nat)
    requires GroupsOk(st) && e != n && st.UnitOf(n) == Pane(n) && FindMember(st.groups, e) == Some(i)
    ensures var (st', u) := (st.Adopt(e, n), st.UnitOf(e));
            && st'.UnitOf(e) == st'.UnitOf(n) == u && st'.UnitPanes(u) == st.UnitPanes(u) + [n]
            && Remembered(st', e) == Remembered(st, e) && RenamedIn(st.stacks, st'.stacks, u, u)
            && forall q :: q != n && st.UnitOf(q) != u ==> SameFor(st, st', q)
  {
    var st' := st.Adopt(e, n);
    GroupFound(st, i);
    assert FindMember(st.groups, n).None?;
    JoinedGroups(st, i, n);
    assert st' == Joined(st, i, n);
    GroupFound(st', i);
    assert n in st'.groups[i].members && e in st'.groups[i].members;
    forall q | q != n && st.UnitOf(q) != st.UnitOf(e)
      ensures SameFor(st, st', q)
    {
      OthersStay(st, st', i, q);
    }
  }

  /** Only group `i` differs, and the pane was in another unit. */
  lemma {:induction false} OthersStay(st: Groups, st': Groups, i: nat, q: PaneId)
    requires GroupsOk(st) && GroupsOk(st') && i < |st.groups| == |st'.groups| && st'.groups[i].id == st.groups[i].id
    requires forall j :: 0 <= j < |st.groups| && j != i ==> st'.groups[j] == st.groups[j]
    requires q !in st.groups[i].members && q !in st'.groups[i].members
    ensures SameFor(st, st', q)
  {
    match FindMember(st.groups, q)
    case Some(j) =>
      GroupFound(st, j);
      GroupFound(st', j);
    case None =>
      LonePane(st', q);
  }

  lemma {:induction false} AdoptedIntoNew(st: Groups, e: PaneId, n: PaneId)
    requires GroupsOk(st) && st.nextId + 1 < ID_LIMIT && e != n && st.UnitOf(n) == Pane(n)
    requires st.UnitOf(e) == Pane(e) && st.StackOf(Pane(e)).Some?
    ensures var (st', u) := (st.Adopt(e, n), Group(st.nextId));
            && st'.UnitOf(e) == st'.UnitOf(n) == u && st'.UnitPanes(u) == [e, n]
            && Remembered(st', e) == Some(n) && RenamedIn(st.stacks, st'.stacks, Pane(e), u)
            && forall q :: q != n && q != e ==> SameFor(st, st', q)
  {
    var st' := st.Adopt(e, n);
    WrappedGroups(st, e, n);
    var last := |st.groups|;
    GroupFound(st', last);
    assert st'.groups[last] == GroupInfo(st.nextId, [e, n], n);
    forall q | q != n && q != e
      ensures SameFor(st, st', q)
    {
      NewGroupElsewhere(st, st', [e, n], q);
    }
  }

  /** A group was added that does not hold the pane. */
  lemma {:induction false} NewGroupElsewhere(st: Groups, st': Groups, members: seq<PaneId>, q: PaneId)
    requires GroupsOk(st) && GroupsOk(st') && |st'.groups| == |st.groups| + 1
    requires forall j :: 0 <= j < |st.groups| ==> st'.groups[j] == st.groups[j]
    requires st'.groups[|st.groups|].members == members && q !in members
    ensures SameFor(st, st', q)
  {
    match FindMember(st.groups, q)
    case Some(j) =>
      GroupFound(st, j);
      GroupFound(st', j);
    case None =>
      LonePane(st', q);
  }

  /** The group of a pane that takes the focus remembers it, and nothing else changes. */
  lemma {:induction false} NotedActive(st: Groups, p: PaneId)
    requires GroupsOk(st)
    ensures var st' := st.NoteActive(p);
            && Remembered(st', p) == (if st.UnitOf(p).Group? then Some(p) else None)
            && st'.stacks == st.stacks && st'.nextId == st.nextId
            && (forall u :: st'.UnitPanes(u) == st.UnitPanes(u))
            && forall q :: && st'.UnitOf(q) == st.UnitOf(q)
                           && (st.UnitOf(q) != st.UnitOf(p) ==> Remembered(st', q) == Remembered(st, q))
  {
    match FindMember(st.groups, p)
    case Some(i) => NotedIn(st, p, i);
    case None =>
  }

  lemma {:induction false} NotedIn(st: Groups, p: PaneId, i: nat)
    requires GroupsOk(st) && FindMember(st.groups, p) == Some(i)
    ensures var st' := st.NoteActive(p);
            && Remembered(st', p) == Some(p)
            && (forall u :: st'.UnitPanes(u) == st.UnitPanes(u))
            && forall q :: && st'.UnitOf(q) == st.UnitOf(q)
                           && (st.UnitOf(q) != st.UnitOf(p) ==> Remembered(st', q) == Remembered(st, q))
  {
    var st' := st.NoteActive(p);
    forall q
      ensures FindMember(st'.groups, q) == FindMember(st.groups, q)
    {
      SameFound(st.groups, st'.groups, q);
    }
    forall id
      ensures FindId(st'.groups, id) == FindId(st.groups, id)
    {
      SameIds(st.groups, st'.groups, id);
    }
  }

  lemma {:induction false} SameFound(gs: seq<GroupInfo>, gs': seq<GroupInfo>, q: PaneId)
    requires |gs'| == |gs| && forall j :: 0 <= j < |gs| ==> gs'[j].members == gs[j].members
    ensures FindMember(gs', q) == FindMember(gs, q)
  {
  }

  lemma {:induction false} SameIds(gs: seq<GroupInfo>, gs': seq<GroupInfo>, id: nat)
    requires |gs'| == |gs| && forall j :: 0 <= j < |gs| ==> gs'[j].id == gs[j].id
    ensures FindId(gs', id) == FindId(gs, id)
  {
  }

  /** The panes of a dissolved group are lone, and nothing else changes. */
  lemma {:induction false} DissolvedPanes(st: Groups, i: nat)
    requires GroupsOk(st) && i < |st.groups|
    ensures var st' := st.Dissolve(st.groups[i].id);
            && st'.stacks == st.stacks && st'.nextId == st.nextId
            && (forall q :: q in st.groups[i].members ==> st'.UnitOf(q) == Pane(q))
            && forall q :: q !in st.groups[i].members ==> SameFor(st, st', q)
  {
    var st' := st.Dissolve(st.groups[i].id);
    DissolveGroups(st, i);
    forall q | q !in st.groups[i].members
      ensures SameFor(st, st', q)
    {
      match FindMember(st.groups, q)
      case Some(j) =>
        var j' := if j < i then j else j - 1;
        GroupFound(st, j);
        assert st'.groups[j'] == st.groups[j];
        GroupFound(st', j');
      case None =>
        LonePane(st', q);
    }
  }
}
