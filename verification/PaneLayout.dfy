/** The pane groups laid over the split tree: the invariant that ties
    `mux/src/pane_group.rs` to `bintree/src/lib.rs`, and what keeps it.

    The invariant speaks of the group state, the tree and the hidden panes
    together. Below it are the steps from which `PaneEdits` proves that
    removing a pane and splitting one keep it: what they do to a group, to a
    stack, and to the name of a unit. */
module PaneLayout {
  import opened Wrappers
  import opened Sequences
  import opened BinTree
  import opened SubtreeSets
  import opened PaneGroup

  /** All panes of all `units`. */
  function UnitsSet(st: Groups, units: seq<Unit>): set<PaneId> {
    set u, p | u in units && p in st.UnitPanes(u) :: p
  }

  ghost predicate Disjoint(a: seq<PaneId>, b: seq<PaneId>) { forall p :: p in a ==> p !in b }

  ghost predicate GroupOk(g: GroupInfo, nextId: nat) {
    g.id < nextId && |g.members| >= 2 && NoRepeats(g.members) && g.lastActive in g.members
  }

  /** Ids are distinct and below the next one, groups are disjoint lists of at
      least two panes, and each remembers one of its own panes. */
  ghost predicate GroupsOk(st: Groups) {
    && st.nextId < ID_LIMIT
    && (forall i :: 0 <= i < |st.groups| ==> GroupOk(st.groups[i], st.nextId))
    && (forall i, j :: 0 <= i < |st.groups| && 0 <= j < |st.groups| && i != j ==>
          st.groups[i].id != st.groups[j].id && Disjoint(st.groups[i].members, st.groups[j].members))
  }

  /** A unit is named the way `UnitOf` would name it. */
  ghost predicate Canonical(st: Groups, u: Unit) {
    st.UnitPanes(u) != [] && forall p :: p in st.UnitPanes(u) ==> st.UnitOf(p) == u
  }

  predicate Shown(st: Groups, u: Unit, hidden: set<PaneId>) {
    forall p :: p in st.UnitPanes(u) ==> p !in hidden
  }

  predicate Concealed(st: Groups, u: Unit, hidden: set<PaneId>) {
    forall p :: p in st.UnitPanes(u) ==> p in hidden
  }

  /** At least two units, the active one on show and the others hidden, all in one subtree. */
  ghost predicate StackOk<N(!new)>(st: Groups, t: Tree<PaneId, N>, hidden: set<PaneId>, stack: PaneStack) {
    && |stack.units| >= 2 && stack.active < |stack.units|
    && (forall i :: 0 <= i < |stack.units| ==> Canonical(st, stack.units[i]))
    && Shown(st, stack.units[stack.active], hidden)
    && (forall i :: 0 <= i < |stack.units| && i != stack.active ==> Concealed(st, stack.units[i], hidden))
    && IsSubtree(t, UnitsSet(st, stack.units))
  }

  /** No unit is stacked twice, in one stack or in two. */
  ghost predicate UnitsDistinct(ss: seq<PaneStack>) {
    forall j, k, a, b | 0 <= j < |ss| && 0 <= k < |ss| && 0 <= a < |ss[j].units| && 0 <= b < |ss[k].units| ::
      ss[j].units[a] == ss[k].units[b] ==> j == k && a == b
  }

  /** No unit is in the list twice. */
  ghost predicate Once(units: seq<Unit>) {
    forall a, b :: 0 <= a < |units| && 0 <= b < |units| && units[a] == units[b] ==> a == b
  }

  /** The invariant. It is stronger than what `validate` checks, and unlike
      that it is kept by every operation. */
  ghost predicate Inv<N(!new)>(st: Groups, t: Tree<PaneId, N>, hidden: set<PaneId>) {
    && GroupsOk(st)
    && (t.Empty? || Full(t)) && DistinctLeaves(t)
    && (forall i :: 0 <= i < |st.groups| ==> IsSubtree(t, ToSet(st.groups[i].members)))
    && (forall k :: 0 <= k < |st.stacks| ==> StackOk(st, t, hidden, st.stacks[k]))
    && UnitsDistinct(st.stacks)
  }

  // ----- Units -----

  lemma {:induction false} GroupFound(st: Groups, i: nat)
    requires GroupsOk(st) && i < |st.groups|
    ensures FindId(st.groups, st.groups[i].id) == Some(i)
    ensures st.UnitPanes(Group(st.groups[i].id)) == st.groups[i].members
    ensures forall p :: p in st.groups[i].members ==>
              FindMember(st.groups, p) == Some(i) && st.UnitOf(p) == Group(st.groups[i].id)
  {
    forall p | p in st.groups[i].members
      ensures FindMember(st.groups, p) == Some(i)
    {
      var j := FindMember(st.groups, p).value;
      assert j != i ==> Disjoint(st.groups[j].members, st.groups[i].members);
    }
  }

  /** Every pane is in the unit that `UnitOf` names, and that unit is canonical. */
  lemma {:induction false} UnitOfCanonical(st: Groups, p: PaneId)
    requires GroupsOk(st)
    ensures p in st.UnitPanes(st.UnitOf(p)) && Canonical(st, st.UnitOf(p))
  {
    match FindMember(st.groups, p)
    case Some(i) => GroupFound(st, i);
    case None =>
  }

  /** A canonical unit is a pane outside all groups, or a group. */
  lemma {:induction false} CanonicalUnit(st: Groups, u: Unit) returns (i: nat)
    requires GroupsOk(st) && Canonical(st, u)
    ensures u.Pane? ==> FindMember(st.groups, u.pane).None?
    ensures u.Group? ==> i < |st.groups| && st.groups[i].id == u.group && st.UnitPanes(u) == st.groups[i].members
  {
    assert st.UnitPanes(u)[0] in st.UnitPanes(u);
    i := match FindMember(st.groups, st.UnitPanes(u)[0]) case Some(k) => k case None => 0;
    if u.Group? {
      GroupFound(st, i);
    }
  }

  // ----- Removing a pane -----

  /** A stack whose units each lost at most the removed pane is still in order. */
  lemma {:induction false} StackSurvives<N(!new)>(st: Groups, st': Groups, t: Tree<PaneId, N>, t': Tree<PaneId, N>,
                                                  hidden: set<PaneId>, hidden': set<PaneId>, stack: PaneStack,
                                                  stack': PaneStack, p: PaneId)
    requires StackOk(st, t, hidden, stack) && Removes(t, t', p)
    requires |stack'.units| == |stack.units| && stack'.active == stack.active
    requires forall i :: 0 <= i < |stack.units| ==>
               && Canonical(st', stack'.units[i])
               && ToSet(st'.UnitPanes(stack'.units[i])) == ToSet(st.UnitPanes(stack.units[i])) - {p}
    requires forall i, q :: 0 <= i < |stack.units| && q in st'.UnitPanes(stack'.units[i]) ==>
               (q in hidden' <==> q in hidden)
    ensures StackOk(st', t', hidden', stack')
  {
    RestUnion(st, st', stack.units, stack'.units, p);
    forall i | 0 <= i < |stack.units|
      ensures Shown(st, stack.units[i], hidden) ==> Shown(st', stack'.units[i], hidden')
      ensures Concealed(st, stack.units[i], hidden) ==> Concealed(st', stack'.units[i], hidden')
    {
      FewerPanes(st.UnitPanes(stack.units[i]), st'.UnitPanes(stack'.units[i]), p);
    }
  }

  lemma {:induction false} FewerPanes(panes: seq<PaneId>, panes': seq<PaneId>, p: PaneId)
    requires ToSet(panes') == ToSet(panes) - {p}
    ensures forall q :: q in panes' <==> q in panes && q != p
  {
    forall q
      ensures q in panes' <==> q in panes && q != p
    {
      assert q in ToSet(panes') <==> q in ToSet(panes) - {p};
    }
  }

  /** What units that lose at most a pane hold together. */
  lemma {:induction false} RestUnion(st: Groups, st': Groups, units: seq<Unit>, units': seq<Unit>, p: PaneId)
    requires |units'| == |units| > 0
    requires forall i :: 0 <= i < |units| ==>
               st'.UnitPanes(units'[i]) != [] && ToSet(st'.UnitPanes(units'[i])) == ToSet(st.UnitPanes(units[i])) - {p}
    ensures UnitsSet(st', units') == UnitsSet(st, units) - {p} && UnitsSet(st, units) != {p}
  {
    forall q
      ensures q in UnitsSet(st', units') <==> q in UnitsSet(st, units) && q != p
    {
      if q in UnitsSet(st', units') {
        var i :| 0 <= i < |units| && q in st'.UnitPanes(units'[i]);
        FewerPanes(st.UnitPanes(units[i]), st'.UnitPanes(units'[i]), p);
      }
      if q in UnitsSet(st, units) && q != p {
        var i :| 0 <= i < |units| && q in st.UnitPanes(units[i]);
        FewerPanes(st.UnitPanes(units[i]), st'.UnitPanes(units'[i]), p);
      }
    }
    var q := st'.UnitPanes(units'[0])[0];
    assert q in st'.UnitPanes(units'[0]);
    assert q in UnitsSet(st', units');
  }

  lemma {:induction false} WithoutShrinks(s: seq<PaneId>, p: PaneId)
    requires NoRepeats(s)
    ensures NoRepeats(Without(s, p))
    ensures |Without(s, p)| == if p in s then |s| - 1 else |s|
  {
    if s != [] {
      assert forall i :: 0 <= i < |s| - 1 ==> s[1..][i] == s[i + 1];
      WithoutShrinks(s[1..], p);
      if s[0] == p {
        assert p !in s[1..];
      } else {
        NoRepeatsConcat([s[0]], Without(s[1..], p));
      }
    }
  }

  lemma {:induction false} WithoutGroupAt(gs: seq<GroupInfo>, i: nat)
    requires i < |gs|
    requires forall j, k :: 0 <= j < |gs| && 0 <= k < |gs| && j != k ==> gs[j].id != gs[k].id
    ensures WithoutGroup(gs, gs[i].id) == gs[..i] + gs[i + 1..]
  {
    if i == 0 {
      WithoutGroupNone(gs[1..], gs[0].id);
      assert gs[..0] + gs[1..] == gs[1..];
    } else {
      WithoutGroupAt(gs[1..], i - 1);
      assert gs[..i] + gs[i + 1..] == [gs[0]] + (gs[1..][..i - 1] + gs[1..][i..]);
    }
  }

  lemma WithoutGroupNone(gs: seq<GroupInfo>, id: nat)
    requires forall j :: 0 <= j < |gs| ==> gs[j].id != id
    ensures WithoutGroup(gs, id) == gs
  {
  }

  /** What a unit is called once `p` has left group `i`. */
  function Renamed(st: Groups, i: nat, p: PaneId, u: Unit): Unit
    requires i < |st.groups|
  {
    var rest := Without(st.groups[i].members, p);
    if |rest| == 1 && u == Group(st.groups[i].id) then Pane(rest[0]) else u
  }

  lemma {:induction false} LeaveGroupGroups(st: Groups, i: nat, p: PaneId)
    requires GroupsOk(st) && i < |st.groups| && p in st.groups[i].members
    ensures GroupsOk(st.LeaveGroup(i, p))
    ensures var gs := st.LeaveGroup(i, p).groups;
            if |st.groups[i].members| == 2 then gs == st.groups[..i] + st.groups[i + 1..]
            else && |gs| == |st.groups|
                 && gs[i].id == st.groups[i].id && gs[i].members == Without(st.groups[i].members, p)
                 && forall j :: 0 <= j < |gs| && j != i ==> gs[j] == st.groups[j]
  {
    WithoutShrinks(st.groups[i].members, p);
    WithoutGroupAt(st.groups, i);
    assert GroupOk(st.groups[i], st.nextId);
  }

  /** A pane in no group is a canonical unit of its own. */
  lemma {:induction false} LonePane(st: Groups, q: PaneId)
    requires forall j :: 0 <= j < |st.groups| ==> q !in st.groups[j].members
    ensures Canonical(st, Pane(q)) && st.UnitPanes(Pane(q)) == [q]
  {
  }

  lemma {:induction false} LeaveGroupKeepsPane(st: Groups, i: nat, p: PaneId, q: PaneId)
    requires GroupsOk(st) && i < |st.groups| && p in st.groups[i].members
    requires (exists j :: 0 <= j < |st.groups| && q in st.groups[j].members) ==>
               |st.groups[i].members| == 2 && q in st.groups[i].members
    ensures Canonical(st.LeaveGroup(i, p), Pane(q))
  {
    var st' := st.LeaveGroup(i, p);
    LeaveGroupGroups(st, i, p);
    forall j | 0 <= j < |st'.groups|
      ensures q !in st'.groups[j].members
    {
      if |st.groups[i].members| == 2 {
        var k := if j < i then j else j + 1;
        assert st'.groups[j] == st.groups[k];
        assert Disjoint(st.groups[i].members, st.groups[k].members);
      }
    }
    LonePane(st', q);
  }

  lemma {:induction false} LeaveGroupKeepsGroup(st: Groups, i: nat, p: PaneId, k: nat)
    requires GroupsOk(st) && i < |st.groups| && p in st.groups[i].members && k < |st.groups|
    requires k != i || |st.groups[i].members| > 2
    ensures var st' := st.LeaveGroup(i, p);
            && Canonical(st', Group(st.groups[k].id))
            && st'.UnitPanes(Group(st.groups[k].id)) == Without(st.groups[k].members, p)
  {
    var st' := st.LeaveGroup(i, p);
    LeaveGroupGroups(st, i, p);
    WithoutShrinks(st.groups[i].members, p);
    var k' := if |st.groups[i].members| == 2 && k > i then k - 1 else k;
    assert st'.groups[k'].id == st.groups[k].id;
    assert st'.groups[k'].members == Without(st.groups[k].members, p) by {
      assert k != i ==> Disjoint(st.groups[i].members, st.groups[k].members);
    }
    assert GroupOk(st'.groups[k'], st'.nextId);
    GroupFound(st', k');
  }

  /** The unit that `u` has become holds the panes of `u` but for `p`. */
  ghost predicate LosesPane(st: Groups, i: nat, p: PaneId, u: Unit)
    requires i < |st.groups|
  {
    var (st', u') := (st.LeaveGroup(i, p), Renamed(st, i, p, u));
    Canonical(st', u') && ToSet(st'.UnitPanes(u')) == ToSet(st.UnitPanes(u)) - {p}
  }

  lemma {:induction false} LeaveGroupLone(st: Groups, i: nat, p: PaneId, q: PaneId)
    requires GroupsOk(st) && i < |st.groups| && p in st.groups[i].members && FindMember(st.groups, q).None?
    ensures LosesPane(st, i, p, Pane(q))
  {
    LeaveGroupKeepsPane(st, i, p, q);
    assert Renamed(st, i, p, Pane(q)) == Pane(q) && q != p;
  }

  /** A group of two is renamed to the pane that stays. */
  lemma {:induction false} LeaveGroupPair(st: Groups, i: nat, p: PaneId)
    requires GroupsOk(st) && i < |st.groups| && p in st.groups[i].members && |st.groups[i].members| == 2
    ensures LosesPane(st, i, p, Group(st.groups[i].id))
  {
    var g := st.groups[i];
    assert GroupOk(g, st.nextId);
    WithoutShrinks(g.members, p);
    GroupFound(st, i);
    var rest := Without(g.members, p);
    assert rest[0] in rest;
    LeaveGroupKeepsPane(st, i, p, rest[0]);
    assert rest == [rest[0]];
    assert ToSet(rest) == ToSet(g.members) - {p};
  }

  lemma {:induction false} LeaveGroupOther(st: Groups, i: nat, p: PaneId, k: nat)
    requires GroupsOk(st) && i < |st.groups| && p in st.groups[i].members && k < |st.groups|
    requires k != i || |st.groups[i].members| > 2
    ensures LosesPane(st, i, p, Group(st.groups[k].id))
  {
    GroupFound(st, k);
    LeaveGroupKeepsGroup(st, i, p, k);
    SameName(st, i, p, k);
    assert ToSet(Without(st.groups[k].members, p)) == ToSet(st.groups[k].members) - {p};
  }

  lemma {:induction false} SameName(st: Groups, i: nat, p: PaneId, k: nat)
    requires GroupsOk(st) && i < |st.groups| && k < |st.groups|
    requires k != i || (|st.groups[i].members| > 2 && p in st.groups[i].members)
    ensures Renamed(st, i, p, Group(st.groups[k].id)) == Group(st.groups[k].id)
  {
    assert GroupOk(st.groups[i], st.nextId);
    WithoutShrinks(st.groups[i].members, p);
  }

  lemma {:induction false} LeaveGroupUnits(st: Groups, i: nat, p: PaneId, u: Unit)
    requires GroupsOk(st) && i < |st.groups| && p in st.groups[i].members && Canonical(st, u)
    ensures LosesPane(st, i, p, u)
  {
    var k := CanonicalUnit(st, u);
    assert GroupOk(st.groups[i], st.nextId);
    if u.Pane? {
      LeaveGroupLone(st, i, p, u.pane);
    } else if k == i && |st.groups[i].members| == 2 {
      LeaveGroupPair(st, i, p);
    } else {
      LeaveGroupOther(st, i, p, k);
    }
  }

  lemma {:induction false} GroupsPlacedAfterRemoval<N(!new)>(st: Groups, t: Tree<PaneId, N>, t': Tree<PaneId, N>,
                                                             g: GroupInfo, p: PaneId)
    requires |g.members| >= 2 && NoRepeats(g.members)
    requires IsSubtree(t, ToSet(g.members)) && Removes(t, t', p)
    ensures IsSubtree(t', ToSet(Without(g.members, p)))
  {
    assert ToSet(Without(g.members, p)) == ToSet(g.members) - {p};
    assert ToSet(g.members) != {p} by {
      assert g.members[0] in ToSet(g.members) && g.members[1] in ToSet(g.members);
      assert g.members[0] != g.members[1];
    }
  }

  lemma {:induction false} LeaveGroupKeepsGroups<N(!new)>(st: Groups, t: Tree<PaneId, N>, t': Tree<PaneId, N>, i: nat,
                                                          p: PaneId, j: nat)
    requires GroupsOk(st) && Removes(t, t', p) && i < |st.groups| && p in st.groups[i].members
    requires forall k :: 0 <= k < |st.groups| ==> IsSubtree(t, ToSet(st.groups[k].members))
    requires j < |st.LeaveGroup(i, p).groups|
    ensures IsSubtree(t', ToSet(st.LeaveGroup(i, p).groups[j].members))
  {
    LeaveGroupGroups(st, i, p);
    var k := if |st.groups[i].members| == 2 && j >= i then j + 1 else j;
    assert GroupOk(st.groups[k], st.nextId);
    assert k != i ==> Disjoint(st.groups[i].members, st.groups[k].members);
    assert st.LeaveGroup(i, p).groups[j].members == Without(st.groups[k].members, p);
    GroupsPlacedAfterRemoval(st, t, t', st.groups[k], p);
  }

  /** Leaving a group renames the stacked units and moves none of them. */
  lemma {:induction false} LeaveGroupStacks(st: Groups, i: nat, p: PaneId)
    requires GroupsOk(st) && i < |st.groups| && p in st.groups[i].members
    ensures var ss := st.LeaveGroup(i, p).stacks;
            && |ss| == |st.stacks|
            && forall k :: 0 <= k < |ss| ==>
                 && ss[k].active == st.stacks[k].active && |ss[k].units| == |st.stacks[k].units|
                 && forall a :: 0 <= a < |ss[k].units| ==> ss[k].units[a] == Renamed(st, i, p, st.stacks[k].units[a])
  {
    assert GroupOk(st.groups[i], st.nextId);
    WithoutShrinks(st.groups[i].members, p);
  }

  lemma {:induction false} LeaveGroupKeepsStack<N(!new)>(st: Groups, t: Tree<PaneId, N>, t': Tree<PaneId, N>,
                                                         hidden: set<PaneId>, i: nat, p: PaneId, k: nat)
    requires GroupsOk(st) && Removes(t, t', p) && i < |st.groups| && p in st.groups[i].members
    requires k < |st.stacks| && StackOk(st, t, hidden, st.stacks[k])
    ensures k < |st.LeaveGroup(i, p).stacks|
    ensures StackOk(st.LeaveGroup(i, p), t', hidden - {p}, st.LeaveGroup(i, p).stacks[k])
  {
    LeaveGroupStacks(st, i, p);
    var st', stack := st.LeaveGroup(i, p), st.stacks[k];
    forall a | 0 <= a < |stack.units|
      ensures Canonical(st', st'.stacks[k].units[a])
      ensures ToSet(st'.UnitPanes(st'.stacks[k].units[a])) == ToSet(st.UnitPanes(stack.units[a])) - {p}
      ensures p !in st'.UnitPanes(st'.stacks[k].units[a])
    {
      LeaveGroupUnits(st, i, p, stack.units[a]);
      assert p !in ToSet(st'.UnitPanes(st'.stacks[k].units[a]));
    }
    StackSurvives(st, st', t, t', hidden, hidden - {p}, stack, st'.stacks[k], p);
  }

  lemma {:induction false} RenamedInjective(st: Groups, i: nat, p: PaneId, u: Unit, v: Unit)
    requires GroupsOk(st) && i < |st.groups|
    requires Canonical(st, u) && Canonical(st, v) && Renamed(st, i, p, u) == Renamed(st, i, p, v)
    ensures u == v
  {
    var rest := Without(st.groups[i].members, p);
    if |rest| == 1 {
      assert rest[0] in rest;
      GroupFound(st, i);
      var _ := CanonicalUnit(st, u);
      var _ := CanonicalUnit(st, v);
    }
  }

  /** Case one: the removed pane was in a group. */
  lemma {:induction false} LeaveGroupKeepsInv<N(!new)>(st: Groups, t: Tree<PaneId, N>, t': Tree<PaneId, N>,
                                                       hidden: set<PaneId>, i: nat, p: PaneId)
    requires Inv(st, t, hidden) && Removes(t, t', p)
    requires i < |st.groups| && p in st.groups[i].members
    ensures Inv(st.LeaveGroup(i, p), t', hidden - {p})
  {
    var st' := st.LeaveGroup(i, p);
    LeaveGroupGroups(st, i, p);
    LeaveGroupStacks(st, i, p);
    forall j | 0 <= j < |st'.groups|
      ensures IsSubtree(t', ToSet(st'.groups[j].members))
    {
      LeaveGroupKeepsGroups(st, t, t', i, p, j);
    }
    forall k | 0 <= k < |st'.stacks|
      ensures StackOk(st', t', hidden - {p}, st'.stacks[k])
    {
      LeaveGroupKeepsStack(st, t, t', hidden, i, p, k);
    }
    LeaveGroupDistinct(st, t, hidden, i, p);
  }

  lemma {:induction false} LeaveGroupDistinct<N(!new)>(st: Groups, t: Tree<PaneId, N>, hidden: set<PaneId>, i: nat,
                                                       p: PaneId)
    requires Inv(st, t, hidden) && i < |st.groups| && p in st.groups[i].members
    ensures UnitsDistinct(st.LeaveGroup(i, p).stacks)
  {
    var ss := st.LeaveGroup(i, p).stacks;
    LeaveGroupStacks(st, i, p);
    forall j, k, a, b | 0 <= j < |ss| && 0 <= k < |ss| && 0 <= a < |ss[j].units| && 0 <= b < |ss[k].units|
      ensures ss[j].units[a] == ss[k].units[b] ==> j == k && a == b
    {
      assert StackOk(st, t, hidden, st.stacks[j]) && StackOk(st, t, hidden, st.stacks[k]);
      if ss[j].units[a] == ss[k].units[b] {
        RenamedInjective(st, i, p, st.stacks[j].units[a], st.stacks[k].units[b]);
      }
    }
  }

  /** The hidden set once the panes of the unit to be shown are back. */
  function Revealed(st: Groups, hidden: set<PaneId>, shown: Option<Unit>): set<PaneId> {
    match shown
    case None => hidden
    case Some(u) => hidden - ToSet(st.UnitPanes(u))
  }

  lemma {:induction false} DropUnitAt(stack: PaneStack, pos: nat, a: nat)
    requires pos < |stack.units| && a < |stack.units| - 1 && stack.active < |stack.units|
    ensures var left := Groups.DropUnit(stack, pos).0;
            && |left.units| == |stack.units| - 1 && left.active < |left.units|
            && left.units[a] == stack.units[if a < pos then a else a + 1]
    ensures var (left, shown) := Groups.DropUnit(stack, pos);
            if pos == stack.active then shown == Some(left.units[left.active])
            else shown == None && left.units[left.active] == stack.units[stack.active]
  {
  }

  /** Taking a lone pane out of its stack: the remaining units are shown and hidden as they must be. */
  lemma {:induction false} DropUnitVisibility<N(!new)>(st: Groups, t: Tree<PaneId, N>, hidden: set<PaneId>,
                                                       stack: PaneStack, pos: nat, p: PaneId, a: nat)
    requires GroupsOk(st) && StackOk(st, t, hidden, stack)
    requires Once(stack.units)
    requires pos < |stack.units| && stack.units[pos] == Pane(p) && a < |stack.units| - 1
    ensures var (left, shown) := Groups.DropUnit(stack, pos);
            var hidden' := Revealed(st, hidden - {p}, shown);
            && a < |left.units| && Canonical(st, left.units[a]) && p !in st.UnitPanes(left.units[a])
            && (if a == left.active then Shown(st, left.units[a], hidden') else Concealed(st, left.units[a], hidden'))
  {
    var (left, shown) := Groups.DropUnit(stack, pos);
    DropUnitAt(stack, pos, a);
    var b := if a < pos then a else a + 1;
    var u := stack.units[b];
    assert Canonical(st, u);
    assert Canonical(st, stack.units[pos]) && p in st.UnitPanes(stack.units[pos]);
    if shown.Some? && a != left.active {
      DropUnitAt(stack, pos, left.active);
      forall q | q in st.UnitPanes(u)
        ensures q !in st.UnitPanes(shown.value)
      {
        assert st.UnitOf(q) == u;
      }
      assert Concealed(st, u, hidden);
    } else if a != left.active {
      DropUnitAt(stack, pos, left.active);
      assert b != stack.active;
      assert Concealed(st, u, hidden);
    }
  }

  lemma {:induction false} DropUnitPanes<N(!new)>(st: Groups, t: Tree<PaneId, N>, hidden: set<PaneId>,
                                                  stack: PaneStack, pos: nat, p: PaneId)
    requires GroupsOk(st) && StackOk(st, t, hidden, stack)
    requires Once(stack.units)
    requires pos < |stack.units| && stack.units[pos] == Pane(p)
    ensures UnitsSet(st, Groups.DropUnit(stack, pos).0.units) == UnitsSet(st, stack.units) - {p}
  {
    DropUnitUnits(stack, pos);
    SkipUnion(st, stack.units, pos, p);
  }

  lemma {:induction false} DropUnitUnits(stack: PaneStack, pos: nat)
    requires pos < |stack.units|
    ensures Groups.DropUnit(stack, pos).0.units == Skip(stack.units, pos)
  {
  }

  /** The units but the one at `pos`. */
  function Skip(units: seq<Unit>, pos: nat): (r: seq<Unit>)
    requires pos < |units|
    ensures |r| == |units| - 1
    ensures forall a :: 0 <= a < |r| ==> r[a] == units[if a < pos then a else a + 1]
  {
    units[..pos] + units[pos + 1..]
  }

  lemma {:induction false} SkipUnion(st: Groups, units: seq<Unit>, pos: nat, p: PaneId)
    requires pos < |units| && units[pos] == Pane(p) && forall b :: 0 <= b < |units| ==> Canonical(st, units[b])
    requires Once(units)
    ensures UnitsSet(st, Skip(units, pos)) == UnitsSet(st, units) - {p}
  {
    var left := Skip(units, pos);
    forall q
      ensures q in UnitsSet(st, left) <==> q in UnitsSet(st, units) && q != p
    {
      if q in UnitsSet(st, left) {
        var a :| 0 <= a < |left| && q in st.UnitPanes(left[a]);
        OnlyAt(st, units, pos, p, if a < pos then a else a + 1);
      }
      if q in UnitsSet(st, units) && q != p {
        var b :| 0 <= b < |units| && q in st.UnitPanes(units[b]);
        assert b != pos && left[if b < pos then b else b - 1] == units[b];
      }
    }
  }

  /** Among distinct canonical units, a stacked lone pane is in its own unit only. */
  lemma {:induction false} OnlyAt(st: Groups, units: seq<Unit>, pos: nat, p: PaneId, b: nat)
    requires pos < |units| && b < |units| && units[pos] == Pane(p) && Canonical(st, units[pos])
             && Canonical(st, units[b])
    requires Once(units)
    ensures p in st.UnitPanes(units[b]) ==> b == pos
  {
    assert p in st.UnitPanes(units[pos]);
  }

  lemma {:induction false} DropUnitKeepsStack<N(!new)>(st: Groups, t: Tree<PaneId, N>, t': Tree<PaneId, N>,
                                                       hidden: set<PaneId>, stack: PaneStack, pos: nat, p: PaneId)
    requires GroupsOk(st) && StackOk(st, t, hidden, stack) && Removes(t, t', p)
    requires Once(stack.units)
    requires pos < |stack.units| && stack.units[pos] == Pane(p) && |stack.units| > 2
    ensures var (left, shown) := Groups.DropUnit(stack, pos);
            StackOk(st, t', Revealed(st, hidden - {p}, shown), left)
  {
    var (left, shown) := Groups.DropUnit(stack, pos);
    DropUnitAt(stack, pos, 0);
    DropUnitPanes(st, t, hidden, stack, pos, p);
    forall a | 0 <= a < |left.units|
      ensures Canonical(st, left.units[a]) && p !in st.UnitPanes(left.units[a])
      ensures var hidden' := Revealed(st, hidden - {p}, shown);
              if a == left.active then Shown(st, left.units[a], hidden') else Concealed(st, left.units[a], hidden')
    {
      DropUnitVisibility(st, t, hidden, stack, pos, p, a);
    }
    var q := st.UnitPanes(left.units[0])[0];
    assert q in st.UnitPanes(left.units[0]);
    assert q in UnitsSet(st, left.units);
  }

  /** A stack that does not hold the removed lone pane, nor the unit it revealed, is left alone. */
  lemma {:induction false} OtherStackSurvives<N(!new)>(st: Groups, t: Tree<PaneId, N>, t': Tree<PaneId, N>,
                                                       hidden: set<PaneId>, stack: PaneStack, p: PaneId,
                                                       shown: Option<Unit>)
    requires GroupsOk(st) && StackOk(st, t, hidden, stack) && Removes(t, t', p)
    requires st.UnitOf(p) !in stack.units
    requires shown.Some? ==> Canonical(st, shown.value) && shown.value !in stack.units
    ensures StackOk(st, t', Revealed(st, hidden - {p}, shown), stack)
  {
    forall i, q | 0 <= i < |stack.units| && q in st.UnitPanes(stack.units[i])
      ensures q != p && (shown.Some? ==> q !in st.UnitPanes(shown.value))
    {
      assert st.UnitOf(q) == stack.units[i];
    }
    forall i | 0 <= i < |stack.units|
      ensures ToSet(st.UnitPanes(stack.units[i])) == ToSet(st.UnitPanes(stack.units[i])) - {p}
    {
    }
    StackSurvives(st, st, t, t', hidden, Revealed(st, hidden - {p}, shown), stack, stack, p);
  }

  lemma {:induction false} SameGroupsSameStack<N(!new)>(st: Groups, st': Groups, t: Tree<PaneId, N>,
                                                        hidden: set<PaneId>, stack: PaneStack)
    requires st.groups == st'.groups
    ensures StackOk(st, t, hidden, stack) == StackOk(st', t, hidden, stack)
  {
    assert forall p :: st.UnitOf(p) == st'.UnitOf(p);
    assert forall u :: st.UnitPanes(u) == st'.UnitPanes(u);
    assert UnitsSet(st, stack.units) == UnitsSet(st', stack.units);
  }

  lemma {:induction false} OtherStackOfLeaveStack<N(!new)>(st: Groups, t: Tree<PaneId, N>, t': Tree<PaneId, N>,
                                                           hidden: set<PaneId>, p: PaneId, k0: nat, k: nat)
    requires GroupsOk(st) && UnitsDistinct(st.stacks) && Removes(t, t', p) && st.UnitOf(p) == Pane(p)
    requires k0 < |st.stacks| && k < |st.stacks| && k != k0 && Pane(p) in st.stacks[k0].units
    requires StackOk(st, t, hidden, st.stacks[k0]) && StackOk(st, t, hidden, st.stacks[k])
    ensures var shown := Groups.DropUnit(st.stacks[k0], Position(st.stacks[k0].units, Pane(p))).1;
            StackOk(st, t', Revealed(st, hidden - {p}, shown), st.stacks[k])
  {
    var stack, pos := st.stacks[k0], Position(st.stacks[k0].units, Pane(p));
    var (left, shown) := Groups.DropUnit(stack, pos);
    DropUnitAt(stack, pos, 0);
    if shown.Some? {
      DropUnitAt(stack, pos, left.active);
      var b := if left.active < pos then left.active else left.active + 1;
      assert shown.value == stack.units[b];
    }
    OtherStackSurvives(st, t, t', hidden, st.stacks[k], p, shown);
  }

  lemma {:induction false} OwnStackOfLeaveStack<N(!new)>(st: Groups, t: Tree<PaneId, N>, t': Tree<PaneId, N>,
                                                         hidden: set<PaneId>, p: PaneId, k0: nat)
    requires GroupsOk(st) && UnitsDistinct(st.stacks) && Removes(t, t', p)
    requires k0 < |st.stacks| && Pane(p) in st.stacks[k0].units && |st.stacks[k0].units| > 2
    requires StackOk(st, t, hidden, st.stacks[k0])
    ensures var (left, shown) := Groups.DropUnit(st.stacks[k0], Position(st.stacks[k0].units, Pane(p)));
            StackOk(st, t', Revealed(st, hidden - {p}, shown), left)
  {
    var stack := st.stacks[k0];
    assert Once(stack.units);
    DropUnitKeepsStack(st, t, t', hidden, stack, Position(stack.units, Pane(p)), p);
  }

  /** The stacks left after a lone pane's unit has gone, and the unit they show instead. */
  lemma {:induction false} LeaveStackStacks(st: Groups, u: Unit, i: nat)
    requires i < |st.LeaveStack(u).0.stacks|
    ensures st.StackOf(u).None? ==> st.LeaveStack(u) == (st, None)
    ensures st.StackOf(u).Some? ==>
        var k0 := st.StackOf(u).value;
        var (left, shown) := Groups.DropUnit(st.stacks[k0], Position(st.stacks[k0].units, u));
        && st.LeaveStack(u).1 == shown
        && |left.units| == |st.stacks[k0].units| - 1
        && st.LeaveStack(u).0.stacks[i] ==
             if |left.units| < 2 then st.stacks[if i < k0 then i else i + 1]
             else if i == k0 then left
             else st.stacks[i]
  {
  }

  lemma {:induction false} LeaveStackKeepsStack<N(!new)>(st: Groups, t: Tree<PaneId, N>, t': Tree<PaneId, N>,
                                                         hidden: set<PaneId>, p: PaneId, i: nat)
    requires GroupsOk(st) && UnitsDistinct(st.stacks) && Removes(t, t', p) && st.UnitOf(p) == Pane(p)
    requires forall k :: 0 <= k < |st.stacks| ==> StackOk(st, t, hidden, st.stacks[k])
    requires i < |st.LeaveStack(Pane(p)).0.stacks|
    ensures var (st', shown) := st.LeaveStack(Pane(p));
            StackOk(st, t', Revealed(st, hidden - {p}, shown), st'.stacks[i])
  {
    LeaveStackStacks(st, Pane(p), i);
    match st.StackOf(Pane(p))
    case None =>
      OtherStackSurvives(st, t, t', hidden, st.stacks[i], p, None);
    case Some(k0) =>
      assert StackOk(st, t, hidden, st.stacks[k0]);
      if |st.stacks[k0].units| > 2 && i == k0 {
        OwnStackOfLeaveStack(st, t, t', hidden, p, k0);
      } else {
        OtherStackOfLeaveStack(st, t, t', hidden, p, k0, if |st.stacks[k0].units| > 2 || i < k0 then i else i + 1);
      }
  }

  lemma {:induction false} SkipDistinct(ss: seq<PaneStack>, k0: nat, pos: nat, stack: PaneStack)
    requires UnitsDistinct(ss) && k0 < |ss| && pos < |ss[k0].units| && stack.units == Skip(ss[k0].units, pos)
    ensures UnitsDistinct(ss[k0 := stack])
  {
    var r := ss[k0 := stack];
    forall j, k, a, b | 0 <= j < |r| && 0 <= k < |r| && 0 <= a < |r[j].units| && 0 <= b < |r[k].units|
      ensures r[j].units[a] == r[k].units[b] ==> j == k && a == b
    {
      var (a', b') := (if j == k0 && a >= pos then a + 1 else a, if k == k0 && b >= pos then b + 1 else b);
      assert r[j].units[a] == ss[j].units[a'] && r[k].units[b] == ss[k].units[b'];
    }
  }

  lemma {:induction false} FewerDistinct(ss: seq<PaneStack>, k0: nat)
    requires UnitsDistinct(ss) && k0 < |ss|
    ensures UnitsDistinct(ss[..k0] + ss[k0 + 1..])
  {
    var r := ss[..k0] + ss[k0 + 1..];
    assert forall j :: 0 <= j < |r| ==> r[j] == ss[if j < k0 then j else j + 1];
  }

  lemma {:induction false} LeaveStackDistinct(st: Groups, k0: nat, pos: nat)
    requires UnitsDistinct(st.stacks) && k0 < |st.stacks| && pos < |st.stacks[k0].units|
    ensures var left := Groups.DropUnit(st.stacks[k0], pos).0;
            UnitsDistinct(st.stacks[k0 := left]) && UnitsDistinct(st.stacks[..k0] + st.stacks[k0 + 1..])
  {
    DropUnitUnits(st.stacks[k0], pos);
    SkipDistinct(st.stacks, k0, pos, Groups.DropUnit(st.stacks[k0], pos).0);
    FewerDistinct(st.stacks, k0);
  }

  lemma {:induction false} LeaveStackUnitsDistinct(st: Groups, u: Unit)
    requires UnitsDistinct(st.stacks)
    ensures UnitsDistinct(st.LeaveStack(u).0.stacks)
  {
    match st.StackOf(u)
    case None =>
    case Some(k0) => LeaveStackDistinct(st, k0, Position(st.stacks[k0].units, u));
  }

  lemma {:induction false} LonePaneLeavesGroups<N(!new)>(st: Groups, t: Tree<PaneId, N>, t': Tree<PaneId, N>,
                                                         p: PaneId, i: nat)
    requires GroupsOk(st) && Removes(t, t', p) && st.UnitOf(p) == Pane(p) && i < |st.groups|
    requires IsSubtree(t, ToSet(st.groups[i].members))
    ensures IsSubtree(t', ToSet(st.groups[i].members))
  {
    assert GroupOk(st.groups[i], st.nextId);
    GroupFound(st, i);
    GroupsPlacedAfterRemoval(st, t, t', st.groups[i], p);
  }

  /** Case two: the removed pane was a unit of its own. */
  lemma {:induction false} LeaveStackKeepsInv<N(!new)>(st: Groups, t: Tree<PaneId, N>, t': Tree<PaneId, N>,
                                                       hidden: set<PaneId>, p: PaneId)
    requires Inv(st, t, hidden) && Removes(t, t', p) && st.UnitOf(p) == Pane(p)
    ensures var (st', shown) := st.LeaveStack(Pane(p));
            Inv(st', t', Revealed(st', hidden - {p}, shown))
  {
    LeaveStackGroups(st, Pane(p), hidden - {p});
    LeaveStackUnitsDistinct(st, Pane(p));
    var (st', shown) := st.LeaveStack(Pane(p));
    var hidden' := Revealed(st, hidden - {p}, shown);
    forall i | 0 <= i < |st.groups|
      ensures IsSubtree(t', ToSet(st.groups[i].members))
    {
      LonePaneLeavesGroups(st, t, t', p, i);
    }
    forall k | 0 <= k < |st'.stacks|
      ensures StackOk(st, t', hidden', st'.stacks[k])
    {
      LeaveStackKeepsStack(st, t, t', hidden, p, k);
    }
    OtherStacksInv(st, st', t', hidden');
  }

  lemma {:induction false} LeaveStackGroups(st: Groups, u: Unit, hidden: set<PaneId>)
    ensures var (st', shown) := st.LeaveStack(u);
            && st'.groups == st.groups && st'.nextId == st.nextId
            && Revealed(st', hidden, shown) == Revealed(st, hidden, shown)
  {
  }

  /** The invariant, of which only the stacks have still to be named. */
  lemma {:induction false} OtherStacksInv<N(!new)>(st: Groups, st': Groups, t: Tree<PaneId, N>, hidden: set<PaneId>)
    requires GroupsOk(st) && st'.groups == st.groups && st'.nextId == st.nextId
    requires (t.Empty? || Full(t)) && DistinctLeaves(t)
    requires forall i :: 0 <= i < |st.groups| ==> IsSubtree(t, ToSet(st.groups[i].members))
    requires forall k :: 0 <= k < |st'.stacks| ==> StackOk(st, t, hidden, st'.stacks[k])
    requires UnitsDistinct(st'.stacks)
    ensures Inv(st', t, hidden)
  {
    forall k | 0 <= k < |st'.stacks|
      ensures StackOk(st', t, hidden, st'.stacks[k])
    {
      SameGroupsSameStack(st, st', t, hidden, st'.stacks[k]);
    }
  }

  // ----- Splitting a pane -----

  /** A stack whose units each took in the new pane beside the old one is still in order. */
  lemma {:induction false} StackGrows<N(!new)>(st: Groups, st': Groups, t: Tree<PaneId, N>, t': Tree<PaneId, N>,
                                               hidden: set<PaneId>, hidden': set<PaneId>, stack: PaneStack,
                                               stack': PaneStack, e: PaneId, n: PaneId)
    requires StackOk(st, t, hidden, stack) && Inserts(t, t', e, n)
    requires |stack'.units| == |stack.units| && stack'.active == stack.active
    requires forall i :: 0 <= i < |stack.units| ==>
               && Canonical(st', stack'.units[i]) && n !in st.UnitPanes(stack.units[i])
               && ToSet(st'.UnitPanes(stack'.units[i])) == Grown(ToSet(st.UnitPanes(stack.units[i])), e, n)
    requires hidden' - {n} == hidden - {n} && (n in hidden' <==> e in hidden)
    ensures StackOk(st', t', hidden', stack')
  {
    GrownUnion(st, st', stack.units, stack'.units, e, n);
    forall i | 0 <= i < |stack.units|
      ensures Shown(st, stack.units[i], hidden) ==> Shown(st', stack'.units[i], hidden')
      ensures Concealed(st, stack.units[i], hidden) ==> Concealed(st', stack'.units[i], hidden')
    {
      MorePanes(st.UnitPanes(stack.units[i]), st'.UnitPanes(stack'.units[i]), e, n);
      HiddenButNew(hidden, hidden', n);
    }
  }

  lemma {:induction false} HiddenButNew(hidden: set<PaneId>, hidden': set<PaneId>, n: PaneId)
    requires hidden' - {n} == hidden - {n}
    ensures forall q :: q != n ==> (q in hidden' <==> q in hidden)
  {
    forall q | q != n
      ensures q in hidden' <==> q in hidden
    {
      assert q in hidden' - {n} <==> q in hidden - {n};
    }
  }

  lemma {:induction false} MorePanes(panes: seq<PaneId>, panes': seq<PaneId>, e: PaneId, n: PaneId)
    requires ToSet(panes') == Grown(ToSet(panes), e, n)
    ensures forall q :: q in panes' <==> q in panes || (q == n && e in panes)
  {
    forall q
      ensures q in panes' <==> q in panes || (q == n && e in panes)
    {
      assert q in ToSet(panes') <==> q in Grown(ToSet(panes), e, n);
      assert e in ToSet(panes) <==> e in panes;
    }
  }

  /** What units that take `n` in where they hold `e` hold together. */
  lemma {:induction false} GrownUnion(st: Groups, st': Groups, units: seq<Unit>, units': seq<Unit>, e: PaneId,
                                      n: PaneId)
    requires |units'| == |units|
    requires forall i :: 0 <= i < |units| ==>
               ToSet(st'.UnitPanes(units'[i])) == Grown(ToSet(st.UnitPanes(units[i])), e, n)
    ensures UnitsSet(st', units') == Grown(UnitsSet(st, units), e, n)
  {
    forall q
      ensures q in UnitsSet(st', units') <==> q in UnitsSet(st, units) || (q == n && e in UnitsSet(st, units))
    {
      if q in UnitsSet(st', units') {
        var i :| 0 <= i < |units| && q in st'.UnitPanes(units'[i]);
        MorePanes(st.UnitPanes(units[i]), st'.UnitPanes(units'[i]), e, n);
      }
      if x :| x in UnitsSet(st, units) && (x == q || (x == e && q == n)) {
        var i :| 0 <= i < |units| && x in st.UnitPanes(units[i]);
        MorePanes(st.UnitPanes(units[i]), st'.UnitPanes(units'[i]), e, n);
      }
    }
  }

  /** `n` is new to the layout, so no group holds it. */
  lemma {:induction false} NewPaneInNoGroup<N(!new)>(st: Groups, t: Tree<PaneId, N>, n: PaneId)
    requires Full(t) && n !in LeafSet(t)
    requires forall i :: 0 <= i < |st.groups| ==> IsSubtree(t, ToSet(st.groups[i].members))
    ensures forall i :: 0 <= i < |st.groups| ==> n !in st.groups[i].members
  {
    forall i | 0 <= i < |st.groups|
      ensures n !in st.groups[i].members
    {
      SubtreeSetsInside(t, ToSet(st.groups[i].members));
      assert n !in ToSet(st.groups[i].members);
    }
  }

  lemma {:induction false} NewPaneInNoStack<N(!new)>(st: Groups, t: Tree<PaneId, N>, hidden: set<PaneId>,
                                                     stack: PaneStack, n: PaneId)
    requires Full(t) && n !in LeafSet(t) && StackOk(st, t, hidden, stack)
    ensures forall i :: 0 <= i < |stack.units| ==> n !in st.UnitPanes(stack.units[i])
  {
    SubtreeSetsInside(t, UnitsSet(st, stack.units));
    forall i | 0 <= i < |stack.units|
      ensures n !in st.UnitPanes(stack.units[i])
    {
      assert n !in UnitsSet(st, stack.units);
    }
  }

  /** The group state once group `i` has taken in `n`. */
  function Joined(st: Groups, i: nat, n: PaneId): Groups
    requires i < |st.groups|
  {
    st.(groups := st.groups[i := st.groups[i].(members := st.groups[i].members + [n])])
  }

  lemma {:induction false} JoinedGroups(st: Groups, i: nat, n: PaneId)
    requires GroupsOk(st) && i < |st.groups|
    requires forall j :: 0 <= j < |st.groups| ==> n !in st.groups[j].members
    ensures GroupsOk(Joined(st, i, n))
  {
    var st' := Joined(st, i, n);
    assert GroupOk(st.groups[i], st.nextId);
    NoRepeatsConcat(st.groups[i].members, [n]);
    forall j, k | 0 <= j < |st'.groups| && 0 <= k < |st'.groups| && j != k
      ensures st'.groups[j].id != st'.groups[k].id && Disjoint(st'.groups[j].members, st'.groups[k].members)
    {
      assert Disjoint(st.groups[j].members, st.groups[k].members);
    }
  }

  lemma {:induction false} JoinedUnits(st: Groups, i: nat, e: PaneId, n: PaneId, u: Unit)
    requires GroupsOk(st) && i < |st.groups| && e in st.groups[i].members
    requires forall j :: 0 <= j < |st.groups| ==> n !in st.groups[j].members
    requires Canonical(st, u) && n !in st.UnitPanes(u)
    ensures var st' := Joined(st, i, n);
            && Canonical(st', u)
            && ToSet(st'.UnitPanes(u)) == Grown(ToSet(st.UnitPanes(u)), e, n)
  {
    var st' := Joined(st, i, n);
    JoinedGroups(st, i, n);
    var k := CanonicalUnit(st, u);
    if u.Group? {
      GroupFound(st', k);
      assert k != i ==> Disjoint(st.groups[i].members, st.groups[k].members);
      assert GroupOk(st'.groups[k], st'.nextId);
    } else {
      LonePane(st', u.pane);
      GroupFound(st, i);
    }
  }

  /** The group state once the lone stacked pane `e` has become a group with `n`. */
  function Wrapped(st: Groups, e: PaneId, n: PaneId): Groups {
    Groups(st.groups + [GroupInfo(st.nextId, [e, n], n)],
           RenameStacks(st.stacks, Pane(e), Group(st.nextId)),
           st.nextId + 1)
  }

  /** Making a group and remembering one of its panes in it. */
  lemma {:induction false} CreateRemembers(st: Groups, members: seq<PaneId>, last: PaneId)
    requires st.nextId + 1 < ID_LIMIT && forall j :: 0 <= j < |st.groups| ==> st.groups[j].id != st.nextId
    ensures st.CreateGroup(members).RememberIn(st.nextId, last)
            == Groups(st.groups + [GroupInfo(st.nextId, members, last)], st.stacks, st.nextId + 1)
  {
    var made := st.CreateGroup(members);
    var n := |st.groups|;
    assert made.groups[n].id == st.nextId && forall j :: 0 <= j < n ==> made.groups[j] == st.groups[j];
    assert FindId(made.groups, st.nextId) == Some(n);
  }

  lemma {:induction false} WrappedGroups(st: Groups, e: PaneId, n: PaneId)
    requires GroupsOk(st) && st.nextId + 1 < ID_LIMIT && e != n
    requires forall j :: 0 <= j < |st.groups| ==> n !in st.groups[j].members && e !in st.groups[j].members
    ensures GroupsOk(Wrapped(st, e, n))
    ensures st.StackOf(Pane(e)).Some? ==> st.Adopt(e, n) == Wrapped(st, e, n)
  {
    var st' := Wrapped(st, e, n);
    forall j | 0 <= j < |st'.groups|
      ensures GroupOk(st'.groups[j], st'.nextId)
      ensures j < |st.groups| ==> st'.groups[j] == st.groups[j] && GroupOk(st.groups[j], st.nextId)
    {
      if j < |st.groups| {
        assert GroupOk(st.groups[j], st.nextId);
      }
    }
    forall j, k | 0 <= j < |st'.groups| && 0 <= k < |st'.groups| && j != k
      ensures st'.groups[j].id != st'.groups[k].id && Disjoint(st'.groups[j].members, st'.groups[k].members)
    {
      if j < |st.groups| && k < |st.groups| {
        assert Disjoint(st.groups[j].members, st.groups[k].members);
      }
    }
    CreateRemembers(st, [e, n], n);
  }

  lemma {:induction false} WrappedUnits(st: Groups, e: PaneId, n: PaneId, u: Unit)
    requires GroupsOk(st) && st.nextId + 1 < ID_LIMIT && e != n
    requires forall j :: 0 <= j < |st.groups| ==> n !in st.groups[j].members && e !in st.groups[j].members
    requires Canonical(st, u) && n !in st.UnitPanes(u)
    ensures var (st', u') := (Wrapped(st, e, n), if u == Pane(e) then Group(st.nextId) else u);
            && Canonical(st', u')
            && ToSet(st'.UnitPanes(u')) == Grown(ToSet(st.UnitPanes(u)), e, n)
  {
    var st' := Wrapped(st, e, n);
    WrappedGroups(st, e, n);
    var k := CanonicalUnit(st, u);
    if u == Pane(e) {
      GroupFound(st', |st.groups|);
    } else if u.Group? {
      GroupFound(st', k);
      assert GroupOk(st.groups[k], st.nextId);
    } else {
      LonePane(st', u.pane);
    }
  }

  lemma {:induction false} JoinedKeepsInv<N(!new)>(st: Groups, t: Tree<PaneId, N>, t': Tree<PaneId, N>,
                                                   hidden: set<PaneId>, hidden': set<PaneId>, i: nat, e: PaneId,
                                                   n: PaneId)
    requires Inv(st, t, hidden) && Full(t) && n !in LeafSet(t) && Inserts(t, t', e, n)
    requires i < |st.groups| && e in st.groups[i].members
    requires hidden' - {n} == hidden - {n} && (n in hidden' <==> e in hidden)
    ensures Inv(Joined(st, i, n), t', hidden')
  {
    var st' := Joined(st, i, n);
    NewPaneInNoGroup(st, t, n);
    JoinedGroups(st, i, n);
    forall j | 0 <= j < |st'.groups|
      ensures IsSubtree(t', ToSet(st'.groups[j].members))
    {
      assert j != i ==> Disjoint(st.groups[i].members, st.groups[j].members);
      assert ToSet(st'.groups[j].members) == Grown(ToSet(st.groups[j].members), e, n);
    }
    forall k | 0 <= k < |st'.stacks|
      ensures StackOk(st', t', hidden', st'.stacks[k])
    {
      var stack := st.stacks[k];
      NewPaneInNoStack(st, t, hidden, stack, n);
      forall a | 0 <= a < |stack.units|
        ensures Canonical(st', stack.units[a])
        ensures ToSet(st'.UnitPanes(stack.units[a])) == Grown(ToSet(st.UnitPanes(stack.units[a])), e, n)
      {
        JoinedUnits(st, i, e, n, stack.units[a]);
      }
      StackGrows(st, st', t, t', hidden, hidden', stack, stack, e, n);
    }
  }

  lemma {:induction false} WrappedKeepsGroup<N(!new)>(st: Groups, t: Tree<PaneId, N>, t': Tree<PaneId, N>, e: PaneId,
                                                      n: PaneId, j: nat)
    requires Inserts(t, t', e, n) && j < |Wrapped(st, e, n).groups|
    requires forall j :: 0 <= j < |st.groups| ==>
               e !in st.groups[j].members && IsSubtree(t, ToSet(st.groups[j].members))
    ensures IsSubtree(t', ToSet(Wrapped(st, e, n).groups[j].members))
  {
    if j < |st.groups| {
      assert Grown(ToSet(st.groups[j].members), e, n) == ToSet(st.groups[j].members);
    } else {
      assert ToSet([e, n]) == {e, n};
    }
  }

  lemma {:induction false} WrappedKeepsStack<N(!new)>(st: Groups, t: Tree<PaneId, N>, t': Tree<PaneId, N>,
                                                      hidden: set<PaneId>, hidden': set<PaneId>, e: PaneId, n: PaneId,
                                                      k: nat)
    requires GroupsOk(st) && st.nextId + 1 < ID_LIMIT && e != n
    requires forall j :: 0 <= j < |st.groups| ==> n !in st.groups[j].members && e !in st.groups[j].members
    requires Full(t) && n !in LeafSet(t) && Inserts(t, t', e, n)
    requires k < |st.stacks| && StackOk(st, t, hidden, st.stacks[k])
    requires hidden' - {n} == hidden - {n} && (n in hidden' <==> e in hidden)
    ensures StackOk(Wrapped(st, e, n), t', hidden', Wrapped(st, e, n).stacks[k])
  {
    var st', stack := Wrapped(st, e, n), st.stacks[k];
    NewPaneInNoStack(st, t, hidden, stack, n);
    forall a | 0 <= a < |stack.units|
      ensures Canonical(st', st'.stacks[k].units[a])
      ensures ToSet(st'.UnitPanes(st'.stacks[k].units[a])) == Grown(ToSet(st.UnitPanes(stack.units[a])), e, n)
    {
      WrappedUnits(st, e, n, stack.units[a]);
    }
    StackGrows(st, st', t, t', hidden, hidden', stack, st'.stacks[k], e, n);
  }

  lemma {:induction false} WrappedDistinct(st: Groups, e: PaneId, n: PaneId)
    requires GroupsOk(st) && UnitsDistinct(st.stacks)
    requires forall k, a :: 0 <= k < |st.stacks| && 0 <= a < |st.stacks[k].units| ==>
               Canonical(st, st.stacks[k].units[a])
    ensures UnitsDistinct(Wrapped(st, e, n).stacks)
  {
    forall k, a | 0 <= k < |st.stacks| && 0 <= a < |st.stacks[k].units|
      ensures st.stacks[k].units[a] != Group(st.nextId)
    {
      var i := CanonicalUnit(st, st.stacks[k].units[a]);
      assert 0 <= i < |st.groups| ==> GroupOk(st.groups[i], st.nextId);
    }
  }

  lemma {:induction false} WrappedKeepsInv<N(!new)>(st: Groups, t: Tree<PaneId, N>, t': Tree<PaneId, N>,
                                                    hidden: set<PaneId>, hidden': set<PaneId>, e: PaneId, n: PaneId)
    requires Inv(st, t, hidden) && Full(t) && e in LeafSet(t) && n !in LeafSet(t) && Inserts(t, t', e, n)
    requires st.nextId + 1 < ID_LIMIT && st.UnitOf(e) == Pane(e)
    requires hidden' - {n} == hidden - {n} && (n in hidden' <==> e in hidden)
    ensures Inv(Wrapped(st, e, n), t', hidden')
  {
    var st' := Wrapped(st, e, n);
    NewPaneInNoGroup(st, t, n);
    WrappedGroups(st, e, n);
    forall j | 0 <= j < |st'.groups|
      ensures IsSubtree(t', ToSet(st'.groups[j].members))
    {
      WrappedKeepsGroup(st, t, t', e, n, j);
    }
    forall k | 0 <= k < |st'.stacks|
      ensures StackOk(st', t', hidden', st'.stacks[k])
    {
      WrappedKeepsStack(st, t, t', hidden, hidden', e, n, k);
    }
    forall k, a | 0 <= k < |st.stacks| && 0 <= a < |st.stacks[k].units|
      ensures Canonical(st, st.stacks[k].units[a])
    {
      assert StackOk(st, t, hidden, st.stacks[k]);
    }
    WrappedDistinct(st, e, n);
  }

  lemma {:induction false} LoneUnstackedKeepsInv<N(!new)>(st: Groups, t: Tree<PaneId, N>, t': Tree<PaneId, N>,
                                                          hidden: set<PaneId>, hidden': set<PaneId>, e: PaneId,
                                                          n: PaneId)
    requires Inv(st, t, hidden) && Full(t) && n !in LeafSet(t) && Inserts(t, t', e, n)
    requires st.UnitOf(e) == Pane(e) && st.StackOf(Pane(e)) == None
    requires hidden' - {n} == hidden - {n} && (n in hidden' <==> e in hidden)
    ensures Inv(st, t', hidden')
  {
    forall j | 0 <= j < |st.groups|
      ensures IsSubtree(t', ToSet(st.groups[j].members))
    {
      GroupFound(st, j);
      assert Grown(ToSet(st.groups[j].members), e, n) == ToSet(st.groups[j].members);
    }
    forall k | 0 <= k < |st.stacks|
      ensures StackOk(st, t', hidden', st.stacks[k])
    {
      var stack := st.stacks[k];
      NewPaneInNoStack(st, t, hidden, stack, n);
      forall a | 0 <= a < |stack.units|
        ensures ToSet(st.UnitPanes(stack.units[a])) == Grown(ToSet(st.UnitPanes(stack.units[a])), e, n)
      {
        assert Canonical(st, stack.units[a]);
      }
      StackGrows(st, st, t, t', hidden, hidden', stack, stack, e, n);
    }
  }
}
