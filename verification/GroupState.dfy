/** The mutable group state of `mux/src/pane_group.rs`: every method takes the
    state from one `Groups` value to another and touches nothing else. */
module GroupStates {
  import opened Wrappers
  import opened Sequences
  import opened BinTree
  import opened SubtreeSets
  import opened PaneGroup
  import opened PaneLayout

  lemma {:induction false} WithoutEditedGroup(gs: seq<GroupInfo>, i: nat, g: GroupInfo)
    requires i < |gs| && gs[i].id == g.id
    ensures WithoutGroup(gs[i := g], g.id) == WithoutGroup(gs, g.id)
  {
    if i > 0 {
      assert gs[i := g][1..] == gs[1..][i - 1 := g];
      WithoutEditedGroup(gs[1..], i - 1, g);
    } else {
      assert gs[i := g][1..] == gs[1..];
    }
  }

  datatype Fault =
    | SmallGroup | PaneInTwoGroups | GroupNotSubtree
    | BadStack | UnitInTwoStacks | EmptyUnit | PartlyHidden | VisibleCount | StackNotSubtree

  // ----- What `validate` accepts -----

  ghost predicate GroupValid(g: GroupInfo, subtrees: seq<set<PaneId>>) {
    |g.members| >= 2 && NoRepeats(g.members) && ToSet(g.members) in subtrees
  }

  ghost function ShownCount(st: Groups, units: seq<Unit>, hidden: set<PaneId>): nat {
    if units == [] then 0
    else ShownCount(st, units[..|units| - 1], hidden) + if Shown(st, units[|units| - 1], hidden) then 1 else 0
  }

  ghost predicate StackValid(st: Groups, stack: PaneStack, subtrees: seq<set<PaneId>>, hidden: set<PaneId>) {
    && |stack.units| >= 2 && stack.active < |stack.units|
    && (forall a :: 0 <= a < |stack.units| ==>
          st.UnitPanes(stack.units[a]) != []
          && (Shown(st, stack.units[a], hidden) || Concealed(st, stack.units[a], hidden)))
    && ShownCount(st, stack.units, hidden) == 1
    && UnitsSet(st, stack.units) in subtrees
  }

  ghost predicate Validates(st: Groups, subtrees: seq<set<PaneId>>, hidden: set<PaneId>) {
    && (forall i :: 0 <= i < |st.groups| ==> GroupValid(st.groups[i], subtrees))
    && (forall i, j :: 0 <= i < j < |st.groups| ==> Disjoint(st.groups[i].members, st.groups[j].members))
    && (forall k :: 0 <= k < |st.stacks| ==> StackValid(st, st.stacks[k], subtrees, hidden))
    && UnitsDistinct(st.stacks)
  }

  method RenameInUnits(units: seq<Unit>, from: Unit, to: Unit) returns (r: seq<Unit>)
    ensures r == RenameUnits(units, from, to)
  {
    r := units;
    var a := 0;
    while a < |r|
      invariant a <= |r| == |units|
      invariant forall b :: 0 <= b < a ==> r[b] == RenameUnits(units, from, to)[b]
      invariant forall b :: a <= b < |r| ==> r[b] == units[b]
    {
      if r[a] == from {
        r := r[a := to];
      }
      a := a + 1;
    }
  }

  lemma {:induction false} UnitsSetSnoc(st: Groups, units: seq<Unit>, u: Unit)
    ensures UnitsSet(st, units + [u]) == UnitsSet(st, units) + ToSet(st.UnitPanes(u))
  {
    forall p
      ensures p in UnitsSet(st, units + [u]) <==> p in UnitsSet(st, units) + ToSet(st.UnitPanes(u))
    {
      if p in UnitsSet(st, units) {
        var v :| v in units && p in st.UnitPanes(v);
        assert v in units + [u];
      } else if p in st.UnitPanes(u) {
        assert u in units + [u];
      }
    }
  }

  class GroupState {
    var groups: seq<GroupInfo>
    var stacks: seq<PaneStack>
    var nextId: nat

    function View(): Groups
      reads this
    {
      Groups(groups, stacks, nextId)
    }

    constructor ()
      ensures View() == Groups([], [], 0)
    {
      groups, stacks, nextId := [], [], 0;
    }

    method CreateGroup(members: seq<PaneId>) returns (id: nat)
      modifies this
      ensures View() == old(View()).CreateGroup(members)
      ensures id == old(nextId)
      ensures old(GroupsOk(View())) ==> forall i :: 0 <= i < |old(groups)| ==> old(groups)[i].id != id
    {
      assert GroupsOk(View()) ==> forall i :: 0 <= i < |groups| ==> GroupOk(groups[i], nextId);
      id := nextId;
      nextId := (nextId + 1) % ID_LIMIT;
      var lastActive := if members == [] then 0 else members[0];
      groups := groups + [GroupInfo(id, members, lastActive)];
    }

    method Dissolve(id: nat)
      modifies this`groups
      ensures View() == old(View()).Dissolve(id)
    {
      groups := WithoutGroup(groups, id);
    }

    method RenameEverywhere(from: Unit, to: Unit)
      modifies this`stacks
      ensures stacks == RenameStacks(old(stacks), from, to)
    {
      var k := 0;
      while k < |stacks|
        invariant k <= |stacks| == |old(stacks)|
        invariant forall j :: 0 <= j < k ==> stacks[j] == RenameStacks(old(stacks), from, to)[j]
        invariant forall j :: k <= j < |stacks| ==> stacks[j] == old(stacks)[j]
      {
        var units := RenameInUnits(stacks[k].units, from, to);
        stacks := stacks[k := stacks[k].(units := units)];
        k := k + 1;
      }
    }

    /** Forgets `pane`, and says which hidden unit must now be shown. */
    method RemovePane(pane: PaneId) returns (shown: Option<Unit>)
      modifies this
      ensures (View(), shown) == old(View()).RemovePane(pane)
    {
      var vanished: Option<Unit> := None;
      var renamed: Option<(Unit, Unit)> := None;
      shown := None;
      match View().UnitOf(pane) {
        case Group(id) =>
          var found := FindId(groups, id);
          if found.None? {
            return None;
          }
          var i := found.value;
          groups := groups[i := groups[i].(members := Without(groups[i].members, pane))];
          if groups[i].members == [] {
            vanished := Some(Group(id));
          } else {
            var first := groups[i].members[0];
            if groups[i].lastActive == pane {
              groups := groups[i := groups[i].(lastActive := first)];
            }
            if |groups[i].members| == 1 {
              renamed := Some((Group(id), Pane(first)));
            }
          }
          if vanished.Some? || renamed.Some? {
            WithoutEditedGroup(old(groups), i, groups[i]);
            assert groups == old(groups)[i := groups[i]];
            Dissolve(id);
          } else {
            assert groups == old(View()).LeaveGroup(i, pane).groups;
          }
        case Pane(_) =>
          vanished := Some(Pane(pane));
      }
      if renamed.Some? {
        RenameEverywhere(renamed.value.0, renamed.value.1);
      }
      if vanished.Some? {
        shown := TakeFromStack(vanished.value);
      }
    }

    /** One unit leaves a stack; in place of the active one the next to the right
        is shown, or the last. */
    method DropUnitAt(k: nat, pos: nat) returns (shown: Option<Unit>)
      requires k < |stacks| && pos < |stacks[k].units|
      modifies this`stacks
      ensures stacks == old(stacks)[k := Groups.DropUnit(old(stacks[k]), pos).0]
      ensures shown == Groups.DropUnit(old(stacks[k]), pos).1
    {
      shown := None;
      stacks := stacks[k := stacks[k].(units := stacks[k].units[..pos] + stacks[k].units[pos + 1..])];
      if pos == stacks[k].active && stacks[k].units != [] {
        var active := if pos < |stacks[k].units| - 1 then pos else |stacks[k].units| - 1;
        stacks := stacks[k := stacks[k].(active := active)];
        shown := Some(stacks[k].units[active]);
      } else if pos < stacks[k].active {
        stacks := stacks[k := stacks[k].(active := stacks[k].active - 1)];
      }
    }

    /** The tail of `remove_pane`: a unit that is gone leaves its stack. */
    method TakeFromStack(gone: Unit) returns (shown: Option<Unit>)
      modifies this`stacks
      ensures (View(), shown) == old(View()).LeaveStack(gone)
    {
      shown := None;
      var index := FindStack(stacks, gone);
      if index.Some? {
        var k := index.value;
        shown := DropUnitAt(k, Position(stacks[k].units, gone));
        if |stacks[k].units| < 2 {
          assert stacks[..k] == old(stacks)[..k] && stacks[k + 1..] == old(stacks)[k + 1..];
          stacks := stacks[..k] + stacks[k + 1..];
        }
      }
    }

    method Adopt(existing: PaneId, added: PaneId)
      modifies this
      ensures View() == old(View()).Adopt(existing, added)
    {
      match View().UnitOf(existing) {
        case Group(id) =>
          var found := FindId(groups, id);
          if found.Some? {
            var i := found.value;
            groups := groups[i := groups[i].(members := groups[i].members + [added])];
          }
        case Pane(_) =>
          if View().StackOf(Pane(existing)).None? {
            return;
          }
          var id := CreateGroup([existing, added]);
          var found := FindId(groups, id);
          if found.Some? {
            var i := found.value;
            groups := groups[i := groups[i].(lastActive := added)];
          }
          RenameEverywhere(Pane(existing), Group(id));
      }
    }

    method NoteActive(pane: PaneId)
      modifies this`groups
      ensures View() == old(View()).NoteActive(pane)
    {
      var found := FindMember(groups, pane);
      if found.Some? {
        var i := found.value;
        groups := groups[i := groups[i].(lastActive := pane)];
      }
    }

    method Validate(subtrees: seq<set<PaneId>>, hidden: set<PaneId>) returns (r: Option<Fault>)
      ensures r.None? <==> Validates(View(), subtrees, hidden)
    {
      r := ValidateGroups(subtrees);
      if r.None? {
        r := ValidateStacks(subtrees, hidden);
      }
    }

    method ValidateGroups(subtrees: seq<set<PaneId>>) returns (r: Option<Fault>)
      ensures r.None? <==>
                && (forall i :: 0 <= i < |groups| ==> GroupValid(groups[i], subtrees))
                && (forall i, j :: 0 <= i < j < |groups| ==> Disjoint(groups[i].members, groups[j].members))
    {
      var seen: set<PaneId> := {};
      var i := 0;
      while i < |groups|
        invariant i <= |groups|
        invariant forall j :: 0 <= j < i ==> GroupValid(groups[j], subtrees)
        invariant forall j, k :: 0 <= j < k < i ==> Disjoint(groups[j].members, groups[k].members)
        invariant forall p :: p in seen <==> exists j :: 0 <= j < i && p in groups[j].members
      {
        var members := groups[i].members;
        if |members| < 2 {
          return Some(SmallGroup);
        }
        var m := 0;
        ghost var before := seen;
        while m < |members|
          invariant m <= |members|
          invariant NoRepeats(members[..m])
          invariant forall p :: p in members[..m] ==> p !in before
          invariant seen == before + ToSet(members[..m])
        {
          if members[m] in seen {
            assert !(NoRepeats(members) && forall p :: p in members ==> p !in before);
            return Some(PaneInTwoGroups);
          }
          seen := seen + {members[m]};
          assert members[..m + 1] == members[..m] + [members[m]];
          m := m + 1;
        }
        assert members[..m] == members;
        if ToSet(members) !in subtrees {
          return Some(GroupNotSubtree);
        }
        i := i + 1;
      }
      return None;
    }

    method ValidateStacks(subtrees: seq<set<PaneId>>, hidden: set<PaneId>) returns (r: Option<Fault>)
      ensures r.None? <==>
                && (forall k :: 0 <= k < |stacks| ==> StackValid(View(), stacks[k], subtrees, hidden))
                && UnitsDistinct(stacks)
    {
      var stacked: seq<Unit> := [];
      var k := 0;
      while k < |stacks|
        invariant k <= |stacks|
        invariant forall j :: 0 <= j < k ==> StackValid(View(), stacks[j], subtrees, hidden)
        invariant UnitsDistinct(stacks[..k]) && Lists(stacked, stacks, k)
      {
        ghost var before := stacked;
        r, stacked := ValidateStack(k, stacked, subtrees, hidden);
        if r.Some? {
          if UnitsDistinct(stacks) {
            DistinctFromListed(stacks, k, before);
          }
          return;
        }
        OneMoreStackDistinct(stacks, k, before);
        k := k + 1;
      }
      assert stacks[..k] == stacks;
      return None;
    }

    /** The body of the loop over stacks. `before` lists the units of the earlier ones. */
    method ValidateStack(k: nat, before: seq<Unit>, subtrees: seq<set<PaneId>>, hidden: set<PaneId>)
      returns (r: Option<Fault>, stacked: seq<Unit>)
      requires k < |stacks|
      ensures r.None? <==>
                && StackValid(View(), stacks[k], subtrees, hidden)
                && NoRepeats(stacks[k].units) && forall u :: u in stacks[k].units ==> u !in before
      ensures r.None? ==> stacked == before + stacks[k].units
    {
      var units := stacks[k].units;
      stacked := before;
      if |units| < 2 || stacks[k].active >= |units| {
        return Some(BadStack), stacked;
      }
      var union: set<PaneId> := {};
      var visible := 0;
      var a := 0;
      while a < |units|
        invariant a <= |units|
        invariant stacked == before + units[..a] && NoRepeats(units[..a])
        invariant forall u :: u in units[..a] ==> u !in before
        invariant union == UnitsSet(View(), units[..a])
        invariant visible == ShownCount(View(), units[..a], hidden)
        invariant forall b | 0 <= b < a :: View().UnitPanes(units[b]) != []
                    && (Shown(View(), units[b], hidden) || Concealed(View(), units[b], hidden))
      {
        var unit := units[a];
        assert units[..a + 1] == units[..a] + [unit];
        if unit in stacked {
          assert unit in before || exists b :: 0 <= b < a && units[b] == unit;
          return Some(UnitInTwoStacks), stacked;
        }
        stacked := stacked + [unit];
        var panes := View().UnitPanes(unit);
        if panes == [] {
          return Some(EmptyUnit), stacked;
        }
        if forall p | p in panes :: p !in hidden {
          visible := visible + 1;
        } else if !forall p | p in panes :: p in hidden {
          return Some(PartlyHidden), stacked;
        }
        UnitsSetSnoc(View(), units[..a], unit);
        union := union + ToSet(panes);
        a := a + 1;
      }
      assert units[..a] == units;
      if visible != 1 {
        return Some(VisibleCount), stacked;
      }
      if union !in subtrees {
        return Some(StackNotSubtree), stacked;
      }
      return None, stacked;
    }
  }

  /** The units of the first `k` stacks. */
  ghost predicate Lists(stacked: seq<Unit>, ss: seq<PaneStack>, k: nat)
    requires k <= |ss|
  {
    forall u :: u in stacked <==> exists j :: 0 <= j < k && u in ss[j].units
  }

  lemma {:induction false} DistinctFromListed(ss: seq<PaneStack>, k: nat, stacked: seq<Unit>)
    requires k < |ss| && UnitsDistinct(ss) && Lists(stacked, ss, k)
    ensures NoRepeats(ss[k].units) && forall u :: u in ss[k].units ==> u !in stacked
  {
    forall j, u | 0 <= j < k && u in ss[k].units ensures u !in ss[j].units {}
  }

  lemma {:induction false} OneMoreStackDistinct(ss: seq<PaneStack>, k: nat, stacked: seq<Unit>)
    requires k < |ss| && UnitsDistinct(ss[..k]) && Lists(stacked, ss, k)
    requires NoRepeats(ss[k].units) && forall u :: u in ss[k].units ==> u !in stacked
    ensures UnitsDistinct(ss[..k + 1]) && Lists(stacked + ss[k].units, ss, k + 1)
  {
    forall u ensures u in stacked + ss[k].units <==> exists j :: 0 <= j < k + 1 && u in ss[j].units {
      if u in stacked {
        var j :| 0 <= j < k && u in ss[j].units;
      }
    }
    StacksDistinct(ss, k);
  }

  lemma {:induction false} StacksDistinct(ss: seq<PaneStack>, k: nat)
    requires k < |ss| && UnitsDistinct(ss[..k])
    requires NoRepeats(ss[k].units)
    requires forall j, u :: 0 <= j < k && u in ss[j].units ==> u !in ss[k].units
    ensures UnitsDistinct(ss[..k + 1])
  {
    var all := ss[..k + 1];
    forall i, j, a, b | 0 <= i < |all| && 0 <= j < |all| && 0 <= a < |all[i].units| && 0 <= b < |all[j].units|
      ensures all[i].units[a] == all[j].units[b] ==> i == j && a == b
    {
      if i < k && j < k {
        assert ss[..k][i] == all[i] && ss[..k][j] == all[j];
      } else if i != j {
        assert all[i].units[a] in ss[i].units && all[j].units[b] in ss[j].units;
      }
    }
  }
}
