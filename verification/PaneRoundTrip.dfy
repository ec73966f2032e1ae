/** Saving the groups and stacks of a tab with its layout and restoring them gives
    the same units and stacks (`mux/src/tab.rs`).

    First what the restoring loops collect: distinct keys, and under each just
    the panes saved with it. Then that sorting puts the units of a stack at
    their places, that groups come back, that stacks come back, and at last
    that every pane is in the place it had. */
module PaneRoundTrip {
  import opened Wrappers
  import opened Sequences
  import opened BinTree
  import opened SubtreeSets
  import opened PaneGroup
  import opened PaneLayout
  import opened TabLayout
  import opened UnitMoves
  import opened GroupStates
  import opened LeafSwaps
  import opened PaneValidity
  import opened PaneSwaps
  import opened PaneRestore

  // ----- What is saved -----

  function InfoOf(st: Groups, p: PaneId): LeafInfo {
    var unit := st.UnitOf(p);
    var group := match unit case Group(id) => Some(id) case Pane(_) => None;
    match st.StackOf(unit)
    case Some(k) => LeafInfo(group, Some(k), Some(Position(st.stacks[k].units, unit)))
    case None => LeafInfo(group, None, None)
  }

  /** The group, stack and position that the saved layout gives its panes, from left to right. */
  function Saved<N>(st: Groups, t: Tree<PaneId, N>): seq<LeafInfo> {
    match t
    case Empty => [LeafInfo(None, None, None)]
    case Leaf(p) => [InfoOf(st, p)]
    case Node(left, right, _) => Saved(st, left) + Saved(st, right)
  }

  lemma {:induction false} SavedLeaves<N>(st: Groups, t: Tree<PaneId, N>)
    requires Full(t)
    ensures |Saved(st, t)| == |Leaves(t)|
    ensures forall i :: 0 <= i < |Leaves(t)| ==> Saved(st, t)[i] == InfoOf(st, Leaves(t)[i])
  {
    if t.Node? {
      SavedLeaves(st, t.left);
      SavedLeaves(st, t.right);
    }
  }

  // ----- What is collected -----

  /** `p` is among the first `n` panes, with this key. */
  predicate HasKey(keys: seq<Option<nat>>, panes: seq<PaneId>, n: nat, key: nat, p: PaneId)
    requires n <= |keys| == |panes|
  {
    exists k :: 0 <= k < n && keys[k] == Some(key) && panes[k] == p
  }

  lemma {:induction false} HasKeyStep(keys: seq<Option<nat>>, panes: seq<PaneId>, n: nat, key: nat, p: PaneId)
    requires 0 < n <= |keys| == |panes|
    ensures HasKey(keys, panes, n, key, p) <==>
              HasKey(keys, panes, n - 1, key, p) || (keys[n - 1] == Some(key) && panes[n - 1] == p)
  {
  }

  /** The lists under distinct keys hold, once each, just the panes with that key. */
  ghost predicate CollectsExactly(a: seq<(nat, seq<PaneId>)>, keys: seq<Option<nat>>, panes: seq<PaneId>, n: nat)
    requires n <= |keys| == |panes|
  {
    && (forall i, j :: 0 <= i < j < |a| ==> a[i].0 != a[j].0)
    && (forall i :: 0 <= i < |a| ==> NoRepeats(a[i].1))
    && (forall i, p :: 0 <= i < |a| ==> (p in a[i].1 <==> HasKey(keys, panes, n, a[i].0, p)))
  }

  lemma {:induction false} AddMemberCollects(a: seq<(nat, seq<PaneId>)>, keys: seq<Option<nat>>, panes: seq<PaneId>,
                                             n: nat)
    requires 0 < n <= |keys| == |panes| && NoRepeats(panes) && CollectsExactly(a, keys, panes, n - 1)
    requires keys[n - 1].Some?
    requires Index(a, keys[n - 1].value).None? ==> forall k :: 0 <= k < n - 1 ==> keys[k] != keys[n - 1]
    ensures CollectsExactly(AddMember(a, keys[n - 1].value, panes[n - 1]), keys, panes, n)
  {
    var (key, last) := (keys[n - 1].value, panes[n - 1]);
    var r := AddMember(a, key, last);
    assert !HasKey(keys, panes, n - 1, key, last);
    forall i, p | 0 <= i < |r|
      ensures p in r[i].1 <==> HasKey(keys, panes, n, r[i].0, p)
    {
      HasKeyStep(keys, panes, n, r[i].0, p);
    }
  }

  lemma {:induction false} NoKeyCollects(a: seq<(nat, seq<PaneId>)>, keys: seq<Option<nat>>, panes: seq<PaneId>, n: nat)
    requires 0 < n <= |keys| == |panes| && CollectsExactly(a, keys, panes, n - 1) && keys[n - 1].None?
    ensures CollectsExactly(a, keys, panes, n)
  {
    forall i, p | 0 <= i < |a|
      ensures p in a[i].1 <==> HasKey(keys, panes, n, a[i].0, p)
    {
      HasKeyStep(keys, panes, n, a[i].0, p);
    }
  }

  lemma {:induction false} CollectedExactly(keys: seq<Option<nat>>, panes: seq<PaneId>, n: nat)
    requires n <= |keys| == |panes| && NoRepeats(panes)
    ensures CollectsExactly(Collected(keys, panes, n), keys, panes, n)
    ensures forall k :: 0 <= k < n && keys[k].Some? ==> Index(Collected(keys, panes, n), keys[k].value).Some?
  {
    if n > 0 {
      CollectedExactly(keys, panes, n - 1);
      var before := Collected(keys, panes, n - 1);
      if keys[n - 1].Some? {
        AddMemberCollects(before, keys, panes, n);
        forall k | 0 <= k < n && keys[k].Some?
          ensures Index(Collected(keys, panes, n), keys[k].value).Some?
        {
          AddMemberIndex(before, keys[n - 1].value, panes[n - 1], keys[k].value);
        }
      } else {
        NoKeyCollects(before, keys, panes, n);
      }
    }
  }

  /** The keys afterwards are those before and the new one. */
  lemma {:induction false} AddMemberIndex(a: seq<(nat, seq<PaneId>)>, key: nat, p: PaneId, other: nat)
    ensures Index(AddMember(a, key, p), other).Some? <==> other == key || Index(a, other).Some?
  {
    var r := AddMember(a, key, p);
    IndexIff(a, other);
    IndexIff(r, other);
    match Index(a, key)
    case Some(i) => assert forall j :: 0 <= j < |a| ==> r[j].0 == a[j].0;
    case None =>
      assert r[|a|].0 == key;
      assert forall j :: 0 <= j < |a| ==> r[j] == a[j];
  }

  lemma {:induction false} IndexIff<T>(a: seq<(nat, T)>, key: nat)
    ensures Index(a, key).Some? <==> exists i :: 0 <= i < |a| && a[i].0 == key
  {
  }

  lemma {:induction false} NoKeysNothing(keys: seq<Option<nat>>, panes: seq<PaneId>, n: nat)
    requires n <= |keys| == |panes| && forall k :: 0 <= k < n ==> keys[k].None?
    ensures Collected(keys, panes, n) == []
  {
    if n > 0 {
      NoKeysNothing(keys, panes, n - 1);
    }
  }

  /** Every pane with a stack has a position, and the other way round. */
  ghost predicate Paired(infos: seq<LeafInfo>) {
    forall k :: 0 <= k < |infos| ==> (infos[k].stack.Some? <==> infos[k].pos.Some?)
  }

  /** Distinct stacks, and in each the panes by their positions. */
  ghost predicate ListsExactly(a: StackList, infos: seq<LeafInfo>, panes: seq<PaneId>, n: nat)
    requires n <= |infos| == |panes|
  {
    && (forall i, j :: 0 <= i < j < |a| ==> a[i].0 != a[j].0)
    && (forall i :: 0 <= i < |a| ==> a[i].1 == Collected(PosKeys(infos, a[i].0), panes, n))
    && (forall i :: 0 <= i < |a| ==> HasStack(infos, n, a[i].0))
  }

  predicate HasStack(infos: seq<LeafInfo>, n: nat, stack: nat)
    requires n <= |infos|
  {
    exists k :: 0 <= k < n && infos[k].stack == Some(stack)
  }

  lemma {:induction false} AddUnitLists(a: StackList, infos: seq<LeafInfo>, panes: seq<PaneId>, n: nat)
    requires 0 < n <= |infos| == |panes| && ListsExactly(a, infos, panes, n - 1)
    requires infos[n - 1].stack.Some? && infos[n - 1].pos.Some?
    requires Index(a, infos[n - 1].stack.value).None? ==> forall k :: 0 <= k < n - 1 ==>
               infos[k].stack != infos[n - 1].stack
    ensures ListsExactly(AddUnit(a, infos[n - 1].stack.value, infos[n - 1].pos.value, panes[n - 1]), infos, panes, n)
  {
    var (stack, pos, p) := (infos[n - 1].stack.value, infos[n - 1].pos.value, panes[n - 1]);
    var r := AddUnit(a, stack, pos, p);
    if Index(a, stack).None? {
      NoKeysNothing(PosKeys(infos, stack), panes, n - 1);
    }
    forall i | 0 <= i < |r|
      ensures r[i].1 == Collected(PosKeys(infos, r[i].0), panes, n) && HasStack(infos, n, r[i].0)
    {
      assert PosKeys(infos, r[i].0)[n - 1] == if r[i].0 == stack then Some(pos) else None;
      assert r[i].0 == stack || HasStack(infos, n - 1, r[i].0);
    }
  }

  lemma {:induction false} AddUnitIndex(a: StackList, stack: nat, pos: nat, p: PaneId, other: nat)
    ensures Index(AddUnit(a, stack, pos, p), other).Some? <==> other == stack || Index(a, other).Some?
  {
    var r := AddUnit(a, stack, pos, p);
    IndexIff(a, other);
    IndexIff(r, other);
    match Index(a, stack)
    case Some(i) => assert forall j :: 0 <= j < |a| ==> r[j].0 == a[j].0;
    case None =>
      assert r[|a|].0 == stack;
      assert forall j :: 0 <= j < |a| ==> r[j] == a[j];
  }

  lemma {:induction false} AddUnitCovers(a: StackList, infos: seq<LeafInfo>, panes: seq<PaneId>, n: nat)
    requires 0 < n <= |infos| == |panes| && infos[n - 1].stack.Some? && infos[n - 1].pos.Some?
    requires forall k :: 0 <= k < n - 1 && infos[k].stack.Some? ==> Index(a, infos[k].stack.value).Some?
    ensures var r := AddUnit(a, infos[n - 1].stack.value, infos[n - 1].pos.value, panes[n - 1]);
            forall k :: 0 <= k < n && infos[k].stack.Some? ==> Index(r, infos[k].stack.value).Some?
  {
    forall k | 0 <= k < n && infos[k].stack.Some?
      ensures var r := AddUnit(a, infos[n - 1].stack.value, infos[n - 1].pos.value, panes[n - 1]);
              Index(r, infos[k].stack.value).Some?
    {
      AddUnitIndex(a, infos[n - 1].stack.value, infos[n - 1].pos.value, panes[n - 1], infos[k].stack.value);
    }
  }

  lemma {:induction false} ListedExactly(infos: seq<LeafInfo>, panes: seq<PaneId>, n: nat)
    requires n <= |infos| == |panes| && Paired(infos)
    ensures ListsExactly(StackMembers(infos, panes, n), infos, panes, n)
    ensures forall k :: 0 <= k < n && infos[k].stack.Some? ==>
              Index(StackMembers(infos, panes, n), infos[k].stack.value).Some?
  {
    if n == 0 {
      NothingListed(infos, panes);
    } else {
      ListedExactly(infos, panes, n - 1);
      ListedStep(StackMembers(infos, panes, n - 1), infos, panes, n);
    }
  }

  lemma {:induction false} NothingListed(infos: seq<LeafInfo>, panes: seq<PaneId>)
    requires |infos| == |panes|
    ensures ListsExactly(StackMembers(infos, panes, 0), infos, panes, 0)
  {
  }

  lemma {:induction false} ListedStep(before: StackList, infos: seq<LeafInfo>, panes: seq<PaneId>, n: nat)
    requires 0 < n <= |infos| == |panes| && Paired(infos) && before == StackMembers(infos, panes, n - 1)
    requires ListsExactly(before, infos, panes, n - 1)
    requires forall k :: 0 <= k < n - 1 && infos[k].stack.Some? ==> Index(before, infos[k].stack.value).Some?
    ensures ListsExactly(StackMembers(infos, panes, n), infos, panes, n)
    ensures forall k :: 0 <= k < n && infos[k].stack.Some? ==>
              Index(StackMembers(infos, panes, n), infos[k].stack.value).Some?
  {
    if infos[n - 1].stack.Some? {
      AddUnitLists(before, infos, panes, n);
      AddUnitCovers(before, infos, panes, n);
    } else {
      NoPosition(before, infos, panes, n);
    }
  }

  lemma {:induction false} NoPosition(a: StackList, infos: seq<LeafInfo>, panes: seq<PaneId>, n: nat)
    requires 0 < n <= |infos| == |panes| && ListsExactly(a, infos, panes, n - 1) && infos[n - 1].stack.None?
    ensures ListsExactly(a, infos, panes, n)
  {
    forall i | 0 <= i < |a|
      ensures a[i].1 == Collected(PosKeys(infos, a[i].0), panes, n) && HasStack(infos, n, a[i].0)
    {
      assert HasStack(infos, n - 1, a[i].0);
      assert PosKeys(infos, a[i].0)[n - 1].None?;
    }
  }

  // ----- Sorting by position -----

  predicate InPosOrder(a: seq<(nat, seq<PaneId>)>) { forall i, j :: 0 <= i < j < |a| ==> a[i].0 <= a[j].0 }

  lemma {:induction false} InsertBelow(a: seq<(nat, seq<PaneId>)>, x: (nat, seq<PaneId>), b: nat)
    requires x.0 <= b && forall i :: 0 <= i < |a| ==> a[i].0 <= b
    ensures var r := InsertByPos(a, x); forall i :: 0 <= i < |r| ==> r[i].0 <= b
  {
    var n := |a|;
    if a == [] || a[n - 1].0 <= x.0 {
      assert InsertByPos(a, x) == a + [x];
    } else {
      InsertBelow(a[..n - 1], x, b);
      assert InsertByPos(a, x) == InsertByPos(a[..n - 1], x) + [a[n - 1]];
    }
  }

  lemma {:induction false} InsertSorts(a: seq<(nat, seq<PaneId>)>, x: (nat, seq<PaneId>))
    requires InPosOrder(a)
    ensures InPosOrder(InsertByPos(a, x))
  {
    var n := |a|;
    if a == [] || a[n - 1].0 <= x.0 {
      assert InsertByPos(a, x) == a + [x];
    } else {
      InsertSorts(a[..n - 1], x);
      InsertBelow(a[..n - 1], x, a[n - 1].0);
      assert InsertByPos(a, x) == InsertByPos(a[..n - 1], x) + [a[n - 1]];
    }
  }

  lemma {:induction false} InsertKeeps(a: seq<(nat, seq<PaneId>)>, x: (nat, seq<PaneId>))
    ensures multiset(InsertByPos(a, x)) == multiset(a) + multiset{x}
  {
    if a != [] {
      InsertKeeps(a[..|a| - 1], x);
      assert a == a[..|a| - 1] + [a[|a| - 1]];
    }
  }

  lemma {:induction false} SortSorts(a: seq<(nat, seq<PaneId>)>)
    ensures InPosOrder(SortByPos(a)) && multiset(SortByPos(a)) == multiset(a)
  {
    if a != [] {
      var n := |a|;
      SortSorts(a[..n - 1]);
      InsertSorts(SortByPos(a[..n - 1]), a[n - 1]);
      InsertKeeps(SortByPos(a[..n - 1]), a[n - 1]);
      assert a == a[..n - 1] + [a[n - 1]];
    }
  }

  /** Where the positions are just 0 up to `n`, each once, sorting puts each at its place. */
  lemma {:induction false} SortsToPlaces(a: seq<(nat, seq<PaneId>)>, n: nat)
    requires forall i, j :: 0 <= i < j < |a| ==> a[i].0 != a[j].0
    requires forall i :: 0 <= i < |a| ==> a[i].0 < n
    requires forall m: nat :: m < n ==> Index(a, m).Some?
    ensures var r := SortByPos(a);
            && |r| == n
            && forall m :: 0 <= m < n ==> r[m].0 == m && r[m] in a
  {
    SortSorts(a);
    var r := SortByPos(a);
    SameKeys(a, r, n);
    forall m | 0 <= m < n
      ensures m < |r| && r[m].0 == m
    {
      InPlace(r, n, m);
    }
    if r != [] {
      AtLeastPlace(r, n, |r| - 1);
    }
    if n > 0 {
      InPlace(r, n, n - 1);
    }
  }

  /** Distinct positions in order, that are just 0 up to `n`. */
  ghost predicate Places(r: seq<(nat, seq<PaneId>)>, n: nat) {
    && InPosOrder(r)
    && (forall i, j :: 0 <= i < j < |r| ==> r[i].0 != r[j].0)
    && (forall i :: 0 <= i < |r| ==> r[i].0 < n)
    && (forall m: nat :: m < n ==> HasPos(r, m))
  }

  ghost predicate HasPos(r: seq<(nat, seq<PaneId>)>, m: nat) { exists i :: 0 <= i < |r| && r[i].0 == m }

  lemma {:induction false} AtLeastPlace(r: seq<(nat, seq<PaneId>)>, n: nat, m: nat)
    requires Places(r, n) && m < |r|
    ensures r[m].0 >= m
  {
    if m > 0 {
      AtLeastPlace(r, n, m - 1);
      assert r[m - 1].0 <= r[m].0 && r[m - 1].0 != r[m].0;
    }
  }

  lemma {:induction false} InPlace(r: seq<(nat, seq<PaneId>)>, n: nat, m: nat)
    requires Places(r, n) && m < n
    ensures m < |r| && r[m].0 == m
    decreases m
  {
    assert HasPos(r, m);
    var i :| 0 <= i < |r| && r[i].0 == m;
    forall k: nat | k < m
      ensures k < |r| && r[k].0 == k
    {
      InPlace(r, n, k);
    }
    assert i >= m;
    AtLeastPlace(r, n, m);
  }

  lemma {:induction false} SameKeys(a: seq<(nat, seq<PaneId>)>, r: seq<(nat, seq<PaneId>)>, n: nat)
    requires multiset(a) == multiset(r) && InPosOrder(r)
    requires forall i, j :: 0 <= i < j < |a| ==> a[i].0 != a[j].0
    requires forall i :: 0 <= i < |a| ==> a[i].0 < n
    requires forall m: nat :: m < n ==> Index(a, m).Some?
    ensures Places(r, n) && forall i :: 0 <= i < |r| ==> r[i] in a
  {
    forall i | 0 <= i < |r|
      ensures r[i] in a
    {
      assert r[i] in multiset(r);
    }
    forall m: nat | m < n
      ensures HasPos(r, m)
    {
      assert a[Index(a, m).value] in multiset(r);
    }
    NoRepeatedKeys(a, r);
  }

  lemma {:induction false} NoRepeatedKeys(a: seq<(nat, seq<PaneId>)>, r: seq<(nat, seq<PaneId>)>)
    requires multiset(a) == multiset(r)
    requires forall i, j :: 0 <= i < j < |a| ==> a[i].0 != a[j].0
    ensures forall i, j :: 0 <= i < j < |r| ==> r[i].0 != r[j].0
  {
    forall i, j | 0 <= i < j < |r|
      ensures r[i].0 != r[j].0
    {
      if r[i].0 == r[j].0 {
        assert r[i] in multiset(r) && r[j] in multiset(r);
        var k :| 0 <= k < |a| && a[k] == r[i];
        var m :| 0 <= m < |a| && a[m] == r[j];
        assert k == m;
        TwiceIn(r, i, j);
        OnceInNoRepeats(a, r[i]);
      }
    }
  }

  // ----- The groups come back -----

  /** `infos` is what is saved of the panes of `l`, from left to right. */
  ghost predicate Saving<N(!new)>(l: Layout<N>, infos: seq<LeafInfo>, panes: seq<PaneId>) {
    && Sound(l) && ToSet(panes) == LeafSet(l.tree) && NoRepeats(panes)
    && |infos| == |panes| < ID_LIMIT
    && forall i :: 0 <= i < |panes| ==> infos[i] == InfoOf(l.st, panes[i])
  }

  lemma {:induction false} SavedIsSaving<N(!new)>(l: Layout<N>)
    requires Sound(l) && Full(l.tree) && |Leaves(l.tree)| < ID_LIMIT
    ensures Saving(l, Saved(l.st, l.tree), Leaves(l.tree))
  {
    SavedLeaves(l.st, l.tree);
    LeavesAreLeafSet(l.tree);
    DistinctNoRepeats(l.tree);
  }

  function GroupLists(infos: seq<LeafInfo>, panes: seq<PaneId>): seq<(nat, seq<PaneId>)>
    requires |infos| == |panes|
  {
    Collected(GroupKeys(infos), panes, |panes|)
  }

  lemma {:induction false} GroupKeyed<N(!new)>(l: Layout<N>, infos: seq<LeafInfo>, panes: seq<PaneId>, g: nat,
                                               p: PaneId)
    requires Saving(l, infos, panes)
    ensures HasKey(GroupKeys(infos), panes, |panes|, g, p) <==> p in panes && l.st.UnitOf(p) == Group(g)
  {
    if p in panes {
      var k :| 0 <= k < |panes| && panes[k] == p;
      assert GroupKeys(infos)[k] == InfoOf(l.st, p).group;
    }
  }

  /** A saved list of panes is a group. */
  lemma {:induction false} SavedGroup<N(!new)>(l: Layout<N>, infos: seq<LeafInfo>, panes: seq<PaneId>, i: nat)
    returns (h: nat)
    requires Saving(l, infos, panes) && i < |GroupLists(infos, panes)|
    ensures h < |l.st.groups| && l.st.groups[h].id == GroupLists(infos, panes)[i].0
    ensures ToSet(GroupLists(infos, panes)[i].1) == ToSet(l.st.groups[h].members)
    ensures NoRepeats(GroupLists(infos, panes)[i].1)
  {
    var (id, members) := GroupLists(infos, panes)[i];
    CollectedExactly(GroupKeys(infos), panes, |panes|);
    var p := members[0];
    GroupKeyed(l, infos, panes, id, p);
    h := FindMember(l.st.groups, p).value;
    SubtreeSetsInside(l.tree, ToSet(l.st.groups[h].members));
    forall q
      ensures q in members <==> q in l.st.groups[h].members
    {
      GroupKeyed(l, infos, panes, id, q);
      InGroup(l.st, h, q);
      assert q in l.st.groups[h].members ==> q in ToSet(l.st.groups[h].members) && q in ToSet(panes);
    }
  }

  /** A list with the panes of another without repeats is as long. */
  lemma {:induction false} TwoOrMore(a: seq<PaneId>, b: seq<PaneId>)
    requires NoRepeats(b) && |b| >= 2 && ToSet(a) == ToSet(b)
    ensures |a| >= 2
  {
    assert b[0] in ToSet(a) && b[1] in ToSet(a);
  }

  function RestoredGroups(infos: seq<LeafInfo>, panes: seq<PaneId>): Groups
    requires |infos| == |panes|
  {
    Created(GroupLists(infos, panes), |GroupLists(infos, panes)|)
  }

  lemma {:induction false} RestoredGroupsOk<N(!new)>(l: Layout<N>, infos: seq<LeafInfo>, panes: seq<PaneId>)
    requires Saving(l, infos, panes)
    ensures GroupsOk(RestoredGroups(infos, panes))
    ensures var (st, lists) := (RestoredGroups(infos, panes), GroupLists(infos, panes));
            && |st.groups| == |lists|
            && forall i :: 0 <= i < |lists| ==> st.groups[i].id == i && st.groups[i].members == lists[i].1
  {
    var (st, lists) := (RestoredGroups(infos, panes), GroupLists(infos, panes));
    CollectedFew(GroupKeys(infos), panes, |panes|);
    CreatedGroups(lists, |lists|);
    CollectedExactly(GroupKeys(infos), panes, |panes|);
    forall i | 0 <= i < |lists|
      ensures GroupOk(st.groups[i], st.nextId)
    {
      var h := SavedGroup(l, infos, panes, i);
      assert GroupOk(l.st.groups[h], l.st.nextId);
      TwoOrMore(lists[i].1, l.st.groups[h].members);
    }
    forall i, j | 0 <= i < |lists| && 0 <= j < |lists| && i != j
      ensures Disjoint(st.groups[i].members, st.groups[j].members)
    {
      forall p | p in lists[i].1
        ensures p !in lists[j].1
      {
        GroupKeyed(l, infos, panes, lists[i].0, p);
        GroupKeyed(l, infos, panes, lists[j].0, p);
      }
    }
  }

  /** The same kind of unit, of the same panes. */
  ghost predicate Alike(st: Groups, u: Unit, st': Groups, u': Unit) {
    (u.Group? <==> u'.Group?) && ToSet(st.UnitPanes(u)) == ToSet(st'.UnitPanes(u'))
  }

  lemma {:induction false} UnitComesBack<N(!new)>(l: Layout<N>, infos: seq<LeafInfo>, panes: seq<PaneId>, p: PaneId)
    requires Saving(l, infos, panes) && p in panes
    ensures var st := RestoredGroups(infos, panes); Alike(l.st, l.st.UnitOf(p), st, st.UnitOf(p))
  {
    var (st, lists) := (RestoredGroups(infos, panes), GroupLists(infos, panes));
    RestoredGroupsOk(l, infos, panes);
    CollectedExactly(GroupKeys(infos), panes, |panes|);
    match l.st.UnitOf(p)
    case Group(g) =>
      var k :| 0 <= k < |panes| && panes[k] == p;
      assert GroupKeys(infos)[k] == Some(g);
      var i := Index(lists, g).value;
      GroupKeyed(l, infos, panes, g, p);
      GroupFound(st, i);
      var h := SavedGroup(l, infos, panes, i);
      GroupFound(l.st, h);
    case Pane(_) =>
      forall i | 0 <= i < |lists|
        ensures p !in st.groups[i].members
      {
        GroupKeyed(l, infos, panes, lists[i].0, p);
      }
      LonePane(st, p);
  }

  // ----- The stacks come back -----

  lemma {:induction false} PosKeyed<N(!new)>(l: Layout<N>, infos: seq<LeafInfo>, panes: seq<PaneId>, k: nat, pos: nat,
                                             p: PaneId)
    requires Saving(l, infos, panes)
    ensures HasKey(PosKeys(infos, k), panes, |panes|, pos, p) <==>
              p in panes && l.st.StackOf(l.st.UnitOf(p)) == Some(k)
              && Position(l.st.stacks[k].units, l.st.UnitOf(p)) == pos
  {
    if p in panes {
      var i :| 0 <= i < |panes| && panes[i] == p;
      assert infos[i] == InfoOf(l.st, p);
      assert PosKeys(infos, k)[i] == if infos[i].stack == Some(k) then infos[i].pos else None;
    }
  }

  /** The panes of the unit at a place of a stack are those saved with that place. */
  lemma {:induction false} PlacedPanes<N(!new)>(l: Layout<N>, infos: seq<LeafInfo>, panes: seq<PaneId>, k: nat,
                                                a: nat, p: PaneId)
    requires Saving(l, infos, panes) && k < |l.st.stacks| && a < |l.st.stacks[k].units|
    ensures HasKey(PosKeys(infos, k), panes, |panes|, a, p) <==> p in l.st.UnitPanes(l.st.stacks[k].units[a])
  {
    var units := l.st.stacks[k].units;
    PosKeyed(l, infos, panes, k, a, p);
    assert StackOk(l.st, l.tree, l.hidden, l.st.stacks[k]);
    UnitOfCanonical(l.st, p);
    if p in l.st.UnitPanes(units[a]) {
      assert l.st.UnitOf(p) == units[a];
      SameStack(l.st, units[a], k);
      SubtreeSetsInside(l.tree, UnitsSet(l.st, units));
      assert p in UnitsSet(l.st, units) && p in ToSet(panes);
    }
  }

  function PlaceLists(infos: seq<LeafInfo>, panes: seq<PaneId>, k: nat): seq<(nat, seq<PaneId>)>
    requires |infos| == |panes|
  {
    Collected(PosKeys(infos, k), panes, |panes|)
  }

  /** Sorted, the lists of a stack are its units, each at its place. */
  lemma {:induction false} SavedPlaces<N(!new)>(l: Layout<N>, infos: seq<LeafInfo>, panes: seq<PaneId>, k: nat)
    requires Saving(l, infos, panes) && k < |l.st.stacks|
    ensures var (r, units) := (SortByPos(PlaceLists(infos, panes, k)), l.st.stacks[k].units);
            && |r| == |units|
            && forall a :: 0 <= a < |units| ==> ToSet(r[a].1) == ToSet(l.st.UnitPanes(units[a]))
  {
    var (lists, units) := (PlaceLists(infos, panes, k), l.st.stacks[k].units);
    CollectedExactly(PosKeys(infos, k), panes, |panes|);
    forall i | 0 <= i < |lists|
      ensures lists[i].0 < |units|
    {
      PosKeyed(l, infos, panes, k, lists[i].0, lists[i].1[0]);
    }
    forall m: nat | m < |units|
      ensures Index(lists, m).Some?
    {
      PlaceTaken(l, infos, panes, k, m);
    }
    SortsToPlaces(lists, |units|);
    forall a | 0 <= a < |units|
      ensures ToSet(SortByPos(lists)[a].1) == ToSet(l.st.UnitPanes(units[a]))
    {
      var i :| 0 <= i < |lists| && lists[i] == SortByPos(lists)[a];
      SamePlacePanes(l, infos, panes, k, i, lists[i]);
    }
  }

  lemma {:induction false} PlaceTaken<N(!new)>(l: Layout<N>, infos: seq<LeafInfo>, panes: seq<PaneId>, k: nat, m: nat)
    requires Saving(l, infos, panes) && k < |l.st.stacks| && m < |l.st.stacks[k].units|
    requires forall i :: 0 <= i < |panes| && PosKeys(infos, k)[i].Some? ==>
               Index(PlaceLists(infos, panes, k), PosKeys(infos, k)[i].value).Some?
    ensures Index(PlaceLists(infos, panes, k), m).Some?
  {
    assert StackOk(l.st, l.tree, l.hidden, l.st.stacks[k]);
    assert Canonical(l.st, l.st.stacks[k].units[m]);
    var p := l.st.UnitPanes(l.st.stacks[k].units[m])[0];
    PlacedPanes(l, infos, panes, k, m, p);
    var i :| 0 <= i < |panes| && PosKeys(infos, k)[i] == Some(m) && panes[i] == p;
  }

  lemma {:induction false} SamePlacePanes<N(!new)>(l: Layout<N>, infos: seq<LeafInfo>, panes: seq<PaneId>, k: nat,
                                                   i: nat, list: (nat, seq<PaneId>))
    requires Saving(l, infos, panes) && k < |l.st.stacks| && list.0 < |l.st.stacks[k].units|
    requires CollectsExactly(PlaceLists(infos, panes, k), PosKeys(infos, k), panes, |panes|)
    requires i < |PlaceLists(infos, panes, k)| && PlaceLists(infos, panes, k)[i] == list
    ensures ToSet(list.1) == ToSet(l.st.UnitPanes(l.st.stacks[k].units[list.0]))
  {
    forall p
      ensures p in list.1 <==> p in l.st.UnitPanes(l.st.stacks[k].units[list.0])
    {
      PlacedPanes(l, infos, panes, k, list.0, p);
    }
  }

  /** A stack of as many units, each alike, with the same one on show. */
  ghost predicate StacksAlike(st: Groups, stack: PaneStack, st': Groups, stack': PaneStack) {
    && |stack'.units| == |stack.units| && stack'.active == stack.active
    && forall a :: 0 <= a < |stack.units| ==> Alike(st, stack.units[a], st', stack'.units[a])
  }

  lemma {:induction false} AlikeShown(st: Groups, u: Unit, st': Groups, u': Unit, hidden: set<PaneId>)
    requires Alike(st, u, st', u')
    ensures Shown(st, u, hidden) <==> Shown(st', u', hidden)
    ensures Concealed(st, u, hidden) <==> Concealed(st', u', hidden)
  {
    assert forall p :: p in st.UnitPanes(u) <==> p in ToSet(st.UnitPanes(u));
    assert forall p :: p in st'.UnitPanes(u') <==> p in ToSet(st'.UnitPanes(u'));
  }

  lemma {:induction false} SetOnce(flags: seq<bool>, active: nat, n: nat)
    requires n <= |flags| && forall v :: 0 <= v < |flags| ==> (flags[v] <==> v == active)
    ensures SetBelow(flags, n) == if active < n then [active] else []
  {
    if n > 0 {
      SetOnce(flags, active, n - 1);
    }
  }

  /** With just one unit on show, that is the one found. */
  lemma {:induction false} VisibleOne(st: Groups, units: seq<Unit>, hidden: set<PaneId>, active: nat)
    requires active < |units| && forall v :: 0 <= v < |units| ==> (Shown(st, units[v], hidden) <==> v == active)
    ensures Visible(st, units, hidden) == [active]
  {
    SetOnce(ShownFlags(st, units, hidden), active, |units|);
  }

  /** The units made of sorted lists of a stack's panes are alike. */
  lemma {:induction false} UnitsComeBack<N(!new)>(l: Layout<N>, infos: seq<LeafInfo>, panes: seq<PaneId>, k: nat)
    requires Saving(l, infos, panes) && k < |l.st.stacks|
    ensures var (st, units) := (RestoredGroups(infos, panes), l.st.stacks[k].units);
            var units' := UnitsIn(st, SortByPos(PlaceLists(infos, panes, k)));
            |units'| == |units| && forall a :: 0 <= a < |units| ==> Alike(l.st, units[a], st, units'[a])
  {
    var (st, units) := (RestoredGroups(infos, panes), l.st.stacks[k].units);
    var r := SortByPos(PlaceLists(infos, panes, k));
    SavedPlaces(l, infos, panes, k);
    assert StackOk(l.st, l.tree, l.hidden, l.st.stacks[k]);
    SubtreeSetsInside(l.tree, UnitsSet(l.st, units));
    forall a | 0 <= a < |units|
      ensures Alike(l.st, units[a], st, UnitsIn(st, r)[a])
    {
      var p := r[a].1[0];
      assert p in ToSet(r[a].1) && p in l.st.UnitPanes(units[a]);
      assert p in UnitsSet(l.st, units) && p in ToSet(panes);
      assert Canonical(l.st, units[a]);
      UnitComesBack(l, infos, panes, p);
    }
  }

  lemma {:induction false} ActiveOnly<N(!new)>(l: Layout<N>, k: nat)
    requires Sound(l) && k < |l.st.stacks|
    ensures OnlyActiveShown(l.st, l.st.stacks[k], l.hidden)
  {
    var stack := l.st.stacks[k];
    assert StackOk(l.st, l.tree, l.hidden, stack);
    forall v | 0 <= v < |stack.units|
      ensures Shown(l.st, stack.units[v], l.hidden) <==> v == stack.active
    {
      assert Canonical(l.st, stack.units[v]);
      assert l.st.UnitPanes(stack.units[v])[0] in l.st.UnitPanes(stack.units[v]);
    }
  }

  lemma {:induction false} StackComesBack<N(!new)>(l: Layout<N>, infos: seq<LeafInfo>, panes: seq<PaneId>, k: nat)
    requires Saving(l, infos, panes) && k < |l.st.stacks|
    ensures var st := RestoredGroups(infos, panes);
            var made := StackMade(st, PlaceLists(infos, panes, k), l.hidden);
            made.Some? && StacksAlike(l.st, l.st.stacks[k], st, made.value)
    ensures var units := UnitsIn(RestoredGroups(infos, panes), SortByPos(PlaceLists(infos, panes, k)));
            forall a :: 0 <= a < |units| ==> Named(RestoredGroups(infos, panes), units[a])
  {
    var (st, stack) := (RestoredGroups(infos, panes), l.st.stacks[k]);
    var units := UnitsIn(st, SortByPos(PlaceLists(infos, panes, k)));
    UnitsComeBack(l, infos, panes, k);
    UnitsNamed(st, PlaceLists(infos, panes, k));
    ActiveOnly(l, k);
    forall v | 0 <= v < |units|
      ensures Shown(st, units[v], l.hidden) <==> v == stack.active
    {
      AlikeShown(l.st, stack.units[v], st, units[v], l.hidden);
    }
    VisibleOne(st, units, l.hidden, stack.active);
  }

  // ----- The round trip -----

  function StackLists(infos: seq<LeafInfo>, panes: seq<PaneId>): StackList
    requires |infos| == |panes|
  {
    StackMembers(infos, panes, |panes|)
  }

  lemma {:induction false} SavedStacks<N(!new)>(l: Layout<N>, infos: seq<LeafInfo>, panes: seq<PaneId>)
    requires Saving(l, infos, panes)
    ensures var lists := StackLists(infos, panes);
            && (forall j :: 0 <= j < |lists| ==>
                  lists[j].0 < |l.st.stacks| && lists[j].1 == PlaceLists(infos, panes, lists[j].0))
            && (forall i, j :: 0 <= i < j < |lists| ==> lists[i].0 != lists[j].0)
            && (forall i :: 0 <= i < |panes| && infos[i].stack.Some? ==> Index(lists, infos[i].stack.value).Some?)
  {
    var lists := StackLists(infos, panes);
    ListedExactly(infos, panes, |panes|);
    forall j | 0 <= j < |lists|
      ensures lists[j].0 < |l.st.stacks|
    {
      assert HasStack(infos, |panes|, lists[j].0);
      var i :| 0 <= i < |panes| && infos[i].stack == Some(lists[j].0);
      assert infos[i] == InfoOf(l.st, panes[i]);
    }
  }

  /** The stacks that are put together: the `j`th is alike the stack saved under its key. */
  ghost predicate StacksBack<N(!new)>(l: Layout<N>, infos: seq<LeafInfo>, panes: seq<PaneId>, st: Groups)
    requires |infos| == |panes|
  {
    var lists := StackLists(infos, panes);
    && |st.stacks| == |lists|
    && forall j :: 0 <= j < |lists| ==>
          lists[j].0 < |l.st.stacks| && StackBack(l.st, l.st.stacks[lists[j].0], st, st.stacks[j])
  }

  ghost predicate StackBack(st: Groups, stack: PaneStack, st': Groups, stack': PaneStack) {
    StacksAlike(st, stack, st', stack') && forall a :: 0 <= a < |stack'.units| ==> Named(st', stack'.units[a])
  }

  lemma {:induction false} OnlyGroupsMatter(st: Groups, stack: PaneStack, st1: Groups, st2: Groups, stack': PaneStack)
    requires st1.groups == st2.groups && StackBack(st, stack, st1, stack')
    ensures StackBack(st, stack, st2, stack')
  {
    SameUnitsOf(st1, st2);
    forall a | 0 <= a < |stack'.units|
      ensures Named(st2, stack'.units[a])
    {
      assert Named(st1, stack'.units[a]);
    }
    forall a | 0 <= a < |stack.units|
      ensures Alike(st, stack.units[a], st2, stack'.units[a])
    {
      assert Alike(st, stack.units[a], st1, stack'.units[a]);
    }
  }

  lemma {:induction false} StackBackAt<N(!new)>(l: Layout<N>, infos: seq<LeafInfo>, panes: seq<PaneId>, st': Groups,
                                                j: nat)
    requires Saving(l, infos, panes) && j < |StackLists(infos, panes)|
    requires st'.groups == RestoredGroups(infos, panes).groups
    ensures var (k, list) := StackLists(infos, panes)[j];
            var made := StackMade(RestoredGroups(infos, panes), list, l.hidden);
            k < |l.st.stacks| && made.Some? && StackBack(l.st, l.st.stacks[k], st', made.value)
  {
    var (st, k) := (RestoredGroups(infos, panes), StackLists(infos, panes)[j].0);
    SavedStacks(l, infos, panes);
    StackComesBack(l, infos, panes, k);
    OnlyGroupsMatter(l.st, l.st.stacks[k], st, st', StackMade(st, PlaceLists(infos, panes, k), l.hidden).value);
  }

  lemma {:induction false} StacksComeBack<N(!new)>(l: Layout<N>, infos: seq<LeafInfo>, panes: seq<PaneId>)
    requires Saving(l, infos, panes)
    ensures AllMade(RestoredGroups(infos, panes), StackLists(infos, panes), l.hidden)
    ensures var st := RestoredGroups(infos, panes);
            StacksBack(l, infos, panes, st.(stacks := StacksMade(st, StackLists(infos, panes), l.hidden)))
  {
    var (st, lists) := (RestoredGroups(infos, panes), StackLists(infos, panes));
    forall j | 0 <= j < |lists|
      ensures StackMade(st, lists[j].1, l.hidden).Some?
    {
      StackBackAt(l, infos, panes, st, j);
    }
    var st' := st.(stacks := StacksMade(st, lists, l.hidden));
    forall j | 0 <= j < |lists|
      ensures lists[j].0 < |l.st.stacks| && StackBack(l.st, l.st.stacks[lists[j].0], st', st'.stacks[j])
    {
      StackBackAt(l, infos, panes, st', j);
    }
  }

  lemma {:induction false} AlikePanes(st: Groups, u: Unit, st': Groups, u': Unit, p: PaneId)
    requires Alike(st, u, st', u')
    ensures p in st.UnitPanes(u) <==> p in st'.UnitPanes(u')
  {
    assert p in ToSet(st.UnitPanes(u)) <==> p in ToSet(st'.UnitPanes(u'));
  }

  /** A stack alike one that is in order is in order. */
  lemma {:induction false} AlikeStackOk<N(!new)>(l: Layout<N>, k: nat, st': Groups, stack': PaneStack)
    requires Sound(l) && k < |l.st.stacks| && GroupsOk(st') && StackBack(l.st, l.st.stacks[k], st', stack')
    ensures StackOk(st', l.tree, l.hidden, stack')
  {
    var stack := l.st.stacks[k];
    assert StackOk(l.st, l.tree, l.hidden, stack);
    forall a | 0 <= a < |stack'.units|
      ensures Canonical(st', stack'.units[a])
      ensures Shown(l.st, stack.units[a], l.hidden) <==> Shown(st', stack'.units[a], l.hidden)
      ensures Concealed(l.st, stack.units[a], l.hidden) <==> Concealed(st', stack'.units[a], l.hidden)
      ensures forall p :: p in st'.UnitPanes(stack'.units[a]) <==> p in l.st.UnitPanes(stack.units[a])
    {
      assert Named(st', stack'.units[a]) && Alike(l.st, stack.units[a], st', stack'.units[a]);
      var p :| stack'.units[a] == st'.UnitOf(p);
      UnitOfCanonical(st', p);
      AlikeShown(l.st, stack.units[a], st', stack'.units[a], l.hidden);
      forall q ensures q in st'.UnitPanes(stack'.units[a]) <==> q in l.st.UnitPanes(stack.units[a]) {
        AlikePanes(l.st, stack.units[a], st', stack'.units[a], q);
      }
    }
    AlikeUnion(l.st, stack.units, st', stack'.units);
  }

  lemma {:induction false} AlikeUnion(st: Groups, units: seq<Unit>, st': Groups, units': seq<Unit>)
    requires |units| == |units'|
    requires forall a :: 0 <= a < |units| ==> Alike(st, units[a], st', units'[a])
    ensures UnitsSet(st', units') == UnitsSet(st, units)
  {
    forall p
      ensures p in UnitsSet(st', units') <==> p in UnitsSet(st, units)
    {
      if p in UnitsSet(st, units) {
        var a :| 0 <= a < |units| && p in st.UnitPanes(units[a]);
        AlikePanes(st, units[a], st', units'[a], p);
      }
      if p in UnitsSet(st', units') {
        var a :| 0 <= a < |units| && p in st'.UnitPanes(units'[a]);
        AlikePanes(st, units[a], st', units'[a], p);
      }
    }
  }

  lemma {:induction false} StacksApart<N(!new)>(l: Layout<N>, infos: seq<LeafInfo>, panes: seq<PaneId>, st': Groups)
    requires Saving(l, infos, panes) && StacksBack(l, infos, panes, st')
    ensures UnitsDistinct(st'.stacks)
  {
    var (lists, ss) := (StackLists(infos, panes), st'.stacks);
    SavedStacks(l, infos, panes);
    forall i, j, a, b | 0 <= i < |ss| && 0 <= j < |ss| && 0 <= a < |ss[i].units| && 0 <= b < |ss[j].units|
      ensures ss[i].units[a] == ss[j].units[b] ==> i == j && a == b
    {
      var (s, r) := (l.st.stacks[lists[i].0], l.st.stacks[lists[j].0]);
      assert StackBack(l.st, s, st', ss[i]) && StackBack(l.st, r, st', ss[j]);
      if ss[i].units[a] == ss[j].units[b] {
        SharedUnit(l, lists[i].0, a, lists[j].0, b, st', ss[i].units[a]);
      }
    }
  }

  /** Two stacked units that come back as one unit were one. */
  lemma {:induction false} SharedUnit<N(!new)>(l: Layout<N>, k: nat, a: nat, m: nat, b: nat, st': Groups, u: Unit)
    requires Sound(l) && k < |l.st.stacks| && m < |l.st.stacks| && a < |l.st.stacks[k].units|
             && b < |l.st.stacks[m].units|
    requires Alike(l.st, l.st.stacks[k].units[a], st', u) && Alike(l.st, l.st.stacks[m].units[b], st', u)
    ensures k == m && a == b
  {
    var (v, w) := (l.st.stacks[k].units[a], l.st.stacks[m].units[b]);
    assert StackOk(l.st, l.tree, l.hidden, l.st.stacks[k]) && StackOk(l.st, l.tree, l.hidden, l.st.stacks[m]);
    assert Canonical(l.st, v) && Canonical(l.st, w);
    var p := l.st.UnitPanes(v)[0];
    AlikePanes(l.st, v, st', u, p);
    AlikePanes(l.st, w, st', u, p);
    UnitsShareNoPane(l.st, v, w, p);
  }

  lemma {:induction false} RestoredSound<N(!new)>(l: Layout<N>, infos: seq<LeafInfo>, panes: seq<PaneId>, st': Groups)
    requires Saving(l, infos, panes) && StacksBack(l, infos, panes, st')
    requires st'.groups == RestoredGroups(infos, panes).groups && st'.nextId == RestoredGroups(infos, panes).nextId
    ensures Sound(l.(st := st'))
  {
    RestoredGroupsOk(l, infos, panes);
    OnlyGroupsOk(RestoredGroups(infos, panes), st');
    forall i | 0 <= i < |st'.groups|
      ensures IsSubtree(l.tree, ToSet(st'.groups[i].members))
    {
      RestoredGroupPlaced(l, infos, panes, i);
    }
    forall j | 0 <= j < |st'.stacks|
      ensures StackOk(st', l.tree, l.hidden, st'.stacks[j])
    {
      AlikeStackOk(l, StackLists(infos, panes)[j].0, st', st'.stacks[j]);
    }
    StacksApart(l, infos, panes, st');
  }

  lemma {:induction false} OnlyGroupsOk(st: Groups, st': Groups)
    requires GroupsOk(st) && st'.groups == st.groups && st'.nextId == st.nextId
    ensures GroupsOk(st')
  {
  }

  lemma {:induction false} RestoredGroupPlaced<N(!new)>(l: Layout<N>, infos: seq<LeafInfo>, panes: seq<PaneId>, i: nat)
    requires Saving(l, infos, panes) && i < |RestoredGroups(infos, panes).groups|
    ensures IsSubtree(l.tree, ToSet(RestoredGroups(infos, panes).groups[i].members))
  {
    RestoredGroupsOk(l, infos, panes);
    var h := SavedGroup(l, infos, panes, i);
  }

  /** The pane is in a unit of the same panes, stacked between units of the same panes
      in the same order with the same one on show, or not stacked, as it was. */
  ghost predicate SamePlace(st: Groups, st': Groups, p: PaneId) {
    var (u, u') := (st.UnitOf(p), st'.UnitOf(p));
    && Alike(st, u, st', u')
    && match (st.StackOf(u), st'.StackOf(u'))
       case (None, None) => true
       case (Some(k), Some(j)) =>
         && StacksAlike(st, st.stacks[k], st', st'.stacks[j])
         && Position(st'.stacks[j].units, u') == Position(st.stacks[k].units, u)
       case _ => false
  }

  /** What `StacksBack` and `RestoredSound` say of a restored state. */
  ghost predicate Back<N(!new)>(l: Layout<N>, infos: seq<LeafInfo>, panes: seq<PaneId>, st': Groups) {
    && Saving(l, infos, panes) && StacksBack(l, infos, panes, st')
    && st'.groups == RestoredGroups(infos, panes).groups && Sound(l.(st := st'))
  }

  lemma {:induction false} StackedPlace<N(!new)>(l: Layout<N>, infos: seq<LeafInfo>, panes: seq<PaneId>, st': Groups,
                                                 p: PaneId)
    requires Back(l, infos, panes, st') && p in panes && l.st.StackOf(l.st.UnitOf(p)).Some?
    requires Alike(l.st, l.st.UnitOf(p), st', st'.UnitOf(p))
    ensures SamePlace(l.st, st', p)
  {
    var (u, lists) := (l.st.UnitOf(p), StackLists(infos, panes));
    var k := l.st.StackOf(u).value;
    var i :| 0 <= i < |panes| && panes[i] == p;
    assert infos[i] == InfoOf(l.st, p);
    SavedStacks(l, infos, panes);
    var j := Index(lists, k).value;
    var stack' := st'.stacks[j];
    assert StackBack(l.st, l.st.stacks[k], st', stack');
    var a := Position(l.st.stacks[k].units, u);
    assert Alike(l.st, u, st', stack'.units[a]);
    UnitOfCanonical(l.st, p);
    AlikePanes(l.st, u, st', stack'.units[a], p);
    assert StackOk(st', l.tree, l.hidden, stack');
    assert Canonical(st', stack'.units[a]) && st'.UnitOf(p) == stack'.units[a];
    SameStack(st', stack'.units[a], j);
  }

  /** A pane that is stacked afterwards was stacked before. */
  lemma {:induction false} WasStacked<N(!new)>(l: Layout<N>, infos: seq<LeafInfo>, panes: seq<PaneId>, st': Groups,
                                               p: PaneId)
    requires Back(l, infos, panes, st') && p in panes && st'.StackOf(st'.UnitOf(p)).Some?
    ensures l.st.StackOf(l.st.UnitOf(p)).Some?
  {
    var j := st'.StackOf(st'.UnitOf(p)).value;
    var (k, a) := (StackLists(infos, panes)[j].0, Position(st'.stacks[j].units, st'.UnitOf(p)));
    assert StackBack(l.st, l.st.stacks[k], st', st'.stacks[j]);
    var u := l.st.stacks[k].units[a];
    assert Alike(l.st, u, st', st'.UnitOf(p));
    UnitOfCanonical(st', p);
    AlikePanes(l.st, u, st', st'.UnitOf(p), p);
    assert StackOk(l.st, l.tree, l.hidden, l.st.stacks[k]);
    assert Canonical(l.st, u) && l.st.UnitOf(p) == u;
  }

  lemma {:induction false} PlaceComesBack<N(!new)>(l: Layout<N>, infos: seq<LeafInfo>, panes: seq<PaneId>,
                                                   st': Groups, p: PaneId)
    requires Back(l, infos, panes, st') && p in panes
    ensures SamePlace(l.st, st', p)
  {
    UnitComesBack(l, infos, panes, p);
    SameUnitsOf(RestoredGroups(infos, panes), st');
    if l.st.StackOf(l.st.UnitOf(p)).Some? {
      StackedPlace(l, infos, panes, st', p);
    } else if st'.StackOf(st'.UnitOf(p)).Some? {
      WasStacked(l, infos, panes, st', p);
    }
  }

  /** Saving a layout and restoring it succeeds, keeps the invariant and puts every
      pane into its place: groups and stacks are as before, up to their ids and order. */
  lemma {:induction false} SavedRestores<N(!new)>(l: Layout<N>)
    requires Sound(l) && Full(l.tree) && |Leaves(l.tree)| < ID_LIMIT
    ensures var r := Restored(Saved(l.st, l.tree), Leaves(l.tree), SubtreeLeafSets(l.tree), l.hidden);
            && r.Some? && Sound(l.(st := r.value))
            && forall p :: p in LeafSet(l.tree) ==> SamePlace(l.st, r.value, p)
  {
    var (infos, panes) := (Saved(l.st, l.tree), Leaves(l.tree));
    SavedIsSaving(l);
    StacksComeBack(l, infos, panes);
    var st := RestoredGroups(infos, panes);
    var st' := st.(stacks := StacksMade(st, StackLists(infos, panes), l.hidden));
    RestoredSound(l, infos, panes, st');
    InvValidates(st', l.tree, l.hidden);
    assert Restored(infos, panes, SubtreeLeafSets(l.tree), l.hidden) == Some(st');
    forall p | p in LeafSet(l.tree)
      ensures SamePlace(l.st, st', p)
    {
      assert p in ToSet(panes);
      PlaceComesBack(l, infos, panes, st', p);
    }
  }
}
