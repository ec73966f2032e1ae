/** Panes of a tab that trade places: which groups and stacks survive
    `swap_active_with_index`, `swap_panes` and the rotations of `mux/src/tab.rs`. */
module PaneSwaps {
  import opened Wrappers
  import opened Sequences
  import opened BinTree
  import opened SubtreeSets
  import opened PaneGroup
  import opened PaneLayout
  import opened TabLayout
  import opened UnitMoves
  import opened GroupStates
  import opened LeafSwaps
  import opened PaneValidity

  function SwapLeaves<N>(l: Layout<N>, x: PaneId, y: PaneId): Layout<N> { l.(tree := Swapped(l.tree, x, y)) }

  /** The panes are in one unit, or both lone in one stack or in none. */
  predicate SameSlot(st: Groups, x: PaneId, y: PaneId) {
    || st.UnitOf(x) == st.UnitOf(y)
    || (st.UnitOf(x).Pane? && st.UnitOf(y).Pane? && st.StackOf(st.UnitOf(x)) == st.StackOf(st.UnitOf(y)))
  }

  /** `s` holds both panes or neither. */
  predicate Together(s: set<PaneId>, x: PaneId, y: PaneId) { x in s <==> y in s }

  // ----- Which groups and stacks hold a pane -----

  lemma {:induction false} InGroup(st: Groups, i: nat, x: PaneId)
    requires GroupsOk(st) && i < |st.groups|
    ensures x in st.groups[i].members <==> st.UnitOf(x) == Group(st.groups[i].id)
  {
    GroupFound(st, i);
    match FindMember(st.groups, x)
    case Some(j) => GroupFound(st, j);
    case None =>
  }

  lemma {:induction false} InStack(st: Groups, k: nat, x: PaneId)
    requires GroupsOk(st) && UnitsDistinct(st.stacks) && k < |st.stacks|
    requires forall a :: 0 <= a < |st.stacks[k].units| ==> Canonical(st, st.stacks[k].units[a])
    ensures x in UnitsSet(st, st.stacks[k].units) <==> st.StackOf(st.UnitOf(x)) == Some(k)
  {
    UnitOfCanonical(st, x);
    if st.UnitOf(x) in st.stacks[k].units {
      SameStack(st, st.UnitOf(x), k);
    }
    if x in UnitsSet(st, st.stacks[k].units) {
      var u :| u in st.stacks[k].units && x in st.UnitPanes(u);
      assert u == st.UnitOf(x);
    }
  }

  lemma {:induction false} GroupTogether(st: Groups, i: nat, x: PaneId, y: PaneId)
    requires GroupsOk(st) && i < |st.groups| && SameSlot(st, x, y)
    ensures Together(ToSet(st.groups[i].members), x, y)
  {
    InGroup(st, i, x);
    InGroup(st, i, y);
  }

  lemma {:induction false} StackTogether<N(!new)>(l: Layout<N>, k: nat, x: PaneId, y: PaneId)
    requires Sound(l) && k < |l.st.stacks| && SameSlot(l.st, x, y)
    ensures Together(UnitsSet(l.st, l.st.stacks[k].units), x, y)
  {
    assert StackOk(l.st, l.tree, l.hidden, l.st.stacks[k]);
    InStack(l.st, k, x);
    InStack(l.st, k, y);
  }

  // ----- Groups and stacks of two or more panes -----

  lemma {:induction false} GroupSurvivesIff<N(!new)>(l: Layout<N>, i: nat, x: PaneId, y: PaneId)
    requires Sound(l) && i < |l.st.groups|
    ensures IsSubtree(l.tree, ToSet(l.st.groups[i].members))
    ensures IsSubtree(Swapped(l.tree, x, y), ToSet(l.st.groups[i].members)) <==>
              Together(ToSet(l.st.groups[i].members), x, y)
  {
    var m := l.st.groups[i].members;
    assert GroupOk(l.st.groups[i], l.st.nextId);
    SubtreeNotEmpty(l.tree, ToSet(m));
    SubtreeSurvivesSwapIff(l.tree, x, y, ToSet(m), m[0], m[1]);
  }

  lemma {:induction false} SubtreeNotEmpty<N(!new)>(t: Tree<PaneId, N>, s: set<PaneId>)
    requires IsSubtree(t, s)
    ensures !t.Empty?
  {
  }

  lemma {:induction false} StackSurvivesIff<N(!new)>(l: Layout<N>, k: nat, x: PaneId, y: PaneId)
    requires Sound(l) && k < |l.st.stacks|
    ensures var s := UnitsSet(l.st, l.st.stacks[k].units);
            IsSubtree(Swapped(l.tree, x, y), s) <==> Together(s, x, y)
  {
    var units := l.st.stacks[k].units;
    assert StackOk(l.st, l.tree, l.hidden, l.st.stacks[k]);
    var (p, q) := (l.st.UnitPanes(units[0])[0], l.st.UnitPanes(units[1])[0]);
    assert p in l.st.UnitPanes(units[0]) && q in l.st.UnitPanes(units[1]);
    assert units[0] != units[1];
    SubtreeNotEmpty(l.tree, UnitsSet(l.st, units));
    SubtreeSurvivesSwapIff(l.tree, x, y, UnitsSet(l.st, units), p, q);
  }

  // ----- Trading places -----

  lemma {:induction false} SwapKeepsSound<N(!new)>(l: Layout<N>, x: PaneId, y: PaneId)
    requires Sound(l) && {x, y} <= LeafSet(l.tree) && SameSlot(l.st, x, y)
    ensures Sound(SwapLeaves(l, x, y))
  {
    var l' := SwapLeaves(l, x, y);
    SwappedWhole(l.tree, x, y);
    forall i | 0 <= i < |l.st.groups|
      ensures IsSubtree(l'.tree, ToSet(l.st.groups[i].members))
    {
      GroupTogether(l.st, i, x, y);
      GroupSurvivesIff(l, i, x, y);
    }
    forall k | 0 <= k < |l.st.stacks|
      ensures StackOk(l.st, l'.tree, l.hidden, l.st.stacks[k])
    {
      StackTogether(l, k, x, y);
      StackSurvivesIff(l, k, x, y);
      assert StackOk(l.st, l.tree, l.hidden, l.st.stacks[k]);
      StackMoved(l.st, l.tree, l'.tree, l.hidden, l.st.stacks[k]);
    }
  }

  lemma {:induction false} StackMoved<N(!new)>(st: Groups, t: Tree<PaneId, N>, t': Tree<PaneId, N>,
                                               hidden: set<PaneId>, stack: PaneStack)
    requires StackOk(st, t, hidden, stack) && IsSubtree(t', UnitsSet(st, stack.units))
    ensures StackOk(st, t', hidden, stack)
  {
  }

  lemma {:induction false} TornGroup<N(!new)>(l: Layout<N>, i: nat, x: PaneId, y: PaneId)
    requires Sound(l) && i < |l.st.groups| && !Together(ToSet(l.st.groups[i].members), x, y)
    ensures !GroupValid(l.st.groups[i], SubtreeLeafSets(Swapped(l.tree, x, y)))
  {
    GroupSurvivesIff(l, i, x, y);
  }

  lemma {:induction false} TornStack<N(!new)>(l: Layout<N>, k: nat, x: PaneId, y: PaneId)
    requires Sound(l) && k < |l.st.stacks| && !Together(UnitsSet(l.st, l.st.stacks[k].units), x, y)
    ensures !StackValid(l.st, l.st.stacks[k], SubtreeLeafSets(Swapped(l.tree, x, y)), l.hidden)
  {
    StackSurvivesIff(l, k, x, y);
  }

  lemma {:induction false} ApartNotValid<N(!new)>(l: Layout<N>, x: PaneId, y: PaneId)
    requires Sound(l) && !SameSlot(l.st, x, y)
    ensures !Validates(l.st, SubtreeLeafSets(Swapped(l.tree, x, y)), l.hidden)
  {
    var st := l.st;
    var (u, v) := (st.UnitOf(x), st.UnitOf(y));
    if u.Group? || v.Group? {
      var i := FindMember(st.groups, if u.Group? then x else y).value;
      InGroup(st, i, x);
      InGroup(st, i, y);
      TornGroup(l, i, x, y);
    } else {
      var k := (if st.StackOf(u).Some? then st.StackOf(u) else st.StackOf(v)).value;
      assert StackOk(st, l.tree, l.hidden, st.stacks[k]);
      InStack(st, k, x);
      InStack(st, k, y);
      TornStack(l, k, x, y);
    }
  }

  /** Two panes trade places and `validate` still accepts the layout exactly when
      they are in one unit, or both in no group and in one stack or none. */
  lemma {:induction false} SwapValidatesIff<N(!new)>(l: Layout<N>, x: PaneId, y: PaneId)
    requires Sound(l) && {x, y} <= LeafSet(l.tree)
    ensures Sound(SwapLeaves(l, x, y)) <==> SameSlot(l.st, x, y)
    ensures Validates(l.st, SubtreeLeafSets(SwapLeaves(l, x, y).tree), l.hidden) <==> SameSlot(l.st, x, y)
  {
    var l' := SwapLeaves(l, x, y);
    if SameSlot(l.st, x, y) {
      SwapKeepsSound(l, x, y);
      InvValidates(l.st, l'.tree, l.hidden);
    } else {
      ApartNotValid(l, x, y);
      if Sound(l') {
        InvValidates(l.st, l'.tree, l.hidden);
      }
    }
  }

  // ----- What the guards of `swap_panes` and the rotations are for -----

  /** A stack hides something. */
  lemma {:induction false} StackHides<N(!new)>(l: Layout<N>, k: nat) returns (p: PaneId)
    requires Sound(l) && k < |l.st.stacks|
    ensures p in l.hidden
  {
    var stack := l.st.stacks[k];
    assert StackOk(l.st, l.tree, l.hidden, stack);
    var behind := stack.units[if stack.active == 0 then 1 else 0];
    assert Concealed(l.st, behind, l.hidden) && Canonical(l.st, behind);
    p := l.st.UnitPanes(behind)[0];
    assert p in l.st.UnitPanes(behind);
  }

  /** `swap_panes` asks for lone panes and for nothing hidden, and so for nothing stacked. */
  lemma {:induction false} SwapPanesKeepsSound<N(!new)>(l: Layout<N>, x: PaneId, y: PaneId)
    requires Sound(l) && {x, y} <= LeafSet(l.tree)
    requires l.hidden == {} && l.st.UnitOf(x).Pane? && l.st.UnitOf(y).Pane?
    ensures Sound(SwapLeaves(l, x, y))
  {
    if l.st.stacks != [] {
      var p := StackHides(l, 0);
      assert false;
    }
    SwapKeepsSound(l, x, y);
  }

  /** Without groups and stacks the panes may come to lie in any order. */
  lemma {:induction false} RotationKeepsSound<N(!new)>(l: Layout<N>, u: Tree<PaneId, N>)
    requires Sound(l) && Full(l.tree) && l.st.groups == [] && l.st.stacks == []
    requires SameShape(l.tree, u) && multiset(Leaves(u)) == multiset(Leaves(l.tree))
    ensures Sound(l.(tree := u)) && LeafSet(u) == LeafSet(l.tree)
  {
    ShapeFull(l.tree, u);
    LeavesAreLeafSet(l.tree);
    LeavesAreLeafSet(u);
    DistinctNoRepeats(l.tree);
    DistinctNoRepeats(u);
    PermutedNoRepeats(Leaves(l.tree), Leaves(u));
  }

  lemma {:induction false} PermutedNoRepeats(s: seq<PaneId>, r: seq<PaneId>)
    requires NoRepeats(s) && multiset(s) == multiset(r)
    ensures NoRepeats(r) && ToSet(r) == ToSet(s)
  {
    forall p ensures p in r <==> p in s {
      assert p in r <==> p in multiset(r);
      assert p in s <==> p in multiset(s);
    }
    forall i, j | 0 <= i < j < |r|
      ensures r[i] != r[j]
    {
      TwiceIn(r, i, j);
      OnceInNoRepeats(s, r[i]);
    }
  }

  lemma {:induction false} TwiceIn<T>(r: seq<T>, i: nat, j: nat)
    requires i < j < |r|
    ensures r[i] == r[j] ==> multiset(r)[r[i]] >= 2
  {
    assert r == r[..j] + [r[j]] + r[j + 1..];
    assert r[..j][i] == r[i];
  }

  lemma {:induction false} OnceInNoRepeats<T>(s: seq<T>, p: T)
    requires NoRepeats(s)
    ensures multiset(s)[p] <= 1
  {
    if s != [] {
      var n := |s| - 1;
      assert s == s[..n] + [s[n]];
      OnceInNoRepeats(s[..n], p);
      if s[n] == p {
        assert p !in s[..n];
      }
    }
  }
}
