/** Batching of pane output, after `parse_buffered_data` of `mux/src/lib.rs`:
    parsed actions are collected and sent in batches, and a synchronized section
    is held back until it ends. */
module OutputBatching {
  import opened Sequences
  import opened Bits

  datatype Action =
    | Print(c: char)
    | PrintString(s: string)
    | SetSynchronized
    | ResetSynchronized
    | SoftReset
    | Other(code: nat)

  predicate EndsHold(a: Action) { a.ResetSynchronized? || a.SoftReset? }

  // ----- Actions of a byte stream -----

  /** The escape parser, as a machine that takes one byte at a time. */
  datatype Machine<!S> = Machine(start: S, step: (S, Byte) -> (S, seq<Action>))

  function Parse<S>(m: Machine<S>, state: S, bytes: seq<Byte>): (S, seq<Action>) {
    if bytes == [] then (state, [])
    else
      var (before, acts) := Parse(m, state, bytes[..|bytes| - 1]);
      var (after, more) := m.step(before, bytes[|bytes| - 1]);
      (after, acts + more)
  }

  lemma {:induction false} ParseConcat<S>(m: Machine<S>, state: S, a: seq<Byte>, b: seq<Byte>)
    ensures var (s, acts) := Parse(m, state, a);
            var (t, more) := Parse(m, s, b);
            Parse(m, state, a + b) == (t, acts + more)
  {
    if b == [] {
      assert a + b == a;
      assert Parse(m, state, a).1 + [] == Parse(m, state, a).1;
    } else {
      var n := |b| - 1;
      ParseConcat(m, state, a, b[..n]);
      assert (a + b)[..|a + b| - 1] == a + b[..n] && (a + b)[|a + b| - 1] == b[n];
      var (s, acts) := Parse(m, state, a);
      var (t, more) := Parse(m, s, b[..n]);
      Assoc(acts, more, m.step(t, b[n]).1);
    }
  }

  // ----- Merging of prints -----

  /** `Action::append_to`: a character joins the text at the end, if there is one. */
  function Append(dest: seq<Action>, a: Action): seq<Action> {
    if a.Print? && dest != [] then
      var n := |dest| - 1;
      match dest[n]
      case PrintString(s) => dest[..n] + [PrintString(s + [a.c])]
      case Print(prior) => dest[..n] + [PrintString([prior, a.c])]
      case _ => dest + [a]
    else dest + [a]
  }

  function Merged(acts: seq<Action>): seq<Action> {
    if acts == [] then [] else Append(Merged(acts[..|acts| - 1]), acts[|acts| - 1])
  }

  function Chars(s: string): seq<Action> { seq(|s|, i requires 0 <= i < |s| => Print(s[i])) }

  /** The actions with all text cut into single characters: what the pane performs. */
  function Expand(acts: seq<Action>): seq<Action> {
    if acts == [] then []
    else
      var last := acts[|acts| - 1];
      Expand(acts[..|acts| - 1]) + if last.PrintString? then Chars(last.s) else [last]
  }

  function Flat(batches: seq<seq<Action>>): seq<Action> {
    if batches == [] then [] else Flat(batches[..|batches| - 1]) + batches[|batches| - 1]
  }

  lemma {:induction false} ExpandConcat(a: seq<Action>, b: seq<Action>)
    ensures Expand(a + b) == Expand(a) + Expand(b)
  {
    if b == [] {
      assert a + b == a;
    } else {
      var n := |b| - 1;
      ExpandConcat(a, b[..n]);
      assert (a + b)[..|a + b| - 1] == a + b[..n] && (a + b)[|a + b| - 1] == b[n];
      Assoc(Expand(a), Expand(b[..n]), if b[n].PrintString? then Chars(b[n].s) else [b[n]]);
    }
  }

  lemma {:induction false} AppendExpands(dest: seq<Action>, a: Action)
    ensures Append(dest, a) != []
    ensures Expand(Append(dest, a)) == Expand(dest) + Expand([a])
  {
    ExpandConcat(dest, [a]);
    if a.Print? && dest != [] {
      var n := |dest| - 1;
      var last := dest[n];
      if last.Print? || last.PrintString? {
        var text := if last.Print? then [last.c] else last.s;
        ExpandConcat(dest[..n], [PrintString(text + [a.c])]);
        assert Chars(text + [a.c]) == Chars(text) + [a];
        assert Expand([PrintString(text + [a.c])]) == Chars(text + [a.c]);
        assert Chars([a.c]) == [a] && (last.Print? ==> Chars(text) == [last]);
      }
    }
  }

  lemma {:induction false} MergedExpands(acts: seq<Action>)
    ensures Expand(Merged(acts)) == Expand(acts)
    ensures acts != [] ==> Merged(acts) != []
  {
    if acts != [] {
      var n := |acts| - 1;
      MergedExpands(acts[..n]);
      AppendExpands(Merged(acts[..n]), acts[n]);
      ExpandConcat(acts[..n], [acts[n]]);
      assert acts == acts[..n] + [acts[n]];
    }
  }

  predicate Text(a: Action) { a.Print? || a.PrintString? }

  predicate Tight(t: seq<Action>) { forall i :: 0 < i < |t| && t[i].Print? ==> !Text(t[i - 1]) }

  /** No single character is left beside text that it could join. */
  lemma {:induction false} MergedIsTight(acts: seq<Action>)
    ensures Tight(Merged(acts))
  {
    if acts != [] {
      var n := |acts| - 1;
      MergedIsTight(acts[..n]);
      AppendIsTight(Merged(acts[..n]), acts[n]);
    }
  }

  lemma {:induction false} AppendIsTight(dest: seq<Action>, a: Action)
    requires Tight(dest)
    ensures Tight(Append(dest, a))
  {
  }

  // ----- Deliveries -----

  /** Whether a synchronized section is open after `acts`. */
  function Hold(acts: seq<Action>): bool {
    if acts == [] then false
    else
      var last := acts[|acts| - 1];
      last.SetSynchronized? || (!EndsHold(last) && Hold(acts[..|acts| - 1]))
  }

  /** The actions parsed so far, and where they were cut into which batches. */
  datatype Progress = Progress(seen: seq<Action>, cuts: seq<nat>, sent: seq<seq<Action>>)

  predicate IsBatch(acts: seq<Action>, from: nat, to: nat, batch: seq<Action>) {
    from < to <= |acts| && batch == Merged(acts[from..to])
  }

  function Last(cuts: seq<nat>): nat { if cuts == [] then 0 else cuts[|cuts| - 1] }

  /** Each batch is what was parsed between two cuts. */
  predicate Batches(acts: seq<Action>, cuts: seq<nat>, sent: seq<seq<Action>>) {
    if cuts == [] then sent == []
    else
      var n := |cuts| - 1;
      |sent| == n + 1 && IsBatch(acts, Last(cuts[..n]), cuts[n], sent[n]) && Batches(acts, cuts[..n], sent[..n])
  }

  predicate BatchesAtCuts(p: Progress) { Batches(p.seen, p.cuts, p.sent) && LastCut(p) <= |p.seen| }

  function LastCut(p: Progress): nat { Last(p.cuts) }

  /** A cut at `n` does not cut into a synchronized section. */
  predicate CutAllowed(acts: seq<Action>, n: nat) {
    n <= |acts| && (!Hold(acts[..n]) || (n < |acts| && acts[n].SetSynchronized?))
  }

  /** There is a cut before every start of a section and after every end of one. */
  predicate CutsAtSections(acts: seq<Action>, cuts: seq<nat>) {
    forall i | 0 <= i < |acts| :: CutAround(acts[i], i, cuts)
  }

  predicate CutAround(a: Action, i: nat, cuts: seq<nat>) {
    && (a.SetSynchronized? ==> i == 0 || i in cuts)
    && (EndsHold(a) ==> i + 1 in cuts)
  }

  /** The batches sent before the end of the input. */
  predicate Underway(p: Progress) {
    && BatchesAtCuts(p) && CutsAtSections(p.seen, p.cuts)
    && forall n | n in p.cuts :: CutAllowed(p.seen, n)
  }

  /** All batches: nothing is left over, and only the last one may end in a section. */
  predicate Delivered(p: Progress) {
    && BatchesAtCuts(p) && LastCut(p) == |p.seen| && CutsAtSections(p.seen, p.cuts)
    && forall n | n in p.cuts :: n == |p.seen| || CutAllowed(p.seen, n)
  }

  // ----- How a delivery grows -----

  function Pending(p: Progress): seq<Action>
    requires LastCut(p) <= |p.seen|
  {
    Merged(p.seen[LastCut(p)..])
  }

  function Cut(p: Progress): Progress
    requires LastCut(p) <= |p.seen|
  {
    Progress(p.seen, p.cuts + [|p.seen|], p.sent + [Pending(p)])
  }

  lemma {:induction false} PendingEmpty(p: Progress)
    requires LastCut(p) <= |p.seen|
    ensures Pending(p) == [] <==> LastCut(p) == |p.seen|
    ensures Pending(Cut(p)) == []
  {
    MergedExpands(p.seen[LastCut(p)..]);
  }

  lemma {:induction false} CutKeeps(p: Progress)
    requires BatchesAtCuts(p) && LastCut(p) < |p.seen|
    ensures BatchesAtCuts(Cut(p)) && LastCut(Cut(p)) == |p.seen|
  {
    var q := Cut(p);
    assert p.seen[LastCut(p)..|p.seen|] == p.seen[LastCut(p)..];
    assert q.cuts[..|p.cuts|] == p.cuts && q.sent[..|p.cuts|] == p.sent by { SameLength(p.seen, p.cuts, p.sent); }
  }

  lemma {:induction false} SameLength(acts: seq<Action>, cuts: seq<nat>, sent: seq<seq<Action>>)
    requires Batches(acts, cuts, sent)
    ensures |sent| == |cuts|
  {
  }

  /** A batch of everything pending. */
  lemma {:induction false} CutHere(p: Progress)
    requires Underway(p) && LastCut(p) < |p.seen|
    ensures Delivered(Cut(p))
    ensures !Hold(p.seen) ==> Underway(Cut(p))
  {
    CutKeeps(p);
    assert p.seen[..|p.seen|] == p.seen;
    var q := Cut(p);
    forall i | 0 <= i < |q.seen| ensures CutAround(q.seen[i], i, q.cuts) {
      assert CutAround(p.seen[i], i, p.cuts);
    }
  }

  lemma {:induction false} HoldSnoc(acts: seq<Action>, a: Action, n: nat)
    requires n <= |acts|
    ensures (acts + [a])[..n] == acts[..n]
    ensures Hold(acts + [a]) == (a.SetSynchronized? || (!EndsHold(a) && Hold(acts)))
    ensures Merged((acts + [a])[n..]) == Append(Merged(acts[n..]), a) != []
  {
    assert (acts + [a])[..|acts|] == acts;
    assert (acts + [a])[n..] == acts[n..] + [a];
    assert (acts[n..] + [a])[..|acts[n..]|] == acts[n..];
    AppendExpands(Merged(acts[n..]), a);
  }

  lemma {:induction false} BatchesExtend(acts: seq<Action>, a: Action, cuts: seq<nat>, sent: seq<seq<Action>>)
    requires Batches(acts, cuts, sent)
    ensures Batches(acts + [a], cuts, sent)
  {
    if cuts != [] {
      var n := |cuts| - 1;
      BatchesExtend(acts, a, cuts[..n], sent[..n]);
      assert (acts + [a])[Last(cuts[..n])..cuts[n]] == acts[Last(cuts[..n])..cuts[n]];
    }
  }

  lemma {:induction false} CutStaysAllowed(acts: seq<Action>, a: Action, n: nat)
    requires CutAllowed(acts, n) || (n == |acts| && a.SetSynchronized?)
    ensures CutAllowed(acts + [a], n)
  {
    HoldSnoc(acts, a, n);
  }

  /** How an action changes what is pending and held. */
  predicate Grown(p: Progress, a: Action) {
    && LastCut(p) <= |p.seen|
    && Pending(p.(seen := p.seen + [a])) == Append(Pending(p), a) != []
    && Hold(p.seen + [a]) == (a.SetSynchronized? || (!EndsHold(a) && Hold(p.seen)))
  }

  lemma {:induction false} Grows(p: Progress, a: Action)
    requires LastCut(p) <= |p.seen|
    ensures Grown(p, a)
  {
    HoldSnoc(p.seen, a, LastCut(p));
  }

  lemma {:induction false} SectionsSnoc(acts: seq<Action>, a: Action, cuts: seq<nat>, more: seq<nat>)
    requires CutsAtSections(acts, cuts) && (forall n | n in cuts :: n in more) && CutAround(a, |acts|, more)
    ensures CutsAtSections(acts + [a], more)
  {
    forall i | 0 <= i < |acts + [a]| ensures CutAround((acts + [a])[i], i, more) {
      assert i < |acts| ==> CutAround(acts[i], i, cuts);
    }
  }

  /** An action that neither opens nor closes a section. */
  lemma {:induction false} GrowPlain(p: Progress, a: Action)
    requires Underway(p) && !a.SetSynchronized? && !EndsHold(a)
    ensures Underway(p.(seen := p.seen + [a]))
    ensures Grown(p, a)
  {
    Grows(p, a);
    BatchesExtend(p.seen, a, p.cuts, p.sent);
    forall n | n in p.cuts ensures CutAllowed(p.seen + [a], n) {
      CutStaysAllowed(p.seen, a, n);
    }
    SectionsSnoc(p.seen, a, p.cuts, p.cuts);
  }

  /** The start of a section, what was pending having been sent. */
  lemma {:induction false} GrowSet(p: Progress, a: Action)
    requires Delivered(p) && (forall n | n in p.cuts && n < |p.seen| :: CutAllowed(p.seen, n)) && a.SetSynchronized?
    ensures Underway(p.(seen := p.seen + [a]))
    ensures Grown(p, a)
  {
    Grows(p, a);
    BatchesExtend(p.seen, a, p.cuts, p.sent);
    forall n | n in p.cuts ensures CutAllowed(p.seen + [a], n) {
      CutStaysAllowed(p.seen, a, n);
    }
    SectionsSnoc(p.seen, a, p.cuts, p.cuts);
  }

  /** The end of a section, sent together with what is pending. */
  lemma {:induction false} GrowEnd(p: Progress, a: Action)
    requires Underway(p) && EndsHold(a)
    ensures Underway(Cut(p.(seen := p.seen + [a])))
    ensures Grown(p, a)
    ensures Pending(Cut(p.(seen := p.seen + [a]))) == []
  {
    var grown := p.(seen := p.seen + [a]);
    var q := Cut(grown);
    Grows(p, a);
    BatchesExtend(p.seen, a, p.cuts, p.sent);
    CutKeeps(grown);
    PendingEmpty(grown);
    assert q.seen[..|q.seen|] == q.seen;
    forall n | n in q.cuts ensures CutAllowed(q.seen, n) {
      if n in p.cuts {
        CutStaysAllowed(p.seen, a, n);
      }
    }
    SectionsSnoc(p.seen, a, p.cuts, q.cuts);
  }

  /** One more action: sections start and end with a batch of what is pending. */
  lemma {:induction false} StepSet(p: Progress, a: Action) returns (next: Progress)
    requires Underway(p) && a.SetSynchronized?
    ensures Underway(next) && next.seen == p.seen + [a] && Hold(next.seen) && Pending(next) == Append([], a)
    ensures next.sent == (if Pending(p) != [] then p.sent + [Pending(p)] else p.sent)
    ensures next.cuts == if Pending(p) != [] then p.cuts + [|p.seen|] else p.cuts
  {
    PendingEmpty(p);
    var before := p;
    if Pending(p) != [] {
      CutHere(p);
      before := Cut(p);
    }
    GrowSet(before, a);
    next := before.(seen := p.seen + [a]);
  }

  lemma {:induction false} StepEnd(p: Progress, a: Action) returns (next: Progress)
    requires Underway(p) && EndsHold(a)
    ensures Underway(next) && next.seen == p.seen + [a] && !Hold(next.seen) && Pending(next) == []
    ensures next.sent == p.sent + [Append(Pending(p), a)] && next.cuts == p.cuts + [|p.seen| + 1]
  {
    GrowEnd(p, a);
    next := Cut(p.(seen := p.seen + [a]));
  }

  lemma {:induction false} StepPlain(p: Progress, a: Action) returns (next: Progress)
    requires Underway(p) && !a.SetSynchronized? && !EndsHold(a)
    ensures Underway(next) && next.seen == p.seen + [a] && Hold(next.seen) == Hold(p.seen)
    ensures Pending(next) == Append(Pending(p), a) && next.sent == p.sent && next.cuts == p.cuts
  {
    GrowPlain(p, a);
    next := p.(seen := p.seen + [a]);
  }

  // ----- What a delivery is worth -----

  /** Nothing is lost, repeated or reordered, and no batch is empty. */
  lemma {:induction false} DeliveredConserves(p: Progress)
    requires Delivered(p)
    ensures Expand(Flat(p.sent)) == Expand(p.seen)
    ensures [] !in p.sent
  {
    BatchesConserve(p.seen, p.cuts, p.sent);
    assert p.seen[..|p.seen|] == p.seen;
  }

  lemma {:induction false} BatchesConserve(acts: seq<Action>, cuts: seq<nat>, sent: seq<seq<Action>>)
    requires Batches(acts, cuts, sent)
    ensures Last(cuts) <= |acts|
    ensures Expand(Flat(sent)) == Expand(acts[..Last(cuts)])
    ensures [] !in sent
  {
    if cuts != [] {
      var n := |cuts| - 1;
      var (from, to) := (Last(cuts[..n]), cuts[n]);
      BatchesConserve(acts, cuts[..n], sent[..n]);
      assert sent == sent[..n] + [sent[n]];
      MergedExpands(acts[from..to]);
      ExpandConcat(Flat(sent[..n]), sent[n]);
      ExpandConcat(acts[..from], acts[from..to]);
      assert acts[..from] + acts[from..to] == acts[..to];
    }
  }

  /** Every completed section is sent as one batch, and nothing else is in it. */
  lemma {:induction false} SectionIsOneBatch(p: Progress, a: nat, b: nat)
    requires Delivered(p) && a < b < |p.seen| && p.seen[a].SetSynchronized? && EndsHold(p.seen[b])
    requires forall i | a < i < b :: !p.seen[i].SetSynchronized? && !EndsHold(p.seen[i])
    ensures Merged(p.seen[a..b + 1]) in p.sent
  {
    assert CutAround(p.seen[a], a, p.cuts) && CutAround(p.seen[b], b, p.cuts);
    forall n | n in p.cuts ensures n <= a || b < n {
      if a < n <= b {
        HoldInside(p.seen, a, n);
      }
    }
    BatchBetween(p.seen, p.cuts, p.sent, a, b + 1);
  }

  lemma {:induction false} BatchBetween(acts: seq<Action>, cuts: seq<nat>, sent: seq<seq<Action>>, from: nat, to: nat)
    requires Batches(acts, cuts, sent) && from < to <= |acts| && to in cuts && (from == 0 || from in cuts)
    requires forall n | n in cuts :: n <= from || to <= n
    ensures Merged(acts[from..to]) in sent
  {
    var n := |cuts| - 1;
    var before := cuts[..n];
    CutsIncrease(acts, before, sent[..n]);
    assert cuts == before + [cuts[n]];
    assert IsBatch(acts, Last(before), cuts[n], sent[n]);
    assert Last(before) == 0 || Last(before) in before;
    assert forall c :: c in cuts <==> c in before || c == cuts[n];
    if cuts[n] == to {
      assert Last(before) == from;
      assert sent[n] in sent;
    } else {
      BatchBetween(acts, cuts[..n], sent[..n], from, to);
    }
  }

  lemma {:induction false} HoldInside(acts: seq<Action>, a: nat, n: nat)
    requires a < n <= |acts| && acts[a].SetSynchronized? && forall i | a < i < n :: !EndsHold(acts[i])
    ensures Hold(acts[..n])
  {
    assert acts[..n][..n - 1] == acts[..n - 1];
    if n > a + 1 {
      HoldInside(acts, a, n - 1);
    }
  }

  lemma {:induction false} CutsIncrease(acts: seq<Action>, cuts: seq<nat>, sent: seq<seq<Action>>)
    requires Batches(acts, cuts, sent)
    ensures forall n | n in cuts :: n <= Last(cuts)
  {
    if cuts != [] {
      var n := |cuts| - 1;
      CutsIncrease(acts, cuts[..n], sent[..n]);
      assert cuts == cuts[..n] + [cuts[n]];
    }
  }

  // ----- The loop -----

  /** One successful read; then, if they are asked for: whether the coalescing
      deadline has passed, whether more input turns up in time, and the buffer
      size configured afterwards. */
  datatype Turn = Turn(bytes: seq<Byte>, expired: bool, readable: bool, bufferSize: nat)

  function AllBytes(turns: seq<Turn>): seq<Byte> {
    if turns == [] then [] else AllBytes(turns[..|turns| - 1]) + turns[|turns| - 1].bytes
  }

  // ----- When the loop sends -----

  /** The actions parsed so far, where they were cut, the bytes read since the last
      batch was sent, whether a deadline is set, and the buffer size in force. */
  datatype Pace = Pace(seen: seq<Action>, cuts: seq<nat>, size: nat, waiting: bool, bufferSize: nat)

  predicate Unsent(p: Pace) { Last(p.cuts) < |p.seen| }

  /** Sections begin and end with a cut. */
  function Took(p: Pace, a: Action): Pace {
    var n := |p.seen|;
    var cuts := if a.SetSynchronized? && Unsent(p) then [n] else if EndsHold(a) then [n + 1] else [];
    Pace(p.seen + [a], p.cuts + cuts, if cuts == [] then p.size else 0, p.waiting, p.bufferSize)
  }

  function TookAll(p: Pace, acts: seq<Action>): Pace {
    if acts == [] then p else Took(TookAll(p, acts[..|acts| - 1]), acts[|acts| - 1])
  }

  /** Whether the loop waits for more to come: there is something to send and no
      section is open, the bytes read do not fill the buffer, and more turns up
      before the deadline, which the first such wait sets. */
  predicate ReadsOn(p: Pace, turn: Turn) {
    && Unsent(p) && !Hold(p.seen) && p.size + |turn.bytes| < p.bufferSize
    && turn.readable && (p.waiting ==> !turn.expired)
  }

  function Settled(p: Pace, turn: Turn): Pace {
    var size := p.size + |turn.bytes|;
    if ReadsOn(p, turn) then p.(size := size, waiting := true)
    else if Unsent(p) && !Hold(p.seen) then Pace(p.seen, p.cuts + [|p.seen|], 0, false, turn.bufferSize)
    else p.(size := size, bufferSize := turn.bufferSize)
  }

  function Begun(bufferSize: nat): Pace { Pace([], [], 0, false, bufferSize) }

  /** The parser's state and the pace after some turns. */
  function Paced<S>(m: Machine<S>, state: S, p: Pace, turns: seq<Turn>): (S, Pace) {
    if turns == [] then (state, p)
    else
      var n := |turns| - 1;
      var (s, q) := Paced(m, state, p, turns[..n]);
      var (s', acts) := Parse(m, s, turns[n].bytes);
      (s', Settled(TookAll(q, acts), turns[n]))
  }

  /** At the end of the input what is left is sent. */
  function AllCuts(p: Pace): seq<nat> { if Unsent(p) then p.cuts + [|p.seen|] else p.cuts }

  lemma {:induction false} PacedSnoc<S>(m: Machine<S>, state: S, p: Pace, turns: seq<Turn>, i: nat)
    requires i < |turns|
    ensures var (s, q) := Paced(m, state, p, turns[..i]);
            var (s', acts) := Parse(m, s, turns[i].bytes);
            Paced(m, state, p, turns[..i + 1]) == (s', Settled(TookAll(q, acts), turns[i]))
  {
    assert turns[..i + 1][..i] == turns[..i];
  }

  lemma {:induction false} TookAllSeen(p: Pace, acts: seq<Action>)
    requires Last(p.cuts) <= |p.seen|
    ensures var q := TookAll(p, acts);
            && q.seen == p.seen + acts && p.cuts <= q.cuts && Last(q.cuts) <= |q.seen|
            && q.waiting == p.waiting && q.bufferSize == p.bufferSize
  {
    if acts != [] {
      TookAllSeen(p, acts[..|acts| - 1]);
      SeenSnoc(p.seen, acts, |acts| - 1);
      assert acts[..|acts|] == acts;
    } else {
      assert p.seen + [] == p.seen;
    }
  }

  lemma {:induction false} TurnAdds(p: Pace, acts: seq<Action>, turn: Turn)
    requires Last(p.cuts) <= |p.seen|
    ensures var q := Settled(TookAll(p, acts), turn);
            && q.seen == p.seen + acts && p.cuts <= q.cuts && Last(q.cuts) <= |q.seen|
            && (!turn.readable && !Hold(q.seen) ==> !Unsent(q))
  {
    TookAllSeen(p, acts);
  }

  lemma {:induction false} MoreSeen<S>(m: Machine<S>, state: S, a: seq<Byte>, b: seq<Byte>, before: seq<Action>,
                                       seen: seq<Action>, s: S, acts: seq<Action>)
    requires seen == before + Parse(m, state, a).1 && s == Parse(m, state, a).0 && acts == Parse(m, s, b).1
    ensures seen + acts == before + Parse(m, state, a + b).1 && Parse(m, s, b).0 == Parse(m, state, a + b).0
  {
    ParseConcat(m, state, a, b);
    Assoc(before, Parse(m, state, a).1, acts);
  }

  /** What has been seen is what the bytes parse to ... */
  lemma {:induction false} PacedSeen<S>(m: Machine<S>, state: S, p: Pace, turns: seq<Turn>)
    requires Last(p.cuts) <= |p.seen|
    ensures Last(Paced(m, state, p, turns).1.cuts) <= |Paced(m, state, p, turns).1.seen|
    ensures var ((s, q), (s', acts)) := (Paced(m, state, p, turns), Parse(m, state, AllBytes(turns)));
            s == s' && q.seen == p.seen + acts
  {
    if turns == [] {
      assert p.seen + [] == p.seen;
    } else {
      var n := |turns| - 1;
      var (s, q) := Paced(m, state, p, turns[..n]);
      var acts := Parse(m, s, turns[n].bytes).1;
      PacedSeen(m, state, p, turns[..n]);
      MoreSeen(m, state, AllBytes(turns[..n]), turns[n].bytes, p.seen, q.seen, s, acts);
      TurnAdds(q, acts, turns[n]);
    }
  }

  /** ... and no cut is taken back. */
  lemma {:induction false} CutsStay<S>(m: Machine<S>, state: S, p: Pace, turns: seq<Turn>, i: nat)
    requires i <= |turns| && Last(p.cuts) <= |p.seen|
    ensures Paced(m, state, p, turns[..i]).1.cuts <= Paced(m, state, p, turns).1.cuts
  {
    if i == |turns| {
      assert turns[..i] == turns;
    } else {
      var n := |turns| - 1;
      CutsStay(m, state, p, turns[..n], i);
      assert turns[..n][..i] == turns[..i];
      TurnKeepsCuts(m, state, p, turns);
    }
  }

  lemma {:induction false} TurnKeepsCuts<S>(m: Machine<S>, state: S, p: Pace, turns: seq<Turn>)
    requires turns != [] && Last(p.cuts) <= |p.seen|
    ensures Paced(m, state, p, turns[..|turns| - 1]).1.cuts <= Paced(m, state, p, turns).1.cuts
  {
    var n := |turns| - 1;
    var (s, q) := Paced(m, state, p, turns[..n]);
    PacedSeen(m, state, p, turns[..n]);
    TurnAdds(q, Parse(m, s, turns[n].bytes).1, turns[n]);
  }

  lemma {:induction false} SentBy(p: Pace, cuts: seq<nat>)
    requires !Unsent(p) && Last(p.cuts) <= |p.seen| && p.cuts <= cuts
    ensures p.seen == [] || |p.seen| in cuts
  {
    if p.seen != [] {
      assert cuts[|p.cuts| - 1] == |p.seen|;
    }
  }

  /** The actions of the first `n` turns are sent before the next turn, an open section apart. */
  predicate SentAfter<S>(m: Machine<S>, turns: seq<Turn>, n: nat, cuts: seq<nat>)
    requires n <= |turns|
  {
    var acts := Parse(m, m.start, AllBytes(turns[..n])).1;
    !Hold(acts) && acts != [] ==> |acts| in cuts
  }

  /** A turn that nothing readable follows leaves nothing unsent, an open section apart. */
  lemma {:induction false} SentInTime<S>(m: Machine<S>, turns: seq<Turn>, size: nat, i: nat)
    requires i < |turns| && !turns[i].readable
    ensures SentAfter(m, turns, i + 1, AllCuts(Paced(m, m.start, Begun(size), turns).1))
  {
    var (s, p) := Paced(m, m.start, Begun(size), turns[..i]);
    var q := Paced(m, m.start, Begun(size), turns[..i + 1]).1;
    PacedSnoc(m, m.start, Begun(size), turns, i);
    PacedSeen(m, m.start, Begun(size), turns[..i]);
    TurnAdds(p, Parse(m, s, turns[i].bytes).1, turns[i]);
    SeenFrom(m, size, turns[..i + 1], q);
    CutsStay(m, m.start, Begun(size), turns, i + 1);
    if !Hold(q.seen) {
      SentBy(q, Paced(m, m.start, Begun(size), turns).1.cuts);
    }
  }

  lemma {:induction false} SeenFrom<S>(m: Machine<S>, size: nat, turns: seq<Turn>, q: Pace)
    requires q == Paced(m, m.start, Begun(size), turns).1
    ensures q.seen == Parse(m, m.start, AllBytes(turns)).1
  {
    PacedSeen(m, m.start, Begun(size), turns);
    assert [] + q.seen == q.seen;
  }

  /** A cut that a section makes. */
  predicate AtSection(acts: seq<Action>, c: nat) {
    (c < |acts| && acts[c].SetSynchronized?) || (0 < c <= |acts| && EndsHold(acts[c - 1]))
  }

  lemma {:induction false} SectionCuts(p: Pace, acts: seq<Action>) returns (more: seq<nat>)
    ensures var q := TookAll(p, acts); q.cuts == p.cuts + more && q.size == if more == [] then p.size else 0
    ensures forall i :: 0 <= i < |more| ==> AtSection(p.seen + acts, more[i])
    ensures TookAll(p, acts).seen == p.seen + acts
  {
    if acts == [] {
      more := [];
      assert p.cuts + [] == p.cuts && p.seen + [] == p.seen;
    } else {
      var (n, a) := (|acts| - 1, acts[|acts| - 1]);
      var q := TookAll(p, acts[..n]);
      var before := SectionCuts(p, acts[..n]);
      SeenSnoc(p.seen, acts, n);
      assert acts[..n + 1] == acts;
      more := before + Took(q, a).cuts[|q.cuts|..];
      assert q.cuts + Took(q, a).cuts[|q.cuts|..] == Took(q, a).cuts;
      forall i | 0 <= i < |more|
        ensures AtSection(p.seen + acts, more[i])
      {
        if i < |before| {
          assert AtSection(p.seen + acts[..n], before[i]);
        }
      }
    }
  }

  /** The cuts of one turn: those its sections make, and one at its end if there is
      something to send then, no section is open, and nothing readable follows, the
      bytes fill the buffer, or the deadline has passed. */
  lemma {:induction false} TurnCuts(p: Pace, acts: seq<Action>, turn: Turn) returns (more: seq<nat>)
    requires Last(p.cuts) <= |p.seen|
    ensures forall i :: 0 <= i < |more| ==> AtSection(p.seen + acts, more[i])
    ensures var q := Settled(TookAll(p, acts), turn);
            var size := |turn.bytes| + if more == [] then p.size else 0;
            var ends := Last(p.cuts + more) < |p.seen + acts| && !Hold(p.seen + acts);
            var waits := turn.readable && size < p.bufferSize && !(p.waiting && turn.expired);
            q == if !ends then Pace(p.seen + acts, p.cuts + more, size, p.waiting, turn.bufferSize)
                 else if waits then Pace(p.seen + acts, p.cuts + more, size, true, p.bufferSize)
                 else Pace(p.seen + acts, p.cuts + more + [|p.seen + acts|], 0, false, turn.bufferSize)
  {
    more := SectionCuts(p, acts);
    TookAllSeen(p, acts);
    SettlesBy(TookAll(p, acts), turn);
  }

  // ----- Text outside sections -----

  predicate Plain(acts: seq<Action>) { forall i :: 0 <= i < |acts| ==> !acts[i].SetSynchronized? && !EndsHold(acts[i]) }

  /** Everything parsed so far is sent, and no section is open. */
  predicate Rested(p: Pace) { Last(p.cuts) == |p.seen| && !Hold(p.seen) }

  /** After `p`, turn `i` of `turns` is followed by more input in time: all bytes read
      since then do not fill the buffer, and the deadline has not passed if there
      was one. */
  predicate Coalesces(p: Pace, turns: seq<Turn>, i: nat)
    requires i < |turns|
  {
    && turns[i].readable && p.size + |AllBytes(turns[..i + 1])| < p.bufferSize
    && (i > 0 || p.waiting ==> !turns[i].expired)
  }

  /** Text that begins to come when all is sent: the turns that coalesce are read on
      and cut nowhere, and the first one that does not sends all of it as one batch. */
  lemma {:induction false} FirstFlush<S>(m: Machine<S>, state: S, p: Pace, turns: seq<Turn>)
    requires Rested(p) && turns != [] && Parse(m, state, turns[0].bytes).1 != []
    requires Plain(Parse(m, state, AllBytes(turns)).1)
    requires forall i :: 0 <= i < |turns| - 1 ==> Coalesces(p, turns, i)
    ensures TextSent(p, turns, Paced(m, state, p, turns).1)
  {
    var n := |turns| - 1;
    var q, acts := PlainSplit(m, state, p, turns);
    if n > 0 {
      CoalescesBefore(p, turns, n);
      assert turns[..n][0] == turns[0];
      FirstFlush(m, state, p, turns[..n]);
      assert Coalesces(p, turns[..n], n - 1);
      TextGoesOn(p, turns, q, acts);
    } else {
      TextStarts(p, turns, acts);
    }
  }

  predicate TextSent(p: Pace, turns: seq<Turn>, q: Pace)
    requires turns != []
  {
    var n := |turns| - 1;
    if Coalesces(p, turns, n)
    then q == Pace(q.seen, p.cuts, p.size + |AllBytes(turns)|, true, p.bufferSize) && Unsent(q) && !Hold(q.seen)
    else q == Pace(q.seen, p.cuts + [|q.seen|], 0, false, turns[n].bufferSize) && Rested(q)
  }

  lemma {:induction false} PlainSplit<S>(m: Machine<S>, state: S, p: Pace, turns: seq<Turn>)
    returns (q: Pace, acts: seq<Action>)
    requires turns != [] && Plain(Parse(m, state, AllBytes(turns)).1)
    ensures q == Paced(m, state, p, turns[..|turns| - 1]).1 && (|turns| == 1 ==> q == p)
    ensures Paced(m, state, p, turns).1 == Settled(TookAll(q, acts), turns[|turns| - 1])
    ensures Plain(Parse(m, state, AllBytes(turns[..|turns| - 1])).1) && Plain(acts)
    ensures |turns| == 1 ==> acts == Parse(m, state, turns[0].bytes).1
  {
    var n := |turns| - 1;
    var (s, before) := Paced(m, state, p, turns[..n]);
    q := before;
    acts := Parse(m, s, turns[n].bytes).1;
    PacedState(m, state, p, turns[..n]);
    ParseConcat(m, state, AllBytes(turns[..n]), turns[n].bytes);
    PlainParts(Parse(m, state, AllBytes(turns[..n])).1, acts);
  }

  lemma {:induction false} PacedState<S>(m: Machine<S>, state: S, p: Pace, turns: seq<Turn>)
    ensures Paced(m, state, p, turns).0 == Parse(m, state, AllBytes(turns)).0
  {
    if turns != [] {
      var n := |turns| - 1;
      PacedState(m, state, p, turns[..n]);
      ParseConcat(m, state, AllBytes(turns[..n]), turns[n].bytes);
    }
  }

  lemma {:induction false} CoalescesBefore(p: Pace, turns: seq<Turn>, n: nat)
    requires n <= |turns| && forall i :: 0 <= i < n ==> Coalesces(p, turns, i)
    ensures forall i :: 0 <= i < n ==> Coalesces(p, turns[..n], i)
  {
    forall i | 0 <= i < n
      ensures Coalesces(p, turns[..n], i)
    {
      assert turns[..n][..i + 1] == turns[..i + 1] && Coalesces(p, turns, i);
    }
  }

  lemma {:induction false} TextStarts(p: Pace, turns: seq<Turn>, acts: seq<Action>)
    requires Rested(p) && |turns| == 1 && acts != [] && Plain(acts)
    ensures TextSent(p, turns, Settled(TookAll(p, acts), turns[0]))
  {
    TookPlain(p, acts);
    assert turns[..1] == turns && AllBytes(turns[..0]) + turns[0].bytes == turns[0].bytes;
    SettlesBy(TookAll(p, acts), turns[0]);
  }

  lemma {:induction false} TextGoesOn(p: Pace, turns: seq<Turn>, q: Pace, acts: seq<Action>)
    requires |turns| > 1 && Plain(acts)
    requires TextSent(p, turns[..|turns| - 1], q) && Coalesces(p, turns[..|turns| - 1], |turns| - 2)
    ensures TextSent(p, turns, Settled(TookAll(q, acts), turns[|turns| - 1]))
  {
    TookPlain(q, acts);
    assert turns[..|turns|] == turns;
    SettlesBy(TookAll(q, acts), turns[|turns| - 1]);
  }

  lemma {:induction false} PlainParts(a: seq<Action>, b: seq<Action>)
    requires Plain(a + b)
    ensures Plain(a) && Plain(b)
  {
    forall i | 0 <= i < |a| ensures a[i] == (a + b)[i] {}
    forall i | 0 <= i < |b| ensures b[i] == (a + b)[|a| + i] {}
  }

  lemma {:induction false} TookPlain(p: Pace, acts: seq<Action>)
    requires Plain(acts)
    ensures TookAll(p, acts) == p.(seen := p.seen + acts) && Hold(p.seen + acts) == Hold(p.seen)
  {
    if acts == [] {
      assert p.seen + [] == p.seen;
    } else {
      var n := |acts| - 1;
      TookPlain(p, acts[..n]);
      TookText(p.(seen := p.seen + acts[..n]), acts[n]);
      SeenSnoc(p.seen, acts, n);
      assert acts[..n + 1] == acts;
    }
  }

  lemma {:induction false} TookText(p: Pace, a: Action)
    requires !a.SetSynchronized? && !EndsHold(a)
    ensures Took(p, a) == p.(seen := p.seen + [a]) && Hold(p.seen + [a]) == Hold(p.seen)
  {
    assert p.cuts + [] == p.cuts;
    HoldSnoc(p.seen, a, 0);
  }

  /** What the batcher holds, and what its history says it should hold. */
  ghost predicate Tied(actions: seq<Action>, hold: bool, sent: seq<seq<Action>>, p: Progress) {
    Underway(p) && sent == p.sent && actions == Pending(p) && hold == Hold(p.seen)
  }

  lemma {:induction false} TiedStep(actions: seq<Action>, hold: bool, sent: seq<seq<Action>>, p: Progress, a: Action,
                                    actions': seq<Action>, hold': bool, sent': seq<seq<Action>>)
    returns (next: Progress)
    requires Tied(actions, hold, sent, p)
    requires a.SetSynchronized? ==>
               && hold' && actions' == Append([], a)
               && sent' == if actions != [] then sent + [actions] else sent
    requires EndsHold(a) && Append(actions, a) != [] ==>
               !hold' && actions' == [] && sent' == sent + [Append(actions, a)]
    requires !a.SetSynchronized? && !EndsHold(a) ==>
               hold' == hold && actions' == Append(actions, a) && sent' == sent
    ensures Tied(actions', hold', sent', next) && next.seen == p.seen + [a]
    ensures next.cuts == p.cuts + if a.SetSynchronized? && actions != [] then [|p.seen|]
                                  else if EndsHold(a) then [|p.seen| + 1]
                                  else []
  {
    AppendExpands(actions, a);
    if a.SetSynchronized? {
      next := StepSet(p, a);
    } else if EndsHold(a) {
      next := StepEnd(p, a);
    } else {
      next := StepPlain(p, a);
    }
  }

  lemma {:induction false} TookOne(p: Progress, a: Action, q: Progress, size: nat, size': nat, waiting: bool,
                                   bufferSize: nat)
    requires LastCut(p) <= |p.seen| && q.seen == p.seen + [a]
    requires q.cuts == p.cuts + if a.SetSynchronized? && Pending(p) != [] then [|p.seen|]
                                else if EndsHold(a) then [|p.seen| + 1]
                                else []
    requires size' == if (a.SetSynchronized? && Pending(p) != []) || EndsHold(a) then 0 else size
    ensures Took(Pace(p.seen, p.cuts, size, waiting, bufferSize), a) == Pace(q.seen, q.cuts, size', waiting, bufferSize)
  {
    PendingEmpty(p);
  }

  lemma {:induction false} UnsentIs(actions: seq<Action>, hold: bool, sent: seq<seq<Action>>, p: Progress)
    requires Tied(actions, hold, sent, p)
    ensures actions != [] <==> Last(p.cuts) < |p.seen|
    ensures hold == Hold(p.seen)
  {
    PendingEmpty(p);
  }

  /** Both at once: what the batcher holds stays tied to its history and in pace. */
  lemma {:induction false} PacedStep(actions: seq<Action>, hold: bool, sent: seq<seq<Action>>, p: Progress, pace: Pace,
                                     a: Action, actions': seq<Action>, hold': bool, sent': seq<seq<Action>>, size': nat)
    returns (next: Progress)
    requires Tied(actions, hold, sent, p) && pace.seen == p.seen && pace.cuts == p.cuts
    requires a.SetSynchronized? ==>
               && hold' && actions' == Append([], a)
               && sent' == if actions != [] then sent + [actions] else sent
    requires EndsHold(a) && Append(actions, a) != [] ==>
               !hold' && actions' == [] && sent' == sent + [Append(actions, a)]
    requires !a.SetSynchronized? && !EndsHold(a) ==>
               hold' == hold && actions' == Append(actions, a) && sent' == sent
    requires Append(actions, a) != [] ==>
               size' == if (a.SetSynchronized? && actions != []) || EndsHold(a) then 0 else pace.size
    ensures Tied(actions', hold', sent', next) && next.seen == p.seen + [a]
    ensures Took(pace, a) == Pace(next.seen, next.cuts, size', pace.waiting, pace.bufferSize)
  {
    AppendExpands(actions, a);
    next := TiedStep(actions, hold, sent, p, a, actions', hold', sent');
    TookOne(p, a, next, pace.size, size', pace.waiting, pace.bufferSize);
  }

  lemma {:induction false} SettlesBy(p: Pace, turn: Turn)
    ensures var size := p.size + |turn.bytes|;
            && (ReadsOn(p, turn) ==> Settled(p, turn) == Pace(p.seen, p.cuts, size, true, p.bufferSize))
            && (!ReadsOn(p, turn) && Unsent(p) && !Hold(p.seen) ==>
                  Settled(p, turn) == Pace(p.seen, p.cuts + [|p.seen|], 0, false, turn.bufferSize))
            && (!Unsent(p) || Hold(p.seen) ==>
                  Settled(p, turn) == Pace(p.seen, p.cuts, size, p.waiting, turn.bufferSize))
  {
  }

  lemma {:induction false} TookMore(p: Pace, acts: seq<Action>, i: nat)
    requires i < |acts|
    ensures TookAll(p, acts[..i + 1]) == Took(TookAll(p, acts[..i]), acts[i])
  {
    assert acts[..i + 1][..i] == acts[..i];
  }

  lemma {:induction false} SeenSnoc(before: seq<Action>, acts: seq<Action>, i: nat)
    requires i < |acts|
    ensures before + acts[..i + 1] == before + acts[..i] + [acts[i]]
  {
  }

  class Batcher {
    var actions: seq<Action>
    var hold: bool
    var actionSize: nat
    var deadline: bool
    var sent: seq<seq<Action>>
    ghost var progress: Progress

    ghost predicate Valid()
      reads this
    {
      Tied(actions, hold, sent, progress)
    }

    /** The pace of the batcher with a buffer of that size. */
    ghost function Pacing(bufferSize: nat): Pace
      reads this
    {
      Pace(progress.seen, progress.cuts, actionSize, deadline, bufferSize)
    }

    constructor ()
      ensures Valid() && forall bufferSize :: Pacing(bufferSize) == Begun(bufferSize)
    {
      actions, hold, actionSize, deadline, sent := [], false, 0, false, [];
      progress := Progress([], [], []);
    }

    method Send()
      requires actions != []
      modifies `actions, `sent
      ensures sent == old(sent) + [old(actions)] && actions == []
    {
      sent := sent + [actions];
      actions := [];
    }

    /** A flush outside sections. */
    method Flush()
      requires Valid() && actions != [] && !hold
      modifies `actions, `sent, `progress
      ensures Valid() && actions == [] && progress.seen == old(progress.seen)
      ensures sent == old(sent) + [old(actions)]
      ensures progress.cuts == old(progress.cuts) + [|progress.seen|]
    {
      PendingEmpty(progress);
      CutHere(progress);
      Send();
      progress := Cut(progress);
    }

    /** The parser's callback: a section starts with a flush of what came before it,
        and ends with a flush that takes its end along. */
    method OnAction(action: Action)
      modifies `actions, `hold, `sent, `actionSize
      ensures action.SetSynchronized? ==>
                && hold && actions == Append([], action)
                && sent == if old(actions) != [] then old(sent) + [old(actions)] else old(sent)
      ensures EndsHold(action) && Append(old(actions), action) != [] ==>
                !hold && actions == [] && sent == old(sent) + [Append(old(actions), action)]
      ensures !action.SetSynchronized? && !EndsHold(action) ==>
                hold == old(hold) && actions == Append(old(actions), action) && sent == old(sent)
      ensures Append(old(actions), action) != [] ==>
                actionSize == if (action.SetSynchronized? && old(actions) != []) || EndsHold(action) then 0
                              else old(actionSize)
    {
      var flush := false;
      match action {
        case SetSynchronized =>
          hold := true;
          if actions != [] {
            Send();
            actionSize := 0;
          }
        case ResetSynchronized =>
          hold := false;
          flush := true;
        case SoftReset =>
          hold := false;
          flush := true;
        case _ =>
      }
      actions := Append(actions, action);
      if flush && actions != [] {
        Send();
        actionSize := 0;
      }
    }

    method Absorb(action: Action, ghost bufferSize: nat)
      requires Valid()
      modifies this
      ensures Valid() && progress.seen == old(progress.seen) + [action]
      ensures Pacing(bufferSize) == Took(old(Pacing(bufferSize)), action)
    {
      ghost var was := Pacing(bufferSize);
      OnAction(action);
      progress := PacedStep(old(actions), old(hold), old(sent), progress, was, action, actions, hold, sent, actionSize);
    }

    method AbsorbAll(acts: seq<Action>, ghost bufferSize: nat)
      requires Valid()
      modifies this
      ensures Valid() && progress.seen == old(progress.seen) + acts
      ensures Pacing(bufferSize) == TookAll(old(Pacing(bufferSize)), acts)
    {
      ghost var before := progress.seen;
      for i := 0 to |acts|
        invariant Valid() && progress.seen == before + acts[..i]
        invariant Pacing(bufferSize) == TookAll(old(Pacing(bufferSize)), acts[..i])
      {
        SeenSnoc(before, acts, i);
        TookMore(old(Pacing(bufferSize)), acts, i);
        Absorb(acts[i], bufferSize);
      }
      assert acts[..|acts|] == acts;
    }

    /** The rest of a turn: wait for more to coalesce, or send. Returns whether to
        read on at once. */
    method Settle(turn: Turn, bufferSize: nat) returns (again: bool)
      requires Valid()
      modifies `actions, `sent, `progress, `actionSize, `deadline
      ensures Valid() && progress.seen == old(progress.seen)
      ensures again <==> && old(actions) != [] && !hold && old(actionSize) + |turn.bytes| < bufferSize
                         && turn.readable && (old(deadline) ==> !turn.expired)
      ensures again ==> deadline && actions == old(actions) && sent == old(sent)
      ensures !again && !hold ==>
                actions == [] && sent == if old(actions) == [] then old(sent) else old(sent) + [old(actions)]
      ensures !again && !hold && old(actions) != [] ==> actionSize == 0 && !deadline
      ensures hold ==> actions == old(actions) && sent == old(sent)
      ensures Pacing(if again then bufferSize else turn.bufferSize) == Settled(old(Pacing(bufferSize)), turn)
    {
      UnsentIs(actions, hold, sent, progress);
      SettlesBy(Pacing(bufferSize), turn);
      actionSize := actionSize + |turn.bytes|;
      if actions != [] && !hold {
        if actionSize < bufferSize {
          var poll := true;
          if !deadline {
            deadline := true;
          } else {
            poll := !turn.expired;
          }
          if poll && turn.readable {
            return true;
          }
        }
        Flush();
        deadline := false;
        actionSize := 0;
      }
      return false;
    }

    /** At the end of the input what is left is sent, an open section or not. */
    method Finish(ghost bufferSize: nat)
      requires Valid()
      modifies `actions, `sent, `progress
      ensures Delivered(progress) && sent == progress.sent && progress.seen == old(progress.seen)
      ensures progress.cuts == AllCuts(old(Pacing(bufferSize)))
    {
      PendingEmpty(progress);
      if actions != [] {
        CutHere(progress);
        Send();
        progress := Cut(progress);
      }
    }
  }

  lemma {:induction false} TurnTaken<S>(m: Machine<S>, p: Pace, turns: seq<Turn>, i: nat, state: S, seen: seq<Action>,
                                        q: Pace, state': S, acts: seq<Action>)
    requires i < |turns| && Parse(m, m.start, AllBytes(turns[..i])) == (state, seen)
    requires Paced(m, m.start, p, turns[..i]) == (state, q) && Parse(m, state, turns[i].bytes) == (state', acts)
    ensures Parse(m, m.start, AllBytes(turns[..i + 1])) == (state', seen + acts)
    ensures Paced(m, m.start, p, turns[..i + 1]) == (state', Settled(TookAll(q, acts), turns[i]))
  {
    assert turns[..i + 1][..i] == turns[..i];
    ParseConcat(m, m.start, AllBytes(turns[..i]), turns[i].bytes);
  }

  /** The whole loop, up to the end of the input: what is sent is what the bytes
      parse to, however they are cut into reads and whatever the timing. */
  method ParseBufferedData<S>(m: Machine<S>, turns: seq<Turn>, initialSize: nat)
    returns (sent: seq<seq<Action>>, ghost cuts: seq<nat>)
    ensures Expand(Flat(sent)) == Expand(Parse(m, m.start, AllBytes(turns)).1)
    ensures [] !in sent
    ensures Delivered(Progress(Parse(m, m.start, AllBytes(turns)).1, cuts, sent))
    ensures cuts == AllCuts(Paced(m, m.start, Begun(initialSize), turns).1)
    ensures forall i | 0 <= i < |turns| && !turns[i].readable :: SentAfter(m, turns, i + 1, cuts)
  {
    var b := new Batcher();
    var state, bufferSize := m.start, initialSize;
    for i := 0 to |turns|
      invariant b.Valid() && fresh(b)
      invariant Parse(m, m.start, AllBytes(turns[..i])) == (state, b.progress.seen)
      invariant Paced(m, m.start, Begun(initialSize), turns[..i]) == (state, b.Pacing(bufferSize))
    {
      var turn := turns[i];
      var (after, acts) := Parse(m, state, turn.bytes);
      TurnTaken(m, Begun(initialSize), turns, i, state, b.progress.seen, b.Pacing(bufferSize), after, acts);
      state := after;
      b.AbsorbAll(acts, bufferSize);
      var again := b.Settle(turn, bufferSize);
      if again { continue; }
      bufferSize := turn.bufferSize;
    }
    assert turns[..|turns|] == turns;
    b.Finish(bufferSize);
    sent, cuts := b.sent, b.progress.cuts;
    DeliveredConserves(b.progress);
    forall i | 0 <= i < |turns| && !turns[i].readable
      ensures SentAfter(m, turns, i + 1, cuts)
    {
      SentInTime(m, turns, initialSize, i);
    }
  }
}
