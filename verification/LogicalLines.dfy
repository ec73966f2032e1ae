/** Physical rows joined into logical lines, after `mux/src/pane.rs`, over the
    rows of a terminal screen as `term/src/screen.rs` hands them out. */
module LogicalLines {
  import opened Wrappers

  datatype Cell = Cell(text: string, wrapped: bool)

  type Line = seq<Cell>

  const MAX_LOGICAL_LINE_LEN: nat := 1024

  /** The line goes on in the next row. */
  predicate Wraps(line: Line) { line != [] && line[|line| - 1].wrapped }

  function SetWrapped(line: Line, wrapped: bool): Line {
    if line == [] then [] else line[|line| - 1 := line[|line| - 1].(wrapped := wrapped)]
  }

  // ----- The screen -----

  /** `rows[i]` has the stable row index `offset + i`. */
  datatype Screen = Screen(offset: nat, rows: seq<Line>)

  predicate HasRow(screen: Screen, stable: int) { screen.offset <= stable < screen.offset + |screen.rows| }

  function Min(a: nat, b: nat): nat { if a < b then a else b }

  /** The rows of the screen for a range of stable indices: a range that starts
      outside gives the top rows, one that ends outside the bottom rows. */
  function PhysicalRange(screen: Screen, start: int, end: int): (r: (nat, nat))
    requires screen.rows != [] && start <= end
    ensures r.0 <= r.1 <= |screen.rows|
  {
    var (len, n) := (end - start, |screen.rows|);
    if !HasRow(screen, start) then (0, Min(len, n))
    else if !HasRow(screen, end - 1) then (if n - 1 >= len then n - 1 - len else 0, n)
    else (start - screen.offset, end - screen.offset)
  }

  function GetLines(screen: Screen, start: int, end: int): (int, seq<Line>)
    requires screen.rows != [] && start <= end
  {
    var (from, to) := PhysicalRange(screen, start, end);
    (screen.offset + from, screen.rows[from..to])
  }

  /** Just the rows asked for come exactly when the first and the last of them are on the
      screen. A range that ends below it gives one row too many, if there are as many. */
  lemma {:induction false} RowsAskedFor(screen: Screen, start: int, end: int)
    requires screen.rows != [] && start <= end
    ensures var ((first, lines), n) := (GetLines(screen, start, end), |screen.rows|);
            && (first == start && |lines| == end - start <==> HasRow(screen, start) && HasRow(screen, end - 1))
            && 0 <= first - screen.offset <= first - screen.offset + |lines| <= n
            && lines == screen.rows[first - screen.offset..first - screen.offset + |lines|]
            && (!HasRow(screen, start) ==> first == screen.offset && |lines| == Min(end - start, n))
            && (HasRow(screen, start) && !HasRow(screen, end - 1) ==>
                  first + |lines| == screen.offset + n && |lines| == Min(end - start + 1, n))
  {
  }

  // ----- Logical lines -----

  datatype LogicalLine = LogicalLine(physical: seq<Line>, logical: Line, firstRow: int)

  function Single(line: Line, row: int): LogicalLine { LogicalLine([line], line, row) }

  /** `line` joined on, the mark that it follows being taken off. */
  function Extended(l: LogicalLine, line: Line): LogicalLine {
    LogicalLine(l.physical + [line], SetWrapped(l.logical, false) + line, l.firstRow)
  }

  /** One more row, `limited` telling whether long lines are left alone. */
  function AddRow(lines: seq<LogicalLine>, line: Line, row: int, limited: bool): seq<LogicalLine> {
    if lines == [] then [Single(line, row)]
    else
      var n := |lines| - 1;
      if Wraps(lines[n].logical) && (limited ==> |lines[n].logical| <= MAX_LOGICAL_LINE_LEN)
      then lines[n := Extended(lines[n], line)]
      else lines + [Single(line, row)]
  }

  /** The rows from `a` up to `b` joined into lines, `first` being the stable index
      of `rows[0]`. */
  function Group(first: int, rows: seq<Line>, a: nat, b: nat, limited: bool): seq<LogicalLine>
    requires a <= b <= |rows|
    decreases b
  {
    if a == b then [] else AddRow(Group(first, rows, a, b - 1, limited), rows[b - 1], first + b - 1, limited)
  }

  /** The lines of the whole buffer, however long. */
  function WholeLines(screen: Screen): seq<LogicalLine> { Group(screen.offset, screen.rows, 0, |screen.rows|, false) }

  // ----- What the lines are -----

  /** The first `k` rows of a line as one row. */
  function Joined(rows: seq<Line>, k: nat): Line
    requires k <= |rows|
  {
    if k == 0 then [] else SetWrapped(Joined(rows, k - 1), false) + rows[k - 1]
  }

  predicate AllButLastWrap(rows: seq<Line>) { forall i | 0 <= i < |rows| - 1 :: Wraps(rows[i]) }

  /** One line: rows that all wrap but maybe the last, and their join. */
  predicate IsLine(l: LogicalLine) {
    && l.physical != [] && AllButLastWrap(l.physical)
    && l.logical == Joined(l.physical, |l.physical|)
    && (Wraps(l.logical) <==> Wraps(l.physical[|l.physical| - 1]))
  }

  predicate AllLines(lines: seq<LogicalLine>) { forall k | 0 <= k < |lines| :: IsLine(lines[k]) }

  lemma {:induction false} WrapsOfJoin(logical: Line, line: Line)
    ensures Wraps(SetWrapped(logical, false) + line) <==> Wraps(line)
    ensures |SetWrapped(logical, false) + line| == |logical| + |line|
  {
    var all := SetWrapped(logical, false) + line;
    if line == [] {
      assert all == SetWrapped(logical, false);
    } else {
      assert all[|all| - 1] == line[|line| - 1];
    }
  }

  lemma {:induction false} JoinedPrefix(rows: seq<Line>, more: seq<Line>, k: nat)
    requires k <= |rows| && k <= |more| && forall i | 0 <= i < k :: rows[i] == more[i]
    ensures Joined(rows, k) == Joined(more, k)
  {
    if k > 0 {
      JoinedPrefix(rows, more, k - 1);
    }
  }

  lemma {:induction false} SingleIsLine(line: Line, row: int)
    ensures IsLine(Single(line, row))
  {
    assert SetWrapped([], false) + line == line;
  }

  lemma {:induction false} ExtendedIsLine(l: LogicalLine, line: Line)
    requires IsLine(l) && Wraps(l.logical)
    ensures IsLine(Extended(l, line))
  {
    JoinedPrefix(l.physical, l.physical + [line], |l.physical|);
    WrapsOfJoin(l.logical, line);
  }

  lemma {:induction false} AddRowLines(lines: seq<LogicalLine>, more: seq<LogicalLine>, line: Line, row: int,
                                       limited: bool)
    requires AllLines(lines) && more == AddRow(lines, line, row, limited)
    ensures AllLines(more)
  {
    SingleIsLine(line, row);
    if lines != [] && Wraps(lines[|lines| - 1].logical) {
      ExtendedIsLine(lines[|lines| - 1], line);
    }
  }

  lemma {:induction false} GroupLines(first: int, rows: seq<Line>, a: nat, b: nat, limited: bool)
    requires a <= b <= |rows|
    ensures AllLines(Group(first, rows, a, b, limited))
    decreases b
  {
    if a < b {
      GroupLines(first, rows, a, b - 1, limited);
      GroupLinesStep(first, rows, a, b, limited, Group(first, rows, a, b - 1, limited));
    }
  }

  lemma {:induction false} GroupLinesStep(first: int, rows: seq<Line>, a: nat, b: nat, limited: bool,
                                          before: seq<LogicalLine>)
    requires a < b <= |rows| && before == Group(first, rows, a, b - 1, limited) && AllLines(before)
    ensures AllLines(Group(first, rows, a, b, limited))
  {
    var more := AddRow(before, rows[b - 1], first + b - 1, limited);
    AddRowLines(before, more, rows[b - 1], first + b - 1, limited);
    assert more == Group(first, rows, a, b, limited);
  }

  // ----- The lines cut the rows -----

  function EndRow(l: LogicalLine): int { l.firstRow + |l.physical| }

  /** The first `k` lines cut the rows from `a` up to `b`, one after the other. */
  predicate Cuts(lines: seq<LogicalLine>, k: nat, first: int, rows: seq<Line>, a: nat, b: nat)
    requires k <= |lines| && a <= b <= |rows|
  {
    if k == 0 then a == b
    else
      var l := lines[k - 1];
      && 0 < |l.physical| <= b - a
      && l.firstRow == first + b - |l.physical|
      && l.physical == rows[b - |l.physical|..b]
      && Cuts(lines, k - 1, first, rows, a, b - |l.physical|)
  }

  predicate Partitions(lines: seq<LogicalLine>, first: int, rows: seq<Line>, a: nat, b: nat)
    requires a <= b <= |rows|
  {
    Cuts(lines, |lines|, first, rows, a, b) && (a < b ==> lines != [])
  }

  lemma {:induction false} CutsPrefix(lines: seq<LogicalLine>, more: seq<LogicalLine>, k: nat, first: int,
                                      rows: seq<Line>, a: nat, b: nat)
    requires k <= |lines| && k <= |more| && a <= b <= |rows| && (forall j | 0 <= j < k :: lines[j] == more[j])
    requires Cuts(lines, k, first, rows, a, b)
    ensures Cuts(more, k, first, rows, a, b)
  {
    if k > 0 {
      CutsPrefix(lines, more, k - 1, first, rows, a, b - |lines[k - 1].physical|);
    }
  }

  lemma {:induction false} SliceGrows(rows: seq<Line>, a: nat, b: nat)
    requires a <= b <= |rows|
    ensures a > 0 ==> [rows[a - 1]] + rows[a..b] == rows[a - 1..b]
    ensures b < |rows| ==> rows[a..b] + [rows[b]] == rows[a..b + 1]
  {
  }

  lemma {:induction false} AddRowPartitions(lines: seq<LogicalLine>, more: seq<LogicalLine>, first: int,
                                            rows: seq<Line>, a: nat, b: nat, limited: bool)
    requires a <= b < |rows| && Partitions(lines, first, rows, a, b)
    requires more == AddRow(lines, rows[b], first + b, limited)
    ensures Partitions(more, first, rows, a, b + 1)
  {
    var n := |lines|;
    if n > 0 && Wraps(lines[n - 1].logical) && (limited ==> |lines[n - 1].logical| <= MAX_LOGICAL_LINE_LEN) {
      var from := b - |lines[n - 1].physical|;
      CutsPrefix(lines, more, n - 1, first, rows, a, from);
      SliceGrows(rows, from, b);
    } else {
      CutsPrefix(lines, more, n, first, rows, a, b);
    }
  }

  lemma {:induction false} PartitionsNothing(first: int, rows: seq<Line>, a: nat)
    requires a <= |rows|
    ensures Partitions([], first, rows, a, a)
  {
  }

  lemma {:induction false} PartitionsStep(first: int, rows: seq<Line>, a: nat, b: nat, limited: bool,
                                          before: seq<LogicalLine>)
    requires a < b <= |rows| && before == Group(first, rows, a, b - 1, limited)
    requires Partitions(before, first, rows, a, b - 1)
    ensures Partitions(Group(first, rows, a, b, limited), first, rows, a, b)
  {
    var more := AddRow(before, rows[b - 1], first + b - 1, limited);
    AddRowPartitions(before, more, first, rows, a, b - 1, limited);
    assert more == Group(first, rows, a, b, limited);
  }

  /** Grouping cuts the rows into lines, limited or not. */
  lemma {:induction false} GroupPartitions(first: int, rows: seq<Line>, a: nat, b: nat, limited: bool)
    requires a <= b <= |rows|
    ensures Partitions(Group(first, rows, a, b, limited), first, rows, a, b)
    decreases b
  {
    if a == b {
      PartitionsNothing(first, rows, a);
    } else {
      GroupPartitions(first, rows, a, b - 1, limited);
      PartitionsStep(first, rows, a, b, limited, Group(first, rows, a, b - 1, limited));
    }
  }

  /** Each line starts where the one before it ends, and is made of the rows from
      there on. */
  lemma {:induction false} PartAt(lines: seq<LogicalLine>, k: nat, first: int, rows: seq<Line>, a: nat, b: nat, j: nat)
    requires j < k <= |lines| && a <= b <= |rows| && Cuts(lines, k, first, rows, a, b)
    ensures lines[j].firstRow == if j == 0 then first + a else EndRow(lines[j - 1])
    ensures first + a <= lines[j].firstRow < EndRow(lines[j]) <= first + b
    ensures lines[j].physical == rows[lines[j].firstRow - first..EndRow(lines[j]) - first]
    ensures j == k - 1 ==> EndRow(lines[j]) == first + b
    decreases k
  {
    if j < k - 1 {
      PartAt(lines, k - 1, first, rows, a, b - |lines[k - 1].physical|, j);
    }
  }

  function Concat(lines: seq<LogicalLine>, k: nat): seq<Line>
    requires k <= |lines|
  {
    if k == 0 then [] else Concat(lines, k - 1) + lines[k - 1].physical
  }

  /** Nothing is dropped, repeated or reordered. */
  lemma {:induction false} CutsConcat(lines: seq<LogicalLine>, k: nat, first: int, rows: seq<Line>, a: nat, b: nat)
    requires k <= |lines| && a <= b <= |rows| && Cuts(lines, k, first, rows, a, b)
    ensures Concat(lines, k) == rows[a..b]
  {
    if k > 0 {
      var from := b - |lines[k - 1].physical|;
      CutsConcat(lines, k - 1, first, rows, a, from);
      assert rows[a..b] == rows[a..from] + rows[from..b];
    }
  }

  // ----- Where the lines end -----

  predicate EndsUnwrapped(l: LogicalLine) { l.physical != [] && !Wraps(l.physical[|l.physical| - 1]) }

  /** Only the last line may be cut off while it wraps: all others end where a row
      does not. */
  predicate Ended(lines: seq<LogicalLine>) { forall k | 0 <= k < |lines| - 1 :: EndsUnwrapped(lines[k]) }

  lemma {:induction false} AddRowEnded(lines: seq<LogicalLine>, more: seq<LogicalLine>, line: Line, row: int)
    requires AllLines(lines) && Ended(lines) && more == AddRow(lines, line, row, false)
    ensures Ended(more)
  {
    if lines != [] {
      assert IsLine(lines[|lines| - 1]);
    }
  }

  lemma {:induction false} GroupEnded(first: int, rows: seq<Line>, a: nat, b: nat)
    requires a <= b <= |rows|
    ensures Ended(Group(first, rows, a, b, false))
    decreases b
  {
    if a < b {
      GroupEnded(first, rows, a, b - 1);
      GroupLines(first, rows, a, b - 1, false);
      AddRowEnded(Group(first, rows, a, b - 1, false), Group(first, rows, a, b, false), rows[b - 1], first + b - 1);
    }
  }

  // ----- Where the limit cuts -----

  /** Without its last row a line is no longer than the limit. */
  predicate Bounded(l: LogicalLine) {
    l.physical != [] && |l.logical| - |l.physical[|l.physical| - 1]| <= MAX_LOGICAL_LINE_LEN
  }

  predicate AllBounded(lines: seq<LogicalLine>) { forall k | 0 <= k < |lines| :: Bounded(lines[k]) }

  /** A line that goes on in the one after it is longer than the limit. */
  predicate CutByLimit(lines: seq<LogicalLine>) {
    forall k | 0 <= k < |lines| - 1 :: Wraps(lines[k].logical) ==> |lines[k].logical| > MAX_LOGICAL_LINE_LEN
  }

  lemma {:induction false} AddRowLimited(lines: seq<LogicalLine>, more: seq<LogicalLine>, line: Line, row: int)
    requires AllBounded(lines) && CutByLimit(lines) && more == AddRow(lines, line, row, true)
    ensures AllBounded(more) && CutByLimit(more)
  {
    if lines != [] {
      WrapsOfJoin(lines[|lines| - 1].logical, line);
    }
  }

  /** With the limit a line ends where a row does not wrap, or as soon as it is too long. */
  lemma {:induction false} GroupLimited(first: int, rows: seq<Line>, a: nat, b: nat)
    requires a <= b <= |rows|
    ensures AllBounded(Group(first, rows, a, b, true)) && CutByLimit(Group(first, rows, a, b, true))
    decreases b
  {
    if a < b {
      GroupLimited(first, rows, a, b - 1);
      AddRowLimited(Group(first, rows, a, b - 1, true), Group(first, rows, a, b, true), rows[b - 1], first + b - 1);
    }
  }

  // ----- Short runs -----

  /** The length of the wrapped rows just before row `n`. */
  function TailLength(rows: seq<Line>, n: nat): nat
    requires n <= |rows|
  {
    if n == 0 || !Wraps(rows[n - 1]) then 0 else |rows[n - 1]| + TailLength(rows, n - 1)
  }

  /** No run of wrapped rows is longer than the limit. */
  predicate ShortRuns(rows: seq<Line>) { forall n | 0 <= n <= |rows| :: ShortAt(rows, n) }

  predicate ShortAt(rows: seq<Line>, n: nat)
    requires n <= |rows|
  {
    TailLength(rows, n) <= MAX_LOGICAL_LINE_LEN
  }

  /** The last line wraps as the last row does, and is then no longer than the
      wrapped rows before row `n`. */
  predicate TailIs(lines: seq<LogicalLine>, rows: seq<Line>, n: nat)
    requires 0 < n <= |rows|
  {
    && lines != []
    && (Wraps(lines[|lines| - 1].logical) <==> Wraps(rows[n - 1]))
    && (Wraps(rows[n - 1]) ==> |lines[|lines| - 1].logical| <= TailLength(rows, n))
  }

  lemma {:induction false} AddRowTail(lines: seq<LogicalLine>, rows: seq<Line>, n: nat, row: int)
    requires n < |rows| && (lines != [] ==> n > 0 && TailIs(lines, rows, n))
    ensures TailIs(AddRow(lines, rows[n], row, false), rows, n + 1)
  {
    if lines != [] {
      WrapsOfJoin(lines[|lines| - 1].logical, rows[n]);
    }
  }

  lemma {:induction false} GroupTail(first: int, rows: seq<Line>, a: nat, b: nat)
    requires a < b <= |rows|
    ensures TailIs(Group(first, rows, a, b, false), rows, b)
    decreases b
  {
    if a < b - 1 {
      GroupTail(first, rows, a, b - 1);
    }
    AddRowTail(Group(first, rows, a, b - 1, false), rows, b - 1, first + b - 1);
  }

  lemma {:induction false} AddRowShort(lines: seq<LogicalLine>, line: Line, row: int)
    requires lines != [] && Wraps(lines[|lines| - 1].logical) ==> |lines[|lines| - 1].logical| <= MAX_LOGICAL_LINE_LEN
    ensures AddRow(lines, line, row, true) == AddRow(lines, line, row, false)
  {
  }

  /** The limit makes no difference then. */
  lemma {:induction false} LimitIdle(first: int, rows: seq<Line>, a: nat, b: nat)
    requires a <= b <= |rows| && ShortRuns(rows)
    ensures Group(first, rows, a, b, true) == Group(first, rows, a, b, false)
    decreases b
  {
    if a < b {
      LimitIdle(first, rows, a, b - 1);
      NextIsShort(first, rows, a, b - 1);
      LimitIdleStep(first, rows, a, b, Group(first, rows, a, b - 1, true), Group(first, rows, a, b - 1, false));
    }
  }

  lemma {:induction false} LimitIdleStep(first: int, rows: seq<Line>, a: nat, b: nat, limited: seq<LogicalLine>,
                                         lines: seq<LogicalLine>)
    requires a < b <= |rows| && limited == lines
    requires limited == Group(first, rows, a, b - 1, true) && lines == Group(first, rows, a, b - 1, false)
    requires lines != [] && Wraps(lines[|lines| - 1].logical) ==> |lines[|lines| - 1].logical| <= MAX_LOGICAL_LINE_LEN
    ensures Group(first, rows, a, b, true) == Group(first, rows, a, b, false)
  {
    AddRowShort(lines, rows[b - 1], first + b - 1);
  }

  lemma {:induction false} NextIsShort(first: int, rows: seq<Line>, a: nat, b: nat)
    requires a <= b < |rows| && ShortRuns(rows)
    ensures var lines := Group(first, rows, a, b, false);
            lines != [] && Wraps(lines[|lines| - 1].logical) ==> |lines[|lines| - 1].logical| <= MAX_LOGICAL_LINE_LEN
  {
    if a < b {
      GroupTail(first, rows, a, b);
      assert ShortAt(rows, b);
    }
  }

  // ----- Cutting the buffer at the ends of lines -----

  predicate LineEnd(rows: seq<Line>, n: nat) { n <= |rows| && (n > 0 ==> !Wraps(rows[n - 1])) }

  lemma {:induction false} AddRowToConcat(above: seq<LogicalLine>, below: seq<LogicalLine>, line: Line, row: int)
    requires below == [] && above != [] ==> !Wraps(above[|above| - 1].logical)
    ensures AddRow(above + below, line, row, false) == above + AddRow(below, line, row, false)
  {
    if below == [] {
      assert above + below == above;
    } else {
      assert (above + below)[..|above + below| - 1] == above + below[..|below| - 1];
    }
  }

  lemma {:induction false} GroupSplits(first: int, rows: seq<Line>, a: nat, b: nat, c: nat)
    requires a <= b <= c <= |rows| && (b == c || LineEnd(rows, b))
    ensures Group(first, rows, a, c, false) == Group(first, rows, a, b, false) + Group(first, rows, b, c, false)
    decreases c
  {
    if b < c {
      var (above, below) := (Group(first, rows, a, b, false), Group(first, rows, b, c - 1, false));
      GroupSplits(first, rows, a, b, c - 1);
      if a < b {
        GroupTail(first, rows, a, b);
      }
      GroupSplitsStep(first, rows, a, b, c, above, below);
    } else {
      assert Group(first, rows, a, b, false) + [] == Group(first, rows, a, b, false);
    }
  }

  lemma {:induction false} GroupSplitsStep(first: int, rows: seq<Line>, a: nat, b: nat, c: nat,
                                           above: seq<LogicalLine>, below: seq<LogicalLine>)
    requires a <= b < c <= |rows| && LineEnd(rows, b)
    requires above + below == Group(first, rows, a, c - 1, false) && below == Group(first, rows, b, c - 1, false)
    requires a < b ==> TailIs(above, rows, b)
    requires a == b ==> above == []
    ensures Group(first, rows, a, c, false) == above + Group(first, rows, b, c, false)
  {
    AddRowToConcat(above, below, rows[c - 1], first + c - 1);
  }

  // ----- The lines that meet a range -----

  predicate Meets(l: LogicalLine, start: int, end: int) {
    l.firstRow < end && start < l.firstRow + |l.physical|
  }

  /** Those of the first `k` lines that meet the range. */
  function Meeting(lines: seq<LogicalLine>, k: nat, start: int, end: int): seq<LogicalLine>
    requires k <= |lines|
  {
    if k == 0 then []
    else Meeting(lines, k - 1, start, end) + if Meets(lines[k - 1], start, end) then [lines[k - 1]] else []
  }

  /** The lines of the whole buffer that meet the range. */
  function LinesMeeting(screen: Screen, start: int, end: int): seq<LogicalLine> {
    Meeting(WholeLines(screen), |WholeLines(screen)|, start, end)
  }

  predicate NoneMeets(lines: seq<LogicalLine>, start: int, end: int) {
    forall j | 0 <= j < |lines| :: !Meets(lines[j], start, end)
  }

  predicate AllMeet(lines: seq<LogicalLine>, start: int, end: int) {
    forall j | 0 <= j < |lines| :: Meets(lines[j], start, end)
  }

  /** Among three stretches of lines of which just the middle one meets the range. */
  lemma {:induction false} MeetingMiddle(above: seq<LogicalLine>, inside: seq<LogicalLine>, below: seq<LogicalLine>,
                                         k: nat, start: int, end: int)
    requires NoneMeets(above, start, end) && AllMeet(inside, start, end) && NoneMeets(below, start, end)
    requires k <= |above + inside + below|
    ensures Meeting(above + inside + below, k, start, end)
            == if k <= |above| then [] else inside[..Min(k - |above|, |inside|)]
  {
    if k > 0 {
      MeetingMiddle(above, inside, below, k - 1, start, end);
      if |above| < k <= |above| + |inside| {
        assert (above + inside + below)[k - 1] == inside[k - 1 - |above|];
        assert inside[..k - |above|] == inside[..k - 1 - |above|] + [inside[k - 1 - |above|]];
      }
    }
  }

  lemma {:induction false} GroupOutside(first: int, rows: seq<Line>, a: nat, b: nat, start: int, end: int)
    requires a <= b <= |rows| && (first + b <= start || end <= first + a)
    ensures NoneMeets(Group(first, rows, a, b, false), start, end)
  {
    var lines := Group(first, rows, a, b, false);
    GroupPartitions(first, rows, a, b, false);
    forall j | 0 <= j < |lines| ensures !Meets(lines[j], start, end) {
      PartAt(lines, |lines|, first, rows, a, b, j);
    }
  }

  predicate WrapsAt(rows: seq<Line>, i: nat)
    requires i < |rows|
  {
    Wraps(rows[i])
  }

  /** From where a line of row `s` goes on upwards to where the line of row `e - 1`
      goes on downwards. */
  predicate Window(rows: seq<Line>, s: nat, e: nat, a: nat, b: nat) {
    && a <= s <= e <= b <= |rows|
    && (forall i | a <= i < s :: WrapsAt(rows, i))
    && (forall i | e <= i + 1 < b && 0 <= i :: WrapsAt(rows, i))
  }

  lemma {:induction false} EndOfLine(lines: seq<LogicalLine>, first: int, rows: seq<Line>, a: nat, b: nat, j: nat)
    requires a <= b <= |rows| && Partitions(lines, first, rows, a, b) && j < |lines| && EndsUnwrapped(lines[j])
    ensures var last := EndRow(lines[j]) - 1 - first;
            0 <= last < |rows| && !WrapsAt(rows, last)
  {
    PartAt(lines, |lines|, first, rows, a, b, j);
    LastOfSlice(rows, lines[j].physical, lines[j].firstRow - first, EndRow(lines[j]) - first);
  }

  lemma {:induction false} LastOfSlice(rows: seq<Line>, physical: seq<Line>, from: int, to: int)
    requires 0 <= from < to <= |rows| && physical == rows[from..to]
    ensures physical[|physical| - 1] == rows[to - 1]
  {
  }

  lemma {:induction false} LineMeets(lines: seq<LogicalLine>, first: int, rows: seq<Line>, s: nat, e: nat, a: nat,
                                     b: nat, j: nat)
    requires s < e && Window(rows, s, e, a, b)
    requires Partitions(lines, first, rows, a, b) && Ended(lines) && j < |lines|
    ensures Meets(lines[j], first + s, first + e)
  {
    PartAt(lines, |lines|, first, rows, a, b, j);
    if j + 1 < |lines| {
      PartAt(lines, |lines|, first, rows, a, b, j + 1);
      EndOfLine(lines, first, rows, a, b, j);
    }
    if j > 0 {
      EndOfLine(lines, first, rows, a, b, j - 1);
    }
  }

  /** Every line of the window meets the range. */
  lemma {:induction false} GroupInside(first: int, rows: seq<Line>, s: nat, e: nat, a: nat, b: nat)
    requires s < e && Window(rows, s, e, a, b)
    ensures AllMeet(Group(first, rows, a, b, false), first + s, first + e)
  {
    var lines := Group(first, rows, a, b, false);
    GroupPartitions(first, rows, a, b, false);
    GroupEnded(first, rows, a, b);
    forall j | 0 <= j < |lines| ensures Meets(lines[j], first + s, first + e) {
      LineMeets(lines, first, rows, s, e, a, b, j);
    }
  }

  /** The lines of the buffer above, within and below a window that reaches to ends
      of lines. */
  lemma {:induction false} WholeParts(first: int, rows: seq<Line>, s: nat, e: nat, a: nat, b: nat)
    returns (above: seq<LogicalLine>, below: seq<LogicalLine>)
    requires s < e && Window(rows, s, e, a, b)
    requires LineEnd(rows, a) && (b == |rows| || LineEnd(rows, b))
    ensures Group(first, rows, 0, |rows|, false) == above + Group(first, rows, a, b, false) + below
    ensures NoneMeets(above, first + s, first + e) && NoneMeets(below, first + s, first + e)
  {
    above, below := Group(first, rows, 0, a, false), Group(first, rows, b, |rows|, false);
    GroupOutside(first, rows, 0, a, first + s, first + e);
    GroupOutside(first, rows, b, |rows|, first + s, first + e);
    GroupSplits(first, rows, 0, a, b);
    GroupSplits(first, rows, 0, b, |rows|);
  }

  /** A window that reaches to ends of lines gives the lines that meet the range. */
  lemma {:induction false} WindowLines(screen: Screen, s: nat, e: nat, a: nat, b: nat)
    requires s < e && Window(screen.rows, s, e, a, b)
    requires LineEnd(screen.rows, a) && (b == |screen.rows| || LineEnd(screen.rows, b))
    ensures Group(screen.offset, screen.rows, a, b, false) == LinesMeeting(screen, screen.offset + s, screen.offset + e)
  {
    WindowIs(screen.offset, screen.rows, WholeLines(screen), Group(screen.offset, screen.rows, a, b, false),
             s, e, a, b);
  }

  lemma {:induction false} WindowIs(first: int, rows: seq<Line>, whole: seq<LogicalLine>, inside: seq<LogicalLine>,
                                    s: nat, e: nat, a: nat, b: nat)
    requires s < e && Window(rows, s, e, a, b) && LineEnd(rows, a) && (b == |rows| || LineEnd(rows, b))
    requires whole == Group(first, rows, 0, |rows|, false) && inside == Group(first, rows, a, b, false)
    ensures Meeting(whole, |whole|, first + s, first + e) == inside
  {
    var above, below := WholeParts(first, rows, s, e, a, b);
    GroupInside(first, rows, s, e, a, b);
    MiddleOfWhole(above, inside, below, whole, first + s, first + e);
  }

  lemma {:induction false} MiddleOfWhole(above: seq<LogicalLine>, inside: seq<LogicalLine>, below: seq<LogicalLine>,
                                         whole: seq<LogicalLine>, start: int, end: int)
    requires NoneMeets(above, start, end) && AllMeet(inside, start, end) && NoneMeets(below, start, end)
    requires whole == above + inside + below
    ensures Meeting(whole, |whole|, start, end) == inside
  {
    MeetingMiddle(above, inside, below, |whole|, start, end);
    assert inside[..|inside|] == inside;
    if inside == [] {
      assert Meeting(whole, |whole|, start, end) == [];
    }
  }

  // ----- How far to look -----

  /** The length of the rows from `a` up to `s` together. */
  function Total(rows: seq<Line>, a: nat, s: nat): nat
    requires a <= s <= |rows|
    decreases s - a
  {
    if a == s then 0 else |rows[a]| + Total(rows, a + 1, s)
  }

  /** The rows from `a` up to `s` are no longer together than the limit, and one more
      row, if there is one and it wraps, is too much. */
  predicate LooksBack(rows: seq<Line>, s: nat, a: nat)
    requires a <= s <= |rows|
  {
    && Total(rows, a, s) <= MAX_LOGICAL_LINE_LEN
    && (a > 0 && WrapsAt(rows, a - 1) ==> Total(rows, a - 1, s) > MAX_LOGICAL_LINE_LEN)
  }

  /** Every row that is looked past from row `e - 1` on is, for itself, no longer than the
      limit; the last one does not wrap, or is longer, or is the last of all. */
  predicate LooksAhead(rows: seq<Line>, e: nat, a: nat, b: nat)
    requires a <= e <= b <= |rows|
  {
    && (forall i | e <= i + 1 < b && 0 <= i :: ShortRow(rows, i))
    && (a < b < |rows| && WrapsAt(rows, b - 1) ==> !ShortRow(rows, b - 1))
  }

  predicate ShortRow(rows: seq<Line>, i: nat)
    requires i < |rows|
  {
    |rows[i]| <= MAX_LOGICAL_LINE_LEN
  }

  /** The rows from `a` up to `b` are those of the range, widened at both ends. */
  predicate Widened(screen: Screen, start: int, end: int, a: nat, b: nat)
    requires screen.rows != [] && start <= end
  {
    var (from, to) := PhysicalRange(screen, start, end);
    && Window(screen.rows, from, to, a, b)
    && LooksBack(screen.rows, from, a) && LooksAhead(screen.rows, to, a, b)
  }

  // ----- Unwrapping a range -----

  lemma {:induction false} OneRow(rows: seq<Line>, i: nat)
    requires i < |rows|
    ensures rows[i..i + 1] == [rows[i]]
  {
  }

  /** Asking for the row before `first` gives it, or `first` itself at the top. */
  method RowBefore(screen: Screen, first: int) returns (prior: int, back: seq<Line>)
    requires screen.rows != [] && screen.offset <= first <= screen.offset + |screen.rows|
    ensures first == screen.offset ==> prior == first
    ensures first > screen.offset ==> prior == first - 1 && back == [screen.rows[first - 1 - screen.offset]]
  {
    var lines := GetLines(screen, first - 1, first);
    prior, back := lines.0, lines.1;
    if first > screen.offset {
      OneRow(screen.rows, first - 1 - screen.offset);
    }
  }

  /** Asking for a row past the end gives the top row. */
  method RowAt(screen: Screen, row: int) returns (at: int, ahead: seq<Line>)
    requires screen.rows != [] && screen.offset <= row <= screen.offset + |screen.rows|
    ensures HasRow(screen, row) ==> at == row && ahead == [screen.rows[row - screen.offset]]
    ensures !HasRow(screen, row) ==> at != row
  {
    var lines := GetLines(screen, row, row + 1);
    at, ahead := lines.0, lines.1;
    if HasRow(screen, row) {
      OneRow(screen.rows, row - screen.offset);
    }
  }

  lemma {:induction false} LongRun(rows: seq<Line>, n: nat)
    requires n <= |rows| && TailLength(rows, n) > MAX_LOGICAL_LINE_LEN
    ensures !ShortRuns(rows)
  {
    assert !ShortAt(rows, n);
  }

  /** Rows `s` up to `to`, and above them the rows that wrap into row `s`. */
  method LookBack(screen: Screen, first: int, phys: seq<Line>, ghost s: nat, ghost to: nat)
    returns (first': int, phys': seq<Line>, ghost a: nat)
    requires screen.rows != [] && s <= to <= |screen.rows|
    requires first == screen.offset + s && phys == screen.rows[s..to]
    ensures screen.offset <= first' <= first && first' + |phys'| == first + |phys|
    ensures a <= s && first' == screen.offset + a && phys' == screen.rows[a..to]
    ensures forall i | a <= i < s :: WrapsAt(screen.rows, i)
    ensures ShortRuns(screen.rows) ==> LineEnd(screen.rows, a)
    ensures LooksBack(screen.rows, s, a)
  {
    first', phys', a := first, phys, s;
    var backLen := 0;
    while first' > 0
      invariant a <= s && first' == screen.offset + a && phys' == screen.rows[a..to]
      invariant forall i | a <= i < s :: WrapsAt(screen.rows, i)
      invariant TailLength(screen.rows, s) == backLen + TailLength(screen.rows, a)
      invariant backLen == Total(screen.rows, a, s) <= MAX_LOGICAL_LINE_LEN
      decreases first'
    {
      var prior, back := RowBefore(screen, first');
      if prior == first' {
        break;
      }
      SliceGrows(screen.rows, a, to);
      if !Wraps(back[0]) {
        break;
      }
      if |back[0]| + backLen > MAX_LOGICAL_LINE_LEN {
        LongRun(screen.rows, s);
        break;
      }
      backLen := backLen + |back[0]|;
      first', phys', a := prior, back + phys', a - 1;
    }
  }

  /** Rows `a` up to `e`, and below them the rows that row `e - 1` wraps into. */
  method LookAhead(screen: Screen, first: int, phys: seq<Line>, ghost a: nat, ghost e: nat)
    returns (phys': seq<Line>, ghost b: nat)
    requires screen.rows != [] && a <= e <= |screen.rows|
    requires first == screen.offset + a && phys == screen.rows[a..e]
    ensures phys <= phys' && first + |phys'| <= screen.offset + |screen.rows|
    ensures e <= b <= |screen.rows| && phys' == screen.rows[a..b]
    ensures forall i | e <= i + 1 < b && 0 <= i :: WrapsAt(screen.rows, i)
    ensures ShortRuns(screen.rows) && a < e ==> b == |screen.rows| || LineEnd(screen.rows, b)
    ensures LooksAhead(screen.rows, e, a, b)
  {
    phys', b := phys, e;
    while phys' != []
      invariant e <= b <= |screen.rows| && phys' == screen.rows[a..b]
      invariant forall i | e <= i + 1 < b && 0 <= i :: WrapsAt(screen.rows, i) && ShortRow(screen.rows, i)
      decreases |screen.rows| - b
    {
      var last := phys'[|phys'| - 1];
      if !Wraps(last) {
        break;
      }
      assert WrapsAt(screen.rows, b - 1);
      if |last| > MAX_LOGICAL_LINE_LEN {
        LongRun(screen.rows, b);
        break;
      }
      var nextRow := first + |phys'|;
      var lastRow, ahead := RowAt(screen, nextRow);
      if lastRow != nextRow {
        break;
      }
      SliceGrows(screen.rows, a, b);
      phys', b := phys' + ahead, b + 1;
    }
  }

  /** The grouping loop, over rows that are those of the buffer from `a` on. */
  method GroupRows(first: int, phys: seq<Line>, ghost screen: Screen, ghost a: nat) returns (lines: seq<LogicalLine>)
    requires first == screen.offset + a && a + |phys| <= |screen.rows| && phys == screen.rows[a..a + |phys|]
    ensures lines == Group(screen.offset, screen.rows, a, a + |phys|, true)
  {
    lines := [];
    for idx := 0 to |phys|
      invariant lines == Group(screen.offset, screen.rows, a, a + idx, true)
    {
      var line := phys[idx];
      assert line == screen.rows[a + idx];
      if lines == [] {
        lines := [Single(line, first + idx)];
      } else {
        var prior := lines[|lines| - 1];
        if Wraps(prior.logical) && |prior.logical| <= MAX_LOGICAL_LINE_LEN {
          lines := lines[|lines| - 1 := Extended(prior, line)];
        } else {
          lines := lines + [Single(line, first + idx)];
        }
      }
    }
  }

  /** The rows of the range, widened at both ends. */
  method Fetch(screen: Screen, start: int, end: int) returns (first: int, phys: seq<Line>, ghost a: nat, ghost b: nat)
    requires screen.rows != [] && start <= end
    ensures Widened(screen, start, end, a, b)
    ensures var (from, to) := PhysicalRange(screen, start, end);
            ShortRuns(screen.rows) && from < to ==>
              LineEnd(screen.rows, a) && (b == |screen.rows| || LineEnd(screen.rows, b))
    ensures screen.offset <= first && first + |phys| <= screen.offset + |screen.rows|
    ensures first == screen.offset + a && phys == screen.rows[a..b]
  {
    var (from, to) := PhysicalRange(screen, start, end);
    var lines := GetLines(screen, start, end);
    first, phys := lines.0, lines.1;
    first, phys, a := LookBack(screen, first, phys, from, to);
    phys, b := LookAhead(screen, first, phys, a, to);
  }

  predicate OnScreen(screen: Screen, start: int, end: int) {
    start < end && HasRow(screen, start) && HasRow(screen, end - 1)
  }

  lemma {:induction false} Unwrapped(screen: Screen, start: int, end: int, a: nat, b: nat)
    requires screen.rows != [] && OnScreen(screen, start, end) && Widened(screen, start, end, a, b)
    requires ShortRuns(screen.rows)
    requires LineEnd(screen.rows, a) && (b == |screen.rows| || LineEnd(screen.rows, b))
    ensures Group(screen.offset, screen.rows, a, b, true) == LinesMeeting(screen, start, end)
  {
    LimitIdle(screen.offset, screen.rows, a, b);
    WindowLines(screen, start - screen.offset, end - screen.offset, a, b);
  }

  /** What `get_lines` gives for the range is widened to whole lines, and cut into
      them again. With no run of wrapped rows over the limit, a range on the screen
      gives exactly the lines of the buffer that meet it. */
  method GetLogicalLines(screen: Screen, start: int, end: int)
    returns (lines: seq<LogicalLine>, ghost a: nat, ghost b: nat)
    requires screen.rows != [] && start <= end
    ensures Widened(screen, start, end, a, b)
    ensures lines == Group(screen.offset, screen.rows, a, b, true)
    ensures ShortRuns(screen.rows) && OnScreen(screen, start, end) ==> lines == LinesMeeting(screen, start, end)
  {
    var first, phys;
    first, phys, a, b := Fetch(screen, start, end);
    lines := GroupRows(first, phys, screen, a);
    if ShortRuns(screen.rows) && OnScreen(screen, start, end) {
      Unwrapped(screen, start, end, a, b);
    }
  }
}
