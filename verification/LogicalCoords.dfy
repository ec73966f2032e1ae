/** Screen coordinates and positions in a logical line, after `LogicalLine` of
    `mux/src/pane.rs`. */
module LogicalCoords {
  import opened LogicalLines

  /** The length of the first `k` rows. */
  function Offset(rows: seq<Line>, k: nat): nat
    requires k <= |rows|
  {
    if k == 0 then 0 else Offset(rows, k - 1) + |rows[k - 1]|
  }

  predicate ContainsY(l: LogicalLine, y: int) { l.firstRow <= y < EndRow(l) }

  /** The position in the line of column `x` of row `y`: rows above the line give
      its start, rows below it positions past its end. */
  function LogicalX(l: LogicalLine, x: nat, y: int): nat
    requires l.physical != []
  {
    if y < l.firstRow then 0
    else if y < EndRow(l) then Offset(l.physical, y - l.firstRow) + x
    else Offset(l.physical, |l.physical|) + x
  }

  method XyToLogicalX(l: LogicalLine, x: nat, y: int) returns (r: nat)
    requires l.physical != []
    ensures r == LogicalX(l, x, y)
  {
    var offset := 0;
    for idx := 0 to |l.physical|
      invariant offset == Offset(l.physical, idx)
      invariant idx > 0 ==> l.firstRow + idx <= y
    {
      var physY := l.firstRow + idx;
      if y < physY {
        return 0;
      }
      if physY == y {
        return offset + x;
      }
      offset := offset + |l.physical[idx]|;
    }
    return offset + x;
  }

  /** Position `x` of the line lies at column `px` of row `y`; what lies past the
      end is reckoned to the last row. */
  predicate PlacedAt(l: LogicalLine, x: nat, y: int, px: nat) {
    && ContainsY(l, y)
    && Offset(l.physical, y - l.firstRow) + px == x
    && (px < |l.physical[y - l.firstRow]| || y == EndRow(l) - 1)
  }

  method LogicalXToPhysicalCoord(l: LogicalLine, x: nat) returns (y: int, px: nat)
    requires l.physical != []
    ensures PlacedAt(l, x, y, px)
  {
    y := l.firstRow;
    var idx := 0;
    for k := 0 to |l.physical|
      invariant y == l.firstRow + k
      invariant idx == Offset(l.physical, k) <= x
    {
      var xOff := x - idx;
      var lineLen := |l.physical[k]|;
      if xOff < lineLen {
        return y, xOff;
      }
      y := y + 1;
      idx := idx + lineLen;
    }
    return y - 1, x - idx + |l.physical[|l.physical| - 1]|;
  }

  lemma {:induction false} OffsetMonotone(rows: seq<Line>, j: nat, k: nat)
    requires j < k <= |rows|
    ensures Offset(rows, j) + |rows[j]| <= Offset(rows, k)
    decreases k
  {
    if j < k - 1 {
      OffsetMonotone(rows, j, k - 1);
    }
  }

  /** Every position has one place, rows without cells included. */
  lemma {:induction false} PlaceIsUnique(l: LogicalLine, x: nat, y: int, px: nat, y': int, px': nat)
    requires PlacedAt(l, x, y, px) && PlacedAt(l, x, y', px')
    ensures y == y' && px == px'
  {
    if y < y' {
      OffsetMonotone(l.physical, y - l.firstRow, y' - l.firstRow);
    } else if y' < y {
      OffsetMonotone(l.physical, y' - l.firstRow, y - l.firstRow);
    }
  }

  /** To the screen and back, past the end too. */
  lemma {:induction false} ThereAndBack(l: LogicalLine, x: nat, y: int, px: nat)
    requires PlacedAt(l, x, y, px)
    ensures LogicalX(l, px, y) == x
  {
    assert l.physical != [];
  }

  /** From the screen and back: exact for the cells of a row, and past the end of
      the last row; past the end of another row the place is in a later row. */
  lemma {:induction false} BackAndThere(l: LogicalLine, x: nat, y: int, y': int, px': nat)
    requires ContainsY(l, y) && PlacedAt(l, LogicalX(l, x, y), y', px')
    ensures y' == y && px' == x <==> x < |l.physical[y - l.firstRow]| || y == EndRow(l) - 1
    ensures y <= y'
  {
    if y' < y {
      OffsetMonotone(l.physical, y' - l.firstRow, y - l.firstRow);
    } else if y < y' {
      OffsetMonotone(l.physical, y - l.firstRow, y' - l.firstRow);
    }
  }

  // ----- The positions are those of the joined cells -----

  lemma {:induction false} JoinKeepsText(above: Line, line: Line, all: Line, i: nat)
    requires all == SetWrapped(above, false) + line && i < |all|
    ensures |all| == |above| + |line|
    ensures all[i].text == if i < |above| then above[i].text else line[i - |above|].text
  {
  }

  predicate TextAt(line: Line, at: nat, cell: Cell) { at < |line| && line[at].text == cell.text }

  lemma {:induction false} JoinedText(rows: seq<Line>, n: nat, k: nat, x: nat)
    requires k < n <= |rows| && x < |rows[k]|
    ensures TextAt(Joined(rows, n), Offset(rows, k) + x, rows[k][x])
    decreases n
  {
    if k < n - 1 {
      JoinedText(rows, n - 1, k, x);
      JoinedTextAbove(rows, n, Offset(rows, k) + x, rows[k][x], Joined(rows, n - 1));
    } else {
      JoinedLength(rows, k);
      JoinedTextLast(rows, k, x, Joined(rows, k));
    }
  }

  lemma {:induction false} JoinedTextAbove(rows: seq<Line>, n: nat, at: nat, cell: Cell, before: Line)
    requires 0 < n <= |rows| && before == Joined(rows, n - 1) && TextAt(before, at, cell)
    ensures TextAt(Joined(rows, n), at, cell)
  {
    JoinKeepsText(before, rows[n - 1], Joined(rows, n), at);
  }

  lemma {:induction false} JoinedTextLast(rows: seq<Line>, k: nat, x: nat, before: Line)
    requires k < |rows| && x < |rows[k]| && before == Joined(rows, k)
    ensures TextAt(Joined(rows, k + 1), |before| + x, rows[k][x])
  {
    JoinKeepsText(before, rows[k], Joined(rows, k + 1), |before| + x);
  }

  lemma {:induction false} JoinedLength(rows: seq<Line>, n: nat)
    requires n <= |rows|
    ensures |Joined(rows, n)| == Offset(rows, n)
  {
    if n > 0 {
      JoinedLength(rows, n - 1);
    }
  }

  /** The cell shown at a place of the line is the cell of the joined row there. */
  lemma {:induction false} CellAt(l: LogicalLine, x: nat, y: int)
    requires l.logical == Joined(l.physical, |l.physical|)
    requires ContainsY(l, y) && x < |l.physical[y - l.firstRow]|
    ensures LogicalX(l, x, y) < |l.logical|
    ensures l.logical[LogicalX(l, x, y)].text == l.physical[y - l.firstRow][x].text
  {
    JoinedText(l.physical, |l.physical|, y - l.firstRow, x);
  }

  /** Rows above the line count as its start, rows below it as beyond its last cell. */
  lemma {:induction false} OutsideLine(l: LogicalLine, x: nat, y: int)
    requires l.physical != [] && l.logical == Joined(l.physical, |l.physical|) && !ContainsY(l, y)
    ensures LogicalX(l, x, y) == if y < l.firstRow then 0 else |l.logical| + x
  {
    JoinedLength(l.physical, |l.physical|);
  }
}
