/** Lines of cells taken apart for the wire and put together again, `codec/src/lib.rs`:
    the hyperlinks of the cells travel as runs, each link once a run. */
module SerializedLines {
  import opened Wrappers
  import opened Sequences

  /** A shared hyperlink. Cells refer to it, and compare it, by identity. */
  class Hyperlink {
    const url: string

    constructor (url: string)
      ensures this.url == url
    {
      this.url := url;
    }
  }

  datatype Cell = Cell(text: string, link: Option<Hyperlink>, images: seq<string>)

  datatype Row = Row(stable: int, cells: seq<Cell>)

  /** Columns `start` up to `end` of the line at index `line`. */
  datatype Coords = Coords(line: nat, start: nat, end: nat)

  datatype LineHyperlink = LineHyperlink(url: string, coords: seq<Coords>)

  datatype PlacedImage = PlacedImage(stable: int, column: nat, image: string)

  datatype Serialized = Serialized(rows: seq<Row>, hyperlinks: seq<LineHyperlink>, images: seq<PlacedImage>)

  // ----- What is sent -----

  function Strip(c: Cell): Cell { c.(link := None, images := []) }

  function StripRow(r: Row): Row {
    r.(cells := seq(|r.cells|, x requires 0 <= x < |r.cells| => Strip(r.cells[x])))
  }

  function StripRows(rows: seq<Row>): seq<Row> {
    seq(|rows|, i requires 0 <= i < |rows| => StripRow(rows[i]))
  }

  /** Where the cells from `x` on stop carrying the very link `link`. */
  function StreakEnd(cells: seq<Cell>, link: Hyperlink, x: nat): (e: nat)
    requires x <= |cells|
    ensures x <= e <= |cells|
    ensures forall j | x <= j < e :: cells[j].link == Some(link)
    ensures e < |cells| ==> cells[e].link != Some(link)
    decreases |cells| - x
  {
    if x < |cells| && cells[x].link == Some(link) then StreakEnd(cells, link, x + 1) else x
  }

  function Streak(link: Hyperlink, line: nat, start: nat, end: nat): LineHyperlink {
    LineHyperlink(link.url, [Coords(line, start, end)])
  }

  /** The runs from column `x` on, `start` being where the run of `link` began. */
  function RunsAfter(cells: seq<Cell>, line: nat, link: Hyperlink, start: nat, x: nat): seq<LineHyperlink>
    requires start < x <= |cells|
    decreases |cells| - x, 1
  {
    var e := StreakEnd(cells, link, x);
    [Streak(link, line, start, e)] + RunsFrom(cells, line, e)
  }

  function RunsFrom(cells: seq<Cell>, line: nat, x: nat): seq<LineHyperlink>
    requires x <= |cells|
    decreases |cells| - x, 0
  {
    if x == |cells| then []
    else match cells[x].link
      case None => RunsFrom(cells, line, x + 1)
      case Some(link) => RunsAfter(cells, line, link, x, x + 1)
  }

  function RowRuns(rows: seq<Row>, line: nat): seq<LineHyperlink>
    requires line <= |rows|
    decreases |rows| - line
  {
    if line == |rows| then [] else RunsFrom(rows[line].cells, line, 0) + RowRuns(rows, line + 1)
  }

  function CellImages(images: seq<string>, stable: int, column: nat): seq<PlacedImage> {
    seq(|images|, k requires 0 <= k < |images| => PlacedImage(stable, column, images[k]))
  }

  function ImagesFrom(cells: seq<Cell>, stable: int, x: nat): seq<PlacedImage>
    requires x <= |cells|
    decreases |cells| - x
  {
    if x == |cells| then [] else CellImages(cells[x].images, stable, x) + ImagesFrom(cells, stable, x + 1)
  }

  /** The images row by row, in a row from left to right. */
  function RowImages(rows: seq<Row>, line: nat): seq<PlacedImage>
    requires line <= |rows|
    decreases |rows| - line
  {
    if line == |rows| then [] else ImagesFrom(rows[line].cells, rows[line].stable, 0) + RowImages(rows, line + 1)
  }

  // ----- Taking the lines apart -----

  datatype Range = Range(start: nat, end: nat)

  function RangeUnion(r1: Range, r2: Range): Range {
    if r1.start == r1.end then r2
    else if r2.start == r2.end then r1
    else Range(if r1.start < r2.start then r1.start else r2.start, if r1.end > r2.end then r1.end else r2.end)
  }

  /** The runs still to be recorded in a row scanned up to `x`. */
  ghost function Pending(cells: seq<Cell>, line: nat, current: Option<Hyperlink>, range: Range, x: nat)
    : seq<LineHyperlink>
    requires x <= |cells| && (current.Some? ==> range.start < x)
  {
    match current
    case None => RunsFrom(cells, line, x)
    case Some(link) => RunsAfter(cells, line, link, range.start, x)
  }

  method TakeRow(row: Row, line: nat) returns (plain: Row, hyperlinks: seq<LineHyperlink>, images: seq<PlacedImage>)
    ensures plain == StripRow(row)
    ensures hyperlinks == RunsFrom(row.cells, line, 0)
    ensures images == ImagesFrom(row.cells, row.stable, 0)
  {
    var cells := row.cells;
    hyperlinks, images := [], [];
    var currentLink: Option<Hyperlink> := None;
    var currentRange := Range(0, 0);
    var x := 0;
    while x < |row.cells|
      invariant x <= |row.cells| == |cells|
      invariant forall j | 0 <= j < |cells| :: cells[j] == if j < x then Strip(row.cells[j]) else row.cells[j]
      invariant currentLink.Some? ==> currentRange.start < currentRange.end == x
      invariant hyperlinks + Pending(row.cells, line, currentLink, currentRange, x) == RunsFrom(row.cells, line, 0)
      invariant images + ImagesFrom(row.cells, row.stable, x) == ImagesFrom(row.cells, row.stable, 0)
    {
      var cell := cells[x];
      var here := Range(x, x + 1);
      match cell.link {
        case Some(link) =>
          if currentLink == Some(link) {
            currentRange := RangeUnion(currentRange, here);
          } else {
            if currentLink.Some? {
              var run := Streak(currentLink.value, line, currentRange.start, currentRange.end);
              Assoc(hyperlinks, [run], RunsFrom(row.cells, line, x));
              hyperlinks := hyperlinks + [run];
            }
            currentRange := here;
            currentLink := Some(link);
          }
        case None =>
          if currentLink.Some? {
            var run := Streak(currentLink.value, line, currentRange.start, currentRange.end);
            Assoc(hyperlinks, [run], RunsFrom(row.cells, line, x));
            hyperlinks := hyperlinks + [run];
            currentRange := Range(0, 0);
            currentLink := None;
          }
      }
      Assoc(images, CellImages(cell.images, row.stable, x), ImagesFrom(row.cells, row.stable, x + 1));
      images := images + CellImages(cell.images, row.stable, x);
      cells := cells[x := cell.(link := None, images := [])];
      x := x + 1;
    }
    if currentLink.Some? {
      hyperlinks := hyperlinks + [Streak(currentLink.value, line, currentRange.start, currentRange.end)];
    }
    assert RunsFrom(row.cells, line, x) == [] && ImagesFrom(row.cells, row.stable, x) == [];
    assert cells == StripRow(row).cells;
    plain := Row(row.stable, cells);
  }

  method Serialize(rows: seq<Row>) returns (s: Serialized)
    ensures s == Serialized(StripRows(rows), RowRuns(rows, 0), RowImages(rows, 0))
    ensures |s.rows| == |rows| && forall i, x | 0 <= i < |rows| && 0 <= x < |rows[i].cells| ::
              && |s.rows[i].cells| == |rows[i].cells| && s.rows[i].stable == rows[i].stable
              && s.rows[i].cells[x] == Cell(rows[i].cells[x].text, None, [])
  {
    var plain, hyperlinks, images := rows, [], [];
    var line := 0;
    while line < |rows|
      invariant line <= |rows| == |plain|
      invariant forall i | 0 <= i < |plain| :: plain[i] == if i < line then StripRow(rows[i]) else rows[i]
      invariant hyperlinks + RowRuns(rows, line) == RowRuns(rows, 0)
      invariant images + RowImages(rows, line) == RowImages(rows, 0)
    {
      var row, links, placed := TakeRow(plain[line], line);
      Assoc(hyperlinks, links, RowRuns(rows, line + 1));
      Assoc(images, placed, RowImages(rows, line + 1));
      plain, hyperlinks, images := plain[line := row], hyperlinks + links, images + placed;
      line := line + 1;
    }
    s := Serialized(plain, hyperlinks, images);
  }

  // ----- The images -----

  /** How many images the first `x` cells hold. */
  function CountIn(cells: seq<Cell>, x: nat): nat
    requires x <= |cells|
  {
    if x == 0 then 0 else CountIn(cells, x - 1) + |cells[x - 1].images|
  }

  /** How many images the first `i` rows hold. */
  function CountAbove(rows: seq<Row>, i: nat): nat
    requires i <= |rows|
  {
    if i == 0 then 0 else CountAbove(rows, i - 1) + CountIn(rows[i - 1].cells, |rows[i - 1].cells|)
  }

  lemma {:induction false} ImagesOfRow(cells: seq<Cell>, stable: int, y: nat, x: nat, k: nat)
    requires y <= x <= |cells| && (x < |cells| ==> k < |cells[x].images|) && (x == |cells| ==> k == 0)
    ensures var (n, images) := (CountIn(cells, x) - CountIn(cells, y) + k, ImagesFrom(cells, stable, y));
            if x == |cells| then n == |images|
            else 0 <= n < |images| && images[n] == PlacedImage(stable, x, cells[x].images[k])
    decreases x - y
  {
    if y < x {
      ImagesOfRow(cells, stable, y + 1, x, k);
    }
  }

  lemma {:induction false} ImagesBelow(rows: seq<Row>, j: nat, i: nat, x: nat, k: nat)
    requires j <= i < |rows| && x < |rows[i].cells| && k < |rows[i].cells[x].images|
    ensures var (n, images) := (CountAbove(rows, i) - CountAbove(rows, j) + CountIn(rows[i].cells, x) + k,
                                RowImages(rows, j));
            0 <= n < |images| && images[n] == PlacedImage(rows[i].stable, x, rows[i].cells[x].images[k])
    decreases i - j
  {
    if j < i {
      ImagesBelow(rows, j + 1, i, x, k);
      ImagesOfRow(rows[j].cells, rows[j].stable, 0, |rows[j].cells|, 0);
    } else {
      ImagesOfRow(rows[i].cells, rows[i].stable, 0, x, k);
    }
  }

  lemma {:induction false} ImagesInAll(rows: seq<Row>, j: nat)
    requires j <= |rows|
    ensures |RowImages(rows, j)| == CountAbove(rows, |rows|) - CountAbove(rows, j)
    decreases |rows| - j
  {
    if j < |rows| {
      ImagesInAll(rows, j + 1);
      ImagesOfRow(rows[j].cells, rows[j].stable, 0, |rows[j].cells|, 0);
    }
  }

  /** The `k`th image of a cell is sent with the stable index of its row and its column,
      after all images of the rows above, of the cells to its left and before it in
      its cell; and no more images are sent than there are. */
  lemma {:induction false} ImageSent(rows: seq<Row>, i: nat, x: nat, k: nat)
    requires i < |rows| && x < |rows[i].cells| && k < |rows[i].cells[x].images|
    ensures var (n, images) := (CountAbove(rows, i) + CountIn(rows[i].cells, x) + k, RowImages(rows, 0));
            n < |images| && images[n] == PlacedImage(rows[i].stable, x, rows[i].cells[x].images[k])
    ensures |RowImages(rows, 0)| == CountAbove(rows, |rows|)
  {
    ImagesBelow(rows, 0, i, x, k);
    ImagesInAll(rows, 0);
  }

  // ----- The runs -----

  /** A run within one row: cells that all carry one link, and no cell just
      before or after them does. */
  predicate IsStreak(cells: seq<Cell>, start: nat, end: nat) {
    && start < end <= |cells|
    && cells[start].link.Some?
    && (forall x | start <= x < end :: cells[x].link == cells[start].link)
    && (end < |cells| ==> cells[end].link != cells[start].link)
    && (start > 0 ==> cells[start - 1].link != cells[start].link)
  }

  predicate IsRun(rows: seq<Row>, h: LineHyperlink) {
    && |h.coords| == 1
    && h.coords[0].line < |rows|
    && IsStreak(rows[h.coords[0].line].cells, h.coords[0].start, h.coords[0].end)
    && h.url == rows[h.coords[0].line].cells[h.coords[0].start].link.value.url
  }

  predicate At(h: LineHyperlink, line: nat, x: nat) {
    |h.coords| == 1 && h.coords[0].line == line && h.coords[0].start <= x < h.coords[0].end
  }

  /** `a` lies wholly before `b`, in an earlier row or further left. */
  predicate Before(a: LineHyperlink, b: LineHyperlink) {
    && |a.coords| == 1 && |b.coords| == 1
    && (a.coords[0].line < b.coords[0].line
        || (a.coords[0].line == b.coords[0].line && a.coords[0].end <= b.coords[0].start))
  }

  predicate InOrder(hs: seq<LineHyperlink>) { forall j, k | 0 <= j < k < |hs| :: Before(hs[j], hs[k]) }

  predicate Covered(hs: seq<LineHyperlink>, line: nat, y: nat) { exists h :: h in hs && At(h, line, y) }

  lemma {:induction false} CoveredInEither(a: seq<LineHyperlink>, b: seq<LineHyperlink>, line: nat, y: nat)
    requires Covered(a, line, y) || Covered(b, line, y)
    ensures Covered(a + b, line, y)
  {
    var h :| h in (if Covered(a, line, y) then a else b) && At(h, line, y);
    assert h in a + b;
  }

  lemma {:induction false} OrderedConcat(a: seq<LineHyperlink>, b: seq<LineHyperlink>)
    requires InOrder(a) && InOrder(b) && forall g, h | g in a && h in b :: Before(g, h)
    ensures InOrder(a + b)
  {
    forall j, k | 0 <= j < k < |a + b| ensures Before((a + b)[j], (a + b)[k]) {
      if j < |a| <= k {
        assert a[j] in a && b[k - |a|] in b;
      } else if k >= |a| {
        assert Before(b[j - |a|], b[k - |a|]);
      }
    }
  }

  /** `hs` are runs of one row, in order, and cover its linked cells from `x` on. */
  predicate CoverRow(rows: seq<Row>, line: nat, x: nat, hs: seq<LineHyperlink>)
    requires line < |rows|
  {
    && InOrder(hs)
    && (forall h | h in hs :: IsRun(rows, h) && h.coords[0].line == line && x <= h.coords[0].start)
    && (forall y | x <= y < |rows[line].cells| && rows[line].cells[y].link.Some? :: Covered(hs, line, y))
  }

  lemma {:induction false} AddRun(rows: seq<Row>, line: nat, x: nat, e: nat, first: LineHyperlink,
                                  hs: seq<LineHyperlink>)
    requires line < |rows| && first.coords == [Coords(line, x, e)] && IsRun(rows, first) && CoverRow(rows, line, e, hs)
    ensures CoverRow(rows, line, x, [first] + hs)
  {
    OrderedConcat([first], hs);
    forall y | x <= y < |rows[line].cells| && rows[line].cells[y].link.Some? ensures Covered([first] + hs, line, y) {
      if y < e {
        assert first in [first] && At(first, line, y);
      }
      CoveredInEither([first], hs, line, y);
    }
  }

  lemma {:induction false} RowRunsOk(rows: seq<Row>, line: nat, x: nat)
    requires line < |rows| && x <= |rows[line].cells|
    requires 0 < x < |rows[line].cells| && rows[line].cells[x].link.Some? ==>
               rows[line].cells[x - 1].link != rows[line].cells[x].link
    ensures CoverRow(rows, line, x, RunsFrom(rows[line].cells, line, x))
    decreases |rows[line].cells| - x
  {
    var cells := rows[line].cells;
    if x < |cells| {
      match cells[x].link {
        case None =>
          RowRunsOk(rows, line, x + 1);
        case Some(link) =>
          var e := StreakEnd(cells, link, x + 1);
          RowRunsOk(rows, line, e);
          AddRun(rows, line, x, e, Streak(link, line, x, e), RunsFrom(cells, line, e));
      }
    }
  }

  /** The runs of all rows, in order and apart from each other, cover every linked
      cell; and what they cover is linked, by a run's own link. */
  lemma {:induction false} RunsCoverLinks(rows: seq<Row>, line: nat)
    requires line <= |rows|
    ensures var hs := RowRuns(rows, line);
            && InOrder(hs)
            && (forall h | h in hs :: IsRun(rows, h) && line <= h.coords[0].line)
            && (forall i, y | line <= i < |rows| && 0 <= y < |rows[i].cells| && rows[i].cells[y].link.Some? ::
                  Covered(hs, i, y))
    decreases |rows| - line
  {
    if line < |rows| {
      RowRunsOk(rows, line, 0);
      RunsCoverLinks(rows, line + 1);
      var (here, below) := (RunsFrom(rows[line].cells, line, 0), RowRuns(rows, line + 1));
      OrderedConcat(here, below);
      forall i, y | line <= i < |rows| && 0 <= y < |rows[i].cells| && rows[i].cells[y].link.Some?
        ensures Covered(here + below, i, y)
      {
        CoveredInEither(here, below, i, y);
      }
    }
  }

  // ----- Putting the lines together -----

  function SetLink(row: Row, start: nat, end: nat, link: Hyperlink): Row {
    row.(cells := seq(|row.cells|, x requires 0 <= x < |row.cells| =>
                    if start <= x < end then row.cells[x].(link := Some(link)) else row.cells[x]))
  }

  /** A run outside the lines is ignored. */
  function RestoreRun(rows: seq<Row>, c: Coords, link: Hyperlink): seq<Row> {
    if c.line < |rows| && c.start <= c.end <= |rows[c.line].cells|
    then rows[c.line := SetLink(rows[c.line], c.start, c.end, link)]
    else rows
  }

  function RestoreRuns(rows: seq<Row>, coords: seq<Coords>, link: Hyperlink): seq<Row> {
    if coords == [] then rows
    else RestoreRun(RestoreRuns(rows, coords[..|coords| - 1], link), coords[|coords| - 1], link)
  }

  /** Every run of `hs`, one after the other, `links[k]` being put on the cells of the `k`th. */
  function Restored(rows: seq<Row>, hs: seq<LineHyperlink>, links: seq<Hyperlink>): seq<Row>
    requires |hs| == |links|
  {
    if hs == [] then rows
    else
      var n := |hs| - 1;
      RestoreRuns(Restored(rows, hs[..n], links[..n]), hs[n].coords, links[n])
  }

  /** Which runs are ignored, and that the others change only the links of their cells. */
  lemma {:induction false} RunAt(rows: seq<Row>, c: Coords, link: Hyperlink, i: nat, x: nat)
    requires i < |rows| && x < |rows[i].cells|
    ensures var (inside, after) := (c.line < |rows| && c.start <= c.end <= |rows[c.line].cells|,
                                    RestoreRun(rows, c, link));
            && |after| == |rows| && |after[i].cells| == |rows[i].cells| && after[i].stable == rows[i].stable
            && after[i].cells[x] == rows[i].cells[x].(link := if inside && i == c.line && c.start <= x < c.end
                                                               then Some(link) else rows[i].cells[x].link)
  {
  }

  predicate CopiesOf(hs: seq<LineHyperlink>, links: seq<Hyperlink>) {
    && |links| == |hs|
    && (forall k | 0 <= k < |hs| :: links[k].url == hs[k].url)
    && (forall j, k | 0 <= j < k < |hs| :: links[j] != links[k])
  }

  method RestoreCells(row: Row, start: nat, end: nat, link: Hyperlink) returns (r: Row)
    requires start <= end <= |row.cells|
    ensures r == SetLink(row, start, end, link)
  {
    var cells := row.cells;
    for x := start to end
      invariant |cells| == |row.cells|
      invariant forall y | 0 <= y < |cells| ::
                  cells[y] == if start <= y < x then row.cells[y].(link := Some(link)) else row.cells[y]
    {
      cells := cells[x := cells[x].(link := Some(link))];
    }
    r := Row(row.stable, cells);
  }

  method RestoreLink(rows: seq<Row>, coords: seq<Coords>, link: Hyperlink) returns (r: seq<Row>)
    ensures r == RestoreRuns(rows, coords, link)
  {
    r := rows;
    for j := 0 to |coords|
      invariant r == RestoreRuns(rows, coords[..j], link)
    {
      var c := coords[j];
      assert coords[..j + 1][..j] == coords[..j];
      if c.line < |r| && c.start <= c.end <= |r[c.line].cells| {
        var row := RestoreCells(r[c.line], c.start, c.end, link);
        r := r[c.line := row];
      }
    }
    assert coords[..|coords|] == coords;
  }

  method ExtractData(s: Serialized) returns (rows: seq<Row>, images: seq<PlacedImage>, ghost links: seq<Hyperlink>)
    ensures CopiesOf(s.hyperlinks, links) && (forall link | link in links :: fresh(link))
    ensures rows == Restored(s.rows, s.hyperlinks, links)
    ensures images == s.images
  {
    rows, images, links := s.rows, s.images, [];
    var hs := s.hyperlinks;
    for k := 0 to |hs|
      invariant CopiesOf(hs[..k], links) && (forall link | link in links :: fresh(link))
      invariant rows == Restored(s.rows, hs[..k], links)
    {
      var url := new Hyperlink(hs[k].url);
      assert hs[..k + 1][..k] == hs[..k] && (links + [url])[..k] == links;
      rows := RestoreLink(rows, hs[k].coords, url);
      links := links + [url];
    }
    assert hs[..|hs|] == hs;
  }

  // ----- Round trip -----

  /** What restoring does to one cell: the one run over it decides its link, and
      without one it keeps what it had. */
  lemma {:induction false} RestoredCell(rows: seq<Row>, plain: seq<Row>, hs: seq<LineHyperlink>,
                                        links: seq<Hyperlink>, i: nat, x: nat)
    requires |links| == |hs| && InOrder(hs) && (forall h | h in hs :: IsRun(rows, h))
    requires |plain| == |rows| && (forall j | 0 <= j < |rows| :: |plain[j].cells| == |rows[j].cells|)
    requires i < |rows| && x < |rows[i].cells|
    ensures var back := Restored(plain, hs, links);
            && |back| == |rows| && |back[i].cells| == |rows[i].cells|
            && (forall j | 0 <= j < |rows| :: |back[j].cells| == |rows[j].cells|)
            && back[i].stable == plain[i].stable
            && back[i].cells[x] == plain[i].cells[x].(link := back[i].cells[x].link)
            && (forall k | 0 <= k < |hs| && At(hs[k], i, x) :: back[i].cells[x].link == Some(links[k]))
            && ((forall k | 0 <= k < |hs| :: !At(hs[k], i, x)) ==> back[i].cells[x].link == plain[i].cells[x].link)
  {
    if hs != [] {
      var n := |hs| - 1;
      assert hs[n] in hs && IsRun(rows, hs[n]);
      RestoredCell(rows, plain, hs[..n], links[..n], i, x);
      RestoresOne(Restored(plain, hs[..n], links[..n]), hs[n], links[n]);
      if At(hs[n], i, x) {
        forall k | 0 <= k < n ensures !At(hs[k], i, x) {
          assert Before(hs[k], hs[n]);
        }
      }
    }
  }

  lemma {:induction false} RestoresOne(rows: seq<Row>, h: LineHyperlink, link: Hyperlink)
    requires |h.coords| == 1
    ensures RestoreRuns(rows, h.coords, link) == RestoreRun(rows, h.coords[0], link)
  {
    assert h.coords[..0] == [];
  }

  predicate SameLink(a: Option<Hyperlink>, b: Option<Hyperlink>) {
    match (a, b)
    case (None, None) => true
    case (Some(l), Some(m)) => l.url == m.url
    case _ => false
  }

  /** Cells of one row between which every cell carries one and the same link. */
  predicate SameStreak(cells: seq<Cell>, x: nat, y: nat)
    requires x < |cells| && y < |cells|
  {
    cells[x].link.Some? && forall j | 0 <= j < |cells| && (x <= j <= y || y <= j <= x) :: cells[j].link == cells[x].link
  }

  /** Every cell of every row gets a link to where it linked before, and no other does. */
  lemma {:induction false} RoundTrip(rows: seq<Row>, links: seq<Hyperlink>, i: nat, x: nat)
    requires CopiesOf(RowRuns(rows, 0), links) && i < |rows| && x < |rows[i].cells|
    ensures var back := Restored(StripRows(rows), RowRuns(rows, 0), links);
            && |back| == |rows| && |back[i].cells| == |rows[i].cells|
            && back[i].stable == rows[i].stable
            && back[i].cells[x].text == rows[i].cells[x].text && back[i].cells[x].images == []
            && SameLink(rows[i].cells[x].link, back[i].cells[x].link)
  {
    var hs := RowRuns(rows, 0);
    RunsCoverLinks(rows, 0);
    RestoredCell(rows, StripRows(rows), hs, links, i, x);
    if rows[i].cells[x].link.Some? {
      var k := RunOver(hs, i, x);
      assert IsRun(rows, hs[k]);
    } else {
      forall k | 0 <= k < |hs| ensures !At(hs[k], i, x) {
        assert IsRun(rows, hs[k]);
      }
    }
  }

  /** Two cells share a link object afterwards exactly when they are in one row and
      every cell from the one to the other carried the same object before: sharing
      survives within a streak, and is lost across a gap or a line break. */
  lemma {:induction false} SharingKept(rows: seq<Row>, links: seq<Hyperlink>, i: nat, x: nat, j: nat, y: nat)
    requires CopiesOf(RowRuns(rows, 0), links)
    requires i < |rows| && x < |rows[i].cells| && j < |rows| && y < |rows[j].cells|
    requires rows[i].cells[x].link.Some?
    ensures var back := Restored(StripRows(rows), RowRuns(rows, 0), links);
            && |back| == |rows| && |back[i].cells| == |rows[i].cells| && |back[j].cells| == |rows[j].cells|
            && (back[i].cells[x].link == back[j].cells[y].link <==> i == j && SameStreak(rows[i].cells, x, y))
  {
    var k := RestoredLink(rows, links, i, x);
    if rows[j].cells[y].link.Some? {
      var m := RestoredLink(rows, links, j, y);
      RunsCoverLinks(rows, 0);
      SameRunIff(rows, RowRuns(rows, 0), k, i, x, m, j, y);
    } else {
      RoundTrip(rows, links, j, y);
    }
  }

  /** A linked cell gets the link of the run over it. */
  lemma {:induction false} RestoredLink(rows: seq<Row>, links: seq<Hyperlink>, i: nat, x: nat) returns (k: nat)
    requires CopiesOf(RowRuns(rows, 0), links) && i < |rows| && x < |rows[i].cells| && rows[i].cells[x].link.Some?
    ensures k < |links| && At(RowRuns(rows, 0)[k], i, x)
    ensures var back := Restored(StripRows(rows), RowRuns(rows, 0), links);
            |back| == |rows| && |back[i].cells| == |rows[i].cells| && back[i].cells[x].link == Some(links[k])
  {
    var hs := RowRuns(rows, 0);
    RunsCoverLinks(rows, 0);
    RestoredCell(rows, StripRows(rows), hs, links, i, x);
    k := RunOver(hs, i, x);
  }

  lemma {:induction false} RunOver(hs: seq<LineHyperlink>, i: nat, x: nat) returns (k: nat)
    requires Covered(hs, i, x)
    ensures k < |hs| && At(hs[k], i, x)
  {
    var h :| h in hs && At(h, i, x);
    k :| 0 <= k < |hs| && hs[k] == h;
  }

  lemma {:induction false} SameRunIff(rows: seq<Row>, hs: seq<LineHyperlink>, k: nat, i: nat, x: nat, m: nat, j: nat,
                                      y: nat)
    requires InOrder(hs) && k < |hs| && m < |hs| && IsRun(rows, hs[k]) && IsRun(rows, hs[m])
    requires i < |rows| && x < |rows[i].cells| && j < |rows| && y < |rows[j].cells|
    requires At(hs[k], i, x) && At(hs[m], j, y)
    ensures k == m <==> i == j && SameStreak(rows[i].cells, x, y)
  {
    var c := hs[k].coords[0];
    if i == j && SameStreak(rows[i].cells, x, y) {
      SameRun(rows[i].cells, c.start, c.end, x, y);
    }
  }

  lemma {:induction false} SameRun(cells: seq<Cell>, start: nat, end: nat, x: nat, y: nat)
    requires IsStreak(cells, start, end) && start <= x < end && y < |cells| && SameStreak(cells, x, y)
    ensures start <= y < end
  {
    if y >= end {
      Between(cells, x, y, end);
    } else if y < start {
      Between(cells, x, y, start - 1);
    }
  }

  lemma {:induction false} Between(cells: seq<Cell>, x: nat, y: nat, j: int)
    requires x < |cells| && y < |cells| && (x <= j <= y || y <= j <= x) && SameStreak(cells, x, y)
    ensures cells[j].link == cells[x].link
  {
  }

  /** One link on two cells with a plain cell between them, and on a cell of the next row. */
  function Apart(link: Hyperlink): seq<Row> {
    [Row(0, [Cell("a", Some(link), []), Cell("b", None, []), Cell("c", Some(link), [])]),
     Row(1, [Cell("d", Some(link), [])])]
  }

  /** A gap and a row break each lose the sharing. */
  lemma {:induction false} SharingLost(link: Hyperlink, links: seq<Hyperlink>)
    requires CopiesOf(RowRuns(Apart(link), 0), links)
    ensures var (rows, back) := (Apart(link), Restored(StripRows(Apart(link)), RowRuns(Apart(link), 0), links));
            && rows[0].cells[0].link == rows[0].cells[2].link == rows[1].cells[0].link
            && |back| == 2 && |back[0].cells| == 3 && |back[1].cells| == 1
            && back[0].cells[0].link != back[0].cells[2].link && back[0].cells[2].link != back[1].cells[0].link
  {
    var rows := Apart(link);
    SharingKept(rows, links, 0, 0, 0, 2);
    SharingKept(rows, links, 0, 2, 1, 0);
    assert rows[0].cells[1].link.None?;
  }
}
