/** Lines that are laid out again and stay on the screen keep their cells, colours and attributes with them
    (_lib/vt.c). */
module ReflowCells {
  import opened Cells
  import opened Lines
  import opened Scrollback
  import opened Utf8
  import opened Vt
  import opened Reflow
  import opened ReflowSteps
  import opened ReflowText
  import opened KeptLines
  import opened ReflowKeeps

  /** The first row of the i-th line of rows from..to-1. */
  ghost function LineRow(flags: seq<bool>, from: nat, to: nat, i: nat): (r: nat)
    requires from <= to <= |flags|
    ensures from <= r <= to
    decreases i
  {
    if i == 0 || from == to then from else LineRow(flags, LineEnd(flags, from, to), to, i - 1)
  }

  /** The cells of the i-th line, as they are on the screen. */
  ghost function LineOf(cells: seq<Row>, flags: seq<bool>, from: nat, to: nat, i: nat): seq<Cell>
    requires from <= to <= |cells| == |flags|
  {
    var r := LineRow(flags, from, to, i);
    if r == to then [] else Trim(Gather(cells[r..LineEnd(flags, r, to)]))
  }

  /** The i-th line in the buffer is the i-th line of the rows. */
  lemma {:induction false} SpanIsLineOf(cells: seq<Row>, flags: seq<bool>, from: nat, to: nat, start: nat,
                                        buf: seq<Cell>, i: nat)
    requires from <= to <= |cells| == |flags| && i < |Spans(cells, flags, from, to, start)|
    requires start + |Gather(cells[from..to])| < |buf|
             && buf[start..start + |Gather(cells[from..to])|] == Gather(cells[from..to])
    ensures var sp := Spans(cells, flags, from, to, start)[i];
            sp.start + sp.len < |buf| && LineCells(buf, sp) == LineOf(cells, flags, from, to, i)
    decreases i
  {
    hide Gather, Trim, LineEnd, LineCells, Spans;
    if from == to {
      SpansEnd(cells, flags, from, start);
    } else {
      var e := LineEnd(flags, from, to);
      var g, rest := Gather(cells[from..e]), Gather(cells[e..to]);
      SpansStep(cells, flags, from, to, start);
      GatherJoin(cells, from, e, to);
      BufferSplit(buf, start, g, rest);
      if i == 0 {
        SpanIsLine(buf, start, g);
      } else {
        SpanIsLineOf(cells, flags, e, to, start + |g|, buf, i - 1);
      }
    }
  }

  lemma {:induction false} LineOfNoPads(cells: seq<Row>, flags: seq<bool>, from: nat, to: nat, i: nat)
    requires from <= to <= |cells| == |flags|
    ensures var ln := LineOf(cells, flags, from, to, i); NoPads(ln) && Trim(ln) == ln
  {
    hide Gather, LineEnd;
    var r := LineRow(flags, from, to, i);
    if r < to { GatherNoPads(cells[r..LineEnd(flags, r, to)]); }
  }

  /** Rows `at` and on hold a line: all but the last wrap, and gathered they are its cells. */
  ghost predicate Holds(cells: seq<Row>, flags: seq<bool>, at: nat, n: nat, ln: seq<Cell>) {
    && at + n <= |cells| == |flags| && n > 0 && flags[at..at + n] == LineFlags(n)
    && Trim(Gather(cells[at..at + n])) == ln
  }

  /** Where the i-th of several lines is laid out. */
  lemma LaidHolds(lines: seq<seq<Cell>>, nc: nat, i: nat)
    requires nc >= 2 && LinesOk(lines) && i < |lines| && NoPads(lines[i]) && Trim(lines[i]) == lines[i]
    ensures var p := Laid(lines, nc); Holds(p.rows, p.flags, |Laid(lines[..i], nc).rows|, |Lay(lines[i], nc)|, lines[i])
  {
    hide LayFrom, Gather, Laid, Trim, Chunked;
    var a, l, b := lines[..i], lines[i], lines[i + 1..];
    assert lines == a + ([l] + b);
    LaidAppend(a, [l] + b, nc);
    LaidAppend([l], b, nc);
    LaidOne(l, nc);
    GatherUndoesLay(l, nc);
    var p, at, n := Laid(lines, nc), |Laid(a, nc).rows|, |Lay(l, nc)|;
    assert p.rows[at..at + n] == Lay(l, nc) && p.flags[at..at + n] == LineFlags(n);
  }

  lemma HoldsAfter(a: Page, p: Page, b: Page, at: nat, n: nat, ln: seq<Cell>, nc: nat)
    requires a.Valid(nc) && p.Valid(nc) && b.Valid(nc) && Holds(p.rows, p.flags, at, n, ln)
    ensures var q := a.Then(p).Then(b); Holds(q.rows, q.flags, |a.rows| + at, n, ln)
  {
    hide Gather, Trim;
    var q, k := a.Then(p).Then(b), |a.rows| + at;
    assert q.rows[k..k + n] == p.rows[at..at + n] && q.flags[k..k + n] == p.flags[at..at + n];
  }

  lemma HoldsOnScreen(s: Screen, page: Page, curAbs: nat, text: seq<Byte>, nr: nat, nc: nat, at: nat, n: nat,
                      ln: seq<Cell>)
    requires s.Valid() && nr >= 1 && nc >= 2 && page.Valid(nc) && curAbs < |page.rows|
             && Holds(page.rows, page.flags, at, n, ln)
    requires var over := Over(|page.rows|, nr, curAbs); over <= at && at + n <= over + nr
    ensures var r := Settle(s, page, curAbs, text, nr, nc);
            Holds(r.cells, r.flags, at - Over(|page.rows|, nr, curAbs), n, ln)
  {
    hide Gather, Trim, CaptureRows;
    var r, over := Settle(s, page, curAbs, text, nr, nc), Over(|page.rows|, nr, curAbs);
    var keep := Min(|page.rows| - over, nr);
    assert forall k :: 0 <= k < keep ==> r.cells[k] == page.rows[over + k] && r.flags[k] == page.flags[over + k];
    assert r.cells[at - over..at - over + n] == page.rows[at..at + n];
    assert r.flags[at - over..at - over + n] == page.flags[at..at + n];
  }

  /* ---- lines above and below ---- */

  /** The i-th line above the cursor's, which does not end in an odd number of first halves, is laid out as it is. */
  lemma LineAboveIs(s: Screen, junk: Cell, i: nat)
    requires s.Valid() && i < |SpansAbove(s)|
    requires WideRun(LineOf(s.cells, s.flags, 0, FirstRow(s.flags, s.curRow), i)) % 2 == 0
    ensures |LinesAbove(s, junk)| == |SpansAbove(s)|
    ensures LinesAbove(s, junk)[i] == LineOf(s.cells, s.flags, 0, FirstRow(s.flags, s.curRow), i)
  {
    hide Gather, Spans, SpanLine, LineOf, LineCells, WideRun, Chunked;
    var f, buf := FirstRow(s.flags, s.curRow), LineBuffer(s, junk);
    AboveFits(s, junk);
    assert s.cells[0..f] == s.cells[..f];
    assert buf[0..0 + |Gather(s.cells[0..f])|] == Gather(s.cells[0..f]);
    SpanIsLineOf(s.cells, s.flags, 0, f, 0, buf, i);
    SpanLineIs(buf, SpansAbove(s)[i]);
    assert LineOf(s.cells, s.flags, 0, f, i) + [] == LineOf(s.cells, s.flags, 0, f, i);
  }

  lemma LineBelowIs(s: Screen, junk: Cell, i: nat)
    requires s.Valid() && i < |DropEmpty(SpansBelow(s))|
    requires WideRun(LineOf(s.cells, s.flags, LastRowOf(s.flags, s.curRow) + 1, s.rows, i)) % 2 == 0
    ensures |LinesBelow(s, junk)| == |DropEmpty(SpansBelow(s))|
    ensures LinesBelow(s, junk)[i] == LineOf(s.cells, s.flags, LastRowOf(s.flags, s.curRow) + 1, s.rows, i)
  {
    hide Gather, Spans, SpanLine, LineOf, LineCells, WideRun, Chunked, FirstRow, LastRowOf;
    var f, l, buf := FirstRow(s.flags, s.curRow), LastRowOf(s.flags, s.curRow), LineBuffer(s, junk);
    var a, b := Gather(s.cells[..f]), Gather(s.cells[l + 1..]);
    BelowFits(s, junk);
    assert s.cells[l + 1..s.rows] == s.cells[l + 1..];
    assert buf[|a|..|a| + |b|] == b;
    SpanIsLineOf(s.cells, s.flags, l + 1, s.rows, |a|, buf, i);
    SpanLineIs(buf, SpansBelow(s)[i]);
    var ln := LineOf(s.cells, s.flags, l + 1, s.rows, i);
    assert ln + [] == ln;
  }

  /** Where the i-th line above the cursor's comes to be, of all the rows laid out. */
  ghost function AtAbove(s: Screen, nr: nat, nc: nat, junk: Cell, i: nat): nat
    requires s.Valid() && s.history.History? && nc >= 2 && i <= |LinesAbove(s, junk)|
  {
    |PulledPage(s, nr, nc, junk).rows| + |Laid(LinesAbove(s, junk)[..i], nc).rows|
  }

  ghost function AtBelow(s: Screen, nr: nat, nc: nat, junk: Cell, i: nat): nat
    requires s.Valid() && s.history.History? && nc >= 2 && i <= |LinesBelow(s, junk)|
  {
    |PulledPage(s, nr, nc, junk).rows| + |Laid(LinesAbove(s, junk), nc).rows| + |CursorPage(s, nc).rows|
      + |Laid(LinesBelow(s, junk)[..i], nc).rows|
  }

  /** n rows of those laid out, from row `at` on, are on the screen, and this is the first of them there. */
  ghost predicate Stays(s: Screen, nr: nat, nc: nat, junk: Cell, at: nat, n: nat, row: nat)
    requires s.Valid() && s.history.History? && nr >= 1 && nc >= 2
  {
    var over := Over(|WholePage(s, nr, nc, junk).rows|, nr, CursorAt(s, nr, nc, junk));
    at == over + row && row + n <= nr
  }

  /** A line above the cursor's that stays on the screen is there in other rows, with the same cells. */
  lemma ReflowKeepsCellsAbove(s: Screen, nr: nat, nc: nat, junk: Cell, i: nat, row: nat)
    requires s.Valid() && s.history.History? && nr >= 1 && nc >= 2 && i < |SpansAbove(s)| == |LinesAbove(s, junk)|
    requires WideRun(LineOf(s.cells, s.flags, 0, FirstRow(s.flags, s.curRow), i)) % 2 == 0
    requires Stays(s, nr, nc, junk, AtAbove(s, nr, nc, junk, i), |Lay(LinesAbove(s, junk)[i], nc)|, row)
    ensures var r := Reflowed(s, nr, nc, junk);
            Holds(r.cells, r.flags, row, |Lay(LinesAbove(s, junk)[i], nc)|,
                  LineOf(s.cells, s.flags, 0, FirstRow(s.flags, s.curRow), i))
  {
    hide Holds, LineOf, SpansAbove, LinesAbove, LinesBelow, Laid, PulledPage, CursorPage, HistoryLeft, WideRun, Chunked,
         CursorAt, Settle, LayFrom;
    var ln, n := LineOf(s.cells, s.flags, 0, FirstRow(s.flags, s.curRow), i), |Lay(LinesAbove(s, junk)[i], nc)|;
    LineAboveIs(s, junk, i);
    LineOfNoPads(s.cells, s.flags, 0, FirstRow(s.flags, s.curRow), i);
    LaidHolds(LinesAbove(s, junk), nc, i);
    var h, a, c, b := PulledPage(s, nr, nc, junk), Laid(LinesAbove(s, junk), nc), CursorPage(s, nc),
        Laid(LinesBelow(s, junk), nc);
    HoldsAfter(h, a, c.Then(b), |Laid(LinesAbove(s, junk)[..i], nc).rows|, n, ln, nc);
    var page := WholePage(s, nr, nc, junk);
    assert page == h.Then(a).Then(c.Then(b));
    HoldsOnScreen(s, page, CursorAt(s, nr, nc, junk), HistoryLeft(s, nr, nc, junk), nr, nc, AtAbove(s, nr, nc, junk, i),
                  n, ln);
  }

  /** And so is one below it. */
  lemma ReflowKeepsCellsBelow(s: Screen, nr: nat, nc: nat, junk: Cell, i: nat, row: nat)
    requires s.Valid() && s.history.History? && nr >= 1 && nc >= 2
             && i < |DropEmpty(SpansBelow(s))| == |LinesBelow(s, junk)|
    requires WideRun(LineOf(s.cells, s.flags, LastRowOf(s.flags, s.curRow) + 1, s.rows, i)) % 2 == 0
    requires Stays(s, nr, nc, junk, AtBelow(s, nr, nc, junk, i), |Lay(LinesBelow(s, junk)[i], nc)|, row)
    ensures var r := Reflowed(s, nr, nc, junk);
            Holds(r.cells, r.flags, row, |Lay(LinesBelow(s, junk)[i], nc)|,
                  LineOf(s.cells, s.flags, LastRowOf(s.flags, s.curRow) + 1, s.rows, i))
  {
    hide Holds, LineOf, SpansBelow, LinesAbove, LinesBelow, Laid, PulledPage, CursorPage, HistoryLeft, WideRun, Chunked,
         CursorAt, Settle, LayFrom, LastRowOf;
    var ln, n := LineOf(s.cells, s.flags, LastRowOf(s.flags, s.curRow) + 1, s.rows, i),
        |Lay(LinesBelow(s, junk)[i], nc)|;
    LineBelowIs(s, junk, i);
    LineOfNoPads(s.cells, s.flags, LastRowOf(s.flags, s.curRow) + 1, s.rows, i);
    LaidHolds(LinesBelow(s, junk), nc, i);
    var h, a, c, b := PulledPage(s, nr, nc, junk), Laid(LinesAbove(s, junk), nc), CursorPage(s, nc),
        Laid(LinesBelow(s, junk), nc);
    var front, none := h.Then(a).Then(c), Page([], []);
    HoldsAfter(front, b, none, |Laid(LinesBelow(s, junk)[..i], nc).rows|, n, ln, nc);
    var page := WholePage(s, nr, nc, junk);
    assert page == front.Then(b).Then(none);
    HoldsOnScreen(s, page, CursorAt(s, nr, nc, junk), HistoryLeft(s, nr, nc, junk), nr, nc, AtBelow(s, nr, nc, junk, i),
                  n, ln);
  }
}
