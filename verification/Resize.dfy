/** Resizing the screen: reflow as a whole, scr_resize and vt_resize (_lib/vt.c). */
module Resize {
  import opened Cells
  import opened Lines
  import opened Scrollback
  import opened Utf8
  import opened Vt
  import opened VtParser
  import opened Reflow
  import opened ReflowSteps

  /* ---- 5. committing ---- */

  method CaptureTop(h: History, tg: array<Row>, tf: array<bool>, over: nat) returns (history: History)
    requires over <= tg.Length == tf.Length
    ensures history == CaptureRows(h, tg[..over], tf[..over])
  {
    hide Capture;
    history := h;
    var i := 0;
    while i < over
      invariant i <= over && history == CaptureRows(h, tg[..i], tf[..i])
    {
      history := Capture(history, tg[i], tf[i]);
      assert tg[..i + 1][..i] == tg[..i] && tf[..i + 1][..i] == tf[..i];
      i := i + 1;
    }
  }

  method KeepRows(tg: array<Row>, tf: array<bool>, over: nat, keep: nat, nr: nat, nc: nat)
    returns (cells: seq<Row>, flags: seq<bool>)
    requires over + keep <= tg.Length == tf.Length && keep <= nr
    ensures cells == tg[over..over + keep] + BlankGrid(nr - keep, nc, BLANK)
    ensures flags == tf[over..over + keep] + NoFlags(nr - keep)
  {
    cells, flags := BlankGrid(nr, nc, BLANK), NoFlags(nr);
    var i := 0;
    while i < keep
      invariant i <= keep && |cells| == |flags| == nr
      invariant forall k :: 0 <= k < i ==> cells[k] == tg[over + k] && flags[k] == tf[over + k]
      invariant forall k :: i <= k < nr ==> cells[k] == BlankRow(nc, BLANK) && !flags[k]
    {
      cells, flags := cells[i := tg[over + i]], flags[i := tf[over + i]];
      i := i + 1;
    }
  }

  /** Rows above the new bottom go to the history, and the rest onto the screen. */
  method Commit(s: Screen, tg: array<Row>, tf: array<bool>, curAbs: nat, text: seq<Byte>, nr: nat, nc: nat,
                ghost page: Page) returns (r: Screen)
    requires s.Valid() && nr >= 1 && nc >= 2
    requires page == Page(tg[..], tf[..]) && page.Valid(nc) && curAbs < tg.Length
    ensures r == Settle(s, page, curAbs, text, nr, nc)
  {
    hide CaptureRows, WithGrid, Settle, GridOf, Screen.Valid;
    var total := tg.Length;
    var over := if total > nr then total - nr else 0;
    if over > curAbs { over := curAbs; }
    var keep := if total - over < nr then total - over else nr;
    var history := CaptureTop(History(text), tg, tf, over);
    var cells, flags := KeepRows(tg, tf, over, keep, nr, nc);
    var ccol := if s.pendingWrap then s.curCol + 1 else s.curCol;
    var crow := curAbs - over;
    SettleIs(s, page, curAbs, text, nr, nc, over, keep);
    assert tg[..][over..over + keep] == tg[over..over + keep] && tf[..][over..over + keep] == tf[over..over + keep];
    assert tg[..][..over] == tg[..over] && tf[..][..over] == tf[..over];
    r := WithGrid(s, cells, flags, nr, nc).(history := history, curRow := Min(crow, nr - 1),
                                            curCol := Min(ccol, nc - 1));
  }

  lemma SettleIs(s: Screen, page: Page, curAbs: nat, text: seq<Byte>, nr: nat, nc: nat, over: nat, keep: nat)
    requires s.Valid() && nr >= 1 && nc >= 2 && page.Valid(nc) && curAbs < |page.rows|
    requires over == Over(|page.rows|, nr, curAbs) && keep == Min(|page.rows| - over, nr)
    ensures GridOf(page.rows[over..over + keep] + BlankGrid(nr - keep, nc, BLANK),
                   page.flags[over..over + keep] + NoFlags(nr - keep), nr, nc)
    ensures Settle(s, page, curAbs, text, nr, nc)
            == WithGrid(s, page.rows[over..over + keep] + BlankGrid(nr - keep, nc, BLANK),
                        page.flags[over..over + keep] + NoFlags(nr - keep), nr, nc).(
                 history := CaptureRows(History(text), page.rows[..over], page.flags[..over]),
                 curRow := Min(curAbs - over, nr - 1),
                 curCol := Min(if s.pendingWrap then s.curCol + 1 else s.curCol, nc - 1))
  {
    hide CaptureRows, WithGrid, Screen.Valid;
  }

  /** The lines collected, with the empty ones at the end dropped, are the lines above and below the cursor's. */
  lemma LinesCollected(s: Screen, lin: seq<Cell>, all: seq<Span>, spans: seq<Span>, frozen: nat, junk: Cell)
    requires s.Valid()
    requires lin == Gather(s.cells[..FirstRow(s.flags, s.curRow)]) + Gather(s.cells[LastRowOf(s.flags, s.curRow) + 1..])
    requires frozen <= |all| && frozen <= |spans|
    requires all[..frozen] == Spans(s.cells, s.flags, 0, FirstRow(s.flags, s.curRow), 0)
             && all[frozen..] == SpansBelow(s)
    requires spans[..frozen] == all[..frozen] && spans[frozen..] == DropEmpty(all[frozen..])
    ensures lin + [junk] == LineBuffer(s, junk) && SpansFit(lin + [junk], spans)
    ensures SpanLines(lin + [junk], spans) == LinesAbove(s, junk) + LinesBelow(s, junk)
    ensures |LinesAbove(s, junk)| == frozen
  {
    hide Spans, DropEmpty, Gather, FirstRow, LastRowOf, SpansBelow, SpanLine;
    AboveFits(s, junk);
    BelowFits(s, junk);
    var buf := lin + [junk];
    assert buf == LineBuffer(s, junk);
    assert spans == spans[..frozen] + spans[frozen..];
    forall i | 0 <= i < |spans| ensures spans[i].start + spans[i].len < |buf| {
      if i < frozen { assert spans[i] == spans[..frozen][i]; } else { assert spans[i] == spans[frozen..][i - frozen]; }
    }
    SpanLinesAppend(buf, spans[..frozen], spans[frozen..]);
  }

  lemma SpanLinesAppend(buf: seq<Cell>, a: seq<Span>, b: seq<Span>)
    requires SpansFit(buf, a) && SpansFit(buf, b)
    ensures SpansFit(buf, a + b) && SpanLines(buf, a + b) == SpanLines(buf, a) + SpanLines(buf, b)
  {
    hide SpanLine;
  }

  lemma ScreenPageIs(s: Screen, base: Page, lines: seq<seq<Cell>>, nc: nat, junk: Cell)
    requires s.Valid() && nc >= 2 && LinesOk(lines) && lines == LinesAbove(s, junk) + LinesBelow(s, junk)
    ensures PageSoFar(s, base, lines, |LinesAbove(s, junk)|, |lines|, true, nc) == base.Then(ScreenPage(s, nc, junk))
    ensures Laid(lines[..|LinesAbove(s, junk)|], nc) == Laid(LinesAbove(s, junk), nc)
    ensures Laid(lines[|LinesAbove(s, junk)|..], nc) == Laid(LinesBelow(s, junk), nc)
  {
    hide Laid, CursorPage, LinesAbove, LinesBelow;
    var above, below := LinesAbove(s, junk), LinesBelow(s, junk);
    assert lines[0..|above|] == above && lines[|above|..|lines|] == below && lines[..|above|] == above
           && lines[|above|..] == below;
    ThenThen(base, Laid(above, nc), CursorPage(s, nc));
    ThenThen(base, Laid(above, nc).Then(CursorPage(s, nc)), Laid(below, nc));
  }

  lemma ScreenPageLength(s: Screen, nc: nat, junk: Cell)
    requires s.Valid() && nc >= 2
    ensures |ScreenPage(s, nc, junk).rows|
            == |Laid(LinesAbove(s, junk), nc).rows| + (LastRowOf(s.flags, s.curRow) + 1 - FirstRow(s.flags, s.curRow))
               + |Laid(LinesBelow(s, junk), nc).rows|
  {
    hide Laid, LinesAbove, LinesBelow, FirstRow, LastRowOf;
  }

  lemma NothingPulled(text: seq<Byte>, cut: nat, nc: nat, cap: nat)
    requires cut <= |text| && nc >= 2
    ensures |Laid(HistoryLines(text, cut, cut), nc).rows| == 0 && LinesWithin(HistoryLines(text, cut, cut), cap)
  {
    LaidNone(HistoryLines(text, cut, cut), nc);
  }

  /** The first and the last row of the line the cursor is on. */
  method CursorLine(s: Screen) returns (cf: nat, cl: nat)
    requires s.Valid()
    ensures cf == FirstRow(s.flags, s.curRow) && cl == LastRowOf(s.flags, s.curRow)
    ensures cf <= s.curRow <= cl < s.rows
  {
    cf, cl := s.curRow, s.curRow;
    while cf > 0 && s.flags[cf - 1]
      invariant cf <= s.curRow && FirstRow(s.flags, cf) == FirstRow(s.flags, s.curRow)
    {
      cf := cf - 1;
    }
    while cl + 1 < s.rows && s.flags[cl]
      invariant s.curRow <= cl < s.rows && LastRowOf(s.flags, cl) == LastRowOf(s.flags, s.curRow)
    {
      cl := cl + 1;
    }
  }

  lemma AllocatedIsBlank(g: seq<Row>, f: seq<bool>, nc: nat)
    requires |g| == |f| && forall i :: 0 <= i < |g| ==> g[i] == Blanks(nc) && !f[i]
    ensures OnGrid(g, f, Page([], []), nc)
  {
  }

  lemma PulledIs(s: Screen, nr: nat, nc: nat, junk: Cell, cut: nat, pull: nat, count: nat)
    requires nc >= 2 && s.history.History? && LineStart(s.history.text, cut)
    requires pull == if nr > s.rows && cut == |s.history.text| then
             PullFrom(s.history.text, cut, nr - count, nc, nr * nc + 2) else cut
    requires s.Valid() && nr >= 1 && cut == Cut(s.history.text, |s.history.text|)
             && count == |ScreenPage(s, nc, junk).rows|
    ensures pull == PullPoint(s, nr, nc, junk) <= cut && LineStart(s.history.text, cut)
    ensures PulledPage(s, nr, nc, junk) == Laid(HistoryLines(s.history.text, pull, cut), nc)
  {
    hide Laid, ScreenPage, HistoryLines, PullFrom, Cut;
  }

  lemma WholePageIs(s: Screen, nr: nat, nc: nat, junk: Cell)
    requires s.Valid() && s.history.History? && nr >= 1 && nc >= 2
    ensures WholePage(s, nr, nc, junk) == PulledPage(s, nr, nc, junk).Then(ScreenPage(s, nc, junk))
    ensures |WholePage(s, nr, nc, junk).rows| == |PulledPage(s, nr, nc, junk).rows| + |ScreenPage(s, nc, junk).rows|
  {
    hide PulledPage, ScreenPage;
  }

  lemma CursorAtIs(s: Screen, nr: nat, nc: nat, junk: Cell)
    requires s.Valid() && s.history.History? && nr >= 1 && nc >= 2
    ensures CursorAt(s, nr, nc, junk)
            == |PulledPage(s, nr, nc, junk).rows| + |Laid(LinesAbove(s, junk), nc).rows|
              + (s.curRow - FirstRow(s.flags, s.curRow))
  {
    hide PulledPage, Laid, LinesAbove;
  }

  lemma ReflowedIs(s: Screen, nr: nat, nc: nat, junk: Cell, pull: nat)
    requires s.Valid() && s.history.History? && nr >= 1 && nc >= 2 && pull == PullPoint(s, nr, nc, junk)
    ensures var text := s.history.text;
            Reflowed(s, nr, nc, junk)
            == Settle(s, WholePage(s, nr, nc, junk), CursorAt(s, nr, nc, junk),
                      if pull < Cut(text, |text|) then text[..pull] else text, nr, nc)
  {
    hide PullPoint, WholePage, CursorAt, Settle, Cut;
  }

  /** The line the history leaves open. */
  method FindCut(text: seq<Byte>) returns (cut: nat)
    ensures cut == Cut(text, |text|) && LineStart(text, cut)
  {
    cut := |text|;
    while cut > 0 && text[cut - 1] != NEWLINE
      invariant cut <= |text| && Cut(text, cut) == Cut(text, |text|)
    {
      cut := cut - 1;
    }
  }

  /** The lines of the screen but the cursor's, and the rows they take. */
  method MeasureScreen(s: Screen, cf: nat, cl: nat, nc: nat, junk: Cell)
    returns (buf: seq<Cell>, spans: seq<Span>, frozen: nat, above: nat, count: nat)
    requires s.Valid() && nc >= 2 && cf == FirstRow(s.flags, s.curRow) && cl == LastRowOf(s.flags, s.curRow) && cf <= cl
    ensures SpansFit(buf, spans) && SpanLines(buf, spans) == LinesAbove(s, junk) + LinesBelow(s, junk)
    ensures frozen == |LinesAbove(s, junk)| <= |spans|
    ensures above == |Laid(LinesAbove(s, junk), nc).rows| && count == |ScreenPage(s, nc, junk).rows|
  {
    hide *;
    var lin, all, k := CollectLines(s, cf, cl);
    frozen := k;
    spans := DropBlank(all, frozen);
    LinesCollected(s, lin, all, spans, frozen, junk);
    buf := lin + [junk];
    var below;
    above, below := CountRows(buf, spans, frozen, nc);
    ScreenPageIs(s, Page([], []), SpanLines(buf, spans), nc, junk);
    ScreenPageLength(s, nc, junk);
    count := above + (cl - cf + 1) + below;
  }

  /** The pulled lines, the lines above the cursor's, the cursor's own rows, and the lines below. */
  method LayOut(s: Screen, cf: nat, cl: nat, text: seq<Byte>, pull: nat, cut: nat, buf: seq<Cell>, spans: seq<Span>,
                frozen: nat,
                total: nat, nr: nat, nc: nat, ghost base: Page) returns (tg: array<Row>, tf: array<bool>)
    requires s.Valid() && nc >= 2 && cf == FirstRow(s.flags, s.curRow) && cl == LastRowOf(s.flags, s.curRow)
    requires pull <= cut && LineStart(text, cut) && LinesWithin(HistoryLines(text, pull, cut), nr * nc + 2)
    requires base == Laid(HistoryLines(text, pull, cut), nc) && |base.rows| <= total
    requires SpansFit(buf, spans) && frozen <= |spans|
    requires total == |PageSoFar(s, base, SpanLines(buf, spans), frozen, |spans|, true, nc).rows|
    ensures Page(tg[..], tf[..]) == PageSoFar(s, base, SpanLines(buf, spans), frozen, |spans|, true, nc)
  {
    hide *;
    tg, tf := new Row[total](_ => Blanks(nc)), new bool[total](_ => false);
    AllocatedIsBlank(tg[..], tf[..], nc);
    var row := FillHistory(text, pull, cut, nc, nr * nc + 2, tg, tf);
    row := FillScreen(s, cf, cl, buf, spans, frozen, nc, tg, tf, row, base);
    OnGridWhole(tg[..], tf[..], PageSoFar(s, base, SpanLines(buf, spans), frozen, |spans|, true, nc), nc);
  }

  /** reflow: counting first, then laying out, into exactly as many rows as were counted. */
  method ReflowScreen(s: Screen, nr: nat, nc: nat, junk: Cell) returns (r: Screen)
    requires s.Valid() && s.history.History? && nr >= 1 && nc >= 2
    ensures r == Reflowed(s, nr, nc, junk)
  {
    hide *;
    var text := s.history.text;
    var cut := FindCut(text);
    var cf, cl := CursorLine(s);
    var buf, spans, frozen, above, count := MeasureScreen(s, cf, cl, nc, junk);
    var hrows, pull := 0, cut;
    NothingPulled(text, cut, nc, nr * nc + 2);
    if nr > s.rows && cut == |text| {
      hrows, pull := PullLines(text, cut, nr - count, nc, nr * nc + 2);
    }
    var total := hrows + count;
    PulledIs(s, nr, nc, junk, cut, pull, count);
    ghost var base := PulledPage(s, nr, nc, junk);
    ScreenPageIs(s, base, SpanLines(buf, spans), nc, junk);
    WholePageIs(s, nr, nc, junk);
    var tg, tf := LayOut(s, cf, cl, text, pull, cut, buf, spans, frozen, total, nr, nc, base);
    ghost var page := WholePage(s, nr, nc, junk);
    CursorAtIs(s, nr, nc, junk);
    r := Commit(s, tg, tf, hrows + above + (s.curRow - cf), if pull < cut then text[..pull] else text, nr, nc, page);
    ReflowedIs(s, nr, nc, junk, pull);
  }

  /* ---- scr_resize and vt_resize ---- */

  /** Grids cut or extended, and the cursor put back inside. */
  function PlainResized(s: Screen, nr: nat, nc: nat): (r: Screen)
    requires s.Valid() && nr >= 1 && nc >= 2
    ensures r.Valid() && r.rows == nr && r.cols == nc
  {
    var full := s.top == 0 && s.bottom == s.rows - 1;
    var top := if !full && s.top >= nr then 0 else s.top;
    var bottom := if full || s.bottom >= nr || top > s.bottom then nr - 1 else s.bottom;
    hide ResizedGrid, ResizedFlags, WithGrid;
    WithGrid(s, ResizedGrid(s.cells, nr, nc), ResizedFlags(s.flags, nr), nr, nc).(
      pendingWrap := s.pendingWrap && s.curRow < nr && s.curCol < nc, top := top, bottom := bottom)
  }

  /** Only the primary screen, with a history and no scroll region set, is laid out anew. */
  predicate Reflows(s: Screen) {
    !s.inAlt && s.history.History? && s.top == 0 && s.bottom == s.rows - 1
  }

  /** scr_resize. */
  ghost function Resized(s: Screen, nr: nat, nc: nat, junk: Cell): (r: Screen)
    requires s.Valid() && nr >= 1 && nc >= 2
    ensures r.Valid()
  {
    if Reflows(s) then Reflowed(s, nr, nc, junk) else PlainResized(s, nr, nc)
  }

  method ResizeScreen(s: Screen, nr: nat, nc: nat, junk: Cell) returns (r: Screen)
    requires s.Valid() && nr >= 1 && nc >= 2
    ensures r == Resized(s, nr, nc, junk)
  {
    hide Reflowed, PlainResized;
    if Reflows(s) { r := ReflowScreen(s, nr, nc, junk); } else { r := PlainResized(s, nr, nc); }
  }

  /** vt_resize. */
  ghost function ResizedParser(p: Parser, nr: nat, nc: nat, junk: Cell): (r: Parser)
    requires p.Valid() && nr >= 1 && nc >= 2
    ensures r.Valid()
  {
    if nr == p.scr.rows && nc == p.scr.cols then p
    else p.(scr := Resized(p.scr, nr, nc, junk), tabs := DefaultTabs(nc))
  }

  /** What a terminal goes through: output of its program, and changes of size. */
  datatype Event = Output(bytes: seq<Byte>) | Resize(rows: nat, cols: nat, junk: Cell)

  ghost predicate EventsOk(events: seq<Event>) {
    forall i :: 0 <= i < |events| && events[i].Resize? ==> events[i].rows >= 1 && events[i].cols >= 2
  }

  /** Every cursor stays in the grid and every index in its buffer, whatever comes in and however the terminal is
      resized. */
  ghost function Live(p: Parser, events: seq<Event>): (r: Parser)
    requires p.Valid() && EventsOk(events)
    ensures r.Valid()
    decreases |events|
  {
    if |events| == 0 then p
    else
      var q := Live(p, events[..|events| - 1]);
      match events[|events| - 1]
      case Output(bytes) => FeedAll(q, bytes)
      case Resize(rows, cols, junk) => ResizedParser(q, rows, cols, junk)
  }
}
