/** What a change of size keeps of a screen that is not laid out anew (scr_resize and vt_resize of _lib/vt.c). */
module ResizeLaws {
  import opened Cells
  import opened Utf8
  import opened Scrollback
  import opened Vt
  import opened VtParser
  import opened Reflow
  import opened Resize
  import opened EditLaws
  import opened CursorLaws
  import opened Lines
  import opened ReflowSteps

  /** A grid cut or extended at its right and its foot: cells and flags inside both sizes are kept, and what is new is
      blank in the default colours. */
  ghost predicate Fitted(g: seq<Row>, f: seq<bool>, g': seq<Row>, f': seq<bool>, nr: nat, nc: nat) {
    && |g'| == nr && |f'| == nr && (forall r :: 0 <= r < nr ==> |g'[r]| == nc)
    && (forall r, c :: 0 <= r < nr && 0 <= c < nc ==>
          if r < |g| && c < |g[r]| then g'[r][c] == g[r][c] else Erased(g'[r][c], Pen(256, 256, {})))
    && forall r :: 0 <= r < nr ==> f'[r] == (r < |f| && f[r])
  }

  lemma GridFitted(g: seq<Row>, f: seq<bool>, nr: nat, nc: nat)
    ensures Fitted(g, f, ResizedGrid(g, nr, nc), ResizedFlags(f, nr), nr, nc)
  {
  }

  ghost predicate HiddenFitted(h: Hidden, h': Hidden, nr: nat, nc: nat) {
    match h
    case NoGrid => h' == NoGrid
    case Grid(cells, flags) => h'.Grid? && Fitted(cells, flags, h'.cells, h'.flags, nr, nc)
  }

  lemma HiddenIsFitted(h: Hidden, nr: nat, nc: nat)
    ensures HiddenFitted(h, ResizedHidden(h, nr, nc), nr, nc)
  {
    hide ResizedGrid, ResizedFlags, Fitted;
    if h.Grid? { GridFitted(h.cells, h.flags, nr, nc); }
  }

  /** The alternate screen, a screen with a region set, and one without a history keep what fits: cells, flags, cursors;
      a wrap stays due only where the cursor stays; a region that was the screen is the screen. */
  lemma PlainResizeKeeps(s: Screen, nr: nat, nc: nat, junk: Cell)
    requires s.Valid() && nr >= 1 && nc >= 2 && !Reflows(s)
    ensures var t := Resized(s, nr, nc, junk);
      && Fitted(s.cells, s.flags, t.cells, t.flags, nr, nc) && HiddenFitted(s.hidden, t.hidden, nr, nc)
      && Nearest(s.curRow, 0, nr - 1, t.curRow) && Nearest(s.curCol, 0, nc - 1, t.curCol)
      && Nearest(s.savedRow, 0, nr - 1, t.savedRow) && Nearest(s.savedCol, 0, nc - 1, t.savedCol)
      && Nearest(s.altRow, 0, nr - 1, t.altRow) && Nearest(s.altCol, 0, nc - 1, t.altCol)
      && t.pendingWrap == (s.pendingWrap && t.curRow == s.curRow && t.curCol == s.curCol)
      && (s.top == 0 && s.bottom == s.rows - 1 ==> t.top == 0 && t.bottom == nr - 1)
      && (s.bottom < nr && !(s.top == 0 && s.bottom == s.rows - 1) ==> t.top == s.top && t.bottom == s.bottom)
      && t == s.(rows := nr, cols := nc, cells := t.cells, flags := t.flags, hidden := t.hidden,
                 curRow := t.curRow, curCol := t.curCol, savedRow := t.savedRow, savedCol := t.savedCol,
                 altRow := t.altRow, altCol := t.altCol, pendingWrap := t.pendingWrap, top := t.top, bottom := t.bottom)
  {
    hide ResizedGrid, ResizedFlags, ResizedHidden, Fitted, HiddenFitted;
    GridFitted(s.cells, s.flags, nr, nc);
    HiddenIsFitted(s.hidden, nr, nc);
  }

  lemma GridBack(g: seq<Row>, f: seq<bool>, rows: nat, cols: nat, nr: nat, nc: nat)
    requires GridOf(g, f, rows, cols) && nr >= rows && nc >= cols
    ensures ResizedGrid(ResizedGrid(g, nr, nc), rows, cols) == g
    ensures ResizedFlags(ResizedFlags(f, nr), rows) == f
  {
    var big := ResizedGrid(g, nr, nc);
    var back := ResizedGrid(big, rows, cols);
    forall r | 0 <= r < rows ensures back[r] == g[r] {
      assert forall c :: 0 <= c < cols ==> back[r][c] == big[r][c] == g[r][c];
    }
  }

  lemma HiddenBack(h: Hidden, rows: nat, cols: nat, nr: nat, nc: nat)
    requires h.Grid? ==> GridOf(h.cells, h.flags, rows, cols)
    requires nr >= rows && nc >= cols
    ensures ResizedHidden(ResizedHidden(h, nr, nc), rows, cols) == h
  {
    hide ResizedGrid, ResizedFlags;
    if h.Grid? { GridBack(h.cells, h.flags, rows, cols, nr, nc); }
  }

  /** A screen that is made larger and then as large as it was is what it was. */
  lemma ThereAndBack(s: Screen, nr: nat, nc: nat, junk: Cell)
    requires s.Valid() && !Reflows(s) && nr >= s.rows && nc >= s.cols
    ensures var t := Resized(s, nr, nc, junk); !Reflows(t) && Resized(t, s.rows, s.cols, junk) == s
  {
    hide ResizedGrid, ResizedFlags, ResizedHidden;
    GridBack(s.cells, s.flags, s.rows, s.cols, nr, nc);
    HiddenBack(s.hidden, s.rows, s.cols, nr, nc);
  }

  /** vt_resize sets tab stops at every eighth column of the new width, and does nothing if the size is the same. */
  lemma ResizeSetsStops(p: Parser, nr: nat, nc: nat, junk: Cell)
    requires p.Valid() && nr >= 1 && nc >= 2
    ensures var q := ResizedParser(p, nr, nc, junk);
      if nr == p.scr.rows && nc == p.scr.cols then q == p
      else
        && q == p.(scr := Resized(p.scr, nr, nc, junk), tabs := q.tabs)
        && forall c: nat :: c in q.tabs <==> c < nc && c < 512 && c % 8 == 0
  {
    hide Resized;
  }

  /* ---- screens laid out anew ---- */

  /** What a reflow does besides: the other grid is fitted, and so are the saved cursors; the region is the screen. */
  lemma ReflowKeepsRest(s: Screen, nr: nat, nc: nat, junk: Cell)
    requires s.Valid() && nr >= 1 && nc >= 2 && Reflows(s)
    ensures var t := Resized(s, nr, nc, junk);
      && HiddenFitted(s.hidden, t.hidden, nr, nc) && t.top == 0 && t.bottom == nr - 1 && !t.pendingWrap
      && Nearest(s.savedRow, 0, nr - 1, t.savedRow) && Nearest(s.savedCol, 0, nc - 1, t.savedCol)
      && Nearest(s.altRow, 0, nr - 1, t.altRow) && Nearest(s.altCol, 0, nc - 1, t.altCol)
      && t.pen == s.pen && t.visible == s.visible && t.origin == s.origin && t.autoWrap == s.autoWrap
      && t.insert == s.insert && t.inAlt == s.inAlt
  {
    hide ResizedHidden, HiddenFitted, WholePage, CursorAt, HistoryLeft;
    HiddenIsFitted(s.hidden, nr, nc);
  }

  /** The rows of the new layout that are on the screen: all from row `over` on that fit, and erased rows below them. */
  ghost predicate Placed(p: Page, t: Screen, over: nat, nr: nat, nc: nat) {
    && |t.cells| == |t.flags| == nr && |p.rows| == |p.flags| && over <= |p.rows| && t.cols == nc
    && forall r :: 0 <= r < nr ==> PlacedRow(p, t, over, r)
  }

  ghost predicate PlacedRow(p: Page, t: Screen, over: nat, r: nat) {
    && r < |t.cells| && r < |t.flags| && |p.rows| == |p.flags|
    && if over + r < |p.rows| then t.cells[r] == p.rows[over + r] && t.flags[r] == p.flags[over + r]
       else RowErased(t, r, Pen(256, 256, {}))
  }

  /** Rows leave at the top only while some do not fit, and never the cursor's; as many do as it takes. */
  lemma LeavesNoMore(s: Screen, page: Page, curAbs: nat, text: seq<Byte>, nr: nat, nc: nat)
    requires s.Valid() && nr >= 1 && nc >= 2 && page.Valid(nc) && curAbs < |page.rows|
    ensures var t, over := Settle(s, page, curAbs, text, nr, nc), Over(|page.rows|, nr, curAbs);
      && Placed(page, t, over, nr, nc) && over <= curAbs && t.curRow == curAbs - over
      && (over > 0 ==> over + nr <= |page.rows|) && (over < curAbs ==> |page.rows| <= over + nr)
  {
    hide WithGrid, CaptureRows;
    var t, over := Settle(s, page, curAbs, text, nr, nc), Over(|page.rows|, nr, curAbs);
    forall r | 0 <= r < nr ensures PlacedRow(page, t, over, r) {
      if over + r >= |page.rows| { BlankIsErased(DEFAULT_PEN); }
    }
  }

  /** How many rows the lines from byte q of the history on take. */
  ghost function RowsBack(text: seq<Byte>, q: nat, cut: nat, nc: nat): nat
    requires q <= cut <= |text| && nc >= 2
  {
    |Laid(HistoryLines(text, q, cut), nc).rows|
  }

  /** The line that ends before byte p. */
  ghost function LineBack(text: seq<Byte>, p: nat): (ln: seq<Cell>)
    requires 0 < p <= |text|
    ensures Chunked(ln)
  {
    DecodedLine(text[Cut(text, p - 1)..p - 1])
  }

  ghost function RowsOf(ln: seq<Cell>, nc: nat): nat
    requires nc >= 2 && Chunked(ln)
  {
    |Lay(ln, nc)|
  }

  lemma NoRowsBack(text: seq<Byte>, cut: nat, nc: nat)
    requires cut <= |text| && nc >= 2
    ensures RowsBack(text, cut, cut, nc) == 0
  {
    hide Laid;
    NoHistoryLines(text, cut);
    LaidNone(HistoryLines(text, cut, cut), nc);
  }

  lemma RowsStep(text: seq<Byte>, p: nat, cut: nat, nc: nat)
    requires 0 < p <= cut && LineStart(text, p) && LineStart(text, cut) && nc >= 2
    ensures RowsBack(text, Cut(text, p - 1), cut, nc) == RowsBack(text, p, cut, nc) + RowsOf(LineBack(text, p), nc)
  {
    hide Lay, Laid, HistoryLines, DecodedLine;
    var line := LineBack(text, p);
    HistoryLinesStep(text, Cut(text, p - 1), p, cut);
    LaidAppend([line], HistoryLines(text, p, cut), nc);
    LaidOne(line, nc);
  }

  lemma PullStep(text: seq<Byte>, p: nat, avail: int, nc: nat, cap: nat)
    requires LineStart(text, p) && nc >= 2
    ensures p == 0 ==> PullFrom(text, p, avail, nc, cap) == p
    ensures p > 0 ==> LineStart(text, Cut(text, p - 1))
    ensures p > 0 ==>
              var line := LineBack(text, p);
              PullFrom(text, p, avail, nc, cap)
              == if |line| > cap || RowsOf(line, nc) > avail then p
                 else PullFrom(text, Cut(text, p - 1), avail - RowsOf(line, nc), nc, cap)
  {
    hide Lay, DecodedLine;
  }

  /** Another line before byte q is too long, or does not fit beside `have` rows. */
  ghost predicate NoRoomFor(text: seq<Byte>, q: nat, have: nat, avail: int, nc: nat, cap: nat)
    requires q <= |text| && nc >= 2
  {
    q > 0 ==> |LineBack(text, q)| > cap || have + RowsOf(LineBack(text, q), nc) > avail
  }

  /** Lines come back from the history while they fit, and no more of them would. */
  lemma {:induction false} PulledFit(text: seq<Byte>, p: nat, cut: nat, avail: int, nc: nat, cap: nat)
    requires p <= cut && LineStart(text, p) && LineStart(text, cut) && nc >= 2
    requires RowsBack(text, p, cut, nc) <= avail || p == cut
    ensures var q := PullFrom(text, p, avail - RowsBack(text, p, cut, nc), nc, cap);
      && q <= cut && (q == cut || RowsBack(text, q, cut, nc) <= avail)
      && NoRoomFor(text, q, RowsBack(text, q, cut, nc), avail, nc, cap)
    decreases p
  {
    hide RowsBack, RowsOf, LineBack, Cut, PullFrom, Chunked;
    var have := RowsBack(text, p, cut, nc);
    PullStep(text, p, avail - have, nc, cap);
    if p > 0 {
      var line := LineBack(text, p);
      if |line| <= cap && RowsOf(line, nc) <= avail - have {
        RowsStep(text, p, cut, nc);
        PulledFit(text, Cut(text, p - 1), cut, avail, nc, cap);
      }
    }
  }

  /** A reflow uses its room: rows leave for the history only while some do not fit and never the cursor's, as many as
      it takes. */
  lemma ReflowLeavesNoMore(s: Screen, nr: nat, nc: nat, junk: Cell)
    requires s.Valid() && nr >= 1 && nc >= 2 && Reflows(s)
    ensures var t := Resized(s, nr, nc, junk);
      var page, at := WholePage(s, nr, nc, junk), CursorAt(s, nr, nc, junk);
      var over := Over(|page.rows|, nr, at);
      && Placed(page, t, over, nr, nc) && over <= at && t.curRow == at - over
      && (over > 0 ==> over + nr <= |page.rows|) && (over < at ==> |page.rows| <= over + nr)
  {
    hide WholePage, CursorAt, HistoryLeft, Settle, Over, Placed;
    LeavesNoMore(s, WholePage(s, nr, nc, junk), CursorAt(s, nr, nc, junk), HistoryLeft(s, nr, nc, junk), nr, nc);
  }

  /** Lines come back only to a taller screen and when the history ends a line, whole, while they fit beside the
      screen's own, and as many as do. */
  ghost predicate TookBack(s: Screen, nr: nat, nc: nat, own: nat, back: nat, q: nat)
    requires s.Valid() && s.history.History? && nc >= 2 && q <= |s.history.text|
  {
    hide Laid, Lay, Cut, DecodedLine;
    var text := s.history.text;
    var cut := Cut(text, |text|);
    && q <= cut && back == RowsBack(text, q, cut, nc)
    && (q < cut ==> nr > s.rows && cut == |text| && back + own <= nr)
    && (nr > s.rows && cut == |text| ==> NoRoomFor(text, q, back, nr - own, nc, nr * nc + 2))
  }

  lemma ReflowTakesBack(s: Screen, nr: nat, nc: nat, junk: Cell)
    requires s.Valid() && nr >= 1 && nc >= 2 && Reflows(s)
    ensures TookBack(s, nr, nc, |ScreenPage(s, nc, junk).rows|, |PulledPage(s, nr, nc, junk).rows|,
                     PullPoint(s, nr, nc, junk))
  {
    hide Laid, ScreenPage, HistoryLines, NoRoomFor, PullFrom, Cut;
    var text := s.history.text;
    var cut := Cut(text, |text|);
    NoRowsBack(text, cut, nc);
    PulledFit(text, cut, cut, nr - |ScreenPage(s, nc, junk).rows|, nc, nr * nc + 2);
  }

  /* ---- the cursor's line ---- */

  /** A row cut or extended: the cells inside both widths are kept, but for a wide character that would lose its second
      half, and what is new is blank. */
  ghost predicate RowCut(row: Row, row': Row, nc: nat, pen: Pen) {
    && |row'| == nc
    && forall c :: 0 <= c < nc ==>
         if c >= |row| then Erased(row'[c], Pen(256, 256, {}))
         else if c == nc - 1 && row[c].wide then Erased(row'[c], pen)
         else row'[c] == row[c]
  }

  lemma FitIsCut(row: Row, nc: nat, pen: Pen)
    requires nc >= 1
    ensures RowCut(row, FitRow(row, nc, BlankCell(pen)), nc, pen)
  {
    hide BlankCell, Erased;
    BlankIsErased(pen);
    BlankIsErased(DEFAULT_PEN);
    DefaultBlank();
  }

  lemma DefaultBlank()
    ensures BlankCell(DEFAULT_PEN) == BLANK && DEFAULT_PEN == Pen(256, 256, {})
  {
  }

  /** Row r of the cursor's line stands in the new layout as far from the cursor's row as before, cut, with its flag. */
  lemma CursorLineLaid(s: Screen, nr: nat, nc: nat, junk: Cell, r: nat)
    requires s.Valid() && nr >= 1 && nc >= 2 && Reflows(s)
    requires FirstRow(s.flags, s.curRow) <= r <= LastRowOf(s.flags, s.curRow)
    ensures var page, at := WholePage(s, nr, nc, junk), CursorAt(s, nr, nc, junk) + r - s.curRow;
      0 <= at < |page.rows| == |page.flags| && RowCut(s.cells[r], page.rows[at], nc, s.pen)
      && page.flags[at] == s.flags[r]
  {
    hide Laid, PulledPage, LinesAbove, LinesBelow, FitRow, RowCut;
    FitIsCut(s.cells[r], nc, s.pen);
    var a, b := PulledPage(s, nr, nc, junk), Laid(LinesAbove(s, junk), nc);
    var c, d := CursorPage(s, nc), Laid(LinesBelow(s, junk), nc);
    var k := r - FirstRow(s.flags, s.curRow);
    assert c.rows[k] == FitRow(s.cells[r], nc, BlankCell(s.pen)) && c.flags[k] == s.flags[r];
    assert WholePage(s, nr, nc, junk) == a.Then(b.Then(c).Then(d));
  }

  /** The rows of the cursor's line that are on the screen stay around the cursor as they were, cut to the new width,
      with their flags. */
  lemma ReflowKeepsCursorLine(s: Screen, nr: nat, nc: nat, junk: Cell, r: nat)
    requires s.Valid() && nr >= 1 && nc >= 2 && Reflows(s)
    requires FirstRow(s.flags, s.curRow) <= r <= LastRowOf(s.flags, s.curRow)
    ensures var t := Resized(s, nr, nc, junk); var at := t.curRow + r - s.curRow;
      0 <= at < nr ==> RowCut(s.cells[r], t.cells[at], nc, s.pen) && t.flags[at] == s.flags[r]
  {
    hide WholePage, CursorAt, Resized, Over, PlacedRow, RowCut, FirstRow, LastRowOf;
    ReflowLeavesNoMore(s, nr, nc, junk);
    CursorLineLaid(s, nr, nc, junk, r);
    var t, page := Resized(s, nr, nc, junk), WholePage(s, nr, nc, junk);
    var over := Over(|page.rows|, nr, CursorAt(s, nr, nc, junk));
    var at := t.curRow + r - s.curRow;
    if 0 <= at < nr { RowPlaced(page, t, over, at); }
  }

  lemma RowPlaced(p: Page, t: Screen, over: nat, r: nat)
    requires PlacedRow(p, t, over, r) && over + r < |p.rows|
    ensures r < |t.cells| && r < |t.flags| && t.cells[r] == p.rows[over + r]
    ensures over + r < |p.flags| && t.flags[r] == p.flags[over + r]
  {
  }
}
