/** What a reflow keeps: the text, and the cursor's place in its line (_lib/vt.c). */
module ReflowKeeps {
  import opened Cells
  import opened Lines
  import opened Scrollback
  import opened Utf8
  import opened Vt
  import opened Reflow
  import opened ReflowSteps
  import opened Transcript
  import opened ReflowText
  import opened HistoryText
  import opened KeptLines

  /* ---- lines above and below ---- */

  ghost function SpansAbove(s: Screen): seq<Span>
    requires s.Valid()
  {
    Spans(s.cells, s.flags, 0, FirstRow(s.flags, s.curRow), 0)
  }

  /** No line above or below the cursor's has lay_line copy a cell after it that shows something. */
  ghost predicate LinesKeep(s: Screen, junk: Cell)
    requires s.Valid()
  {
    AboveFits(s, junk);
    BelowFits(s, junk);
    AllKeep(LineBuffer(s, junk), SpansAbove(s)) && AllKeep(LineBuffer(s, junk), SpansBelow(s))
  }

  lemma RowsAboveText(s: Screen, junk: Cell)
    requires s.Valid()
    ensures SpansFit(LineBuffer(s, junk), SpansAbove(s))
    ensures var f := FirstRow(s.flags, s.curRow);
            SameText(WholeTexts(s.cells[..f], s.flags[..f]), LinesText(CellLines(LineBuffer(s, junk), SpansAbove(s))))
  {
    hide Norm, WholeTexts, Gather, Spans, LineCells;
    var f := FirstRow(s.flags, s.curRow);
    assert s.cells[0..f] == s.cells[..f] && s.flags[0..f] == s.flags[..f];
    AboveFits(s, junk);
    var buf := LineBuffer(s, junk);
    assert buf[0..0 + |Gather(s.cells[0..f])|] == Gather(s.cells[0..f]);
    ScreenText(s.cells, s.flags, 0, f, 0, buf);
    assert WholeTexts(s.cells[..f], s.flags[..f]) + [] == WholeTexts(s.cells[..f], s.flags[..f]);
  }

  lemma AboveText(s: Screen, nc: nat, junk: Cell)
    requires s.Valid() && nc >= 2
    ensures SpansFit(LineBuffer(s, junk), SpansAbove(s))
    ensures var f, p, buf := FirstRow(s.flags, s.curRow), Laid(LinesAbove(s, junk), nc), LineBuffer(s, junk);
            var a, b := WholeTexts(p.rows, p.flags), WholeTexts(s.cells[..f], s.flags[..f]);
            && (AllKeep(buf, SpansAbove(s)) ==> SameText(a, b))
            && Weight(a) >= Weight(b) && (!AllKeep(buf, SpansAbove(s)) && NoNewlines(buf) ==> Weight(a) > Weight(b))
  {
    hide Norm, Weight, Ended, WholeTexts, LinesText, LineBuffer, Laid, Chunked, Spans, SpanLine, LineCells, AllKeep,
         NoNewlines;
    var f, p, buf := FirstRow(s.flags, s.curRow), Laid(LinesAbove(s, junk), nc), LineBuffer(s, junk);
    RowsAboveText(s, junk);
    LaidText(LinesAbove(s, junk), nc);
    LinesKept(buf, SpansAbove(s));
    SameWeight(WholeTexts(p.rows, p.flags), LinesText(SpanLines(buf, SpansAbove(s))));
    SameWeight(WholeTexts(s.cells[..f], s.flags[..f]), LinesText(CellLines(buf, SpansAbove(s))));
  }

  lemma SameLinesClosed(x: seq<Byte>, y: seq<Byte>, open: bool)
    ensures SameLines(x + (y + Close(open)), x + y)
  {
    hide Norm, Ended;
    if open {
      NewlineAtEnd(x + y);
      assert x + (y + [NEWLINE]) == x + y + [NEWLINE];
    } else {
      assert y + [] == y;
    }
  }

  /** Empty lines at the end do not matter. */
  lemma {:induction false} EmptyLinesAtEnd(x: seq<Byte>, lines: seq<seq<Cell>>, n: nat)
    requires n <= |lines| && forall i :: n <= i < |lines| ==> lines[i] == []
    ensures SameLines(x + LinesText(lines), x + LinesText(lines[..n]))
    decreases |lines|
  {
    hide Norm, Ended, Text;
    if n == |lines| {
      assert lines[..n] == lines;
    } else {
      var m := |lines| - 1;
      EmptyLinesAtEnd(x, lines[..m], n);
      assert lines[..m][..n] == lines[..n];
      assert lines == lines[..m] + [lines[m]];
      LinesTextAppend(lines[..m], [lines[m]]);
      LinesTextCons([], []);
      NoLines();
      TextOne(BLANK);
      assert LinesText(lines) == LinesText(lines[..m]) + [NEWLINE] by {
        assert [] + [NEWLINE] + [] == [NEWLINE];
      }
      NewlineAtEnd(x + LinesText(lines[..m]));
      assert x + LinesText(lines) == x + LinesText(lines[..m]) + [NEWLINE];
    }
  }

  lemma SpanLinesPrefix(buf: seq<Cell>, spans: seq<Span>, n: nat)
    requires SpansFit(buf, spans) && n <= |spans|
    ensures SpansFit(buf, spans[..n]) && SpanLines(buf, spans[..n]) == SpanLines(buf, spans)[..n]
  {
    hide SpanLine;
  }

  /** The lines below the cursor's are those collected there, up to the empty ones at the end. */
  lemma LinesBelowIs(s: Screen, junk: Cell) returns (n: nat)
    requires s.Valid() && SpansFit(LineBuffer(s, junk), SpansBelow(s))
    ensures var lines := SpanLines(LineBuffer(s, junk), SpansBelow(s));
            n <= |lines| && LinesBelow(s, junk) == lines[..n] && forall i :: n <= i < |lines| ==> lines[i] == []
  {
    hide Gather, Spans, DropEmpty, Taken, LineBuffer, SpansBelow, FirstRow, LastRowOf;
    BelowFits(s, junk);
    var buf, spans := LineBuffer(s, junk), SpansBelow(s);
    n := |DropEmpty(spans)|;
    SpanLinesPrefix(buf, spans, n);
    var lines := SpanLines(buf, spans);
    forall i | n <= i < |lines| ensures lines[i] == [] { NothingTaken(buf[spans[i].start..]); }
  }

  lemma ToTheEnd<T>(s: seq<T>, i: nat)
    requires i <= |s|
    ensures s[i..|s|] == s[i..]
  {
  }

  lemma Middle<T>(a: seq<T>, b: seq<T>, c: seq<T>)
    ensures (a + b + c)[|a|..|a| + |b|] == b
  {
  }

  lemma RowsBelowText(s: Screen, junk: Cell)
    requires s.Valid()
    ensures SpansFit(LineBuffer(s, junk), SpansBelow(s))
    ensures var l := LastRowOf(s.flags, s.curRow);
            SameText(WholeTexts(s.cells[l + 1..], s.flags[l + 1..]) + Close(OpenEnd(s.flags, l + 1, s.rows)),
                     LinesText(CellLines(LineBuffer(s, junk), SpansBelow(s))))
  {
    hide Norm, WholeTexts, Gather, Spans, LineCells, FirstRow, LastRowOf, SpansFit, LinesText, CellLines;
    var f, l := FirstRow(s.flags, s.curRow), LastRowOf(s.flags, s.curRow);
    var a, b := Gather(s.cells[..f]), Gather(s.cells[l + 1..]);
    ToTheEnd(s.cells, l + 1);
    ToTheEnd(s.flags, l + 1);
    BelowFits(s, junk);
    Middle(a, b, [junk]);
    ScreenText(s.cells, s.flags, l + 1, s.rows, |a|, LineBuffer(s, junk));
  }

  /** The rows the lines below are laid out in, and those lines with the empty ones at their end. */
  lemma LaidBelowText(s: Screen, nc: nat, junk: Cell, x: seq<Byte>)
    requires s.Valid() && nc >= 2
    ensures SpansFit(LineBuffer(s, junk), SpansBelow(s))
    ensures var p := Laid(LinesBelow(s, junk), nc);
            SameLines(x + WholeTexts(p.rows, p.flags), x + LinesText(SpanLines(LineBuffer(s, junk), SpansBelow(s))))
  {
    hide Norm, Ended, WholeTexts, Laid, Chunked, SpanLine, LineBuffer, SpansBelow, LinesBelow;
    BelowFits(s, junk);
    var n := LinesBelowIs(s, junk);
    var lines := SpanLines(LineBuffer(s, junk), SpansBelow(s));
    LaidText(LinesBelow(s, junk), nc);
    EmptyLinesAtEnd(x, lines, n);
    var p := Laid(LinesBelow(s, junk), nc);
    SameTextLeft(x, WholeTexts(p.rows, p.flags), LinesText(lines[..n]));
  }

  lemma BelowText(s: Screen, nc: nat, junk: Cell, x: seq<Byte>)
    requires s.Valid() && nc >= 2
    ensures SpansFit(LineBuffer(s, junk), SpansBelow(s))
    ensures var l, p := LastRowOf(s.flags, s.curRow), Laid(LinesBelow(s, junk), nc);
            AllKeep(LineBuffer(s, junk), SpansBelow(s)) ==>
              SameLines(x + WholeTexts(p.rows, p.flags), x + WholeTexts(s.cells[l + 1..], s.flags[l + 1..]))
  {
    hide Norm, Ended, WholeTexts, LinesText, Laid, Chunked, SpanLine, LineCells, LineBuffer, SpansBelow, LinesBelow,
         AllKeep, LastRowOf;
    var l, buf, spans := LastRowOf(s.flags, s.curRow), LineBuffer(s, junk), SpansBelow(s);
    RowsBelowText(s, junk);
    LaidBelowText(s, nc, junk, x);
    LinesKept(buf, spans);
    if AllKeep(buf, spans) {
      SameTextLeft(x, LinesText(SpanLines(buf, spans)), LinesText(CellLines(buf, spans)));
      var open := OpenEnd(s.flags, l + 1, s.rows);
      var y := WholeTexts(s.cells[l + 1..], s.flags[l + 1..]);
      SameTextLeft(x, y + Close(open), LinesText(CellLines(buf, spans)));
      SameLinesClosed(x, y, open);
    }
  }

  lemma BelowWeight(s: Screen, nc: nat, junk: Cell)
    requires s.Valid() && nc >= 2
    ensures SpansFit(LineBuffer(s, junk), SpansBelow(s))
    ensures var l, p, buf := LastRowOf(s.flags, s.curRow), Laid(LinesBelow(s, junk), nc), LineBuffer(s, junk);
            var a, b := WholeTexts(p.rows, p.flags), WholeTexts(s.cells[l + 1..], s.flags[l + 1..]);
            Weight(a) >= Weight(b) && (!AllKeep(buf, SpansBelow(s)) && NoNewlines(buf) ==> Weight(a) > Weight(b))
  {
    hide Norm, Weight, Ended, WholeTexts, LinesText, Laid, Chunked, SpanLine, LineCells, LineBuffer, SpansBelow,
         LinesBelow, AllKeep, NoNewlines, LastRowOf;
    var l, buf, spans := LastRowOf(s.flags, s.curRow), LineBuffer(s, junk), SpansBelow(s);
    RowsBelowText(s, junk);
    LaidBelowText(s, nc, junk, []);
    LinesKept(buf, spans);
    var p := Laid(LinesBelow(s, junk), nc);
    var a, lines, y := WholeTexts(p.rows, p.flags), LinesText(SpanLines(buf, spans)),
        WholeTexts(s.cells[l + 1..], s.flags[l + 1..]);
    assert [] + a == a && [] + lines == lines;
    SameWeight(a, lines);
    SameWeight(y + Close(OpenEnd(s.flags, l + 1, s.rows)), LinesText(CellLines(buf, spans)));
    WeightAppend(y, Close(OpenEnd(s.flags, l + 1, s.rows)));
    WeightSnoc([], NEWLINE);
    assert [] + [NEWLINE] == [NEWLINE];
    assert Weight(Close(OpenEnd(s.flags, l + 1, s.rows))) == 0 by { WeightNone(); }
  }

  lemma WeightNone()
    ensures Weight([]) == 0 && Weight([NEWLINE]) == 0
  {
  }

  lemma NothingTaken(b: seq<Cell>)
    ensures Extent(b, 0) <= |b| && Taken(b, 0) == []
  {
  }

  /* ---- the history ---- */

  lemma PulledText(s: Screen, nr: nat, nc: nat, junk: Cell)
    requires s.Valid() && s.history.History? && WellFormed(s.history.text) && nc >= 2
    ensures var p := PulledPage(s, nr, nc, junk);
            SameText(HistoryLeft(s, nr, nc, junk) + WholeTexts(p.rows, p.flags), s.history.text)
  {
    hide Norm, WholeTexts, Laid, Chunked, Paired, NoPads, HistoryLines, WellFormed, Cut, PullPoint;
    var text, pull := s.history.text, PullPoint(s, nr, nc, junk);
    var cut := Cut(text, |text|);
    var p := PulledPage(s, nr, nc, junk);
    if pull < cut {
      PullsWhole(s, nr, nc, junk);
      WellFormedFrom(text, pull);
      assert text[pull..cut] == text[pull..];
      HistoryLinesText(text, pull, cut);
      LaidText(HistoryLines(text, pull, cut), nc);
      SameTextLeft(text[..pull], WholeTexts(p.rows, p.flags), text[pull..]);
      assert text[..pull] + text[pull..] == text;
    } else {
      NoHistoryLines(text, cut);
      LaidNone(HistoryLines(text, cut, cut), nc);
      NoRows();
      assert text + [] == text;
    }
  }

  /** Nothing is taken back while the history's last line is open. */
  lemma PullsWhole(s: Screen, nr: nat, nc: nat, junk: Cell)
    requires s.Valid() && s.history.History? && nc >= 2
    requires PullPoint(s, nr, nc, junk) < Cut(s.history.text, |s.history.text|)
    ensures Cut(s.history.text, |s.history.text|) == |s.history.text|
  {
    hide PullFrom, ScreenPage, Cut;
  }

  lemma WellFormedFrom(text: seq<Byte>, p: nat)
    requires WellFormed(text) && LineStart(text, p)
    ensures WellFormed(text[p..])
  {
    hide WellFormed;
    if p > 0 { WellFormedCut(text, p - 1); } else { assert text[0..] == text; }
  }

  /* ---- the whole ---- */

  /** History and screen as one text. */
  function TextOf(text: seq<Byte>, cells: seq<Row>, flags: seq<bool>): seq<Byte>
    requires |cells| == |flags|
  {
    text + WholeTexts(cells, flags)
  }

  /** The rows that go into the history have no more text than is captured (narrow ones never have:
      Transcript.NarrowIsShort), and no line of the history has to go for them. */
  ghost predicate HistoryHasRoom(s: Screen, nr: nat, nc: nat, junk: Cell)
    requires s.Valid() && s.history.History? && nr >= 1 && nc >= 2
  {
    var p := WholePage(s, nr, nc, junk);
    var over := Over(|p.rows|, nr, CursorAt(s, nr, nc, junk));
    Short(p.rows[..over])
      && |HistoryLeft(s, nr, nc, junk)| + |WholeTexts(p.rows[..over], p.flags[..over])| <= SCROLLBACK_BYTES
  }

  /** Below the cursor's row there is room for all that comes after it. */
  ghost predicate NothingBelow(s: Screen, nr: nat, nc: nat, junk: Cell)
    requires s.Valid() && s.history.History? && nr >= 1 && nc >= 2
  {
    |WholePage(s, nr, nc, junk).rows| - CursorAt(s, nr, nc, junk) <= nr
  }

  lemma {:induction false} BlankRowsText(x: seq<Byte>, n: nat, nc: nat)
    ensures SameLines(x + WholeTexts(BlankGrid(n, nc, BLANK), NoFlags(n)), x)
    decreases n
  {
    hide Norm, Ended, WholeText;
    var g, f := BlankGrid(n, nc, BLANK), NoFlags(n);
    if n == 0 {
      assert x + WholeTexts(g, f) == x;
    } else {
      BlankRowsText(x, n - 1, nc);
      assert g[..n - 1] == BlankGrid(n - 1, nc, BLANK) && f[..n - 1] == NoFlags(n - 1);
      BlankRowText(nc);
      var y := WholeTexts(g[..n - 1], f[..n - 1]);
      NewlineAtEnd(x + y);
      assert x + (y + [NEWLINE]) == x + y + [NEWLINE];
    }
  }

  lemma BlankRowText(nc: nat)
    ensures WholeText(BlankRow(nc, BLANK), false) == [NEWLINE]
  {
    assert BlankRow(nc, BLANK) == Blanks(nc);
    BlanksText(nc);
    StripSpaces([], nc);
    assert [] + Spaces(nc) == Spaces(nc);
  }

  /** Whichever of the rows laid out go into the history and whichever stay, the text is that of all of them. */
  lemma SettledText(s: Screen, page: Page, curAbs: nat, text: seq<Byte>, nr: nat, nc: nat)
    requires s.Valid() && nr >= 1 && nc >= 2 && page.Valid(nc) && curAbs < |page.rows| && |page.rows| - curAbs <= nr
    requires var over := Over(|page.rows|, nr, curAbs);
             Short(page.rows[..over])
               && |text| + |WholeTexts(page.rows[..over], page.flags[..over])| <= SCROLLBACK_BYTES
    ensures var r := Settle(s, page, curAbs, text, nr, nc);
            r.history.History? && SameLines(TextOf(r.history.text, r.cells, r.flags),
                                            text + WholeTexts(page.rows, page.flags))
  {
    hide Norm, Ended, WholeTexts, RowsBytes, CaptureRows, Short;
    var over := Over(|page.rows|, nr, curAbs);
    var n := |page.rows| - over;
    var r := Settle(s, page, curAbs, text, nr, nc);
    RowsBytesWhole(page.rows[..over], page.flags[..over]);
    CaptureAppends(text, page.rows[..over], page.flags[..over]);
    var a, b := page.rows[..over], page.rows[over..];
    var fa, fb := page.flags[..over], page.flags[over..];
    assert page.rows == a + b && page.flags == fa + fb;
    WholeTextsAppend(a, fa, b, fb);
    WholeTextsAppend(b, fb, BlankGrid(nr - n, nc, BLANK), NoFlags(nr - n));
    assert page.rows[over..over + n] == b && page.flags[over..over + n] == fb;
    BlankRowsText(text + WholeTexts(page.rows, page.flags), nr - n, nc);
    assert text + WholeTexts(a, fa) + (WholeTexts(b, fb) + WholeTexts(BlankGrid(nr - n, nc, BLANK), NoFlags(nr - n)))
        == text + (WholeTexts(a, fa) + WholeTexts(b, fb)) + WholeTexts(BlankGrid(nr - n, nc, BLANK), NoFlags(nr - n));
  }

  /** The screen as it was, but with the rows of the cursor's line cut or padded to nc columns. */
  ghost function CutScreenText(s: Screen, nc: nat): seq<Byte>
    requires s.Valid() && s.history.History? && nc >= 2
  {
    var f, l, c := FirstRow(s.flags, s.curRow), LastRowOf(s.flags, s.curRow), CursorPage(s, nc);
    s.history.text + WholeTexts(s.cells[..f], s.flags[..f]) + WholeTexts(c.rows, c.flags)
      + WholeTexts(s.cells[l + 1..], s.flags[l + 1..])
  }

  lemma WholePageText(s: Screen, nr: nat, nc: nat, junk: Cell)
    requires s.Valid() && s.history.History? && nc >= 2
    ensures var page, h, c := WholePage(s, nr, nc, junk), PulledPage(s, nr, nc, junk), CursorPage(s, nc);
            var a, b := Laid(LinesAbove(s, junk), nc), Laid(LinesBelow(s, junk), nc);
            WholeTexts(page.rows, page.flags)
            == WholeTexts(h.rows, h.flags)
              + (WholeTexts(a.rows, a.flags) + WholeTexts(c.rows, c.flags) + WholeTexts(b.rows, b.flags))
  {
    hide WholeTexts, PulledPage, CursorPage, Laid, LinesAbove, LinesBelow;
    var h, c := PulledPage(s, nr, nc, junk), CursorPage(s, nc);
    var a, b := Laid(LinesAbove(s, junk), nc), Laid(LinesBelow(s, junk), nc);
    WholeTextsAppend(a.rows, a.flags, c.rows, c.flags);
    WholeTextsAppend(a.rows + c.rows, a.flags + c.flags, b.rows, b.flags);
    var sp := ScreenPage(s, nc, junk);
    WholeTextsAppend(h.rows, h.flags, sp.rows, sp.flags);
  }

  /** All the rows laid out, after the history that is left, and the text before. */
  lemma LaidOutText(s: Screen, nr: nat, nc: nat, junk: Cell)
    requires s.Valid() && s.history.History? && nr >= 1 && nc >= 2 && WellFormed(s.history.text)
    ensures var page := WholePage(s, nr, nc, junk);
            var a, b := HistoryLeft(s, nr, nc, junk) + WholeTexts(page.rows, page.flags), CutScreenText(s, nc);
            && (LinesKeep(s, junk) ==> SameLines(a, b))
            && (NoNewlines(LineBuffer(s, junk)) && SameLines(a, b) ==> LinesKeep(s, junk))
  {
    hide Norm, Weight, Ended, SameLines, WholeTexts, WholePage, HistoryLeft, CutScreenText, WellFormed, LineBuffer,
         NoNewlines, LinesKeep;
    var page := WholePage(s, nr, nc, junk);
    var a, b := HistoryLeft(s, nr, nc, junk) + WholeTexts(page.rows, page.flags), CutScreenText(s, nc);
    if LinesKeep(s, junk) {
      LaidOutSame(s, nr, nc, junk);
    } else if NoNewlines(LineBuffer(s, junk)) && SameLines(a, b) {
      LaidOutMore(s, nr, nc, junk);
      SameWeight(a, b);
    }
  }

  lemma LaidOutSame(s: Screen, nr: nat, nc: nat, junk: Cell)
    requires s.Valid() && s.history.History? && nr >= 1 && nc >= 2
    requires LinesKeep(s, junk) && WellFormed(s.history.text)
    ensures var page := WholePage(s, nr, nc, junk);
            SameLines(HistoryLeft(s, nr, nc, junk) + WholeTexts(page.rows, page.flags), CutScreenText(s, nc))
  {
    hide Norm, Ended, SameText, SameLines, WholeTexts, WholePage, PulledPage, CursorPage, Laid, LinesAbove, LinesBelow,
         HistoryLeft, CutScreenText,
         WellFormed, LineBuffer, SpansAbove, SpansBelow, AllKeep;
    var page, h, c := WholePage(s, nr, nc, junk), PulledPage(s, nr, nc, junk), CursorPage(s, nc);
    var a, b := Laid(LinesAbove(s, junk), nc), Laid(LinesBelow(s, junk), nc);
    var f, l := FirstRow(s.flags, s.curRow), LastRowOf(s.flags, s.curRow);
    var left, text := HistoryLeft(s, nr, nc, junk), s.history.text;
    var hb, ab, cb, bb := WholeTexts(h.rows, h.flags), WholeTexts(a.rows, a.flags), WholeTexts(c.rows, c.flags),
        WholeTexts(b.rows, b.flags);
    var above, below := WholeTexts(s.cells[..f], s.flags[..f]), WholeTexts(s.cells[l + 1..], s.flags[l + 1..]);
    WholePageText(s, nr, nc, junk);
    PulledText(s, nr, nc, junk);
    AboveText(s, nc, junk);
    SameTextJoin(left + hb, text, ab, above);
    SameTextRight(left + hb + ab, text + above, cb);
    SameTextRight(left + hb + ab + cb, text + above + cb, bb);
    BelowText(s, nc, junk, text + above + cb);
    assert left + (hb + (ab + cb + bb)) == left + hb + ab + cb + bb;
    CutScreenTextIs(s, nc);
    SameLinesChain(left + hb + ab + cb + bb, text + above + cb + bb, text + above + cb + below);
  }

  /** A cell that shows something and is copied from where it does not belong makes the text more. */
  lemma LaidOutMore(s: Screen, nr: nat, nc: nat, junk: Cell)
    requires s.Valid() && s.history.History? && nr >= 1 && nc >= 2
    requires !LinesKeep(s, junk) && NoNewlines(LineBuffer(s, junk)) && WellFormed(s.history.text)
    ensures var page := WholePage(s, nr, nc, junk);
            Weight(HistoryLeft(s, nr, nc, junk) + WholeTexts(page.rows, page.flags)) > Weight(CutScreenText(s, nc))
  {
    hide Norm, Weight, Ended, SameText, WholeTexts, WholePage, PulledPage, CursorPage, Laid, LinesAbove, LinesBelow,
         HistoryLeft, CutScreenText,
         WellFormed, LineBuffer, SpansAbove, SpansBelow, AllKeep, NoNewlines;
    var page, h, c := WholePage(s, nr, nc, junk), PulledPage(s, nr, nc, junk), CursorPage(s, nc);
    var a, b := Laid(LinesAbove(s, junk), nc), Laid(LinesBelow(s, junk), nc);
    var f, l := FirstRow(s.flags, s.curRow), LastRowOf(s.flags, s.curRow);
    var left, text := HistoryLeft(s, nr, nc, junk), s.history.text;
    var hb, ab, cb, bb := WholeTexts(h.rows, h.flags), WholeTexts(a.rows, a.flags), WholeTexts(c.rows, c.flags),
        WholeTexts(b.rows, b.flags);
    var above, below := WholeTexts(s.cells[..f], s.flags[..f]), WholeTexts(s.cells[l + 1..], s.flags[l + 1..]);
    WholePageText(s, nr, nc, junk);
    PulledText(s, nr, nc, junk);
    SameTextWeight(left + hb, text);
    AboveText(s, nc, junk);
    BelowWeight(s, nc, junk);
    CutScreenTextIs(s, nc);
    assert left + (hb + (ab + cb + bb)) == left + hb + ab + cb + bb;
    WeightFour(left + hb, ab, cb, bb);
    WeightFour(text, above, cb, below);
  }

  lemma SameTextWeight(a: seq<Byte>, b: seq<Byte>)
    requires SameText(a, b)
    ensures Weight(a) == Weight(b)
  {
    hide Weight, Norm;
    SameWeight(a, b);
  }

  lemma WeightFour(a: seq<Byte>, b: seq<Byte>, c: seq<Byte>, d: seq<Byte>)
    ensures Weight(a + b + c + d) == Weight(a) + Weight(b) + Weight(c) + Weight(d)
  {
    hide Weight;
    WeightAppend(a + b + c, d);
    WeightAppend(a + b, c);
    WeightAppend(a, b);
  }

  lemma CutScreenTextIs(s: Screen, nc: nat)
    requires s.Valid() && s.history.History? && nc >= 2
    ensures var f, l, c := FirstRow(s.flags, s.curRow), LastRowOf(s.flags, s.curRow), CursorPage(s, nc);
            CutScreenText(s, nc)
            == s.history.text + WholeTexts(s.cells[..f], s.flags[..f]) + WholeTexts(c.rows, c.flags)
               + WholeTexts(s.cells[l + 1..], s.flags[l + 1..])
  {
    hide WholeTexts, CursorPage, FirstRow, LastRowOf;
  }

  lemma SameLinesChain(a: seq<Byte>, b: seq<Byte>, c: seq<Byte>)
    requires SameText(a, b) && SameLines(b, c)
    ensures SameLines(a, c)
  {
  }

  /** When reflow conserves text: but for the cursor's line, for blanks at the ends of lines and for blank lines after
      the last, history and screen hold the same lines as before if no line above or below the cursor's ends in an odd
      number of first halves of wide characters with a cell after it that shows something; and (cells holding no
      newlines) only then. */
  lemma ReflowKeepsText(s: Screen, nr: nat, nc: nat, junk: Cell)
    requires s.Valid() && s.history.History? && nr >= 1 && nc >= 2 && WellFormed(s.history.text)
    requires HistoryHasRoom(s, nr, nc, junk) && NothingBelow(s, nr, nc, junk)
    ensures var r := Reflowed(s, nr, nc, junk);
            && r.history.History?
            && (LinesKeep(s, junk) ==> SameLines(TextOf(r.history.text, r.cells, r.flags), CutScreenText(s, nc)))
            && (NoNewlines(LineBuffer(s, junk))
                && SameLines(TextOf(r.history.text, r.cells, r.flags), CutScreenText(s, nc))
                ==> LinesKeep(s, junk))
  {
    hide Norm, Ended, WholeTexts, WholePage, CursorAt, HistoryLeft, Settle, CutScreenText, WellFormed, LinesKeep,
         NoNewlines, Screen.Valid, TextOf;
    LaidOutText(s, nr, nc, junk);
    SettledText(s, WholePage(s, nr, nc, junk), CursorAt(s, nr, nc, junk), HistoryLeft(s, nr, nc, junk), nr, nc);
  }

  /* ---- the cursor ---- */

  /** The last row of a line laid out does not wrap. */
  lemma LaidEnds(lines: seq<seq<Cell>>, nc: nat)
    requires nc >= 2 && LinesOk(lines) && |Laid(lines, nc).rows| > 0
    ensures var p := Laid(lines, nc); !p.flags[|p.flags| - 1]
  {
    hide Lay;
  }

  /** Where the cursor's line starts on the page, and that the row before it does not wrap. */
  lemma CursorLineOnPage(s: Screen, nr: nat, nc: nat, junk: Cell)
    requires s.Valid() && s.history.History? && nr >= 1 && nc >= 2
    ensures var page, at, d := WholePage(s, nr, nc, junk), CursorAt(s, nr, nc, junk),
            s.curRow - FirstRow(s.flags, s.curRow);
            && d <= at < |page.rows|
            && (forall i :: at - d <= i < at ==> page.flags[i]) && (at > d ==> !page.flags[at - d - 1])
            && page.rows[at] == FitRow(s.cells[s.curRow], nc, BlankCell(s.pen))
  {
    hide Laid, HistoryLines, LinesAbove, LinesBelow, FitRow, FirstRow, LastRowOf, PullPoint, Cut;
    var h, a, c, b := PulledPage(s, nr, nc, junk), Laid(LinesAbove(s, junk), nc), CursorPage(s, nc),
        Laid(LinesBelow(s, junk), nc);
    if |a.rows| > 0 { LaidEnds(LinesAbove(s, junk), nc); }
    else if |h.rows| > 0 {
      LaidEnds(HistoryLines(s.history.text, PullPoint(s, nr, nc, junk), Cut(s.history.text, |s.history.text|)), nc);
    }
    assert WholePage(s, nr, nc, junk) == h.Then(a.Then(c).Then(b));
    PlaceOnPage(h, a, c, b, s.curRow - FirstRow(s.flags, s.curRow), nc);
  }

  lemma PlaceOnPage(h: Page, a: Page, c: Page, b: Page, d: nat, nc: nat)
    requires h.Valid(nc) && a.Valid(nc) && c.Valid(nc) && b.Valid(nc) && d < |c.rows|
    requires forall i :: 0 <= i < d ==> c.flags[i]
    requires |a.rows| > 0 ==> !a.flags[|a.rows| - 1]
    requires |a.rows| == 0 && |h.rows| > 0 ==> !h.flags[|h.rows| - 1]
    ensures var page, n := h.Then(a.Then(c).Then(b)), |h.rows| + |a.rows|;
            && n + d < |page.rows| && page.rows[n + d] == c.rows[d]
            && (forall i :: n <= i < n + d ==> page.flags[i]) && (n > 0 ==> !page.flags[n - 1])
  {
  }

  lemma {:induction false} FirstRowIs(flags: seq<bool>, r: nat, f: nat)
    requires f <= r <= |flags| && (forall i :: f <= i < r ==> flags[i]) && (f > 0 ==> !flags[f - 1])
    ensures FirstRow(flags, r) == f
    decreases r
  {
    if f < r { FirstRowIs(flags, r - 1, f); }
  }

  /** The cursor is as far from the first row of its line as before, less what of the line has scrolled off;
      it is on the same row of text, cut or padded; and no clamp was needed to keep it on the screen. */
  lemma ReflowKeepsCursor(s: Screen, nr: nat, nc: nat, junk: Cell)
    requires s.Valid() && s.history.History? && nr >= 1 && nc >= 2
    ensures var r, d := Reflowed(s, nr, nc, junk), s.curRow - FirstRow(s.flags, s.curRow);
            var at, total := CursorAt(s, nr, nc, junk), |WholePage(s, nr, nc, junk).rows|;
            && at - Over(total, nr, at) < nr
            && r.curRow == at - Over(total, nr, at)
            && r.curRow - FirstRow(r.flags, r.curRow) == Min(d, r.curRow)
            && r.cells[r.curRow] == FitRow(s.cells[s.curRow], nc, BlankCell(s.pen))
            && r.curCol == Min(if s.pendingWrap then s.curCol + 1 else s.curCol, nc - 1)
  {
    hide WholePage, CursorAt, HistoryLeft, CaptureRows, FitRow;
    CursorLineOnPage(s, nr, nc, junk);
    SettledCursor(s, WholePage(s, nr, nc, junk), CursorAt(s, nr, nc, junk), HistoryLeft(s, nr, nc, junk), nr, nc,
                  s.curRow - FirstRow(s.flags, s.curRow));
  }

  lemma SettledCursor(s: Screen, page: Page, at: nat, text: seq<Byte>, nr: nat, nc: nat, d: nat)
    requires s.Valid() && nr >= 1 && nc >= 2 && page.Valid(nc) && d <= at < |page.rows|
    requires (forall i :: at - d <= i < at ==> page.flags[i]) && (at > d ==> !page.flags[at - d - 1])
    ensures var r, over := Settle(s, page, at, text, nr, nc), Over(|page.rows|, nr, at);
            && at - over < nr && r.curRow == at - over && r.cells[r.curRow] == page.rows[at]
            && r.curRow - FirstRow(r.flags, r.curRow) == Min(d, r.curRow)
            && r.curCol == Min(if s.pendingWrap then s.curCol + 1 else s.curCol, nc - 1)
  {
    hide CaptureRows;
    var r, over := Settle(s, page, at, text, nr, nc), Over(|page.rows|, nr, at);
    var keep := Min(|page.rows| - over, nr);
    assert forall i :: 0 <= i < keep ==> r.flags[i] == page.flags[over + i];
    FirstRowIs(r.flags, r.curRow, r.curRow - Min(d, r.curRow));
  }
}
