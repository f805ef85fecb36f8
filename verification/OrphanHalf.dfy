/** A byte stream after which a change of size shows a character twice, or a cell nobody wrote (lay_line of
    _lib/vt.c). */
module OrphanHalf {
  import opened Cells
  import opened Lines
  import opened Scrollback
  import opened Utf8
  import opened Vt
  import opened VtParser
  import opened TermOps
  import opened Wire
  import opened Reflow
  import opened ReflowSteps
  import opened Transcript
  import opened ReflowText
  import opened HistoryText
  import opened KeptLines
  import opened ReflowKeeps
  import opened Resize
  import Width

  const IDEOGRAPH := 0x4E00

  const A := BLANK.(ch := 0x61)
  const B := BLANK.(ch := 0x62)
  const X := BLANK.(ch := 0x78)
  const HALF := BLANK.(ch := IDEOGRAPH, wide := true)
  const OTHER_HALF := HALF.(ch := 0, wide := false, cont := true)

  /** `ab` and a wide character fill a row of four columns; then a blank is inserted in front of them. */
  const ORPHAN: seq<Byte> := [0x61, 0x62, 0xE4, 0xB8, 0x80, ESC, 0x5B, 0x48, ESC, 0x5B, 0x40]

  /** An `x` at the start of row 1, and the cursor below it. */
  const NEXT_LINE: seq<Byte> := [ESC, 0x5B, 0x32, 0x48, 0x78, ESC, 0x5B, 0x33, 0x48]

  /** The row that is left: the first half of the wide character at the margin, its second half gone. */
  const ORPHAN_ROW: Row := [BLANK, A, B, HALF]

  ghost predicate Blank4(s: Screen) {
    && s.Valid() && s.cols == 4 && s.pen == DEFAULT_PEN && s.autoWrap && !s.insert && !s.origin && !s.pendingWrap
    && s.curCol == 0 && s.cells[s.curRow] == [BLANK, BLANK, BLANK, BLANK]
  }

  /* ---- the stream ---- */

  lemma Widths()
    ensures Width.CpWidth(0x61) == Width.CpWidth(0x62) == Width.CpWidth(0x78) == 1 && Width.CpWidth(IDEOGRAPH) == 2
  {
  }

  /** One character on the screen. */
  lemma PutOne(s: Screen, cp: nat)
    requires s.Valid() && s.pen == DEFAULT_PEN && !s.insert && !s.pendingWrap && Width.CpWidth(cp) == 1
             && s.curCol + 1 < s.cols
    ensures PutChar(s, cp)
            == s.(cells := s.cells[s.curRow := s.cells[s.curRow][s.curCol := BLANK.(ch := cp)]], curCol := s.curCol + 1)
  {
  }

  lemma PutWideAtMargin(s: Screen)
    requires s.Valid() && s.pen == DEFAULT_PEN && !s.insert && !s.pendingWrap && s.curCol + 2 == s.cols
    ensures PutChar(s, IDEOGRAPH)
            == s.(cells := s.cells[s.curRow := s.cells[s.curRow][..s.curCol] + [HALF, OTHER_HALF]],
                                        curCol := s.cols - 1, pendingWrap := true)
  {
    Widths();
    assert s.cells[s.curRow][s.curCol := HALF][s.curCol + 1 := OTHER_HALF]
           == s.cells[s.curRow][..s.curCol] + [HALF, OTHER_HALF];
  }

  lemma Steps(s: Screen, cp: nat, row: nat)
    requires s.Valid() && !s.origin && row < s.rows
    ensures Step(s, Print(cp)) == PutChar(s, cp)
    ensures Step(s, Cup(row, 0)) == s.(curRow := row, curCol := 0, pendingWrap := false)
  {
    hide PutChar;
  }

  lemma OrphanOps(s: Screen)
    requires Blank4(s) && s.curRow == 0
    ensures Run(s, [Print(0x61), Print(0x62), Print(IDEOGRAPH), Cup(0, 0)])
            == s.(cells := s.cells[0 := [A, B, HALF, OTHER_HALF]])
  {
    hide Step, Run, PutChar;
    Widths();
    var s1 := PutChar(s, 0x61);
    var s2 := PutChar(s1, 0x62);
    var s3 := PutChar(s2, IDEOGRAPH);
    PutOne(s, 0x61);
    PutOne(s1, 0x62);
    assert s2.cells[0] == [A, B, BLANK, BLANK];
    PutWideAtMargin(s2);
    assert s3.cells[0] == [A, B, HALF, OTHER_HALF];
    Steps(s, 0x61, 0);
    Steps(s1, 0x62, 0);
    Steps(s2, IDEOGRAPH, 0);
    Steps(s3, 0, 0);
    RunThree(s, Print(0x61), Print(0x62), Print(IDEOGRAPH));
    RunSnoc(s, [Print(0x61), Print(0x62), Print(IDEOGRAPH)], Cup(0, 0));
    assert [Print(0x61), Print(0x62), Print(IDEOGRAPH)] + [Cup(0, 0)]
           == [Print(0x61), Print(0x62), Print(IDEOGRAPH), Cup(0, 0)];
  }

  lemma BytesSnoc(ops: seq<Op>, op: Op)
    ensures BytesOf(ops + [op]) == BytesOf(ops) + Bytes(op) && BytesOf([]) == []
  {
    hide Bytes;
    assert (ops + [op])[..|ops|] == ops;
  }

  lemma OrphanBytes()
    ensures ORPHAN == BytesOf([Print(0x61), Print(0x62), Print(IDEOGRAPH), Cup(0, 0)]) + Csi([], 0x40)
  {
    hide BytesOf;
    var ops := [] + [Print(0x61)] + [Print(0x62)] + [Print(IDEOGRAPH)];
    BytesSnoc([], Print(0x61));
    BytesSnoc([] + [Print(0x61)], Print(0x62));
    BytesSnoc([] + [Print(0x61)] + [Print(0x62)], Print(IDEOGRAPH));
    BytesSnoc(ops, Cup(0, 0));
    assert ops + [Cup(0, 0)] == [Print(0x61), Print(0x62), Print(IDEOGRAPH), Cup(0, 0)];
    assert Bytes(Cup(0, 0)) == [ESC, 0x5B, 0x48] && Encode(IDEOGRAPH) == [0xE4, 0xB8, 0x80];
  }

  lemma Inserted(p: Parser)
    requires Idle(p)
    ensures Shows(FeedAll(p, Csi([], 0x40)), InsertChars(p.scr, 1))
  {
    hide FeedAll, InsertChars;
    var q := FeedCount(p, 1, 0x40);
  }

  /** The stream leaves the half at the margin. */
  lemma OrphanLeft(p: Parser)
    requires Idle(p) && Blank4(p.scr) && p.scr.curRow == 0
    ensures Shows(FeedAll(p, ORPHAN), p.scr.(cells := p.scr.cells[0 := ORPHAN_ROW]))
  {
    hide FeedAll, Run, BytesOf;
    var ops := [Print(0x61), Print(0x62), Print(IDEOGRAPH), Cup(0, 0)];
    OrphanBytes();
    FeedAppend(p, BytesOf(ops), Csi([], 0x40));
    FeedOps(p, ops);
    OrphanOps(p.scr);
    Inserted(FeedAll(p, BytesOf(ops)));
    assert OpenGap([A, B, HALF, OTHER_HALF], 0, 1, BLANK) == ORPHAN_ROW;
  }

  lemma NextOps(s: Screen)
    requires s.Valid() && s.rows == 3 && s.cols == 4 && s.pen == DEFAULT_PEN && !s.insert && !s.origin && !s.pendingWrap
             && s.curCol == 0
    requires s.cells[1] == [BLANK, BLANK, BLANK, BLANK]
    ensures Run(s, [Cup(1, 0), Print(0x78), Cup(2, 0)])
         == s.(cells := s.cells[1 := [X, BLANK, BLANK, BLANK]], curRow := 2)
  {
    hide Step, Run, PutChar;
    Widths();
    var s1 := s.(curRow := 1);
    var s2 := PutChar(s1, 0x78);
    PutOne(s1, 0x78);
    Steps(s, 0, 1);
    Steps(s1, 0x78, 0);
    Steps(s2, 0, 2);
    assert s2.cells[1] == [X, BLANK, BLANK, BLANK];
    RunThree(s, Cup(1, 0), Print(0x78), Cup(2, 0));
  }

  lemma NextBytes()
    ensures NEXT_LINE == BytesOf([Cup(1, 0), Print(0x78), Cup(2, 0)])
  {
    hide BytesOf;
    BytesSnoc([], Cup(1, 0));
    BytesSnoc([] + [Cup(1, 0)], Print(0x78));
    BytesSnoc([] + [Cup(1, 0)] + [Print(0x78)], Cup(2, 0));
    assert [] + [Cup(1, 0)] + [Print(0x78)] + [Cup(2, 0)] == [Cup(1, 0), Print(0x78), Cup(2, 0)];
    assert Bytes(Cup(1, 0)) == [ESC, 0x5B, 0x32, 0x48] && Bytes(Cup(2, 0)) == [ESC, 0x5B, 0x33, 0x48];
  }

  /** The screen of the second stream. */
  lemma NextLineLeft(p: Parser)
    requires Idle(p) && p.scr == Init(3, 4, History([]))
    ensures Shows(FeedAll(p, ORPHAN + NEXT_LINE),
                  p.scr.(cells := [ORPHAN_ROW, [X, BLANK, BLANK, BLANK], [BLANK, BLANK, BLANK, BLANK]], curRow := 2))
  {
    hide FeedAll, Run, BytesOf, InsertChars;
    BlankStart(3);
    OrphanLeft(p);
    var q := FeedAll(p, ORPHAN);
    FeedAppend(p, ORPHAN, NEXT_LINE);
    NextBytes();
    FeedOps(q, [Cup(1, 0), Print(0x78), Cup(2, 0)]);
    var cells := p.scr.cells;
    assert cells[1] == cells[2] == [BLANK, BLANK, BLANK, BLANK];
    NextOps(q.scr);
    assert cells[0 := ORPHAN_ROW][1 := [X, BLANK, BLANK, BLANK]]
           == [ORPHAN_ROW, [X, BLANK, BLANK, BLANK], [BLANK, BLANK, BLANK, BLANK]];
  }

  lemma BlankStart(rows: nat)
    requires rows >= 1
    ensures Blank4(Init(rows, 4, History([])))
    ensures forall r :: 0 <= r < rows ==> Init(rows, 4, History([])).cells[r] == [BLANK, BLANK, BLANK, BLANK]
  {
    assert BlankRow(4, BLANK) == [BLANK, BLANK, BLANK, BLANK];
  }

  /* ---- the change of size ---- */

  lemma GatherRow(row: Row)
    requires NoPads(row)
    ensures Gather([row]) == row
  {
    hide Gather;
    GatherOne(row);
    UnpaddedNone(row);
  }

  lemma OrphanTrimmed()
    ensures Trim(ORPHAN_ROW) == ORPHAN_ROW && WideRun(ORPHAN_ROW) == 1
  {
    assert ORPHAN_ROW[..3] == [BLANK, A, B];
  }

  /** Six columns have room for the line and the cell after it. */
  lemma OrphanLays(next: Cell)
    ensures var ln := ORPHAN_ROW + [next]; Chunked(ln) && Lay(ln, 6) == [ORPHAN_ROW + [next, BLANK]]
  {
    hide LayFrom, Chunked;
    var ln := [BLANK, A, B, HALF, next];
    assert ORPHAN_ROW + [next] == ln;
    OrphanChunked(next);
    LayPut(ln, 6, []);
    assert ln[1..] == [A, B, HALF, next] && [] + ln[..1] == [BLANK];
    LayPut([A, B, HALF, next], 6, [BLANK]);
    assert [A, B, HALF, next][1..] == [B, HALF, next] && [BLANK] + [A, B, HALF, next][..1] == [BLANK, A];
    LayPut([B, HALF, next], 6, [BLANK, A]);
    assert [B, HALF, next][1..] == [HALF, next] && [BLANK, A] + [B, HALF, next][..1] == [BLANK, A, B];
    LayPut([HALF, next], 6, [BLANK, A, B]);
    assert [HALF, next][2..] == [] && [BLANK, A, B] + [HALF, next][..2] == ln;
    LayDone([], 6, ln);
    assert LastRow(ln, 6) == ORPHAN_ROW + [next, BLANK];
  }

  lemma OrphanChunked(next: Cell)
    ensures Chunked([BLANK, A, B, HALF, next])
  {
    hide WideRun, Chunked;
    OrphanTrimmed();
    WideRunSnoc(ORPHAN_ROW, next);
    assert ORPHAN_ROW + [next] == [BLANK, A, B, HALF, next];
    ChunkedIff([BLANK, A, B, HALF, next]);
  }

  /** Rows that all fit stay on the screen. */
  lemma AllShown(s: Screen, page: Page, at: nat, text: seq<Byte>, nr: nat)
    requires s.Valid() && nr >= 1 && page.Valid(6) && at < |page.rows| <= nr
    ensures Over(|page.rows|, nr, at) == 0
    ensures forall i :: 0 <= i < |page.rows| ==> Settle(s, page, at, text, nr, 6).cells[i] == page.rows[i]
  {
    hide CaptureRows, WithGrid;
  }

  lemma NothingPulled(s: Screen, junk: Cell)
    requires s.Valid() && s.history.History?
    ensures PulledPage(s, s.rows, 6, junk) == Page([], []) && HistoryLeft(s, s.rows, 6, junk) == s.history.text
  {
    hide ScreenPage;
    var text := s.history.text;
    var cut := Cut(text, |text|);
    NoHistoryLines(text, cut);
    LaidNone(HistoryLines(text, cut, cut), 6);
  }

  /** The lines above the cursor's row laid out, where nothing is below it and no row has to go. */
  lemma AboveShown(s: Screen, junk: Cell)
    requires s.Valid() && s.history.History? && s.curRow == s.rows - 1 && FirstRow(s.flags, s.curRow) == s.curRow
    requires |Laid(LinesAbove(s, junk), 6).rows| == s.curRow && LinesBelow(s, junk) == []
    ensures var r := Reflowed(s, s.rows, 6, junk);
            && HistoryHasRoom(s, s.rows, 6, junk) == (|s.history.text| <= SCROLLBACK_BYTES)
            && NothingBelow(s, s.rows, 6, junk)
            && forall i :: 0 <= i < s.curRow ==> r.cells[i] == Laid(LinesAbove(s, junk), 6).rows[i]
  {
    hide Laid, LinesAbove, LinesBelow, WholeText, CaptureRows, FirstRow, LastRowOf, FitRow, LineBuffer, PulledPage,
         HistoryLeft, Settle, Over;
    LaidNone(LinesBelow(s, junk), 6);
    NothingPulled(s, junk);
    assert s.curRow <= LastRowOf(s.flags, s.curRow) < |s.flags|;
    var page := WholePage(s, s.rows, 6, junk);
    assert |page.rows| == s.rows && CursorAt(s, s.rows, 6, junk) == s.curRow;
    AllShown(s, page, s.curRow, s.history.text, s.rows);
    assert page.rows[..0] == [] && page.flags[..0] == [];
  }

  /** The buffer of the screen with nothing but the orphan above the cursor: after its four cells comes one nobody
      wrote. */
  lemma OneLine(s: Screen, junk: Cell)
    requires s.Valid() && s.rows == 2 && s.cells[0] == ORPHAN_ROW && s.flags == [false, false] && s.curRow == 1
    ensures LinesAbove(s, junk) == [ORPHAN_ROW + [junk]] && LinesBelow(s, junk) == []
            && FirstRow(s.flags, s.curRow) == 1
  {
    hide Gather, Trim, Chunked, Spans, Extent, LineEnd, LineCells, WideRun;
    GatherRow(ORPHAN_ROW);
    OrphanTrimmed();
    assert s.cells[..1] == s.cells[0..1] == [ORPHAN_ROW] && s.cells[2..] == [];
    NoneGathered();
    SpansStep(s.cells, s.flags, 0, 1, 0);
    SpansEnd(s.cells, s.flags, 1, 4);
    SpansEnd(s.cells, s.flags, 2, 4);
    AboveFits(s, junk);
    BelowFits(s, junk);
    assert LineBuffer(s, junk) == ORPHAN_ROW + [junk];
    SpanLineIs(ORPHAN_ROW + [junk], Span(0, 4));
    FirstCells(ORPHAN_ROW + [junk]);
  }

  lemma NoneGathered()
    ensures Gather([]) == []
  {
  }

  lemma FirstCells(buf: seq<Cell>)
    requires |buf| > 4 && buf[..4] == ORPHAN_ROW
    ensures LineCells(buf, Span(0, 4)) == ORPHAN_ROW && Overreads(buf, Span(0, 4))
  {
    hide WideRun;
    OrphanTrimmed();
    assert buf[0..4] == buf[..4];
  }

  /** Where no line follows, what is shown after the orphan is whatever the memory held. */
  lemma UnwrittenShown(p: Parser, junk: Cell)
    requires Idle(p) && p.scr == Init(2, 4, History([]))
    ensures Live(p, [Output(ORPHAN + [ESC, 0x5B, 0x32, 0x48]), Resize(2, 6, junk)]).scr.cells[0]
            == ORPHAN_ROW + [junk, BLANK]
  {
    hide FeedAll, BytesOf, InsertChars, Reflowed, LayFrom, Laid;
    BlankStart(2);
    OrphanLeft(p);
    var q := FeedAll(p, ORPHAN);
    assert Bytes(Cup(1, 0)) == [ESC, 0x5B, 0x32, 0x48];
    FeedAppend(p, ORPHAN, Bytes(Cup(1, 0)));
    FeedCup(q, 1, 0);
    Steps(q.scr, 0, 1);
    var s := FeedAll(p, ORPHAN + [ESC, 0x5B, 0x32, 0x48]).scr;
    OneLine(s, junk);
    OrphanLays(junk);
    LaidOne(ORPHAN_ROW + [junk], 6);
    AboveShown(s, junk);
    LiveTwo(p, ORPHAN + [ESC, 0x5B, 0x32, 0x48], 2, 6, junk);
  }

  lemma LiveTwo(p: Parser, bytes: seq<Byte>, rows: nat, cols: nat, junk: Cell)
    requires p.Valid() && rows >= 1 && cols >= 2
    ensures Live(p, [Output(bytes), Resize(rows, cols, junk)]) == ResizedParser(FeedAll(p, bytes), rows, cols, junk)
  {
    hide FeedAll, ResizedParser, Live;
    LiveSnoc(p, [], Output(bytes));
    LiveSnoc(p, [] + [Output(bytes)], Resize(rows, cols, junk));
    assert [] + [Output(bytes)] + [Resize(rows, cols, junk)] == [Output(bytes), Resize(rows, cols, junk)];
  }

  lemma LiveSnoc(p: Parser, events: seq<Event>, e: Event)
    requires p.Valid() && EventsOk(events) && (e.Resize? ==> e.rows >= 1 && e.cols >= 2)
    ensures EventsOk(events + [e]) && Live(p, []) == p
    ensures var q := Live(p, events);
            Live(p, events + [e]) == if e.Output? then FeedAll(q, e.bytes) else ResizedParser(q, e.rows, e.cols, e.junk)
  {
    hide FeedAll, ResizedParser;
    assert (events + [e])[..|events|] == events;
  }

  /* ---- the character shown twice ---- */

  const X_ROW: Row := [X, BLANK, BLANK, BLANK]

  /** The buffer of the screen with an `x` on the row after the orphan. */
  lemma TwoLines(s: Screen, junk: Cell)
    requires s.Valid() && s.rows == 3 && s.cells[0] == ORPHAN_ROW && s.cells[1] == X_ROW
    requires s.flags == [false, false, false] && s.curRow == 2
    ensures FirstRow(s.flags, s.curRow) == 2 && LineBuffer(s, junk) == ORPHAN_ROW + X_ROW + [junk]
    ensures SpansAbove(s) == [Span(0, 4), Span(4, 1)] && SpansBelow(s) == []
  {
    hide Gather, Trim, Chunked, Spans, LineEnd, FirstRow, LastRowOf;
    GatherRow(ORPHAN_ROW);
    GatherRow(X_ROW);
    OrphanTrimmed();
    XTrimmed();
    NoneGathered();
    assert !s.flags[0] && !s.flags[1];
    assert FirstRow(s.flags, s.curRow) == 2 && LastRowOf(s.flags, s.curRow) == 2;
    assert s.cells[0..1] == [ORPHAN_ROW] && s.cells[1..2] == [X_ROW] && s.cells[3..] == []
           && s.cells[0..2] == s.cells[..2];
    GatherJoin(s.cells, 0, 1, 2);
    assert LineEnd(s.flags, 0, 2) == 1 && LineEnd(s.flags, 1, 2) == 2;
    SpansStep(s.cells, s.flags, 0, 2, 0);
    SpansStep(s.cells, s.flags, 1, 2, 4);
    SpansEnd(s.cells, s.flags, 2, 8);
    SpansEnd(s.cells, s.flags, 3, 8);
    assert ORPHAN_ROW + X_ROW + [] + [junk] == ORPHAN_ROW + X_ROW + [junk];
    assert [Span(4, 1)] + [] == [Span(4, 1)];
  }

  lemma XTrimmed()
    ensures Trim(X_ROW) == [X]
  {
    TrimBlanks([X], 3);
    assert [X] + Blanks(3) == X_ROW;
    assert Trim([X]) == [X];
  }

  lemma XLays()
    ensures Chunked([X]) && Lay([X], 6) == [[X, BLANK, BLANK, BLANK, BLANK, BLANK]]
  {
    hide LayFrom;
    assert [X][1..] == [] && [] + [X][..1] == [X];
    LayPut([X], 6, []);
    LayDone([], 6, [X]);
    assert LastRow([X], 6) == [X, BLANK, BLANK, BLANK, BLANK, BLANK];
  }

  /** The lines laid out: the first ends with the `x` of the second. */
  lemma TwoLinesLaid(s: Screen, junk: Cell)
    requires s.Valid() && s.rows == 3 && s.cells[0] == ORPHAN_ROW && s.cells[1] == X_ROW
    requires s.flags == [false, false, false] && s.curRow == 2
    ensures LinesAbove(s, junk) == [ORPHAN_ROW + [X], [X]] && LinesBelow(s, junk) == []
    ensures Laid(LinesAbove(s, junk), 6).rows == [ORPHAN_ROW + [X, BLANK], [X, BLANK, BLANK, BLANK, BLANK, BLANK]]
  {
    hide Chunked, Spans, Extent, LineCells, WideRun, Lay, Gather, SpanLine, FirstRow, LastRowOf;
    TwoLines(s, junk);
    AboveFits(s, junk);
    BelowFits(s, junk);
    var buf := LineBuffer(s, junk);
    FirstCells(buf);
    SpanLineIs(buf, Span(0, 4));
    XCells(buf);
    SpanLineIs(buf, Span(4, 1));
    assert [X] + [] == [X];
    OrphanLays(X);
    XLays();
    LaidOne(ORPHAN_ROW + [X], 6);
    LaidOne([X], 6);
    LaidAppend([ORPHAN_ROW + [X]], [[X]], 6);
    assert [ORPHAN_ROW + [X]] + [[X]] == [ORPHAN_ROW + [X], [X]];
  }

  lemma XCells(buf: seq<Cell>)
    requires |buf| > 5 && buf[4] == X
    ensures LineCells(buf, Span(4, 1)) == [X] && !Overreads(buf, Span(4, 1))
  {
    assert buf[4..5] == [X];
  }

  /** A change of size that does not keep the text: the `x` stands at the end of the line before it as well. */
  lemma ShownTwice(p: Parser, junk: Cell)
    requires Idle(p) && p.scr == Init(3, 4, History([])) && junk.ch != NEWLINE
    ensures var s := FeedAll(p, ORPHAN + NEXT_LINE).scr;
            var r := Live(p, [Output(ORPHAN + NEXT_LINE), Resize(3, 6, junk)]).scr;
            && r.cells[0] == ORPHAN_ROW + [X, BLANK] && r.cells[1] == [X, BLANK, BLANK, BLANK, BLANK, BLANK]
            && !LinesKeep(s, junk) && r.history.History? && s.history.History?
            && !SameLines(TextOf(r.history.text, r.cells, r.flags), CutScreenText(s, 6))
  {
    hide FeedAll, Reflowed, Laid, LinesAbove, LinesBelow, SameLines, CutScreenText, HistoryHasRoom, NothingBelow,
         TextOf, LinesKeep, NoNewlines;
    NextLineLeft(p);
    var s := FeedAll(p, ORPHAN + NEXT_LINE).scr;
    TwoLinesLaid(s, junk);
    AboveShown(s, junk);
    LiveTwo(p, ORPHAN + NEXT_LINE, 3, 6, junk);
    TwiceKeepsNot(s, junk);
    NothingIsText();
    ReflowKeepsText(s, 3, 6, junk);
  }

  lemma NothingIsText()
    ensures WellFormed([])
  {
  }

  lemma TwiceKeepsNot(s: Screen, junk: Cell)
    requires s.Valid() && s.rows == 3 && s.cells[0] == ORPHAN_ROW && s.cells[1] == X_ROW
    requires s.flags == [false, false, false] && s.curRow == 2 && junk.ch != NEWLINE
    ensures !LinesKeep(s, junk) && NoNewlines(LineBuffer(s, junk))
  {
    hide Overreads, LineBuffer, SpansAbove, SpansBelow;
    TwoLines(s, junk);
    AboveFits(s, junk);
    var buf := LineBuffer(s, junk);
    FirstCells(buf);
    assert !Keeps(buf, SpansAbove(s)[0]);
  }
}
