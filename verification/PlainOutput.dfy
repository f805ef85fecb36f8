/** Lines of plain text written to the terminal: those on the screen, and those in the history (_lib/vt.c). */
module PlainOutput {
  import opened Cells
  import opened Lines
  import opened Utf8
  import opened Scrollback
  import opened Vt
  import opened VtParser
  import opened TermOps
  import opened Wire
  import opened Transcript
  import Width

  /** Printable ASCII that fits on a row. */
  ghost predicate LineOk(l: seq<Byte>, cols: nat) {
    |l| <= cols && forall i :: 0 <= i < |l| ==> 0x20 <= l[i] < 0x7F
  }

  ghost predicate LinesOk(ls: seq<seq<Byte>>, cols: nat) {
    forall i :: 0 <= i < |ls| ==> LineOk(ls[i], cols)
  }

  /** What a program writes: each line, a carriage return and a line feed. */
  function Output(ls: seq<seq<Byte>>): seq<Byte>
    decreases |ls|
  {
    if |ls| == 0 then [] else Output(ls[..|ls| - 1]) + ls[|ls| - 1] + [0x0D, 0x0A]
  }

  /** A line on a row. */
  function LineRow(l: seq<Byte>, cols: nat): (r: Row)
    requires |l| <= cols
    ensures |r| == cols
  {
    seq(cols, c requires 0 <= c < cols => if c < |l| then BLANK.(ch := l[c]) else BLANK)
  }

  ghost function LineRows(ls: seq<seq<Byte>>, cols: nat): (rs: seq<Row>)
    requires LinesOk(ls, cols)
    ensures |rs| == |ls| && forall i :: 0 <= i < |ls| ==> rs[i] == LineRow(ls[i], cols)
  {
    seq(|ls|, i requires 0 <= i < |ls| => LineRow(ls[i], cols))
  }

  /** How many of n lines have left a screen of so many rows: its last row is for the next line. */
  function Gone(n: nat, rows: nat): (k: nat)
    requires rows >= 1
    ensures k <= n && n - k < rows
  {
    if n < rows then 0 else n - rows + 1
  }

  /** The screen after them. */
  ghost function After(s: Screen, ls: seq<seq<Byte>>): (r: Screen)
    requires s.Valid() && LinesOk(ls, s.cols)
  {
    var k := Gone(|ls|, s.rows);
    s.(cells := LineRows(ls[k..], s.cols) + BlankGrid(s.rows - (|ls| - k), s.cols, BLANK),
       curRow := |ls| - k,
       history := CaptureRows(s.history, LineRows(ls[..k], s.cols), NoFlags(k)))
  }

  /** A fresh main screen. */
  ghost predicate Blank(s: Screen) {
    && s.Valid() && s.pen == DEFAULT_PEN && !s.insert && !s.inAlt && s.top == 0 && s.bottom == s.rows - 1
    && s.curRow == 0 && s.curCol == 0 && !s.pendingWrap
    && s.cells == BlankGrid(s.rows, s.cols, BLANK) && s.flags == NoFlags(s.rows)
  }

  /* ---- one line ---- */

  /** The screen when j characters of a line have been written. */
  ghost function Typed(s: Screen, l: seq<Byte>): Screen
    requires s.Valid() && |l| <= s.cols
  {
    s.(cells := s.cells[s.curRow := LineRow(l, s.cols)], curCol := Min(|l|, s.cols - 1), pendingWrap := |l| == s.cols)
  }

  /** The cursor is at the start of a blank row. */
  ghost predicate AtStart(s: Screen) {
    && s.Valid() && s.pen == DEFAULT_PEN && !s.insert && s.curCol == 0 && !s.pendingWrap
    && s.cells[s.curRow] == BlankRow(s.cols, BLANK)
  }

  lemma PutNext(s: Screen, l: seq<Byte>, c: Byte)
    requires AtStart(s) && |l| < s.cols && 0x20 <= c < 0x7F
    ensures Typed(s, l).Valid() && PutChar(Typed(s, l), c) == Typed(s, l + [c])
  {
    var t := Typed(s, l);
    assert LineRow(l, s.cols)[|l| := BLANK.(ch := c)] == LineRow(l + [c], s.cols);
  }

  lemma {:induction false} TypeLine(p: Parser, l: seq<Byte>)
    requires Idle(p) && AtStart(p.scr) && LineOk(l, p.scr.cols)
    ensures Shows(FeedAll(p, l), Typed(p.scr, l))
    decreases |l|
  {
    hide FeedAll, Feed, Typed, PutChar, AtStart;
    if |l| == 0 {
      NothingTyped(p.scr);
      FeedOne(p, 0);
    } else {
      var front, c := l[..|l| - 1], l[|l| - 1];
      TypeLine(p, front);
      FeedSnoc(p, front, c);
      assert l == front + [c];
      FeedAscii(FeedAll(p, front), c);
      PutNext(p.scr, front, c);
      PutCodeShows(FeedAll(p, front), c);
    }
  }

  lemma NothingTyped(s: Screen)
    requires AtStart(s)
    ensures Typed(s, []) == s
  {
    assert LineRow([], s.cols) == BlankRow(s.cols, BLANK);
  }

  lemma PutCodeShows(p: Parser, c: Byte)
    requires Idle(p) && 0x20 <= c < 0x7F
    ensures Shows(PutCode(p, c), PutChar(p.scr, c))
  {
    hide PutChar;
  }

  /** The end of a line. */
  lemma LineEnds(p: Parser)
    requires Idle(p)
    ensures Shows(FeedAll(p, [0x0D, 0x0A]), LineFeed(CarriageReturn(p.scr)))
  {
    hide FeedAll, LineFeed, CarriageReturn;
    FeedControls(p, Cr);
    FeedAppend(p, [0x0D], [0x0A]);
    FeedControls(FeedAll(p, [0x0D]), Lf);
    assert [0x0D] + [0x0A] == [0x0D, 0x0A];
  }

  /* ---- several ---- */

  lemma AfterStarts(s: Screen, ls: seq<seq<Byte>>)
    requires Blank(s) && LinesOk(ls, s.cols)
    ensures AtStart(After(s, ls))
  {
    hide CaptureRows;
    assert BlankGrid(s.rows - (|ls| - Gone(|ls|, s.rows)), s.cols, BLANK)[0] == BlankRow(s.cols, BLANK);
  }

  /** A line for which there is room. */
  lemma LineFits(s: Screen, ls: seq<seq<Byte>>, l: seq<Byte>)
    requires Blank(s) && LinesOk(ls, s.cols) && LineOk(l, s.cols) && |ls| + 1 < s.rows
    ensures Typed(After(s, ls), l).Valid() && LinesOk(ls + [l], s.cols)
    ensures LineFeed(CarriageReturn(Typed(After(s, ls), l))) == After(s, ls + [l])
  {
    hide CaptureRows, ScrollUp, LineRow;
    var n, all := |ls|, ls + [l];
    var a, t := After(s, ls), Typed(After(s, ls), l);
    assert ls[0..] == ls && all[0..] == all && ls[..0] == [] && all[..0] == [];
    assert LineRows(all, s.cols) == LineRows(ls, s.cols) + [LineRow(l, s.cols)];
    assert t.cells == LineRows(all, s.cols) + BlankGrid(s.rows - n - 1, s.cols, BLANK);
  }

  /** A line that ends in the last row: the first row leaves. */
  lemma LineScrolls(s: Screen, ls: seq<seq<Byte>>, l: seq<Byte>)
    requires Blank(s) && LinesOk(ls, s.cols) && LineOk(l, s.cols) && |ls| + 1 >= s.rows
    ensures Typed(After(s, ls), l).Valid() && LinesOk(ls + [l], s.cols)
    ensures LineFeed(CarriageReturn(Typed(After(s, ls), l))) == After(s, ls + [l])
  {
    hide CaptureRows, LineRow, Typed, CarriageReturn;
    var all, k := ls + [l], Gone(|ls|, s.rows);
    FullScreen(s, ls, l);
    FullScrolls(s, Typed(After(s, ls), l), LineRows(all[k..], s.cols));
    assert all[k..][1..] == all[k + 1..] && all[..k] == ls[..k] && all[k..][0] == all[k];
    assert LineRows(all[k..], s.cols)[1..] == LineRows(all[k + 1..], s.cols);
    GoneGrows(s.history, all, k, s.cols);
  }

  /** The last row has been written. */
  lemma FullScreen(s: Screen, ls: seq<seq<Byte>>, l: seq<Byte>)
    requires Blank(s) && LinesOk(ls, s.cols) && LineOk(l, s.cols) && |ls| + 1 >= s.rows
    ensures LinesOk(ls + [l], s.cols) && Typed(After(s, ls), l).Valid()
    ensures var all, k, t := ls + [l], Gone(|ls|, s.rows), Typed(After(s, ls), l);
      && k + s.rows == |all| && t.history == After(s, ls).history
      && t == s.(cells := LineRows(all[k..], s.cols), curRow := s.rows - 1, curCol := t.curCol,
                 pendingWrap := t.pendingWrap,
                 history := t.history)
  {
    hide CaptureRows, LineRow;
    var all, k := ls + [l], Gone(|ls|, s.rows);
    assert all[k..] == ls[k..] + [l];
    assert LineRows(all[k..], s.cols) == LineRows(ls[k..], s.cols) + [LineRow(l, s.cols)];
    assert BlankGrid(1, s.cols, BLANK)[0 := LineRow(l, s.cols)] == [LineRow(l, s.cols)];
  }

  /** A line feed there. */
  lemma FullScrolls(s: Screen, t: Screen, cells: seq<Row>)
    requires Blank(s) && t.Valid()
    requires t == s.(cells := cells, curRow := s.rows - 1, curCol := t.curCol, pendingWrap := t.pendingWrap,
                     history := t.history)
    ensures LineFeed(CarriageReturn(t))
         == s.(cells := cells[1..] + BlankGrid(1, s.cols, BLANK), curRow := s.rows - 1,
               history := CaptureRows(t.history, [cells[0]], [false]))
  {
    hide CaptureRows, BlankGrid;
    var u := LineFeed(CarriageReturn(t));
    assert cells[0..1] == [cells[0]] && t.flags[0..1] == [false];
    assert cells[..0] + cells[1..] == cells[1..];
    assert u.flags == NoFlags(s.rows);
  }

  lemma GoneGrows(h: History, ls: seq<seq<Byte>>, k: nat, cols: nat)
    requires LinesOk(ls, cols) && k < |ls|
    ensures CaptureRows(CaptureRows(h, LineRows(ls[..k], cols), NoFlags(k)), [LineRow(ls[k], cols)], [false])
         == CaptureRows(h, LineRows(ls[..k + 1], cols), NoFlags(k + 1))
  {
    hide Capture, LineRow;
    var rows := LineRows(ls[..k + 1], cols);
    assert rows[..k] == LineRows(ls[..k], cols) && NoFlags(k + 1)[..k] == NoFlags(k);
    assert [LineRow(ls[k], cols)][..0] == [] && [false][..0] == [];
  }

  /** What is on the screen and what has gone into the history after any lines: the last ones are on the screen, in
      order, and the others have been captured, in order. */
  lemma {:induction false} OutputShown(p: Parser, ls: seq<seq<Byte>>)
    requires Idle(p) && Blank(p.scr) && LinesOk(ls, p.scr.cols)
    ensures Shows(FeedAll(p, Output(ls)), After(p.scr, ls))
    decreases |ls|
  {
    hide FeedAll, After, Typed, LineFeed, CarriageReturn, Blank, LineOk;
    if |ls| == 0 {
      FeedOne(p, 0);
      NoLines(p.scr);
    } else {
      var front, l := ls[..|ls| - 1], ls[|ls| - 1];
      OutputShown(p, front);
      var q := FeedAll(p, Output(front));
      FeedAppend(p, Output(front) + l, [0x0D, 0x0A]);
      FeedAppend(p, Output(front), l);
      AfterStarts(p.scr, front);
      AfterWide(p.scr, front);
      TypeLine(q, l);
      LineEnds(FeedAll(q, l));
      if |front| + 1 < p.scr.rows { LineFits(p.scr, front, l); } else { LineScrolls(p.scr, front, l); }
      assert ls == front + [l];
    }
  }

  lemma AfterWide(s: Screen, ls: seq<seq<Byte>>)
    requires s.Valid() && LinesOk(ls, s.cols)
    ensures After(s, ls).cols == s.cols
  {
    hide CaptureRows;
  }

  lemma NoLines(s: Screen)
    requires Blank(s)
    ensures LinesOk([], s.cols) && After(s, []) == s
  {
    assert LineRows([], s.cols) + BlankGrid(s.rows, s.cols, BLANK) == s.cells;
    assert LineRows([], s.cols) == [] && NoFlags(0) == [];
  }

  /* ---- the history ---- */

  /** Lines without the spaces at their ends. */
  function Stripped(ls: seq<seq<Byte>>): seq<Byte>
    decreases |ls|
  {
    if |ls| == 0 then [] else Stripped(ls[..|ls| - 1]) + Strip(ls[|ls| - 1]) + [NEWLINE]
  }

  lemma {:induction false} LineText(l: seq<Byte>)
    requires LineOk(l, |l|)
    ensures Text(LineRow(l, |l|)) == l
    decreases |l|
  {
    hide Text;
    if |l| == 0 {
      TextNothing();
      assert LineRow(l, 0) == [];
    } else {
      var n := |l| - 1;
      var c := BLANK.(ch := l[n]);
      LineText(l[..n]);
      assert LineRow(l, |l|) == LineRow(l[..n], n) + [c];
      TextAppend(LineRow(l[..n], n), [c]);
      AsciiText(l[n]);
    }
  }

  lemma TextNothing()
    ensures Text([]) == []
  {
  }

  lemma AsciiText(c: Byte)
    requires 0x20 <= c < 0x7F
    ensures Text([BLANK.(ch := c)]) == [c]
  {
    assert [BLANK.(ch := c)][1..] == [];
    assert Encode(c) == [c];
    assert [c] + [] == [c];
  }

  lemma {:induction false} BlanksAreSpaces(n: nat)
    ensures Text(Blanks(n)) == Spaces(n)
    decreases n
  {
    if n > 0 {
      assert Blanks(n)[1..] == Blanks(n - 1);
      BlanksAreSpaces(n - 1);
      assert CellText(BLANK) == Spaces(1);
      assert Spaces(1) + Spaces(n - 1) == Spaces(n);
    }
  }

  /** A line's row leaves the line, without the spaces at its end. */
  lemma LineRowText(l: seq<Byte>, cols: nat)
    requires LineOk(l, cols)
    ensures |Text(LineRow(l, cols))| == cols && WholeText(LineRow(l, cols), false) == Strip(l) + [NEWLINE]
  {
    hide Text, Strip;
    LineText(l);
    BlanksAreSpaces(cols - |l|);
    assert LineRow(l, cols) == LineRow(l, |l|) + Blanks(cols - |l|);
    TextAppend(LineRow(l, |l|), Blanks(cols - |l|));
    StripSpaces(l, cols - |l|);
  }

  lemma {:induction false} LineRowsText(ls: seq<seq<Byte>>, cols: nat)
    requires LinesOk(ls, cols)
    ensures WholeTexts(LineRows(ls, cols), NoFlags(|ls|)) == Stripped(ls)
    ensures cols <= TEXT_LIMIT ==> Short(LineRows(ls, cols))
    decreases |ls|
  {
    hide WholeText, Text, Strip, LineRow;
    forall i | 0 <= i < |ls| ensures |Text(LineRow(ls[i], cols))| == cols { LineRowText(ls[i], cols); }
    if |ls| > 0 {
      var n := |ls| - 1;
      LineRowsText(ls[..n], cols);
      assert LineRows(ls, cols)[..n] == LineRows(ls[..n], cols) && NoFlags(|ls|)[..n] == NoFlags(n);
      LineRowText(ls[n], cols);
      assert Stripped(ls[..n]) + (Strip(ls[n]) + [NEWLINE]) == Stripped(ls[..n]) + Strip(ls[n]) + [NEWLINE];
    }
  }

  lemma AfterIs(s: Screen, ls: seq<seq<Byte>>)
    requires s.Valid() && LinesOk(ls, s.cols)
    ensures var k := Gone(|ls|, s.rows);
            LinesOk(ls[..k], s.cols)
              && After(s, ls).history == CaptureRows(s.history, LineRows(ls[..k], s.cols), NoFlags(k))
  {
    hide CaptureRows;
  }

  /** What is written is kept: after any lines of plain text, as long as there is room, the history is what it was and
      the text of all the lines that are no longer on the screen, in order, the spaces at their ends left out. */
  lemma OutputKept(p: Parser, ls: seq<seq<Byte>>)
    requires Idle(p) && Blank(p.scr) && LinesOk(ls, p.scr.cols) && p.scr.cols <= TEXT_LIMIT && p.scr.history.History?
    requires |p.scr.history.text| + |Stripped(ls[..Gone(|ls|, p.scr.rows)])| <= 32768
    ensures var k := Gone(|ls|, p.scr.rows);
            FeedAll(p, Output(ls)).scr.history == History(p.scr.history.text + Stripped(ls[..k]))
  {
    hide FeedAll, CaptureRows, WholeTexts, Stripped, LineOk, RowsBytes, Short, After;
    var s, k := p.scr, Gone(|ls|, p.scr.rows);
    OutputShown(p, ls);
    AfterIs(s, ls);
    LineRowsText(ls[..k], s.cols);
    RowsBytesWhole(LineRows(ls[..k], s.cols), NoFlags(k));
    CaptureAppends(s.history.text, LineRows(ls[..k], s.cols), NoFlags(k));
  }
}
