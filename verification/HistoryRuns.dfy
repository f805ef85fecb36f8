/** What output does to the history: the rows that leave the top of the main screen are captured, in that order, and
    nothing else happens to it (_lib/vt.c). */
module HistoryRuns {
  import opened Cells
  import opened Utf8
  import opened Scrollback
  import opened Vt
  import opened VtParser
  import opened Reflow
  import opened Transcript
  import opened HistoryText
  import S = StoredText
  import Width

  /* ---- the rows that leave ---- */

  const NONE := Page([], [])

  /** Those that scroll_up by n lines takes off the top: none but of the main screen, from its first row on. */
  function ScrolledOff(s: Screen, n: nat): (out: Page)
    requires s.Valid()
    ensures out.Valid(s.cols)
  {
    var k := Min(n, s.bottom - s.top + 1);
    if s.top == 0 && !s.inAlt then Page(s.cells[..k], s.flags[..k]) else NONE
  }

  /** A line feed in the last row of the region. */
  function LeftByLineFeed(s: Screen): (out: Page)
    requires s.Valid()
    ensures out.Valid(s.cols)
  {
    if s.curRow == s.bottom then ScrolledOff(s, 1) else NONE
  }

  /** The cursor's row goes on in the next, and is marked as going on before it leaves. */
  function LeftByWrap(s: Screen): (out: Page)
    requires s.Valid()
    ensures out.Valid(s.cols)
  {
    LeftByLineFeed(s.(flags := s.flags[s.curRow := true], curCol := 0, pendingWrap := false))
  }

  /** A character: a wrap that was due, or one that a wide character needs, its column padded. */
  function LeftByChar(s: Screen, cp: nat): (out: Page)
    requires s.Valid()
    ensures out.Valid(s.cols)
  {
    var w := Width.CpWidth(cp);
    if w == 0 then NONE
    else if s.pendingWrap && s.autoWrap then LeftByWrap(s)
    else if w == 2 && s.curCol + 1 >= s.cols && s.autoWrap then
      LeftByWrap(SetCell(s.(pendingWrap := false), BlankCell(s.pen).(pad := true)))
    else NONE
  }

  function LeftByRepeat(s: Screen, cp: nat, n: nat): (out: Page)
    requires s.Valid()
    ensures |out.rows| == |out.flags|
    decreases n
  {
    if n == 0 then NONE else LeftByChar(s, cp).Then(LeftByRepeat(PutChar(s, cp), cp, n - 1))
  }

  /** A control sequence: SU, DL from the cursor's row on, and REP. */
  function LeftByCsi(p: Parser, final: char): (out: Page)
    requires p.Valid()
    ensures |out.rows| == |out.flags|
  {
    var s, n := p.scr, P(p.params, 0, 1);
    if p.priv then NONE
    else if final == 'S' then ScrolledOff(s, n)
    else if final == 'M' && s.top <= s.curRow <= s.bottom then ScrolledOff(s.(top := s.curRow), n)
    else if final == 'b' && p.lastGraphic != 0 then LeftByRepeat(s, p.lastGraphic, n)
    else NONE
  }

  /** The character a byte completes, if it does. */
  datatype Completed = Character(cp: nat) | Incomplete

  function CompletedBy(p: Parser, c: Byte): Completed
    requires p.Valid()
  {
    if p.utf8Want == 0 then (if c < 0x80 then Character(c) else Incomplete)
    else if 0x80 <= c < 0xC0 && |p.utf8| + 1 >= p.utf8Want then Character(VtParser.Decode(p.utf8 + [c]))
    else Incomplete
  }

  function LeftByText(p: Parser, c: Byte): (out: Page)
    requires p.Valid()
    ensures |out.rows| == |out.flags|
  {
    match CompletedBy(p, c)
    case Character(cp) => LeftByChar(p.scr, if p.g0Dec && 0x60 <= cp <= 0x7e then DEC_GRAPHICS[cp - 0x60] else cp)
    case Incomplete => NONE
  }

  /** One byte. Line feeds are LF, VT and FF, IND and NEL. */
  function LeftBy(p: Parser, c: Byte): (out: Page)
    requires p.Valid()
    ensures |out.rows| == |out.flags|
  {
    if c == 0x18 || c == 0x1A || c == 0x1B then NONE
    else match p.state
      case Ground =>
        if 0x0A <= c <= 0x0C then LeftByLineFeed(p.scr)
        else if c < 0x20 || c == 0x7F then NONE
        else LeftByText(p, c)
      case Esc => if c == 0x44 || c == 0x45 then LeftByLineFeed(p.scr) else NONE
      case CsiParam => if 0x40 <= c <= 0x7E then LeftByCsi(p, c as char) else NONE
      case CsiInter => if 0x40 <= c <= 0x7E then LeftByCsi(p, c as char) else NONE
      case _ => NONE
  }

  /** The rows that leave while a stream comes in; those since the last reset, if there is one. */
  ghost function Leaving(p: Parser, bytes: seq<Byte>): (out: Page)
    requires p.Valid()
    ensures |out.rows| == |out.flags|
    decreases |bytes|
  {
    if |bytes| == 0 then NONE
    else
      var n := |bytes| - 1;
      var q := FeedAll(p, bytes[..n]);
      if Resets(q, bytes[n]) then NONE else Leaving(p, bytes[..n]).Then(LeftBy(q, bytes[n]))
  }

  /** What they leave behind them goes after: the history there was, or an empty one since a reset. */
  ghost function HistoryBefore(p: Parser, bytes: seq<Byte>): History
    requires p.Valid()
  {
    if NoReset(p, bytes) then p.scr.history else History([])
  }

  /* ---- captures ---- */

  lemma {:induction false} CaptureAppend(h: History, a: seq<Row>, fa: seq<bool>, b: seq<Row>, fb: seq<bool>)
    requires |a| == |fa| && |b| == |fb|
    ensures CaptureRows(h, a + b, fa + fb) == CaptureRows(CaptureRows(h, a, fa), b, fb)
    decreases |b|
  {
    hide Capture;
    if |b| == 0 {
      assert a + b == a && fa + fb == fa;
    } else {
      var n := |b| - 1;
      assert (a + b)[..|a| + n] == a + b[..n] && (fa + fb)[..|a| + n] == fa + fb[..n];
      CaptureAppend(h, a, fa, b[..n], fb[..n]);
    }
  }

  /** The screen keeps its width, and its history is that of before with these rows captured. */
  ghost predicate Captured(s: Screen, out: Page, r: Screen) {
    r.cols == s.cols && out.Valid(s.cols) && r.history == CaptureRows(s.history, out.rows, out.flags)
  }

  ghost predicate Kept(s: Screen, r: Screen) {
    r.cols == s.cols && r.history == s.history
  }

  lemma CapturedNone(s: Screen, r: Screen)
    requires Kept(s, r)
    ensures Captured(s, NONE, r)
  {
  }

  lemma CapturedTwice(s: Screen, a: Page, t: Screen, b: Page, r: Screen)
    requires Captured(s, a, t) && Captured(t, b, r)
    ensures Captured(s, a.Then(b), r)
  {
    hide CaptureRows;
    CaptureAppend(s.history, a.rows, a.flags, b.rows, b.flags);
  }

  /** Rows that leave behind some that have left. */
  lemma CapturedAfter(s: Screen, t: Screen, b: Page, r: Screen)
    requires Kept(s, t) && Captured(t, b, r)
    ensures Captured(s, b, r)
  {
  }

  lemma CapturedBefore(s: Screen, a: Page, t: Screen, r: Screen)
    requires Captured(s, a, t) && Kept(t, r)
    ensures Captured(s, a, r)
  {
  }

  /* ---- the operations that scroll ---- */

  /** Nothing is lost: what leaves and what stays of the region is what there was, in order. */
  lemma NothingLost(s: Screen, n: nat)
    requires s.Valid() && s.top == 0 && !s.inAlt
    ensures var out, r, k := ScrolledOff(s, n), ScrollUp(s, n), Min(n, s.bottom + 1);
      && |out.rows| == k && out.rows + r.cells[..s.bottom + 1 - k] == s.cells[..s.bottom + 1]
      && out.flags + r.flags[..s.bottom + 1 - k] == s.flags[..s.bottom + 1]
  {
    hide CaptureRows, BlankGrid, NoFlags;
    var out, r, k := ScrolledOff(s, n), ScrollUp(s, n), Min(n, s.bottom + 1);
    assert r.cells[..s.bottom + 1 - k] == s.cells[k..s.bottom + 1];
    assert r.flags[..s.bottom + 1 - k] == s.flags[k..s.bottom + 1];
  }

  lemma ScrollUpCaptures(s: Screen, n: nat)
    requires s.Valid()
    ensures Captured(s, ScrolledOff(s, n), ScrollUp(s, n))
  {
    hide CaptureRows;
    var k := Min(n, s.bottom - s.top + 1);
    if s.top == 0 && !s.inAlt {
      assert s.cells[s.top..s.top + k] == s.cells[..k] && s.flags[s.top..s.top + k] == s.flags[..k];
    } else {
      CapturedNone(s, ScrollUp(s, n));
    }
  }

  lemma LineFeedCaptures(s: Screen)
    requires s.Valid()
    ensures Captured(s, LeftByLineFeed(s), LineFeed(s))
  {
    hide ScrollUp, ScrolledOff, CaptureRows;
    if s.curRow == s.bottom {
      ScrollUpCaptures(s, 1);
    } else {
      CapturedNone(s, LineFeed(s));
    }
  }

  lemma WrapCaptures(s: Screen)
    requires s.Valid()
    ensures Captured(s, LeftByWrap(s), Wrap(s))
  {
    hide LineFeed, LeftByLineFeed, CaptureRows;
    LineFeedCaptures(s.(flags := s.flags[s.curRow := true], curCol := 0, pendingWrap := false));
  }

  lemma PlaceKeeps(s: Screen, cp: nat, w: nat)
    requires s.Valid() && 1 <= w <= 2 && s.curCol + w <= s.cols
    ensures Kept(s, Place(s, cp, w))
  {
    hide OpenGap;
  }

  lemma PutCharCaptures(s: Screen, cp: nat)
    requires s.Valid()
    ensures Captured(s, LeftByChar(s, cp), PutChar(s, cp))
  {
    hide Captured, Wrap, Place, SetCell, Width.CpWidth, LeftByWrap;
    var w := Width.CpWidth(cp);
    var s0 := s.(pendingWrap := false);
    if w == 0 {
      CapturedNone(s, s);
    } else if s.pendingWrap && s.autoWrap {
      WrapCaptures(s);
      PlaceKeeps(Wrap(s), cp, w);
      CapturedBefore(s, LeftByWrap(s), Wrap(s), PutChar(s, cp));
    } else if w == 2 && s.curCol + 1 >= s.cols {
      var s2 := SetCell(s0, BlankCell(s.pen).(pad := true));
      PadSet(s0, cp);
      if s.autoWrap {
        WrapCaptures(s2);
        PlaceKeeps(Wrap(s2), cp, w);
        CapturedAfter(s, s2, LeftByWrap(s2), Wrap(s2));
        CapturedBefore(s, LeftByWrap(s2), Wrap(s2), Place(Wrap(s2), cp, w));
      } else {
        CapturedNone(s, s2);
      }
    } else {
      PlaceKeeps(s0, cp, w);
      CapturedNone(s, Place(s0, cp, w));
    }
  }

  lemma PadSet(s: Screen, cp: nat)
    requires s.Valid()
    ensures var r := SetCell(s, BlankCell(s.pen).(pad := true)); Kept(s, r) && r.autoWrap == s.autoWrap
  {
  }

  lemma {:induction false} PutTimesCaptures(s: Screen, cp: nat, n: nat)
    requires s.Valid()
    ensures Captured(s, LeftByRepeat(s, cp, n), PutTimes(s, cp, n))
    decreases n
  {
    hide Captured, PutChar, LeftByChar;
    if n == 0 {
      CapturedNone(s, s);
    } else {
      PutCharCaptures(s, cp);
      PutTimesCaptures(PutChar(s, cp), cp, n - 1);
      CapturedTwice(s, LeftByChar(s, cp), PutChar(s, cp), LeftByRepeat(PutChar(s, cp), cp, n - 1), PutTimes(s, cp, n));
    }
  }

  lemma DeleteLinesCaptures(s: Screen, n: nat)
    requires s.Valid()
    ensures if s.top <= s.curRow <= s.bottom then Captured(s, ScrolledOff(s.(top := s.curRow), n), DeleteLines(s, n))
            else Captured(s, NONE, DeleteLines(s, n))
  {
    hide ScrollUp, ScrolledOff, CaptureRows;
    if s.top <= s.curRow <= s.bottom {
      ScrollUpCaptures(s.(top := s.curRow), n);
    } else {
      CapturedNone(s, DeleteLines(s, n));
    }
  }

  /* ---- the others ---- */

  lemma ClearCellsKeep(s: Screen, row: nat, from: nat, to: int)
    requires s.Valid() && row < s.rows && to < s.cols
    ensures Kept(s, ClearCells(s, row, from, to))
  {
    hide ClearRange;
  }

  lemma ClearRowsKeep(s: Screen, from: nat, to: nat)
    requires s.Valid() && from <= to <= s.rows
    ensures Kept(s, ClearRows(s, from, to)) && ClearRows(s, from, to).rows == s.rows
            && ClearRows(s, from, to).curRow == s.curRow
    ensures ClearRows(s, from, to).curCol == s.curCol
  {
    hide BlankGrid;
  }

  lemma ClearFlagsKeep(s: Screen, from: nat, to: nat)
    requires s.Valid() && from <= to <= s.rows
    ensures Kept(s, ClearFlags(s, from, to))
  {
    hide NoFlags;
  }

  lemma EraseDisplayKeeps(s: Screen, n: nat)
    requires s.Valid()
    ensures Kept(s, EraseDisplay(s, n))
  {
    hide ClearCells, ClearFlags, ClearRows;
    S.Sizes(s);
    if n == 0 {
      var s1 := ClearCells(s, s.curRow, s.curCol, s.cols - 1);
      ClearCellsKeep(s, s.curRow, s.curCol, s.cols - 1);
      ClearRowsKeep(s1, s.curRow + 1, s.rows);
      ClearFlagsKeep(ClearRows(s1, s.curRow + 1, s.rows), s.curRow, s.rows);
    } else if n == 1 {
      var s1 := ClearRows(s, 0, s.curRow);
      ClearRowsKeep(s, 0, s.curRow);
      ClearCellsKeep(s1, s.curRow, 0, s.curCol);
      ClearFlagsKeep(ClearCells(s1, s.curRow, 0, s.curCol), 0, s.curRow);
    } else if n == 2 || n == 3 {
      ClearRowsKeep(s, 0, s.rows);
      ClearFlagsKeep(ClearRows(s, 0, s.rows), 0, s.rows);
    }
  }

  lemma EraseLineKeeps(s: Screen, n: nat)
    requires s.Valid()
    ensures Kept(s, EraseLine(s, n))
  {
    hide ClearCells, Screen.Valid;
    if n == 0 { ClearLineKeeps(s, s.curCol, s.cols - 1); }
    else if n == 1 { ClearLineKeeps(s, 0, s.curCol); }
    else if n == 2 { ClearLineKeeps(s, 0, s.cols - 1); }
  }

  lemma ClearLineKeeps(s: Screen, from: nat, to: int)
    requires s.Valid() && (to < s.cols || to <= s.curCol)
    ensures to < s.cols && s.curRow < s.rows && Kept(s, ClearCells(s, s.curRow, from, to))
  {
    ClearCellsKeep(s, s.curRow, from, to);
  }

  lemma EraseCharsKeep(s: Screen, n: nat)
    requires s.Valid()
    ensures Kept(s, EraseChars(s, n))
  {
    hide ClearCells;
    ClearCellsKeep(s, s.curRow, s.curCol, Min(s.curCol + n - 1, s.cols - 1));
  }

  lemma InsertsKeep(s: Screen, n: nat)
    requires s.Valid()
    ensures Kept(s, InsertChars(s, n)) && Kept(s, DeleteChars(s, n))
  {
    hide OpenGap, BlankRow, Screen.Valid, GridOf, BlankCell;
  }

  lemma LinesKeep(s: Screen, n: nat)
    requires s.Valid()
    ensures Kept(s, InsertLines(s, n)) && Kept(s, ScrollDown(s, n))
  {
    hide BlankGrid, NoFlags, Screen.Valid, GridOf, BlankCell;
  }

  /** The edits that scroll nothing out. */
  lemma EditKeeps(s: Screen, final: char, ps: seq<nat>)
    requires s.Valid() && final != 'M' && final != 'S'
    ensures Kept(s, CsiEdit(s, final, ps))
  {
    hide EraseDisplay, EraseLine, EraseChars, InsertChars, DeleteChars, InsertLines, DeleteLines, ScrollUp, ScrollDown,
         Sgr, SetRegion, P, Screen.Valid;
    var n := P(ps, 0, 1);
    match final {
      case 'J' => EraseDisplayKeeps(s, P(ps, 0, 0));
      case 'K' => EraseLineKeeps(s, P(ps, 0, 0));
      case 'X' => EraseCharsKeep(s, n);
      case '@' => InsertsKeep(s, n);
      case 'P' => InsertsKeep(s, n);
      case 'L' => LinesKeep(s, n);
      case 'T' => LinesKeep(s, n);
      case 'm' => S.SavingUntouched(s, ps);
      case 'r' => S.RegionUntouched(s, n, P(ps, 1, s.rows));
      case _ =>
    }
  }

  lemma AltKeeps(s: Screen)
    requires s.Valid()
    ensures Kept(s, EnterAlt(s)) && Kept(s, LeaveAlt(s))
  {
    hide BlankGrid, NoFlags, GridOf, Screen.Valid, BlankCell;
  }

  lemma OriginKeeps(s: Screen, on: bool)
    requires s.Valid()
    ensures s.(origin := on).Valid() && forall row: int, col: int :: Kept(s, CursorSet(s.(origin := on), row, col))
  {
    hide CursorSet;
    S.CursorSetUntouched(s.(origin := on));
  }

  lemma ModeKeeps(s: Screen, mode: nat, on: bool)
    requires s.Valid()
    ensures Kept(s, PrivateMode(s, mode, on))
  {
    hide EnterAlt, LeaveAlt, CursorSet, Screen.Valid;
    AltKeeps(s);
    OriginKeeps(s, on);
  }

  lemma {:induction false} ModesKeep(s: Screen, ps: seq<nat>, on: bool)
    requires s.Valid()
    ensures Kept(s, PrivateModes(s, ps, on))
    decreases |ps|
  {
    hide PrivateMode;
    if |ps| > 0 {
      ModesKeep(s, ps[..|ps| - 1], on);
      ModeKeeps(PrivateModes(s, ps[..|ps| - 1], on), ps[|ps| - 1], on);
    }
  }

  /* ---- the parser ---- */

  lemma DispatchCsiCaptures(p: Parser, final: char)
    requires p.Valid()
    ensures Captured(p.scr, LeftByCsi(p, final), DispatchCsi(p, final).scr)
  {
    hide Captured, CsiMove, CsiEdit, PrivateModes, PutTimes, ScrolledOff, LeftByRepeat, P;
    var s, ps, r := p.scr, p.params, DispatchCsi(p, final).scr;
    if p.priv {
      ModesKeep(s, ps, final == 'h');
      CapturedNone(s, r);
    } else if IsMove(final) {
      S.MoveUntouched(s, p.tabs, final, ps);
      CapturedNone(s, r);
    } else if final == 'b' {
      PutTimesCaptures(s, p.lastGraphic, P(ps, 0, 1));
      CapturedNone(s, s);
    } else if final == 'M' || final == 'S' {
      ScrollsBy(s, final, ps);
    } else {
      EditKeeps(s, final, ps);
      CapturedNone(s, r);
    }
  }

  /** SU and DL. */
  lemma ScrollsBy(s: Screen, final: char, ps: seq<nat>)
    requires s.Valid() && (final == 'M' || final == 'S')
    ensures var n := P(ps, 0, 1);
      Captured(s, if final == 'S' then ScrolledOff(s, n)
                  else if s.top <= s.curRow <= s.bottom then ScrolledOff(s.(top := s.curRow), n) else NONE,
                  CsiEdit(s, final, ps))
  {
    hide Captured, ScrollUp, ScrolledOff, DeleteLines, P;
    ScrollUpCaptures(s, P(ps, 0, 1));
    DeleteLinesCaptures(s, P(ps, 0, 1));
  }

  lemma ReverseKeeps(s: Screen)
    requires s.Valid()
    ensures Kept(s, ReverseIndex(s))
  {
    hide ScrollDown, Screen.Valid;
  }

  lemma NextLineCaptures(s: Screen)
    requires s.Valid()
    ensures s.(curCol := 0).Valid() && Captured(s, LeftByLineFeed(s), LineFeed(s.(curCol := 0)))
  {
    hide CaptureRows, LineFeed;
    LineFeedCaptures(s.(curCol := 0));
  }

  /** All escapes but the reset. */
  lemma DispatchEscCaptures(p: Parser, final: char)
    requires p.Valid() && final != 'c'
    ensures Captured(p.scr, if final == 'D' || final == 'E' then LeftByLineFeed(p.scr) else NONE,
                     DispatchEsc(p, final).scr)
  {
    hide Captured, LeftByLineFeed, LineFeed, ReverseIndex, Init, SaveCursor, RestoreCursor, DefaultTabs, Screen.Valid;
    var s := p.scr;
    if final == 'D' {
      LineFeedCaptures(s);
    } else if final == 'E' {
      NextLineCaptures(s);
    } else {
      S.SavingUntouched(s, []);
      ReverseKeeps(s);
      CapturedNone(s, DispatchEsc(p, final).scr);
    }
  }

  lemma PutCodeCaptures(p: Parser, cp: nat)
    requires p.Valid()
    ensures Captured(p.scr, LeftByChar(p.scr, if p.g0Dec && 0x60 <= cp <= 0x7e then DEC_GRAPHICS[cp - 0x60] else cp),
                     PutCode(p, cp).scr)
  {
    hide Captured, PutChar, Width.CpWidth, LeftByChar;
    var ch := if p.g0Dec && 0x60 <= cp <= 0x7e then DEC_GRAPHICS[cp - 0x60] else cp;
    PutCharCaptures(p.scr, ch);
    if Width.CpWidth(ch) == 0 { NoWidth(p.scr, ch); }
  }

  lemma NoWidth(s: Screen, cp: nat)
    requires s.Valid() && Width.CpWidth(cp) == 0
    ensures PutChar(s, cp) == s
  {
  }

  lemma TextCaptures(p: Parser, c: Byte)
    requires p.Valid()
    ensures Captured(p.scr, LeftByText(p, c), FeedUtf8(p, c).scr)
  {
    hide Captured, PutCode, VtParser.Decode, LeftByChar;
    CapturedNone(p.scr, p.scr);
    match CompletedBy(p, c) {
      case Character(cp) =>
        if p.utf8Want == 0 { PutCodeCaptures(p, c); } else { PutCodeCaptures(p.(utf8 := [], utf8Want := 0), cp); }
      case Incomplete =>
    }
  }

  lemma HandleC0Captures(p: Parser, c: Byte)
    requires p.Valid()
    ensures Captured(p.scr, if 0x0A <= c <= 0x0C then LeftByLineFeed(p.scr) else NONE, HandleC0(p, c).scr)
  {
    hide Captured, LeftByLineFeed, LineFeed, Backspace, CarriageReturn, Tab, Screen.Valid;
    var s := p.scr;
    if 0x0A <= c <= 0x0C {
      LineFeedCaptures(s);
    } else {
      S.ControlsUntouched(s, p.tabs);
      CapturedNone(s, HandleC0(p, c).scr);
    }
  }

  lemma EscCaptures(p: Parser, c: Byte)
    requires p.Valid() && c != 0x63
    ensures Captured(p.scr, if c == 0x44 || c == 0x45 then LeftByLineFeed(p.scr) else NONE, FeedEsc(p, c).scr)
  {
    hide Captured, LeftByLineFeed, DispatchEsc, Parser.Valid;
    CapturedNone(p.scr, p.scr);
    if 0x30 <= c <= 0x7E { DispatchEscCaptures(p, c as char); }
  }

  lemma CsiCaptures(p: Parser, c: Byte)
    requires p.Valid()
    ensures var out := if 0x40 <= c <= 0x7E then LeftByCsi(p, c as char) else NONE;
            Captured(p.scr, out, FeedCsiParam(p, c).scr) && Captured(p.scr, out, FeedCsiInter(p, c).scr)
  {
    hide Captured, LeftByCsi, DispatchCsi, Parser.Valid, VtParser.CsiDigit, VtParser.CsiSep;
    CapturedNone(p.scr, p.scr);
    if 0x40 <= c <= 0x7E { DispatchCsiCaptures(p, c as char); }
  }

  lemma FeedCaptures(p: Parser, c: Byte)
    requires p.Valid() && !Resets(p, c)
    ensures Captured(p.scr, LeftBy(p, c), Feed(p, c).scr)
  {
    hide Captured, LeftByLineFeed, LeftByText, LeftByCsi, HandleC0, FeedUtf8, FeedEsc, FeedCsiParam, FeedCsiInter,
         Parser.Valid;
    CapturedNone(p.scr, p.scr);
    HandleC0Captures(p, c);
    TextCaptures(p, c);
    CsiCaptures(p, c);
    if c != 0x63 { EscCaptures(p, c); }
  }

  /** A reset takes the history with it. */
  lemma ResetEmpties(p: Parser, c: Byte)
    requires p.Valid() && Resets(p, c)
    ensures var r := Feed(p, c).scr; r.history == History([]) && r.cols == p.scr.cols
  {
    hide BlankGrid, NoFlags, DefaultTabs;
  }

  /** Every byte stream does to the history exactly this: the rows that leave the top of the main screen are captured,
      in the order in which they leave. */
  lemma {:induction false} FeedAllCaptures(p: Parser, bytes: seq<Byte>)
    requires p.Valid()
    ensures var out, r := Leaving(p, bytes), FeedAll(p, bytes).scr;
      && out.Valid(p.scr.cols) && r.cols == p.scr.cols
      && r.history == CaptureRows(HistoryBefore(p, bytes), out.rows, out.flags)
    decreases |bytes|
  {
    hide Feed, LeftBy, CaptureRows, Resets;
    if |bytes| == 0 {
      CapturedNone(p.scr, p.scr);
    } else {
      var n := |bytes| - 1;
      var q, c := FeedAll(p, bytes[..n]), bytes[n];
      FeedAllCaptures(p, bytes[..n]);
      if Resets(q, c) {
        ResetEmpties(q, c);
        assert CaptureRows(History([]), [], []) == History([]) by { NothingCaptured(); }
      } else {
        FeedCaptures(q, c);
        var a, b := Leaving(p, bytes[..n]), LeftBy(q, c);
        CaptureAppend(HistoryBefore(p, bytes[..n]), a.rows, a.flags, b.rows, b.flags);
      }
    }
  }

  lemma NothingCaptured()
    ensures CaptureRows(History([]), [], []) == History([])
  {
  }

  /** And so, after any stream, the history is a suffix of what it was and the text of the rows that have left since,
      cut between lines or, in a line too long for it, between rows. */
  lemma HistoryOfStream(p: Parser, bytes: seq<Byte>) returns (k: nat)
    requires p.Valid() && p.scr.history.History? && |p.scr.history.text| <= SCROLLBACK_BYTES
    ensures HistoryBefore(p, bytes).History?
    ensures var out, text0, h := Leaving(p, bytes), HistoryBefore(p, bytes).text, FeedAll(p, bytes).scr.history;
            var all := text0 + RowsBytes(out.rows, out.flags);
            k <= |all| && h == History(all[k..]) && |h.text| <= SCROLLBACK_BYTES
              && CutPoint(all, text0, out.rows, out.flags, k)
  {
    hide FeedAll, CaptureRows, RowsBytes, CutPoint, NoReset, Leaving;
    FeedAllCaptures(p, bytes);
    var out := Leaving(p, bytes);
    k := HistoryIsSuffix(HistoryBefore(p, bytes).text, out.rows, out.flags);
  }
}
