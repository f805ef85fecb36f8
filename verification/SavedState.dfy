/** The saved cursor and the main screen behind the alternate one, over whole byte streams (_lib/vt.c). */
module SavedState {
  import opened Cells
  import opened Utf8
  import opened Scrollback
  import opened Vt
  import opened VtParser
  import opened Sequences
  import opened Wire
  import EditLaws
  import CursorLaws
  import Width

  datatype Saved = Saved(row: nat, col: nat, pen: Pen, wrap: bool)

  function SavedOf(s: Screen): Saved {
    Saved(s.savedRow, s.savedCol, s.savedPen, s.savedWrap)
  }

  /** What is behind the alternate screen: the main screen, where its cursor is and its history. */
  datatype Behind = Front | Behind(main: Hidden, row: nat, col: nat, pen: Pen, history: History)

  function BehindOf(s: Screen): Behind {
    if s.inAlt then Behind(s.hidden, s.altRow, s.altCol, s.altPen, s.history) else Front
  }

  /** Neither is touched. */
  ghost predicate Apart(s: Screen, t: Screen) {
    SavedOf(t) == SavedOf(s) && BehindOf(t) == BehindOf(s)
  }

  /* ---- one operation ---- */

  lemma ScrollApart(s: Screen, n: nat)
    requires s.Valid()
    ensures Apart(s, ScrollUp(s, n)) && Apart(s, ScrollDown(s, n))
  {
    var t := ScrollUp(s, n);
    assert s.inAlt ==> t.history == s.history;
  }

  lemma LineFeedApart(s: Screen)
    requires s.Valid()
    ensures Apart(s, LineFeed(s))
  {
    hide ScrollUp;
    ScrollApart(s, 1);
  }

  lemma ReverseIndexApart(s: Screen)
    requires s.Valid()
    ensures Apart(s, ReverseIndex(s))
  {
    hide ScrollDown, SavedOf, BehindOf;
    ScrollApart(s, 1);
    CursorApart(ScrollDown(s, 1), s.curRow, s.curCol, false);
    CursorApart(s, s.curRow, s.curCol, false);
    if s.curRow > 0 { CursorApart(s, s.curRow - 1, s.curCol, false); }
  }

  /** Wherever the cursor is. */
  lemma CursorApart(s: Screen, row: nat, col: nat, pending: bool)
    ensures Apart(s, s.(curRow := row, curCol := col, pendingWrap := pending))
  {
  }

  lemma WrapApart(s: Screen)
    requires s.Valid()
    ensures Apart(s, Wrap(s))
  {
    hide LineFeed;
    LineFeedApart(s.(flags := s.flags[s.curRow := true], curCol := 0, pendingWrap := false));
  }

  lemma PlaceApart(s: Screen, cp: nat, w: nat)
    requires s.Valid() && 1 <= w <= 2 && s.curCol + w <= s.cols
    ensures Apart(s, Place(s, cp, w))
  {
    hide OpenGap, Printed, Continued, BlankCell;
  }

  lemma SetCellApart(s: Screen, c: Cell)
    requires s.Valid()
    ensures Apart(s, SetCell(s, c))
  {
  }

  lemma PutCharApart(s: Screen, cp: nat)
    requires s.Valid()
    ensures Apart(s, PutChar(s, cp))
  {
    hide Wrap, Place, SetCell, Width.CpWidth, BlankCell;
    var w := Width.CpWidth(cp);
    if w > 0 {
      WrapApart(s);
      var s1 := if !s.pendingWrap then s else if s.autoWrap then Wrap(s) else s.(pendingWrap := false);
      if w == 2 && s1.curCol + 1 >= s1.cols {
        var s2 := SetCell(s1, BlankCell(s1.pen).(pad := true));
        SetCellApart(s1, BlankCell(s1.pen).(pad := true));
        WrapApart(s2);
        if s2.autoWrap { PlaceApart(Wrap(s2), cp, w); }
      } else {
        PlaceApart(s1, cp, w);
      }
    }
  }

  lemma {:induction false} PutTimesApart(s: Screen, cp: nat, n: nat)
    requires s.Valid()
    ensures Apart(s, PutTimes(s, cp, n))
    decreases n
  {
    hide PutChar;
    if n > 0 {
      PutCharApart(s, cp);
      PutTimesApart(PutChar(s, cp), cp, n - 1);
    }
  }

  lemma {:induction false} TabsApart(s: Screen, tabs: set<nat>, n: nat)
    requires s.Valid()
    ensures Apart(s, Tab(s, tabs)) && Apart(s, Tabs(s, tabs, n))
    decreases n
  {
    if n > 0 { TabsApart(Tab(s, tabs), tabs, n - 1); }
  }

  lemma CursorSetApart(s: Screen, row: int, col: int)
    requires s.Valid()
    ensures Apart(s, CursorSet(s, row, col))
  {
  }

  lemma RestoreApart(s: Screen)
    requires s.Valid()
    ensures Apart(s, RestoreCursor(s)) && BehindOf(SaveCursor(s)) == BehindOf(s)
  {
  }

  lemma MoveApart(s: Screen, tabs: set<nat>, final: char, ps: seq<nat>)
    requires s.Valid()
    ensures BehindOf(CsiMove(s, tabs, final, ps)) == BehindOf(s)
    ensures final != 's' ==> SavedOf(CsiMove(s, tabs, final, ps)) == SavedOf(s)
  {
    hide Tabs, CursorSet, SaveCursor, RestoreCursor, BackCols, SavedOf, BehindOf, Screen.Valid;
    var n := P(ps, 0, 1);
    match final {
      case 'A' => CursorSetApart(s, s.curRow - n, s.curCol);
      case 'B' => CursorSetApart(s, s.curRow + n, s.curCol);
      case 'C' => CursorSetApart(s, s.curRow, s.curCol + n);
      case 'D' => CursorSetApart(s, s.curRow, s.curCol - n);
      case 'E' => CursorSetApart(s, s.curRow + n, 0);
      case 'F' => CursorSetApart(s, s.curRow - n, 0);
      case 'G' => CursorSetApart(s, s.curRow, n - 1);
      case 'd' => CursorSetApart(s, n - 1, s.curCol);
      case 'H' => CursorSetApart(s, n - 1 + (if s.origin then s.top else 0), P(ps, 1, 1) - 1);
      case 'f' => CursorSetApart(s, n - 1 + (if s.origin then s.top else 0), P(ps, 1, 1) - 1);
      case 'I' => TabsApart(s, tabs, n);
      case 'Z' => BackApart(s, BackCols(tabs, s.curCol, n));
      case 's' => RestoreApart(s);
      case 'u' => RestoreApart(s);
      case _ =>
    }
  }

  lemma BackApart(s: Screen, col: nat)
    ensures Apart(s, s.(curCol := col, pendingWrap := false))
  {
  }

  lemma ClearsApart(s: Screen, from: nat, below: nat)
    requires s.Valid() && from <= below <= s.rows
    ensures Apart(s, ClearRows(s, from, below)) && Apart(s, ClearFlags(s, from, below))
    ensures var t := ClearRows(s, from, below);
      t.rows == s.rows && t.cols == s.cols && t.curRow == s.curRow && t.curCol == s.curCol
  {
    hide BlankCell;
  }

  lemma ClearCellsApart(s: Screen, row: nat, first: nat, last: int)
    requires s.Valid() && row < s.rows && last < s.cols
    ensures Apart(s, ClearCells(s, row, first, last))
    ensures var t := ClearCells(s, row, first, last);
      t.rows == s.rows && t.cols == s.cols && t.curRow == s.curRow && t.curCol == s.curCol
  {
    hide BlankCell;
  }

  lemma EraseDisplayApart(s: Screen, mode: nat)
    requires s.Valid()
    ensures Apart(s, EraseDisplay(s, mode))
  {
    hide ClearRows, ClearFlags, ClearCells, SavedOf, BehindOf;
    if mode == 0 {
      var s1 := ClearCells(s, s.curRow, s.curCol, s.cols - 1);
      ClearCellsApart(s, s.curRow, s.curCol, s.cols - 1);
      ClearsApart(s1, s.curRow + 1, s.rows);
      ClearsApart(ClearRows(s1, s.curRow + 1, s.rows), s.curRow, s.rows);
    } else if mode == 1 {
      var s1 := ClearRows(s, 0, s.curRow);
      ClearsApart(s, 0, s.curRow);
      ClearCellsApart(s1, s.curRow, 0, s.curCol);
      ClearsApart(ClearCells(s1, s.curRow, 0, s.curCol), 0, s.curRow);
    } else if mode <= 3 {
      ClearsApart(s, 0, s.rows);
      ClearsApart(ClearRows(s, 0, s.rows), 0, s.rows);
    }
  }

  lemma EraseLineApart(s: Screen, mode: nat)
    requires s.Valid()
    ensures Apart(s, EraseLine(s, mode))
  {
    hide ClearCells, SavedOf, BehindOf;
    ClearCellsApart(s, s.curRow, s.curCol, s.cols - 1);
    ClearCellsApart(s, s.curRow, 0, s.curCol);
    ClearCellsApart(s, s.curRow, 0, s.cols - 1);
    FlagsApart(ClearCells(s, s.curRow, s.curCol, s.cols - 1), s.flags[s.curRow := false]);
  }

  lemma FlagsApart(s: Screen, flags: seq<bool>)
    ensures Apart(s, s.(flags := flags))
  {
  }

  lemma CharsApart(s: Screen, n: nat)
    requires s.Valid() && n > 0
    ensures Apart(s, EraseChars(s, n)) && Apart(s, InsertChars(s, n)) && Apart(s, DeleteChars(s, n))
  {
    hide BlankCell;
  }

  lemma LinesApart(s: Screen, n: nat)
    requires s.Valid()
    ensures Apart(s, InsertLines(s, n)) && Apart(s, DeleteLines(s, n))
  {
    hide ScrollUp, ScrollDown;
    if s.top <= s.curRow <= s.bottom { ScrollApart(s.(top := s.curRow), n); }
  }

  lemma RegionApart(s: Screen, first: nat, last: nat)
    requires s.Valid()
    ensures Apart(s, SetRegion(s, first, last))
  {
    hide CursorSet, SavedOf, BehindOf;
    var top: int := if first == 0 then 0 else first - 1;
    var bottom := Min(last - 1, s.rows - 1);
    var s1 := if top < bottom then s.(top := top, bottom := bottom) else s;
    if top < bottom { MarginsApart(s, top, bottom); }
    CursorSetApart(s1, if s1.origin then s1.top else 0, 0);
  }

  lemma MarginsApart(s: Screen, top: nat, bottom: nat)
    ensures Apart(s, s.(top := top, bottom := bottom))
  {
  }

  lemma OthersApart(s: Screen, ps: seq<nat>)
    requires s.Valid()
    ensures Apart(s, Sgr(s, ps)) && Apart(s, s.(insert := true)) && Apart(s, s.(insert := false))
  {
    hide SgrList;
  }

  lemma CellEditApart(s: Screen, final: char, ps: seq<nat>)
    requires s.Valid() && final in {'J', 'K', 'X', '@', 'P'}
    ensures Apart(s, CsiEdit(s, final, ps))
  {
    hide EraseDisplay, EraseLine, EraseChars, InsertChars, DeleteChars, Screen.Valid, SavedOf, BehindOf;
    EraseDisplayApart(s, P(ps, 0, 0));
    EraseLineApart(s, P(ps, 0, 0));
    CharsApart(s, P(ps, 0, 1));
  }

  lemma LineEditApart(s: Screen, final: char, ps: seq<nat>)
    requires s.Valid() && final in {'L', 'M', 'S', 'T', 'r'}
    ensures Apart(s, CsiEdit(s, final, ps))
  {
    hide InsertLines, DeleteLines, ScrollUp, ScrollDown, SetRegion, Screen.Valid, SavedOf, BehindOf;
    LinesApart(s, P(ps, 0, 1));
    ScrollApart(s, P(ps, 0, 1));
    RegionApart(s, P(ps, 0, 1), P(ps, 1, s.rows));
  }

  lemma EditApart(s: Screen, final: char, ps: seq<nat>)
    requires s.Valid()
    ensures Apart(s, CsiEdit(s, final, ps))
  {
    if final in {'J', 'K', 'X', '@', 'P'} {
      hide CsiEdit, Apart, Screen.Valid;
      CellEditApart(s, final, ps);
    } else if final in {'L', 'M', 'S', 'T', 'r'} {
      hide CsiEdit, Apart, Screen.Valid;
      LineEditApart(s, final, ps);
    } else {
      hide Sgr, Screen.Valid, SavedOf, BehindOf;
      OthersApart(s, ps);
    }
  }

  /* ---- modes ---- */

  /** Entering and leaving the alternate screen aside, modes touch neither. */
  ghost predicate ModeKeeps(s: Screen, t: Screen, on: bool) {
    && SavedOf(t) == SavedOf(s) && (s.inAlt && t.inAlt ==> BehindOf(t) == BehindOf(s))
    && (if on then s.inAlt ==> t.inAlt else t.inAlt ==> s.inAlt)
  }

  lemma ScreensKept(s: Screen)
    requires s.Valid()
    ensures ModeKeeps(s, EnterAlt(s), true) && ModeKeeps(s, LeaveAlt(s), false)
  {
    hide BlankCell;
  }

  lemma OriginApart(s: Screen, on: bool)
    requires s.Valid()
    ensures s.(origin := on).Valid()
    ensures ModeKeeps(s, CursorSet(s.(origin := on), if on then s.top else 0, 0), on)
  {
  }

  lemma FlagModesKept(s: Screen, on: bool)
    ensures ModeKeeps(s, s.(autoWrap := on), on) && ModeKeeps(s, s.(visible := on), on) && ModeKeeps(s, s, on)
  {
  }

  lemma ModeKept(s: Screen, mode: nat, on: bool)
    requires s.Valid()
    ensures ModeKeeps(s, PrivateMode(s, mode, on), on)
  {
    hide EnterAlt, LeaveAlt, CursorSet, SavedOf, BehindOf, Screen.Valid;
    ScreensKept(s);
    OriginApart(s, on);
    FlagModesKept(s, on);
  }

  lemma {:induction false} ModesKept(s: Screen, ps: seq<nat>, on: bool)
    requires s.Valid()
    ensures ModeKeeps(s, PrivateModes(s, ps, on), on)
    decreases |ps|
  {
    hide PrivateMode;
    if |ps| > 0 {
      ModesKept(s, ps[..|ps| - 1], on);
      ModeKept(PrivateModes(s, ps[..|ps| - 1], on), ps[|ps| - 1], on);
    }
  }

  /* ---- one byte ---- */

  /** The byte that saves the cursor: `7` after an escape, or `s` ending a control sequence. */
  predicate Saves(p: Parser, c: Byte) {
    (p.state.Esc? && c == 0x37) || ((p.state.CsiParam? || p.state.CsiInter?) && c == 0x73 && !p.priv)
  }

  /** Saved is what was, and so is what is behind the alternate screen if that stays. */
  ghost predicate Kept(s: Screen, t: Screen, saves: bool) {
    (saves || SavedOf(t) == SavedOf(s)) && (s.inAlt && t.inAlt ==> BehindOf(t) == BehindOf(s))
  }

  lemma CsiKept(p: Parser, final: char)
    requires p.Valid()
    ensures Kept(p.scr, DispatchCsi(p, final).scr, final == 's' && !p.priv)
  {
    hide CsiMove, CsiEdit, PrivateModes, PutTimes, SavedOf, BehindOf, Screen.Valid;
    var s := p.scr;
    if p.priv {
      ModesKept(s, p.params, true);
      ModesKept(s, p.params, false);
    } else {
      MoveApart(s, p.tabs, final, p.params);
      EditApart(s, final, p.params);
      PutTimesApart(s, p.lastGraphic, P(p.params, 0, 1));
    }
  }

  lemma EscKept(p: Parser, final: char)
    requires p.Valid() && final != 'c'
    ensures Kept(p.scr, DispatchEsc(p, final).scr, final == '7')
  {
    hide LineFeed, ReverseIndex, SaveCursor, RestoreCursor, Init, DefaultTabs, SavedOf, BehindOf, Screen.Valid;
    var s := p.scr;
    LineFeedApart(s);
    NextLineApart(s);
    ReverseIndexApart(s);
    RestoreApart(s);
  }

  lemma NextLineApart(s: Screen)
    requires s.Valid()
    ensures s.(curCol := 0).Valid() && Apart(s, LineFeed(s.(curCol := 0)))
  {
    hide LineFeed;
    LineFeedApart(s.(curCol := 0));
  }

  lemma ControlKept(p: Parser, c: Byte)
    requires p.Valid()
    ensures Kept(p.scr, HandleC0(p, c).scr, false)
  {
    hide LineFeed, Tab, SavedOf, BehindOf, Screen.Valid;
    var s := p.scr;
    LineFeedApart(s);
    TabsApart(s, p.tabs, 0);
    CursorApart(s, s.curRow, 0, false);
    if s.curCol > 0 { CursorApart(s, s.curRow, s.curCol - 1, false); }
  }

  lemma TextKept(p: Parser, c: Byte)
    requires p.Valid()
    ensures Kept(p.scr, FeedUtf8(p, c).scr, false)
  {
    hide PutChar, VtParser.Decode, Width.CpWidth, SavedOf, BehindOf;
    forall cp { PutCharApart(p.scr, cp); }
  }

  lemma CsiByteKept(p: Parser, c: Byte)
    requires p.Valid()
    ensures Kept(p.scr, FeedCsiInter(p, c).scr, c == 0x73 && !p.priv)
  {
    hide DispatchCsi, SavedOf, BehindOf, Screen.Valid;
    CsiKept(p, c as char);
  }

  lemma EscByteKept(p: Parser, c: Byte)
    requires p.Valid() && c != 0x63
    ensures Kept(p.scr, FeedEsc(p, c).scr, c == 0x37)
  {
    hide DispatchEsc, SavedOf, BehindOf, Screen.Valid;
    EscKept(p, c as char);
  }

  lemma ByteKept(p: Parser, c: Byte)
    requires p.Valid() && !Resets(p, c)
    ensures Kept(p.scr, Feed(p, c).scr, Saves(p, c))
  {
    hide FeedCsiInter, FeedEsc, HandleC0, FeedUtf8, SavedOf, BehindOf, Screen.Valid;
    ControlKept(p, c);
    TextKept(p, c);
    CsiByteKept(p, c);
    if c != 0x63 { EscByteKept(p, c); }
  }

  /* ---- streams ---- */

  /** No byte of the stream saves the cursor or resets the terminal. */
  ghost predicate NoSave(p: Parser, bytes: seq<Byte>)
    requires p.Valid()
    decreases |bytes|
  {
    |bytes| == 0
    || (var front, c := bytes[..|bytes| - 1], bytes[|bytes| - 1];
        NoSave(p, front) && !Saves(FeedAll(p, front), c) && !Resets(FeedAll(p, front), c))
  }

  lemma {:induction false} SavedKept(p: Parser, bytes: seq<Byte>)
    requires p.Valid() && NoSave(p, bytes)
    ensures SavedOf(FeedAll(p, bytes).scr) == SavedOf(p.scr)
    decreases |bytes|
  {
    hide Feed, Saves, Resets, Parser.Valid, SavedOf, BehindOf;
    if |bytes| > 0 {
      SavedKept(p, bytes[..|bytes| - 1]);
      ByteKept(FeedAll(p, bytes[..|bytes| - 1]), bytes[|bytes| - 1]);
    }
  }

  const SAVE: seq<Byte> := [0x1B, 0x37]
  const RESTORE: seq<Byte> := [0x1B, 0x38]

  lemma SaveFed(p: Parser, save: seq<Byte>)
    requires p.Valid() && save in {SAVE, Command([], 's')}
    ensures var s, t := p.scr, FeedAll(p, save).scr;
      t == s.(savedRow := t.savedRow, savedCol := t.savedCol, savedPen := t.savedPen, savedWrap := t.savedWrap)
      && SavedOf(t) == Saved(s.curRow, s.curCol, s.pen, s.autoWrap)
  {
    hide FeedAll, CsiEdit;
    FeedEscape(p, '7');
    FeedCommand(p, [], 's');
  }

  lemma RestoreFed(p: Parser, restore: seq<Byte>)
    requires p.Valid() && restore in {RESTORE, Command([], 'u')}
    ensures var s, t := p.scr, FeedAll(p, restore).scr;
      && t == s.(curRow := t.curRow, curCol := t.curCol, pen := t.pen, autoWrap := t.autoWrap, pendingWrap := false)
      && Saved(t.curRow, t.curCol, t.pen, t.autoWrap) == SavedOf(s)
  {
    hide FeedAll, CsiEdit;
    FeedEscape(p, '8');
    FeedCommand(p, [], 'u');
  }

  /** Saved by DECSC or by its ANSI form and restored by either, whatever comes between that neither saves nor resets:
      the cursor, its rendition and auto-wrap are those there were, and nothing else is touched. */
  lemma RestoresCursor(p: Parser, save: seq<Byte>, mid: seq<Byte>, restore: seq<Byte>)
    requires p.Valid() && save in {SAVE, Command([], 's')} && restore in {RESTORE, Command([], 'u')}
    requires NoSave(FeedAll(p, save), mid)
    ensures var s, t := p.scr, FeedAll(FeedAll(p, save), mid).scr;
      FeedAll(p, save + mid + restore).scr
      == t.(curRow := s.curRow, curCol := s.curCol, pen := s.pen, autoWrap := s.autoWrap, pendingWrap := false)
  {
    hide FeedAll, NoSave, Screen.Valid, Command;
    SaveFed(p, save);
    SavedKept(FeedAll(p, save), mid);
    FeedAppend(p, save, mid);
    FeedAppend(p, save + mid, restore);
    RestoreFed(FeedAll(p, save + mid), restore);
  }

  /** The alternate screen is in use throughout. */
  ghost predicate StaysInAlt(p: Parser, bytes: seq<Byte>)
    requires p.Valid()
    decreases |bytes|
  {
    FeedAll(p, bytes).scr.inAlt && (|bytes| > 0 ==> StaysInAlt(p, bytes[..|bytes| - 1]))
  }

  lemma ResetLeaves(p: Parser, c: Byte)
    requires p.Valid() && Resets(p, c)
    ensures !Feed(p, c).scr.inAlt
  {
    hide LineFeed, ReverseIndex, BlankGrid, DefaultTabs;
  }

  lemma {:induction false} BehindKept(p: Parser, bytes: seq<Byte>)
    requires p.Valid() && StaysInAlt(p, bytes)
    ensures p.scr.inAlt && BehindOf(FeedAll(p, bytes).scr) == BehindOf(p.scr)
    decreases |bytes|
  {
    hide Feed, Saves, Resets, Parser.Valid, SavedOf, BehindOf;
    if |bytes| > 0 {
      var q, c := FeedAll(p, bytes[..|bytes| - 1]), bytes[|bytes| - 1];
      BehindKept(p, bytes[..|bytes| - 1]);
      if Resets(q, c) { ResetLeaves(q, c); } else { ByteKept(q, c); }
    }
  }

  /** The modes of the alternate screen. */
  ghost predicate AltMode(d: seq<Byte>) {
    Argument(d) && |d| > 0 && Number(d) in {47, 1047, 1049}
  }

  /** It comes up erased, with the cursor at home and the whole screen for its region. */
  lemma EntersAlt(p: Parser, d: seq<Byte>)
    requires p.Valid() && AltMode(d) && !p.scr.inAlt
    ensures var s, t := p.scr, FeedAll(p, Private(d, 'h')).scr;
      && (forall r :: 0 <= r < s.rows ==> EditLaws.RowErased(t, r, s.pen))
      && BehindOf(t) == Behind(Grid(s.cells, s.flags), s.curRow, s.curCol, s.pen, s.history)
      && t == s.(cells := t.cells, flags := t.flags, hidden := t.hidden, altRow := t.altRow, altCol := t.altCol,
                 altPen := t.altPen, inAlt := true, curRow := 0, curCol := 0, top := 0, bottom := s.rows - 1)
  {
    hide FeedAll, Number, CursorSet, EnterAlt, LeaveAlt, EditLaws.RowErased, Private, BehindOf;
    CursorLaws.ModeIs(p, d, Number(d));
    Entered(p.scr);
  }

  lemma Entered(s: Screen)
    requires s.Valid() && !s.inAlt
    ensures var t := EnterAlt(s);
      && (forall r :: 0 <= r < s.rows ==> EditLaws.RowErased(t, r, s.pen))
      && BehindOf(t) == Behind(Grid(s.cells, s.flags), s.curRow, s.curCol, s.pen, s.history)
      && t == s.(cells := t.cells, flags := t.flags, hidden := t.hidden, altRow := t.altRow, altCol := t.altCol,
                 altPen := t.altPen, inAlt := true, curRow := 0, curCol := 0, top := 0, bottom := s.rows - 1)
  {
    hide BlankCell, EditLaws.Erased;
    EditLaws.BlankIsErased(s.pen);
  }

  lemma LeavesAlt(p: Parser, d: seq<Byte>)
    requires p.Valid() && AltMode(d) && p.scr.inAlt
    ensures var s, t := p.scr, FeedAll(p, Private(d, 'l')).scr;
      t == s.(cells := s.hidden.cells, flags := s.hidden.flags, hidden := t.hidden, inAlt := false,
              curRow := s.altRow, curCol := s.altCol, pen := s.altPen)
  {
    hide FeedAll, Number, CursorSet, EnterAlt, BlankCell, Private;
    CursorLaws.ModeIs(p, d, Number(d));
  }

  /** Whatever is done on the alternate screen, the main one comes back with its rows, its wrap flags, its cursor, its
      rendition and its history. */
  lemma MainScreenReturns(p: Parser, d: seq<Byte>, mid: seq<Byte>, d': seq<Byte>)
    requires p.Valid() && AltMode(d) && AltMode(d') && !p.scr.inAlt && StaysInAlt(FeedAll(p, Private(d, 'h')), mid)
    ensures var s, t := p.scr, FeedAll(p, Private(d, 'h') + mid + Private(d', 'l')).scr;
      && t.cells == s.cells && t.flags == s.flags && t.history == s.history && !t.inAlt
      && t.curRow == s.curRow && t.curCol == s.curCol && t.pen == s.pen
  {
    hide FeedAll, StaysInAlt, AltMode, Screen.Valid, Private, EditLaws.RowErased;
    var enter, leave := Private(d, 'h'), Private(d', 'l');
    EntersAlt(p, d);
    BehindKept(FeedAll(p, enter), mid);
    FeedAppend(p, enter, mid);
    FeedAppend(p, enter + mid, leave);
    InAltAfter(FeedAll(p, enter), mid);
    LeavesAlt(FeedAll(p, enter + mid), d');
  }

  lemma InAltAfter(p: Parser, mid: seq<Byte>)
    requires p.Valid() && StaysInAlt(p, mid)
    ensures FeedAll(p, mid).scr.inAlt
  {
  }
}
