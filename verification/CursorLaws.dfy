/** Where the bytes of each movement leave the cursor, and what those of SGR, DECSTBM and the modes set (dispatch_csi
    and handle_sgr of _lib/vt.c), fed to a terminal in any state. */
module CursorLaws {
  import opened Cells
  import opened Utf8
  import opened Vt
  import opened VtParser
  import opened Sequences
  import opened Wire

  /* ---- movements ---- */

  /** r is x, or the end of lo..hi that x lies beyond. */
  predicate Nearest(x: int, lo: int, hi: int, r: int) {
    lo <= r <= hi && (r == x || (x < lo && r == lo) || (x > hi && r == hi))
  }

  /** The cursor has gone to a position, or as near to it as the screen allows, or the region in origin mode. */
  ghost predicate MovedTo(s: Screen, t: Screen, row: int, col: int) {
    && t == s.(curRow := t.curRow, curCol := t.curCol, pendingWrap := false)
    && Nearest(row, if s.origin then s.top else 0, if s.origin then s.bottom else s.rows - 1, t.curRow)
    && Nearest(col, 0, s.cols - 1, t.curCol)
  }

  lemma CursorSetMoves(s: Screen, row: int, col: int)
    requires s.Valid()
    ensures MovedTo(s, CursorSet(s, row, col), row, col)
  {
  }

  /** A position beyond the screen is the last of it, so the position gone to is the only one there is. */
  lemma OneNearest(x: int, lo: int, hi: int, r: int, r': int)
    requires Nearest(x, lo, hi, r) && Nearest(x, lo, hi, r')
    ensures r == r'
  {
  }

  lemma ReadAs(d: seq<Byte>)
    requires Digits(d)
    ensures P(Read(d), 0, 0) == Number(d) && P(Read(d), 0, 1) == Amount(d)
  {
  }

  lemma Literals(c: Byte, c': Byte)
    requires 0x30 <= c <= 0x39 && 0x30 <= c' <= 0x39
    ensures Number([c]) == c - 0x30 && Number([c, c']) == (c - 0x30) * 10 + (c' - 0x30)
  {
    assert [c, c'][..1] == [c];
  }

  lemma MoveFed(p: Parser, d: seq<Byte>, final: char)
    requires p.Valid() && Argument(d) && 0x40 <= final as int <= 0x7E && IsMove(final)
    ensures FeedAll(p, Command(d, final)).scr == CsiMove(p.scr, p.tabs, final, Read(d))
    ensures P(Read(d), 0, 1) == Amount(d) && P(Read(d), 1, 1) == 1
  {
    hide FeedAll, CsiEdit, CsiMove;
    FeedCommand(p, d, final);
  }

  lemma Vertical(s: Screen, tabs: set<nat>, ps: seq<nat>)
    requires s.Valid()
    ensures var n := P(ps, 0, 1);
      && MovedTo(s, CsiMove(s, tabs, 'A', ps), s.curRow - n, s.curCol)
      && MovedTo(s, CsiMove(s, tabs, 'B', ps), s.curRow + n, s.curCol)
      && MovedTo(s, CsiMove(s, tabs, 'E', ps), s.curRow + n, 0)
      && MovedTo(s, CsiMove(s, tabs, 'F', ps), s.curRow - n, 0)
      && MovedTo(s, CsiMove(s, tabs, 'd', ps), n - 1, s.curCol)
  {
    hide CursorSet, MovedTo, Tabs, BackCols, SaveCursor, RestoreCursor, Screen.Valid;
    var n := P(ps, 0, 1);
    CursorSetMoves(s, s.curRow - n, s.curCol);
    CursorSetMoves(s, s.curRow + n, s.curCol);
    CursorSetMoves(s, s.curRow + n, 0);
    CursorSetMoves(s, s.curRow - n, 0);
    CursorSetMoves(s, n - 1, s.curCol);
  }

  lemma Horizontal(s: Screen, tabs: set<nat>, ps: seq<nat>)
    requires s.Valid()
    ensures var n := P(ps, 0, 1);
      && MovedTo(s, CsiMove(s, tabs, 'C', ps), s.curRow, s.curCol + n)
      && MovedTo(s, CsiMove(s, tabs, 'D', ps), s.curRow, s.curCol - n)
      && MovedTo(s, CsiMove(s, tabs, 'G', ps), s.curRow, n - 1)
  {
    hide CursorSet, MovedTo, Tabs, BackCols, SaveCursor, RestoreCursor, Screen.Valid;
    var n := P(ps, 0, 1);
    CursorSetMoves(s, s.curRow, s.curCol + n);
    CursorSetMoves(s, s.curRow, s.curCol - n);
    CursorSetMoves(s, s.curRow, n - 1);
  }

  /** CUU, CUD, CNL, CPL and VPA. */
  lemma MovesVertically(p: Parser, d: seq<Byte>)
    requires p.Valid() && Argument(d)
    ensures var s, n := p.scr, Amount(d);
      && MovedTo(s, FeedAll(p, Command(d, 'A')).scr, s.curRow - n, s.curCol)
      && MovedTo(s, FeedAll(p, Command(d, 'B')).scr, s.curRow + n, s.curCol)
      && MovedTo(s, FeedAll(p, Command(d, 'E')).scr, s.curRow + n, 0)
      && MovedTo(s, FeedAll(p, Command(d, 'F')).scr, s.curRow - n, 0)
      && MovedTo(s, FeedAll(p, Command(d, 'd')).scr, n - 1, s.curCol)
  {
    hide FeedAll, CsiMove, MovedTo, Number, Amount, P, Read, Command, Screen.Valid;
    MoveFed(p, d, 'A');
    MoveFed(p, d, 'B');
    MoveFed(p, d, 'E');
    MoveFed(p, d, 'F');
    MoveFed(p, d, 'd');
    Vertical(p.scr, p.tabs, Read(d));
  }

  /** CUF, CUB and CHA. */
  lemma MovesHorizontally(p: Parser, d: seq<Byte>)
    requires p.Valid() && Argument(d)
    ensures var s, n := p.scr, Amount(d);
      && MovedTo(s, FeedAll(p, Command(d, 'C')).scr, s.curRow, s.curCol + n)
      && MovedTo(s, FeedAll(p, Command(d, 'D')).scr, s.curRow, s.curCol - n)
      && MovedTo(s, FeedAll(p, Command(d, 'G')).scr, s.curRow, n - 1)
  {
    hide FeedAll, CsiMove, MovedTo, Number, Amount, P, Read, Command, Screen.Valid;
    MoveFed(p, d, 'C');
    MoveFed(p, d, 'D');
    MoveFed(p, d, 'G');
    Horizontal(p.scr, p.tabs, Read(d));
  }

  lemma PositionMoves(s: Screen, tabs: set<nat>, ps: seq<nat>)
    requires s.Valid()
    ensures var row, col := P(ps, 0, 1) - 1 + (if s.origin then s.top else 0), P(ps, 1, 1) - 1;
      MovedTo(s, CsiMove(s, tabs, 'H', ps), row, col) && MovedTo(s, CsiMove(s, tabs, 'f', ps), row, col)
  {
    hide CursorSet, MovedTo, Tabs, BackCols, SaveCursor, RestoreCursor, Screen.Valid;
    CursorSetMoves(s, P(ps, 0, 1) - 1 + (if s.origin then s.top else 0), P(ps, 1, 1) - 1);
  }

  lemma TwoFed(p: Parser, d1: seq<Byte>, d2: seq<Byte>, final: char)
    requires p.Valid() && Argument(d1) && Argument(d2) && 0x40 <= final as int <= 0x7E && IsMove(final)
    ensures FeedAll(p, Command2(d1, d2, final)).scr == CsiMove(p.scr, p.tabs, final, [Number(d1), Number(d2)])
  {
    hide FeedAll, Number, CsiMove, CsiEdit, Screen.Valid;
    FeedCommand2(p, d1, d2, final);
  }

  /** CUP and HVP: rows count from the top of the region in origin mode. */
  lemma Positions(p: Parser, d1: seq<Byte>, d2: seq<Byte>)
    requires p.Valid() && Argument(d1) && Argument(d2)
    ensures var s := p.scr;
      var row, col := Amount(d1) - 1 + (if s.origin then s.top else 0), Amount(d2) - 1;
      && MovedTo(s, FeedAll(p, Command2(d1, d2, 'H')).scr, row, col)
      && MovedTo(s, FeedAll(p, Command2(d1, d2, 'f')).scr, row, col)
      && MovedTo(s, FeedAll(p, Command(d1, 'H')).scr, row, 0)
  {
    hide FeedAll, MovedTo, Number, CsiMove, Screen.Valid, Command2, DispatchCsi;
    TwoFed(p, d1, d2, 'H');
    TwoFed(p, d1, d2, 'f');
    MoveFed(p, d1, 'H');
    PositionMoves(p.scr, p.tabs, [Number(d1), Number(d2)]);
    PositionMoves(p.scr, p.tabs, Read(d1));
  }

  /** BS and CR, between characters and sequences. */
  lemma Controls(p: Parser)
    requires p.Valid() && p.state.Ground?
    ensures var s := p.scr;
      && FeedAll(p, [0x08]).scr == (if s.curCol == 0 then s else s.(curCol := s.curCol - 1, pendingWrap := false))
      && FeedAll(p, [0x0D]).scr == s.(curCol := 0, pendingWrap := false)
  {
    hide FeedAll, FeedUtf8, LineFeed, Screen.Valid;
    FeedOne(p, 0x08);
    FeedOne(p, 0x0D);
  }

  /* ---- tab stops ---- */

  /** The first stop after the cursor's column, or else the last column; from there it does not move. */
  ghost predicate Tabbed(s: Screen, t: Screen, tabs: set<nat>) {
    && t == s.(curCol := t.curCol, pendingWrap := false) && s.curCol <= t.curCol < s.cols
    && (s.curCol < s.cols - 1 ==> s.curCol < t.curCol)
    && (t.curCol in tabs || t.curCol == s.cols - 1)
    && forall c: nat :: c in tabs && s.curCol < c ==> t.curCol <= c
  }

  /** The last stop before it, or else the first column. */
  ghost predicate BackTabbed(s: Screen, t: Screen, tabs: set<nat>) {
    && t == s.(curCol := t.curCol, pendingWrap := false) && t.curCol <= s.curCol
    && (0 < s.curCol ==> t.curCol < s.curCol)
    && (t.curCol in tabs || t.curCol == 0)
    && forall c: nat :: c in tabs && c < s.curCol ==> c <= t.curCol
  }

  lemma {:induction false} NextTabIs(tabs: set<nat>, cols: nat, col: nat)
    requires col < cols
    ensures var r := NextTab(tabs, cols, col);
      (r in tabs || r == cols - 1) && forall c: nat :: c in tabs && col <= c ==> r <= c
    decreases cols - col
  {
    if col < cols - 1 && col !in tabs { NextTabIs(tabs, cols, col + 1); }
  }

  lemma {:induction false} PrevTabIs(tabs: set<nat>, col: nat)
    ensures var r := PrevTab(tabs, col);
      (r in tabs || r == 0) && forall c: nat :: c in tabs && c <= col ==> c <= r
  {
    if col > 0 && col !in tabs { PrevTabIs(tabs, col - 1); }
  }

  lemma TabMoves(s: Screen, tabs: set<nat>)
    requires s.Valid()
    ensures Tabbed(s, Tab(s, tabs), tabs)
    ensures BackTabbed(s, s.(curCol := BackCols(tabs, s.curCol, 1), pendingWrap := false), tabs)
  {
    if s.curCol < s.cols - 1 { NextTabIs(tabs, s.cols, s.curCol + 1); }
    if s.curCol > 0 { PrevTabIs(tabs, s.curCol - 1); }
    assert BackCols(tabs, s.curCol, 1) == if s.curCol == 0 then 0 else PrevTab(tabs, s.curCol - 1);
  }

  /** HT, and CBT once. */
  lemma TabStops(p: Parser)
    requires p.Valid()
    ensures p.state.Ground? ==> Tabbed(p.scr, FeedAll(p, [0x09]).scr, p.tabs)
    ensures BackTabbed(p.scr, FeedAll(p, Command([], 'Z')).scr, p.tabs)
  {
    hide FeedAll, FeedUtf8, Tab, Tabbed, BackTabbed, BackCols, Screen.Valid, CursorSet, Tabs, SaveCursor, RestoreCursor;
    TabMoves(p.scr, p.tabs);
    FeedOne(p, 0x09);
    MoveFed(p, [], 'Z');
  }

  lemma {:induction false} TabsOnAndOn(p: Parser, n: nat)
    requires p.Valid() && p.state.Ground?
    ensures FeedAll(p, Times([0x09], n)) == p.(scr := Tabs(p.scr, p.tabs, n))
    decreases n
  {
    hide FeedAll, FeedUtf8, Tab, LineFeed, Screen.Valid;
    FeedOne(p, 0x09);
    if n > 0 {
      FeedAppend(p, [0x09], Times([0x09], n - 1));
      TabsOnAndOn(p.(scr := Tab(p.scr, p.tabs)), n - 1);
    }
  }

  /** The screen is what counts of two parsers with the same tab stops. */
  lemma {:induction false} BackOnAndOn(p: Parser, n: nat)
    requires p.Valid()
    ensures var q := FeedAll(p, Times(Command([], 'Z'), n));
      && q.tabs == p.tabs
      && q.scr == (if n == 0 then p.scr
                   else p.scr.(curCol := BackCols(p.tabs, p.scr.curCol, n), pendingWrap := false))
    decreases n
  {
    hide FeedAll, BackCols, CsiMove, CsiEdit, Screen.Valid, Number;
    if n == 0 {
      FeedOne(p, 0);
    } else {
      var q := FeedAll(p, Command([], 'Z'));
      BackOnce(p);
      FeedAppend(p, Command([], 'Z'), Times(Command([], 'Z'), n - 1));
      BackOnAndOn(q, n - 1);
      BackColsStep(p.tabs, p.scr.curCol, n);
    }
  }

  lemma BackOnce(p: Parser)
    requires p.Valid()
    ensures var q := FeedAll(p, Command([], 'Z'));
      q.tabs == p.tabs && q.scr == p.scr.(curCol := BackCols(p.tabs, p.scr.curCol, 1), pendingWrap := false)
  {
    hide FeedAll, BackCols, Screen.Valid, CursorSet, Tabs, SaveCursor, RestoreCursor, CsiEdit;
    FeedCommand(p, [], 'Z');
  }

  lemma BackColsStep(tabs: set<nat>, col: nat, n: nat)
    requires n > 0
    ensures BackCols(tabs, col, n)
            == if n == 1 then BackCols(tabs, col, 1) else BackCols(tabs, BackCols(tabs, col, 1), n - 1)
  {
    assert BackCols(tabs, col, 1) == if col == 0 then 0 else PrevTab(tabs, col - 1);
  }

  /** CHT by n is HT n times, and CBT by n is CBT n times. */
  lemma TabsCount(p: Parser, d: seq<Byte>)
    requires p.Valid() && Argument(d)
    ensures p.state.Ground? ==> FeedAll(p, Command(d, 'I')).scr == FeedAll(p, Times([0x09], Amount(d))).scr
    ensures FeedAll(p, Command(d, 'Z')).scr == FeedAll(p, Times(Command([], 'Z'), Amount(d))).scr
  {
    hide FeedAll, BackCols, Tabs, Screen.Valid, CursorSet, SaveCursor, RestoreCursor, Number;
    MoveFed(p, d, 'I');
    MoveFed(p, d, 'Z');
    if p.state.Ground? { TabsOnAndOn(p, Amount(d)); }
    BackOnAndOn(p, Amount(d));
  }

  /** HTS and TBC. */
  lemma SetsStops(p: Parser, d: seq<Byte>)
    requires p.Valid() && Argument(d)
    ensures FeedAll(p, [0x1B, 'H' as int]).tabs == p.tabs + (if p.scr.curCol < 512 then {p.scr.curCol} else {})
    ensures FeedAll(p, Command(d, 'g')).tabs
            == if Number(d) == 0 then p.tabs - {p.scr.curCol} else if Number(d) == 3 then {} else p.tabs
  {
    hide FeedAll, Number, Screen.Valid, CsiEdit;
    FeedEscape(p, 'H');
    FeedCommand(p, d, 'g');
    ReadAs(d);
  }

  /** DSR asks for the cursor's position with 6, and shows nothing. */
  lemma AsksPosition(p: Parser, d: seq<Byte>)
    requires p.Valid() && Argument(d)
    ensures var q := FeedAll(p, Command(d, 'n'));
      q.scr == p.scr && q.cprRequested == (p.cprRequested || Number(d) == 6)
  {
    hide FeedAll, Number, Screen.Valid, CsiEdit;
    FeedCommand(p, d, 'n');
    ReadAs(d);
  }

  /* ---- the region and the modes ---- */

  /** DECSTBM: a region of two rows at least; the cursor goes home. */
  lemma SetsRegion(p: Parser, d1: seq<Byte>, d2: seq<Byte>)
    requires p.Valid() && Argument(d1) && Argument(d2)
    ensures var s, t := p.scr, FeedAll(p, Command2(d1, d2, 'r')).scr;
      var top, bottom := Amount(d1) - 1, if 0 < Number(d2) < s.rows then Number(d2) - 1 else s.rows - 1;
      t == s.(top := if top < bottom then top else s.top, bottom := if top < bottom then bottom else s.bottom,
              curRow := if s.origin then t.top else 0, curCol := 0, pendingWrap := false)
  {
    hide FeedAll, Number, Amount, SetRegion;
    RegionFed(p, d1, d2);
    RegionIs(p.scr, Amount(d1), if Number(d2) == 0 then p.scr.rows else Number(d2));
  }

  lemma RegionFed(p: Parser, d1: seq<Byte>, d2: seq<Byte>)
    requires p.Valid() && Argument(d1) && Argument(d2)
    ensures FeedAll(p, Command2(d1, d2, 'r')).scr
            == SetRegion(p.scr, Amount(d1), if Number(d2) == 0 then p.scr.rows else Number(d2))
  {
    hide FeedAll, Number, DispatchCsi, SetRegion, Screen.Valid;
    FeedCommand2(p, d1, d2, 'r');
    RegionDispatched(Started(p).(params := [Number(d1), Number(d2)]), Number(d1), Number(d2));
  }

  lemma RegionDispatched(q: Parser, a: nat, b: nat)
    requires q.Valid() && !q.priv && q.params == [a, b]
    ensures DispatchCsi(q, 'r').scr == SetRegion(q.scr, if a == 0 then 1 else a, if b == 0 then q.scr.rows else b)
  {
    hide CsiMove, SetRegion, Screen.Valid;
  }

  lemma RegionIs(s: Screen, first: nat, last: nat)
    requires s.Valid() && first > 0 && last > 0
    ensures var t := SetRegion(s, first, last);
      var top, bottom := first - 1, if last < s.rows then last - 1 else s.rows - 1;
      t == s.(top := if top < bottom then top else s.top, bottom := if top < bottom then bottom else s.bottom,
              curRow := if s.origin then t.top else 0, curCol := 0, pendingWrap := false)
  {
  }

  /** DECOM: the cursor goes to the region's first row, or to the screen's. */
  lemma SetsOrigin(p: Parser)
    requires p.Valid()
    ensures FeedAll(p, Private([0x36], 'h')).scr
            == p.scr.(origin := true, curRow := p.scr.top, curCol := 0, pendingWrap := false)
    ensures FeedAll(p, Private([0x36], 'l')).scr
            == p.scr.(origin := false, curRow := 0, curCol := 0, pendingWrap := false)
  {
    hide FeedAll, Number, PrivateMode, Screen.Valid, Private;
    Literals(0x36, 0x30);
    ModeIs(p, [0x36], 6);
    OneMode(p.scr);
  }

  /** DECAWM. */
  lemma SetsAutoWrap(p: Parser)
    requires p.Valid()
    ensures FeedAll(p, Private([0x37], 'h')).scr == p.scr.(autoWrap := true)
    ensures FeedAll(p, Private([0x37], 'l')).scr == p.scr.(autoWrap := false)
  {
    hide FeedAll, Number, PrivateMode, Screen.Valid, Private;
    Literals(0x37, 0x30);
    ModeIs(p, [0x37], 7);
    OneMode(p.scr);
  }

  /** DECTCEM. */
  lemma SetsVisible(p: Parser)
    requires p.Valid()
    ensures FeedAll(p, Private([0x32, 0x35], 'h')).scr == p.scr.(visible := true)
    ensures FeedAll(p, Private([0x32, 0x35], 'l')).scr == p.scr.(visible := false)
  {
    hide FeedAll, Number, PrivateMode, Screen.Valid, Private;
    Literals(0x32, 0x35);
    ModeIs(p, [0x32, 0x35], 25);
    OneMode(p.scr);
  }

  /** IRM. */
  lemma SetsInsert(p: Parser)
    requires p.Valid()
    ensures FeedAll(p, Command([0x34], 'h')).scr == p.scr.(insert := true)
    ensures FeedAll(p, Command([0x34], 'l')).scr == p.scr.(insert := false)
  {
    hide FeedAll, DispatchCsi, Number, Screen.Valid;
    Literals(0x34, 0x30);
    FeedCommand(p, [0x34], 'h');
    FeedCommand(p, [0x34], 'l');
    InsertDispatched(Started(p).(params := [4]));
  }

  lemma InsertDispatched(q: Parser)
    requires q.Valid() && !q.priv && q.params == [4]
    ensures DispatchCsi(q, 'h').scr == q.scr.(insert := true) && DispatchCsi(q, 'l').scr == q.scr.(insert := false)
  {
    hide CsiMove, Screen.Valid;
  }

  /** A private sequence with one mode sets or resets that mode. */
  lemma ModeIs(p: Parser, d: seq<Byte>, mode: nat)
    requires p.Valid() && Argument(d) && |d| > 0 && Number(d) == mode
    ensures FeedAll(p, Private(d, 'h')).scr == PrivateMode(p.scr, mode, true)
    ensures FeedAll(p, Private(d, 'l')).scr == PrivateMode(p.scr, mode, false)
  {
    hide FeedAll, DispatchCsi, Number, Screen.Valid;
    FeedPrivate(p, d, 'h');
    FeedPrivate(p, d, 'l');
    ModeDispatched(Started(p).(priv := true, params := [mode]), mode);
  }

  lemma ModeDispatched(q: Parser, mode: nat)
    requires q.Valid() && q.priv && q.params == [mode]
    ensures DispatchCsi(q, 'h').scr == PrivateMode(q.scr, mode, true)
    ensures DispatchCsi(q, 'l').scr == PrivateMode(q.scr, mode, false)
  {
    hide CsiMove, CsiEdit, PrivateMode, PrivateModes, Screen.Valid;
    ListOfOne(q.scr, mode, true);
    ListOfOne(q.scr, mode, false);
  }

  lemma ListOfOne(s: Screen, mode: nat, on: bool)
    requires s.Valid()
    ensures PrivateModes(s, [mode], on) == PrivateMode(s, mode, on)
  {
    hide PrivateMode;
    assert [mode][..0] == [] && PrivateModes(s, [], on) == s;
  }

  lemma OneMode(s: Screen)
    requires s.Valid()
    ensures PrivateMode(s, 6, true) == s.(origin := true, curRow := s.top, curCol := 0, pendingWrap := false)
    ensures PrivateMode(s, 6, false) == s.(origin := false, curRow := 0, curCol := 0, pendingWrap := false)
    ensures PrivateMode(s, 7, true) == s.(autoWrap := true) && PrivateMode(s, 7, false) == s.(autoWrap := false)
    ensures PrivateMode(s, 25, true) == s.(visible := true) && PrivateMode(s, 25, false) == s.(visible := false)
  {
    hide EnterAlt, LeaveAlt;
  }

  /* ---- renditions ---- */

  /** The number of an attribute in ECMA-48 (SGR). */
  function CodeOf(a: Attr): nat {
    match a
    case Bold => 1 case Dim => 2 case Italic => 3 case Underline => 4
    case Blink => 5 case Reverse => 7 case Invis => 8 case Strike => 9
  }

  /** The code that takes it off: 20 more, but for bold, which goes with dim. */
  function OffCodeOf(a: Attr): nat {
    if a.Bold? then 22 else CodeOf(a) + 20
  }

  lemma RenditionFed(p: Parser, d: seq<Byte>)
    requires p.Valid() && Argument(d)
    ensures FeedAll(p, Command(d, 'm')).scr == Sgr(p.scr, Read(d))
  {
    hide FeedAll, CsiMove, Sgr, Number, Screen.Valid;
    FeedCommand(p, d, 'm');
  }

  /** One code, or none: which attributes and which colours are in force after it. */
  ghost predicate CodeSets(was: Pen, v: nat, pen: Pen) {
    && (forall a :: a in pen.attrs <==> v != 0 && (CodeOf(a) == v || (a in was.attrs && OffCodeOf(a) != v)))
    && pen.fg == (if v == 0 || v == 39 then 256 else if 30 <= v <= 37 then v - 30 else if 90 <= v <= 97 then v - 82
                  else was.fg)
    && pen.bg == (if v == 0 || v == 49 then 256 else if 40 <= v <= 47 then v - 40 else if 100 <= v <= 107 then v - 92
                  else was.bg)
  }

  lemma OneCode(pen: Pen, v: nat)
    requires v != 38 && v != 48
    ensures CodeSets(pen, v, SgrList(pen, [v]))
  {
    hide SgrCode;
    CodeIs(pen, v);
    assert SgrList(SgrCode(pen, v), [v][1..]) == SgrCode(pen, v);
  }

  lemma CodeIs(pen: Pen, v: nat)
    requires v != 38 && v != 48
    ensures CodeSets(pen, v, SgrCode(pen, v))
  {
    forall a ensures a in SgrCode(pen, v).attrs <==> v != 0 && (CodeOf(a) == v || (a in pen.attrs && OffCodeOf(a) != v))
    {
      AttributeSet(pen, v, a);
    }
  }

  lemma AttributeSet(pen: Pen, v: nat, a: Attr)
    ensures a in SgrCode(pen, v).attrs <==> v != 0 && (CodeOf(a) == v || (a in pen.attrs && OffCodeOf(a) != v))
  {
  }

  /** SGR with one code: nothing else of the screen changes. */
  lemma SetsRendition(p: Parser, d: seq<Byte>)
    requires p.Valid() && Argument(d) && Number(d) != 38 && Number(d) != 48
    ensures var t := FeedAll(p, Command(d, 'm')).scr;
      t == p.scr.(pen := t.pen) && CodeSets(p.scr.pen, Number(d), t.pen)
  {
    hide FeedAll, SgrList, Screen.Valid;
    RenditionFed(p, d);
    if |d| > 0 { OneCode(p.scr.pen, Number(d)); }
  }

  /** More of them are read one after the other; 38 and 48 take the number of a colour after 5, and what else follows
      them is passed over. */
  lemma ReadsRenditions(s: Screen, v: nat, n: nat, rest: seq<nat>)
    requires s.Valid() && |rest| > 0
    ensures v != 38 && v != 48 ==> Sgr(s, [v] + rest) == Sgr(Sgr(s, [v]), rest)
    ensures Sgr(s, [38, 5, n]) == s.(pen := s.pen.(fg := n % 65536))
    ensures Sgr(s, [48, 5, n]) == s.(pen := s.pen.(bg := n % 65536))
    ensures Sgr(s, [38, 5, n] + rest) == Sgr(Sgr(s, [38, 5, n]), rest)
    ensures Sgr(s, [48, 5, n] + rest) == Sgr(Sgr(s, [48, 5, n]), rest)
  {
    hide SgrCode, Screen.Valid, SgrList;
    OneReads(s.pen, v, n, []);
    OneReads(s.pen, v, n, rest);
    assert [v] + [] == [v] && [38, 5, n] + [] == [38, 5, n] && [48, 5, n] + [] == [48, 5, n];
  }

  lemma OneReads(pen: Pen, v: nat, n: nat, rest: seq<nat>)
    ensures v != 38 && v != 48 ==> SgrList(pen, [v] + rest) == SgrList(SgrCode(pen, v), rest)
    ensures SgrList(pen, [38, 5, n] + rest) == SgrList(pen.(fg := n % 65536), rest)
    ensures SgrList(pen, [48, 5, n] + rest) == SgrList(pen.(bg := n % 65536), rest)
    ensures forall p :: SgrList(p, []) == p
  {
    hide SgrCode;
    var ps, qs := [38, 5, n] + rest, [48, 5, n] + rest;
    assert ([v] + rest)[1..] == rest && ps[3..] == rest && qs[3..] == rest;
  }
}
