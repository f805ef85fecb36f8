/** The byte-driven parser of _lib/vt.c, as a value stepped by one byte at a time. */
module VtParser {
  import opened Cells
  import opened Utf8
  import opened Scrollback
  import opened Vt

  const MAX_PARAMS := 16
  const MAX_INTER := 4
  const MAX_OSC := 1024
  const MAX_TAB_COLS := 512

  datatype State = Ground | Esc | EscInter | CsiParam | CsiInter | Osc | Dcs

  /** params holds the parameters seen so far; the OSC text itself and what it names are left out. */
  datatype Parser = Parser(
    state: State, params: seq<nat>, numInter: nat, priv: bool, oscLen: nat,
    utf8: seq<Byte>, utf8Want: nat, tabs: set<nat>, cprRequested: bool,
    lastGraphic: nat, g0Dec: bool, escInter: Byte, scr: Screen
  ) {
    /** Every cursor is in the grid, the region in the screen, and every buffer index in its buffer. */
    predicate Valid() {
      && scr.Valid()
      && |params| <= MAX_PARAMS && numInter <= MAX_INTER && oscLen <= MAX_OSC - 1
      && (utf8Want == |utf8| == 0 || (2 <= utf8Want <= 4 && 1 <= |utf8| < utf8Want))
      && (forall c :: c in tabs ==> c < MAX_TAB_COLS)
    }
  }

  /* ---- tab stops ---- */

  function DefaultTabs(cols: nat): (tabs: set<nat>)
    ensures forall c :: c in tabs ==> c < MAX_TAB_COLS
  {
    set c: nat | 0 <= c < MAX_TAB_COLS && c < cols && c % 8 == 0
  }

  function NextTab(tabs: set<nat>, cols: nat, col: nat): (r: nat)
    requires col < cols
    ensures col <= r < cols
    decreases cols - col
  {
    if col == cols - 1 || col in tabs then col else NextTab(tabs, cols, col + 1)
  }

  function PrevTab(tabs: set<nat>, col: nat): (r: nat)
    ensures r <= col
  {
    if col == 0 || col in tabs then col else PrevTab(tabs, col - 1)
  }

  function Tab(s: Screen, tabs: set<nat>): (r: Screen)
    requires s.Valid()
    ensures r.Valid()
  {
    s.(curCol := if s.curCol < s.cols - 1 then NextTab(tabs, s.cols, s.curCol + 1) else s.curCol, pendingWrap := false)
  }

  function Tabs(s: Screen, tabs: set<nat>, n: nat): (r: Screen)
    requires s.Valid()
    ensures r.Valid()
    decreases n
  {
    if n == 0 then s else Tabs(Tab(s, tabs), tabs, n - 1)
  }

  function BackCols(tabs: set<nat>, col: nat, n: nat): (r: nat)
    ensures r <= col
  {
    if n == 0 || col == 0 then col else BackCols(tabs, PrevTab(tabs, col - 1), n - 1)
  }

  /* ---- control sequences ---- */

  /** A parameter, or its default if it is missing or 0. */
  function P(ps: seq<nat>, i: nat, def: nat): nat {
    if i < |ps| && ps[i] > 0 then ps[i] else def
  }

  function PutTimes(s: Screen, cp: nat, n: nat): (r: Screen)
    requires s.Valid()
    ensures r.Valid()
    decreases n
  {
    if n == 0 then s else PutTimes(PutChar(s, cp), cp, n - 1)
  }

  /** DECSET and DECRST of one mode. */
  function PrivateMode(s: Screen, mode: nat, on: bool): (r: Screen)
    requires s.Valid()
    ensures r.Valid()
  {
    if mode == 6 then
      var s1 := s.(origin := on);
      CursorSet(s1, if on then s1.top else 0, 0)
    else if mode == 7 then s.(autoWrap := on)
    else if mode == 25 then s.(visible := on)
    else if mode == 47 || mode == 1047 || mode == 1049 then (if on then EnterAlt(s) else LeaveAlt(s))
    else s
  }

  function PrivateModes(s: Screen, ps: seq<nat>, on: bool): (r: Screen)
    requires s.Valid()
    ensures r.Valid()
  {
    if |ps| == 0 then s else PrivateMode(PrivateModes(s, ps[..|ps| - 1], on), ps[|ps| - 1], on)
  }

  /** The cursor movements of dispatch_csi. */
  function CsiMove(s: Screen, tabs: set<nat>, final: char, ps: seq<nat>): (r: Screen)
    requires s.Valid()
    ensures r.Valid()
  {
    var n := P(ps, 0, 1);
    match final
    case 'A' => CursorSet(s, s.curRow - n, s.curCol)
    case 'B' => CursorSet(s, s.curRow + n, s.curCol)
    case 'C' => CursorSet(s, s.curRow, s.curCol + n)
    case 'D' => CursorSet(s, s.curRow, s.curCol - n)
    case 'E' => CursorSet(s, s.curRow + n, 0)
    case 'F' => CursorSet(s, s.curRow - n, 0)
    case 'G' => CursorSet(s, s.curRow, n - 1)
    case 'd' => CursorSet(s, n - 1, s.curCol)
    case 'H' => CursorSet(s, n - 1 + (if s.origin then s.top else 0), P(ps, 1, 1) - 1)
    case 'f' => CursorSet(s, n - 1 + (if s.origin then s.top else 0), P(ps, 1, 1) - 1)
    case 'I' => Tabs(s, tabs, n)
    case 'Z' => s.(curCol := BackCols(tabs, s.curCol, n), pendingWrap := false)
    case 's' => SaveCursor(s)
    case 'u' => RestoreCursor(s)
    case _ => s
  }

  /** Its edits of the screen. */
  function CsiEdit(s: Screen, final: char, ps: seq<nat>): (r: Screen)
    requires s.Valid()
    ensures r.Valid()
  {
    var n := P(ps, 0, 1);
    match final
    case 'J' => EraseDisplay(s, P(ps, 0, 0))
    case 'K' => EraseLine(s, P(ps, 0, 0))
    case 'X' => EraseChars(s, n)
    case '@' => InsertChars(s, n)
    case 'P' => DeleteChars(s, n)
    case 'L' => InsertLines(s, n)
    case 'M' => DeleteLines(s, n)
    case 'S' => ScrollUp(s, n)
    case 'T' => ScrollDown(s, n)
    case 'm' => Sgr(s, ps)
    case 'h' => if P(ps, 0, 0) == 4 then s.(insert := true) else s
    case 'l' => if P(ps, 0, 0) == 4 then s.(insert := false) else s
    case 'r' => SetRegion(s, n, P(ps, 1, s.rows))
    case _ => s
  }

  predicate IsMove(final: char) {
    final in {'A', 'B', 'C', 'D', 'E', 'F', 'G', 'd', 'H', 'f', 'I', 'Z', 's', 'u'}
  }

  /** dispatch_csi. */
  function DispatchCsi(p: Parser, final: char): (r: Parser)
    requires p.Valid()
    ensures r.Valid()
  {
    var ps := p.params;
    if p.priv then
      if final == 'h' then p.(scr := PrivateModes(p.scr, ps, true))
      else if final == 'l' then p.(scr := PrivateModes(p.scr, ps, false))
      else p
    else if IsMove(final) then p.(scr := CsiMove(p.scr, p.tabs, final, ps))
    else if final == 'b' then (if p.lastGraphic == 0 then p else p.(scr := PutTimes(p.scr, p.lastGraphic, P(ps, 0, 1))))
    else if final == 'g' then
      p.(tabs := if P(ps, 0, 0) == 0 then p.tabs - {p.scr.curCol} else if P(ps, 0, 0) == 3 then {} else p.tabs)
    else if final == 'n' then p.(cprRequested := p.cprRequested || P(ps, 0, 0) == 6)
    else p.(scr := CsiEdit(p.scr, final, ps))
  }

  /** dispatch_esc. */
  function DispatchEsc(p: Parser, final: char): (r: Parser)
    requires p.Valid()
    ensures r.Valid()
  {
    hide LineFeed, ReverseIndex, Init;
    var s := p.scr;
    match final
    case '7' => p.(scr := SaveCursor(s))
    case '8' => p.(scr := RestoreCursor(s))
    case 'D' => p.(scr := LineFeed(s))
    case 'E' => p.(scr := LineFeed(s.(curCol := 0)))
    case 'H' => p.(tabs := if s.curCol < MAX_TAB_COLS then p.tabs + {s.curCol} else p.tabs)
    case 'M' => p.(scr := ReverseIndex(s))
    case 'c' => p.(g0Dec := false, scr := Init(s.rows, s.cols, History([])), tabs := DefaultTabs(s.cols))
    case _ => p
  }

  /** handle_c0. */
  function HandleC0(p: Parser, c: Byte): (r: Parser)
    requires p.Valid()
    ensures r.Valid()
  {
    var s := p.scr;
    if c == 0x08 then p.(scr := Backspace(s))
    else if c == 0x09 then p.(scr := Tab(s, p.tabs))
    else if 0x0A <= c <= 0x0C then p.(scr := LineFeed(s))
    else if c == 0x0D then p.(scr := CarriageReturn(s))
    else p
  }

  /* ---- characters ---- */

  /** DEC special graphics, 0x60..0x7e. */
  const DEC_GRAPHICS: seq<nat> := [
    0x25c6, 0x2592, 0x2409, 0x240c, 0x240d, 0x240a, 0x00b0, 0x00b1, 0x2424, 0x240b,
    0x2518, 0x2510, 0x250c, 0x2514, 0x253c, 0x23ba, 0x23bb, 0x2500, 0x23bc, 0x23bd,
    0x251c, 0x2524, 0x2534, 0x252c, 0x2502, 0x2264, 0x2265, 0x03c0, 0x2260, 0x00a3,
    0x00b7
  ]

  /** A decoded character, in the character set in use. A zero-width one is dropped and not repeated. */
  function PutCode(p: Parser, cp: nat): (r: Parser)
    requires p.Valid()
    ensures r.Valid()
  {
    var ch := if p.g0Dec && 0x60 <= cp <= 0x7e then DEC_GRAPHICS[cp - 0x60] else cp;
    if Width.CpWidth(ch) == 0 then p else p.(lastGraphic := ch, scr := PutChar(p.scr, ch))
  }

  /** The code point of a complete sequence. */
  function Decode(b: seq<Byte>): nat
    requires 2 <= |b| <= 4
  {
    var b0: nat, b1: nat := b[0], b[1] % 64;
    if |b| == 2 then b0 % 32 * 64 + b1
    else
      var b2: nat := b[2] % 64;
      if |b| == 3 then b0 % 16 * 4096 + b1 * 64 + b2
      else
        var b3: nat := b[3] % 64;
        b0 % 8 * 262144 + b1 * 4096 + b2 * 64 + b3
  }

  /** utf8_feed and what becomes of the result. A bad continuation byte is dropped with what came before it. */
  function FeedUtf8(p: Parser, c: Byte): (r: Parser)
    requires p.Valid()
    ensures r.Valid()
  {
    if p.utf8Want == 0 then
      if c < 0x80 then PutCode(p, c)
      else if 0xC0 <= c < 0xE0 then p.(utf8 := [c], utf8Want := 2)
      else if 0xE0 <= c < 0xF0 then p.(utf8 := [c], utf8Want := 3)
      else if 0xF0 <= c < 0xF8 then p.(utf8 := [c], utf8Want := 4)
      else p
    else if c < 0x80 || c >= 0xC0 then p.(utf8 := [], utf8Want := 0)
    else
      var b := p.utf8 + [c];
      if |b| < p.utf8Want then p.(utf8 := b)
      else PutCode(p.(utf8 := [], utf8Want := 0), Decode(b))
  }

  /* ---- vt_feed ---- */

  function CsiClear(p: Parser): Parser {
    p.(params := [], numInter := 0, priv := false)
  }

  function CsiDigit(ps: seq<nat>, d: nat): (r: seq<nat>)
    requires |ps| <= MAX_PARAMS
    ensures |r| <= MAX_PARAMS
  {
    if |ps| == 0 then [d]
    else if ps[|ps| - 1] < 16384 then ps[|ps| - 1 := ps[|ps| - 1] * 10 + d]
    else ps
  }

  function CsiSep(ps: seq<nat>): (r: seq<nat>)
    requires |ps| <= MAX_PARAMS
    ensures |r| <= MAX_PARAMS
  {
    var first := if |ps| == 0 then [0] else ps;
    if |first| < MAX_PARAMS then first + [0] else first
  }

  function FeedEsc(p: Parser, c: Byte): (r: Parser)
    requires p.Valid()
    ensures r.Valid()
  {
    if c == 0x5B then CsiClear(p).(state := CsiParam)
    else if c == 0x5D then p.(oscLen := 0, state := Osc)
    else if c == 0x50 || c == 0x5E || c == 0x5F then p.(state := Dcs)
    else if 0x20 <= c <= 0x2F then p.(escInter := c, state := EscInter)
    else if 0x30 <= c <= 0x7E then DispatchEsc(p, c as char).(state := Ground)
    else p.(state := Ground)
  }

  function FeedCsiParam(p: Parser, c: Byte): (r: Parser)
    requires p.Valid()
    ensures r.Valid()
  {
    if 0x30 <= c <= 0x39 then p.(params := CsiDigit(p.params, c - 0x30))
    else if c == 0x3B then p.(params := CsiSep(p.params))
    else if c == 0x3F then p.(priv := true)
    else if 0x3C <= c <= 0x3E then p
    else FeedCsiInter(p, c)
  }

  /** An intermediate byte, a final byte, or an end to it all. */
  function FeedCsiInter(p: Parser, c: Byte): (r: Parser)
    requires p.Valid()
    ensures r.Valid()
  {
    if 0x20 <= c <= 0x2F then
        p.(numInter := if p.numInter < MAX_INTER then p.numInter + 1 else p.numInter, state := CsiInter)
    else if 0x40 <= c <= 0x7E then DispatchCsi(p, c as char).(state := Ground)
    else p.(state := Ground)
  }

  /** One byte. */
  function Feed(p: Parser, c: Byte): (r: Parser)
    requires p.Valid()
    ensures r.Valid()
  {
    if (c == 0x18 || c == 0x1A) && !p.state.Ground? then p.(state := Ground)
    else if c == 0x1B then CsiClear(p).(state := Esc)
    else match p.state
      case Ground => if c < 0x20 then HandleC0(p, c) else if c == 0x7F then p else FeedUtf8(p, c)
      case Esc => FeedEsc(p, c)
      case EscInter =>
        if 0x30 <= c <= 0x7E then
          p.(state := Ground, g0Dec := if p.escInter == 0x28 && (c == 0x30 || c == 0x42) then c == 0x30 else p.g0Dec)
        else p
      case CsiParam => FeedCsiParam(p, c)
      case CsiInter => FeedCsiInter(p, c)
      case Osc =>
        if c == 0x07 || c == 0x9C then p.(state := Ground)
        else p.(oscLen := if p.oscLen < MAX_OSC - 1 then p.oscLen + 1 else p.oscLen)
      case Dcs => if c == 0x07 || c == 0x9C then p.(state := Ground) else p
  }

  function FeedAll(p: Parser, bytes: seq<Byte>): (r: Parser)
    requires p.Valid()
    ensures r.Valid()
  {
    if |bytes| == 0 then p else Feed(FeedAll(p, bytes[..|bytes| - 1]), bytes[|bytes| - 1])
  }

  /* ---- resets ---- */

  /** The byte that resets the terminal: `c` after an escape. */
  predicate Resets(p: Parser, c: Byte) {
    p.state.Esc? && c == 0x63
  }

  /** No byte of the stream resets the terminal. */
  ghost predicate NoReset(p: Parser, bytes: seq<Byte>)
    requires p.Valid()
    decreases |bytes|
  {
    |bytes| == 0 || (NoReset(p, bytes[..|bytes| - 1]) && !Resets(FeedAll(p, bytes[..|bytes| - 1]), bytes[|bytes| - 1]))
  }

  lemma NoResetStep(p: Parser, data: seq<Byte>, i: nat)
    requires p.Valid() && i < |data|
    ensures NoReset(p, data[..i + 1]) <==> NoReset(p, data[..i]) && !Resets(FeedAll(p, data[..i]), data[i])
  {
    hide Feed, FeedAll, Parser.Valid;
    assert data[..i + 1][..i] == data[..i];
  }
}
