/** The terminal's screen as a value: what each operation of _lib/vt.c does to it. */
module Vt {
  import opened Cells
  import opened Scrollback
  import Width

  /** The graphic rendition new characters get. fg and bg are 16 bits wide. */
  datatype Pen = Pen(fg: nat, bg: nat, attrs: set<Attr>)

  const DEFAULT_PEN := Pen(COLOR_DEFAULT, COLOR_DEFAULT, {})

  /** The screen that is not shown: absent until it is first needed. */
  datatype Hidden = NoGrid | Grid(cells: seq<Row>, flags: seq<bool>)

  datatype Screen = Screen(
    rows: nat, cols: nat,
    cells: seq<Row>, flags: seq<bool>, hidden: Hidden,
    curRow: nat, curCol: nat, visible: bool, pendingWrap: bool,
    origin: bool, autoWrap: bool, insert: bool, inAlt: bool,
    top: nat, bottom: nat,
    pen: Pen,
    savedRow: nat, savedCol: nat, savedPen: Pen, savedWrap: bool,
    altRow: nat, altCol: nat, altPen: Pen,
    history: History
  ) {
    predicate Valid() {
      && 1 <= rows && 2 <= cols
      && GridOf(cells, flags, rows, cols)
      && (hidden.Grid? ==> GridOf(hidden.cells, hidden.flags, rows, cols))
      && (inAlt ==> hidden.Grid?)
      && curRow < rows && curCol < cols
      && top <= bottom < rows
      && savedRow < rows && savedCol < cols
      && altRow < rows && altCol < cols
    }
  }

  predicate GridOf(cells: seq<Row>, flags: seq<bool>, rows: nat, cols: nat) {
    && |cells| == rows && |flags| == rows
    && forall r :: 0 <= r < rows ==> |cells[r]| == cols
  }

  function BlankCell(pen: Pen): Cell {
    Cell(SPACE, if pen.fg == COLOR_DEFAULT then 0 else pen.fg % 256,
         if pen.bg == COLOR_DEFAULT then 0 else pen.bg % 256,
         {}, false, false, pen.fg == COLOR_DEFAULT, pen.bg == COLOR_DEFAULT, false)
  }

  /** A printed character. */
  function Printed(pen: Pen, cp: nat, wide: bool): Cell {
    BlankCell(pen).(ch := cp, attrs := pen.attrs, wide := wide)
  }

  /** The second cell of a printed wide character. */
  function Continued(c: Cell): Cell {
    c.(ch := 0, wide := false, cont := true)
  }

  function BlankGrid(rows: nat, cols: nat, b: Cell): (g: seq<Row>)
    ensures |g| == rows && forall r :: 0 <= r < rows ==> g[r] == BlankRow(cols, b)
  {
    seq(rows, _ => BlankRow(cols, b))
  }

  function NoFlags(n: nat): (f: seq<bool>)
    ensures |f| == n && forall r :: 0 <= r < n ==> !f[r]
  {
    seq(n, _ => false)
  }

  function Init(rows: nat, cols: nat, history: History): (s: Screen)
    requires 1 <= rows && 2 <= cols
    ensures s.Valid()
  {
    Screen(rows, cols, BlankGrid(rows, cols, BLANK), NoFlags(rows), NoGrid,
           0, 0, true, false, false, true, false, false, 0, rows - 1, DEFAULT_PEN,
           0, 0, Pen(0, 0, {}), false, 0, 0, Pen(0, 0, {}), history)
  }

  /* ---- scrolling ---- */

  function Min(a: int, b: int): int { if a < b then a else b }

  /** Lines top..top+n-1 of the region go, those below move up, n blank ones come in at the foot. */
  function ScrollUp(s: Screen, n: nat): (r: Screen)
    requires s.Valid()
    ensures r.Valid()
    ensures r == s.(cells := r.cells, flags := r.flags, history := r.history)
  {
    var k := Min(n, s.bottom - s.top + 1);
    s.(cells := s.cells[..s.top] + s.cells[s.top + k..s.bottom + 1]
                + BlankGrid(k, s.cols, BlankCell(s.pen)) + s.cells[s.bottom + 1..],
       flags := s.flags[..s.top] + s.flags[s.top + k..s.bottom + 1] + NoFlags(k) + s.flags[s.bottom + 1..],
       history := if s.top == 0 && !s.inAlt
                  then CaptureRows(s.history, s.cells[s.top..s.top + k], s.flags[s.top..s.top + k])
                  else s.history)
  }

  function ScrollDown(s: Screen, n: nat): (r: Screen)
    requires s.Valid()
    ensures r.Valid()
    ensures r == s.(cells := r.cells, flags := r.flags)
  {
    var k := Min(n, s.bottom - s.top + 1);
    s.(cells := s.cells[..s.top] + BlankGrid(k, s.cols, BlankCell(s.pen))
                + s.cells[s.top..s.bottom + 1 - k] + s.cells[s.bottom + 1..],
       flags := s.flags[..s.top] + NoFlags(k) + s.flags[s.top..s.bottom + 1 - k] + s.flags[s.bottom + 1..])
  }

  /* ---- cursor ---- */

  function Clamp(x: int, lo: int, hi: int): (r: int)
    requires lo <= hi
    ensures lo <= r <= hi
  {
    if x < lo then lo else if x > hi then hi else x
  }

  function CursorSet(s: Screen, row: int, col: int): (r: Screen)
    requires s.Valid()
    ensures r.Valid()
  {
    var lo := if s.origin then s.top else 0;
    var hi := if s.origin then s.bottom else s.rows - 1;
    s.(curRow := Clamp(row, lo, hi), curCol := Clamp(col, 0, s.cols - 1), pendingWrap := false)
  }

  function LineFeed(s: Screen): (r: Screen)
    requires s.Valid()
    ensures r.Valid()
    ensures r == s.(cells := r.cells, flags := r.flags, history := r.history, curRow := r.curRow, pendingWrap := false)
  {
    hide ScrollUp;
    if s.curRow == s.bottom then ScrollUp(s, 1).(pendingWrap := false)
    else if s.curRow < s.rows - 1 then s.(curRow := s.curRow + 1, pendingWrap := false)
    else s.(pendingWrap := false)
  }

  function ReverseIndex(s: Screen): (r: Screen)
    requires s.Valid()
    ensures r.Valid()
  {
    if s.curRow == s.top then ScrollDown(s, 1).(pendingWrap := false)
    else if s.curRow > 0 then s.(curRow := s.curRow - 1, pendingWrap := false)
    else s.(pendingWrap := false)
  }

  function CarriageReturn(s: Screen): (r: Screen)
    requires s.Valid()
    ensures r.Valid()
  {
    s.(curCol := 0, pendingWrap := false)
  }

  function Backspace(s: Screen): (r: Screen)
    requires s.Valid()
    ensures r.Valid()
  {
    if s.curCol > 0 then s.(curCol := s.curCol - 1, pendingWrap := false) else s
  }

  /* ---- printing ---- */

  /** The cursor's row is marked as continuing, and the cursor goes to the start of the next. */
  function Wrap(s: Screen): (r: Screen)
    requires s.Valid()
    ensures r.Valid() && r.curCol == 0 && !r.pendingWrap
    ensures r.cols == s.cols && r.insert == s.insert
  {
    hide LineFeed;
    LineFeed(s.(flags := s.flags[s.curRow := true], curCol := 0, pendingWrap := false))
  }

  function SetCell(s: Screen, c: Cell): (r: Screen)
    requires s.Valid()
    ensures r.Valid()
  {
    s.(cells := s.cells[s.curRow := s.cells[s.curRow][s.curCol := c]])
  }

  /** A row with w blanks opened at column c, what is pushed past the margin lost. */
  function OpenGap(row: Row, c: nat, w: nat, b: Cell): (r: Row)
    requires c + w <= |row|
    ensures |r| == |row|
  {
    row[..c] + BlankRow(w, b) + row[c..|row| - w]
  }

  /** The character and its continuation written at the cursor, which moves past them. */
  function Place(s: Screen, cp: nat, w: nat): (r: Screen)
    requires s.Valid() && 1 <= w <= 2 && s.curCol + w <= s.cols
    ensures r.Valid()
  {
    var row := s.cells[s.curRow];
    var row1 := if s.insert then OpenGap(row, s.curCol, w, BlankCell(s.pen)) else row;
    var cell := Printed(s.pen, cp, w == 2);
    var row2 := row1[s.curCol := cell];
    var row3 := if w == 2 then row2[s.curCol + 1 := Continued(cell)] else row2;
    s.(cells := s.cells[s.curRow := row3],
       curCol := Min(s.curCol + w, s.cols - 1),
       pendingWrap := s.curCol + w >= s.cols)
  }

  /** put_char. */
  function PutChar(s: Screen, cp: nat): (r: Screen)
    requires s.Valid()
    ensures r.Valid()
  {
    var w := Width.CpWidth(cp);
    if w == 0 then s
    else
      var s1 := if !s.pendingWrap then s else if s.autoWrap then Wrap(s) else s.(pendingWrap := false);
      if w == 2 && s1.curCol + 1 >= s1.cols then
        var s2 := SetCell(s1, BlankCell(s1.pen).(pad := true));
        if s2.autoWrap then Place(Wrap(s2), cp, w) else s2
      else Place(s1, cp, w)
  }

  /* ---- erasing ---- */

  function ClearCells(s: Screen, row: nat, from: nat, to: int): (r: Screen)
    requires s.Valid() && row < s.rows && to < s.cols
    ensures r.Valid()
  {
    s.(cells := s.cells[row := ClearRange(s.cells[row], from, to, BlankCell(s.pen))])
  }

  /** Every cell from row `from` to row `to` - 1 blank. */
  function ClearRows(s: Screen, from: nat, to: nat): (r: Screen)
    requires s.Valid() && from <= to <= s.rows
    ensures r.Valid()
  {
    s.(cells := s.cells[..from] + BlankGrid(to - from, s.cols, BlankCell(s.pen)) + s.cells[to..])
  }

  /** Wrap flags of rows from..to-1 taken off. */
  function ClearFlags(s: Screen, from: nat, to: nat): (r: Screen)
    requires s.Valid() && from <= to <= s.rows
    ensures r.Valid()
  {
    s.(flags := s.flags[..from] + NoFlags(to - from) + s.flags[to..])
  }

  /** ED. */
  function EraseDisplay(s: Screen, mode: nat): (r: Screen)
    requires s.Valid()
    ensures r.Valid()
  {
    if mode == 0 then ClearFlags(ClearRows(ClearCells(s, s.curRow, s.curCol, s.cols - 1), s.curRow + 1, s.rows),
                                 s.curRow, s.rows)
    else if mode == 1 then ClearFlags(ClearCells(ClearRows(s, 0, s.curRow), s.curRow, 0, s.curCol), 0, s.curRow)
    else if mode == 2 || mode == 3 then ClearFlags(ClearRows(s, 0, s.rows), 0, s.rows)
    else s
  }

  /** EL. Only an erase to the end of the line takes the wrap flag off. */
  function EraseLine(s: Screen, mode: nat): (r: Screen)
    requires s.Valid()
    ensures r.Valid()
  {
    if mode == 0 then ClearCells(s, s.curRow, s.curCol, s.cols - 1).(flags := s.flags[s.curRow := false])
    else if mode == 1 then ClearCells(s, s.curRow, 0, s.curCol)
    else if mode == 2 then ClearCells(s, s.curRow, 0, s.cols - 1)
    else s
  }

  /** ECH. */
  function EraseChars(s: Screen, n: nat): (r: Screen)
    requires s.Valid()
    ensures r.Valid()
  {
    ClearCells(s, s.curRow, s.curCol, Min(s.curCol + n - 1, s.cols - 1))
  }

  /* ---- inserting and deleting ---- */

  /** ICH. */
  function InsertChars(s: Screen, n: nat): (r: Screen)
    requires s.Valid()
    ensures r.Valid()
  {
    var k := Min(n, s.cols - s.curCol);
    s.(cells := s.cells[s.curRow := OpenGap(s.cells[s.curRow], s.curCol, k, BlankCell(s.pen))])
  }

  /** DCH. */
  function DeleteChars(s: Screen, n: nat): (r: Screen)
    requires s.Valid()
    ensures r.Valid()
  {
    var k := Min(n, s.cols - s.curCol);
    var row := s.cells[s.curRow];
    s.(cells := s.cells[s.curRow := row[..s.curCol] + row[s.curCol + k..] + BlankRow(k, BlankCell(s.pen))])
  }

  /** IL: the region is cut short at the cursor's row while it scrolls. */
  function InsertLines(s: Screen, n: nat): (r: Screen)
    requires s.Valid()
    ensures r.Valid()
  {
    var s1 := if s.top <= s.curRow <= s.bottom then ScrollDown(s.(top := s.curRow), n).(top := s.top) else s;
    CarriageReturn(s1)
  }

  /** DL. */
  function DeleteLines(s: Screen, n: nat): (r: Screen)
    requires s.Valid()
    ensures r.Valid()
  {
    var s1 := if s.top <= s.curRow <= s.bottom then ScrollUp(s.(top := s.curRow), n).(top := s.top) else s;
    CarriageReturn(s1)
  }

  /** DECSTBM, with the 1-based rows it is given. */
  function SetRegion(s: Screen, first: nat, last: nat): (r: Screen)
    requires s.Valid()
    ensures r.Valid()
  {
    var top: int := if first == 0 then 0 else first - 1;
    var bottom := Min(last - 1, s.rows - 1);
    var s1 := if top < bottom then s.(top := top, bottom := bottom) else s;
    CursorSet(s1, if s1.origin then s1.top else 0, 0)
  }

  /* ---- saved cursor and alternate screen ---- */

  function SaveCursor(s: Screen): (r: Screen)
    requires s.Valid()
    ensures r.Valid()
  {
    s.(savedRow := s.curRow, savedCol := s.curCol, savedPen := s.pen, savedWrap := s.autoWrap)
  }

  function RestoreCursor(s: Screen): (r: Screen)
    requires s.Valid()
    ensures r.Valid()
  {
    s.(curRow := s.savedRow, curCol := s.savedCol, pen := s.savedPen, autoWrap := s.savedWrap, pendingWrap := false)
  }

  /** The two screens change places. */
  function Swap(s: Screen): (r: Screen)
    requires s.Valid() && s.hidden.Grid?
    ensures r.Valid()
  {
    s.(cells := s.hidden.cells, flags := s.hidden.flags, hidden := Grid(s.cells, s.flags), inAlt := !s.inAlt)
  }

  /** The cursor goes home but a pending wrap stays pending. */
  function EnterAlt(s: Screen): (r: Screen)
    requires s.Valid()
    ensures r.Valid()
  {
    if s.inAlt then s
    else
      s.(altRow := s.curRow, altCol := s.curCol, altPen := s.pen,
         cells := BlankGrid(s.rows, s.cols, BlankCell(s.pen)), flags := NoFlags(s.rows),
         hidden := Grid(s.cells, s.flags), inAlt := true,
         curRow := 0, curCol := 0, top := 0, bottom := s.rows - 1)
  }

  function LeaveAlt(s: Screen): (r: Screen)
    requires s.Valid()
    ensures r.Valid()
  {
    if !s.inAlt then s
    else Swap(s).(curRow := s.altRow, curCol := s.altCol, pen := s.altPen)
  }

  /* ---- SGR ---- */

  /** The attribute an SGR code sets. */
  function AttrOfCode(v: nat): (a: set<Attr>) {
    match v
    case 1 => {Bold} case 2 => {Dim} case 3 => {Italic} case 4 => {Underline}
    case 5 => {Blink} case 7 => {Reverse} case 8 => {Invis} case 9 => {Strike}
    case _ => {}
  }

  /** The attributes an SGR code takes off. */
  function AttrOffCode(v: nat): set<Attr> {
    match v
    case 22 => {Bold, Dim} case 23 => {Italic} case 24 => {Underline}
    case 25 => {Blink} case 27 => {Reverse} case 28 => {Invis} case 29 => {Strike}
    case _ => {}
  }

  /** One SGR code on its own. */
  function SgrCode(pen: Pen, v: nat): Pen {
    if v == 0 then DEFAULT_PEN
    else if v < 10 then pen.(attrs := pen.attrs + AttrOfCode(v))
    else if v < 30 then pen.(attrs := pen.attrs - AttrOffCode(v))
    else if v < 38 then pen.(fg := v - 30)
    else if v == 39 then pen.(fg := COLOR_DEFAULT)
    else if 40 <= v < 48 then pen.(bg := v - 40)
    else if v == 49 then pen.(bg := COLOR_DEFAULT)
    else if 90 <= v < 98 then pen.(fg := v - 90 + 8)
    else if 100 <= v < 108 then pen.(bg := v - 100 + 8)
    else pen
  }

  /** handle_sgr's loop over the parameters not read yet: 38 and 48 take more parameters. */
  function SgrList(pen: Pen, ps: seq<nat>): Pen
    decreases |ps|
  {
    if |ps| == 0 then pen
    else if ps[0] == 38 || ps[0] == 48 then
      if |ps| > 2 && ps[1] == 5 then
        SgrList(if ps[0] == 38 then pen.(fg := ps[2] % 65536) else pen.(bg := ps[2] % 65536), ps[3..])
      else if |ps| > 4 && ps[1] == 2 then SgrList(pen, ps[5..])
      else SgrList(pen, ps[1..])
    else SgrList(SgrCode(pen, ps[0]), ps[1..])
  }

  function Sgr(s: Screen, ps: seq<nat>): (r: Screen)
    requires s.Valid()
    ensures r.Valid()
  {
    s.(pen := if |ps| == 0 then DEFAULT_PEN else SgrList(s.pen, ps))
  }
}
