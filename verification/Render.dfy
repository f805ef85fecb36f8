/** The differential renderer (tmux/render.c). */
module Render {
  import opened Cells
  import opened Vt
  import opened TermOps
  import opened Moves
  import opened Paint
  import opened Shadow
  import opened Diff
  import SgrCodes

  const GAP_FILL_MAX := 4
  const SCROLL_MIN_SAVING := 32
  const HIDE_MIN_CELLS := 48

  const UNKNOWN_CELL := Cell(UNKNOWN, 0, 0, {}, false, false, false, false, false)

  /** The terminal is in the modes the renderer relies on: nothing has been set but what it sets itself. */
  ghost predicate Plain(t: Screen) {
    t.Valid() && t.autoWrap && !t.insert && !t.origin && t.top == 0 && t.bottom == t.rows - 1
  }

  lemma StepErase(t: Screen)
    requires t.Valid() && t.pen == DEFAULT_PEN
    ensures Step(t, EraseToEol)
            == t.(cells := t.cells[t.curRow := ClearRange(t.cells[t.curRow], t.curCol, t.cols - 1, BLANK)],
                  flags := t.flags[t.curRow := false])
  {
    hide ClearRange;
  }

  /** t1 is t0 but for cells, wrap flags, cursor, pen and the terminal's own history. */
  ghost predicate SameButContent(t0: Screen, t1: Screen) {
    t1 == t0.(cells := t1.cells, flags := t1.flags, history := t1.history,
              curRow := t1.curRow, curCol := t1.curCol, pendingWrap := t1.pendingWrap, pen := t1.pen)
  }

  /** t1 is t0 but for those and the cursor's visibility. */
  ghost predicate SameModes(t0: Screen, t1: Screen) {
    SameButContent(t0.(visible := t1.visible), t1)
  }

  lemma SameModesTrans(t0: Screen, t1: Screen, t2: Screen)
    requires SameModes(t0, t1) && SameModes(t1, t2)
    ensures SameModes(t0, t2)
  {
  }

  lemma SameModesSelf(t: Screen)
    ensures SameModes(t, t)
  {
  }

  function At(t: Screen, row: nat, col: nat): Screen {
    t.(curRow := row, curCol := col, pendingWrap := false)
  }

  /* ---- cursor moves ---- */

  lemma {:induction false} RunLineFeeds(t: Screen, n: nat)
    requires Plain(t) && t.curRow + n < t.rows && n > 0
    ensures Run(t, Repeat(Lf, n)) == At(t, t.curRow + n, t.curCol)
  {
    hide Run, ScrollUp;
    assert Repeat(Lf, n) == Repeat(Lf, n - 1) + [Lf];
    RunSnoc(t, Repeat(Lf, n - 1), Lf);
    if n > 1 {
      RunLineFeeds(t, n - 1);
    } else {
      RunOne(t, Lf);
      assert Repeat(Lf, 0) == [];
    }
  }

  lemma {:induction false} RunBackspaces(t: Screen, n: nat)
    requires t.Valid() && 0 < n <= t.curCol
    ensures Run(t, Repeat(Bs, n)) == At(t, t.curRow, t.curCol - n)
  {
    hide Run, Step;
    if n == 1 {
      assert Repeat(Bs, n) == [Bs];
      RunOne(t, Bs);
      StepBackspace(t);
    } else {
      assert Repeat(Bs, n) == Repeat(Bs, n - 1) + [Bs];
      RunSnoc(t, Repeat(Bs, n - 1), Bs);
      RunBackspaces(t, n - 1);
      StepBackspace(At(t, t.curRow, t.curCol - (n - 1)));
    }
  }

  lemma StepBackspace(t: Screen)
    requires t.Valid() && 0 < t.curCol
    ensures Step(t, Bs) == At(t, t.curRow, t.curCol - 1)
  {
  }

  /** One sequence that puts the cursor somewhere, in the modes the renderer works in. */
  lemma RunMove(t: Screen, op: Op, row: nat, col: nat)
    requires Plain(t) && row < t.rows && col < t.cols
    requires match op
             case Cup(r, c) => r == row && c == col
             case Up(n) => t.curRow - n == row && t.curCol == col
             case Down(n) => t.curRow + n == row && t.curCol == col
             case Forward(n) => t.curRow == row && t.curCol + n == col
             case Column(c) => t.curRow == row && c == col
             case Cr => t.curRow == row && col == 0
             case _ => false
    ensures Run(t, [op]) == At(t, row, col)
  {
    hide Run;
    RunOne(t, op);
  }

  /* ---- printing ---- */

  function CellWidth(c: Cell): nat { if c.wide then 2 else 1 }

  /** The terminal after a cell is printed at column c of its row, with room for it. */
  function Shown(t: Screen, c: nat, cell: Cell): Screen
    requires t.Valid() && c < t.cols
  {
    t.(cells := t.cells[t.curRow := PrintOn(t.cells[t.curRow], c, cell)],
       curCol := Min(c + CellWidth(cell), t.cols - 1), pendingWrap := c + CellWidth(cell) >= t.cols)
  }

  /** t1 is a plain terminal of t's size and pen, its cursor in row r just before column c (or waiting at the
      margin). */
  ghost predicate PlainAt(t1: Screen, t: Screen, r: nat, c: nat) {
    && Plain(t1) && t1.rows == t.rows && t1.cols == t.cols && t1.pen == t.pen && t1.curRow == r
    && t1.curCol == Min(c, t.cols - 1) && t1.pendingWrap == (c >= t.cols)
  }

  lemma ShownPlain(t: Screen, c: nat, cell: Cell)
    requires Plain(t) && c < t.cols
    ensures PlainAt(Shown(t, c, cell), t, t.curRow, c + CellWidth(cell))
  {
    hide PrintOn;
  }

  lemma PlaceShows(t: Screen, cell: Cell)
    requires t.Valid() && !t.insert && t.pen == PenOf(cell) && t.curCol + CellWidth(cell) <= t.cols
    ensures Place(t, Glyph(cell), CellWidth(cell)) == Shown(t, t.curCol, cell)
  {
  }

  lemma PrintInPlace(t: Screen, cell: Cell)
    requires Plain(t) && !t.pendingWrap && t.pen == PenOf(cell)
    requires CellOk(cell) && t.curCol + CellWidth(cell) <= t.cols
    ensures Step(t, Print(Glyph(cell))) == Shown(t, t.curCol, cell)
    ensures PlainAt(Step(t, Print(Glyph(cell))), t, t.curRow, t.curCol + CellWidth(cell)) && Fits(Print(Glyph(cell)))
  {
    hide Place, Width.CpWidth, Wrap, Shown;
    ShownPlain(t, t.curCol, cell);
    PlaceShows(t, cell);
  }

  /** Printing on a full row: the row is marked as wrapped, and the cell goes to the start of the next. */
  lemma PrintWraps(t: Screen, cell: Cell)
    requires Plain(t) && t.pendingWrap && t.pen == PenOf(cell) && t.curRow + 1 < t.rows && CellOk(cell)
    ensures Step(t, Print(Glyph(cell)))
            == Shown(t.(flags := t.flags[t.curRow := true], curRow := t.curRow + 1, curCol := 0, pendingWrap := false),
                     0, cell)
    ensures PlainAt(Step(t, Print(Glyph(cell))), t, t.curRow + 1, CellWidth(cell)) && Fits(Print(Glyph(cell)))
  {
    hide Place, Width.CpWidth, Shown, ScrollUp;
    ShownPlain(Wrap(t), 0, cell);
    PlaceShows(Wrap(t), cell);
  }

  /* ---- rows ---- */

  /** wrap_cell_col: the cell that ends a full row. */
  function WrapCellCol(row: Row): int {
    if |row| > 0 && row[|row| - 1].cont then |row| - 2 else |row| - 1
  }

  /** What a well-formed row says of its cell c. */
  lemma WantCell(row: Row, c: nat)
    requires RowOk(row) && c < |row|
    ensures row[c].cont || (CellOk(row[c]) && c + CellWidth(row[c]) <= |row|)
    ensures c == 0 ==> !row[c].cont
    ensures c == WrapCellCol(row) ==> !row[c].cont && c + CellWidth(row[c]) == |row|
    ensures c > WrapCellCol(row) ==> row[c].cont
  {
  }

  /** Row r, and if it wraps the row below, may have been drawn on; `made` says whether the wrap happened. */
  ghost predicate Drew(t0: Screen, t1: Screen, r: nat, wrapped: bool, made: bool) {
    && SameButContent(t0, t1)
    && |t1.cells| == |t0.cells| && r < |t0.flags| && (made ==> wrapped)
    && (forall k :: 0 <= k < |t0.cells| && k != r && (wrapped ==> k != r + 1) ==> t1.cells[k] == t0.cells[k])
    && (wrapped ==> t1.flags == if made then t0.flags[r := true] else t0.flags)
    && (!wrapped ==> t1.flags == t0.flags || t1.flags == t0.flags[r := false])
  }

  lemma DrewNothing(t: Screen, r: nat, wrapped: bool)
    requires r < |t.flags|
    ensures Drew(t, t, r, wrapped, false)
  {
  }

  lemma DrewGap(t0: Screen, t1: Screen, r: nat, wrapped: bool)
    requires SameButContent(t0, t1) && r < |t0.cells| == |t1.cells| == |t0.flags|
    requires t1.flags == t0.flags && t1.cells == t0.cells[r := t1.cells[r]]
    ensures Drew(t0, t1, r, wrapped, false)
  {
  }

  /** A cell printed in row r is drawn there. */
  lemma DrewShown(t: Screen, r: nat, c: nat, cell: Cell, wrapped: bool)
    requires t.Valid() && r < t.rows && c < t.cols
    ensures var t1 := Shown(At(t, r, c).(pen := PenOf(cell)), c, cell);
            Drew(t, t1, r, wrapped, false) && t1.cells[r] == PrintOn(t.cells[r], c, cell)
            && (r + 1 < t.rows ==> t1.cells[r + 1] == t.cells[r + 1])
  {
    hide PrintOn;
  }

  /** The first cell below printed at once makes the wrap. */
  lemma DrewWrap(t: Screen, r: nat, cell: Cell)
    requires t.Valid() && r + 1 < t.rows
    ensures var t1 := Shown(At(t.(flags := t.flags[r := true]), r + 1, 0).(pen := PenOf(cell)), 0, cell);
            Drew(t, t1, r, true, true) && t1.cells[r + 1] == PrintOn(t.cells[r + 1], 0, cell)
            && t1.cells[r] == t.cells[r]
  {
    hide PrintOn;
  }

  lemma DrewErase(t0: Screen, t1: Screen, r: nat)
    requires SameButContent(t0, t1) && r < |t0.cells| == |t1.cells| == |t0.flags|
    requires t1.flags == t0.flags[r := false] && t1.cells == t0.cells[r := t1.cells[r]]
    ensures Drew(t0, t1, r, false, false)
  {
  }

  lemma DrewTrans(t0: Screen, t1: Screen, t2: Screen, r: nat, wrapped: bool, made1: bool, made2: bool)
    requires Drew(t0, t1, r, wrapped, made1) && Drew(t1, t2, r, wrapped, made2)
    ensures Drew(t0, t2, r, wrapped, made1 || made2)
  {
  }

  /** The row below a row that wraps, and the belief about it. */
  ghost predicate NextOk(nrow: Row, nsrow: Row, shown: Row, cols: nat) {
    |nrow| == |nsrow| == cols && RowOk(nrow) && Belief(nsrow, shown)
  }

  /* ---- scrolling ---- */

  /** The line operation of a scroll. */
  function LineOp(shift: int): Op {
    if shift > 0 then DelLines(shift) else InsLines(-shift)
  }

  /** The region set, m lines deleted or inserted at its top, and the region reset again. */
  function ScrollOps(rows: nat, shift: int): seq<Op> {
    [Region(rows), LineOp(shift), ResetRegion]
  }

  /** The terminal after them: the first `rows` rows moved, with their wrap flags, and the cursor home. */
  function ScrolledTerm(t: Screen, rows: nat, shift: int, history: Scrollback.History): Screen
    requires t.Valid() && rows <= t.rows
  {
    t.(cells := Scrolled(t.cells, rows, t.cols, shift), flags := ScrolledFlags(t.flags, rows, shift),
       history := history, curRow := 0, curCol := 0, pendingWrap := false)
  }

  lemma ScrolledUp(cells: seq<Row>, rows: nat, cols: nat, m: nat)
    requires rows <= |cells| && 0 < m < rows
    ensures Scrolled(cells, rows, cols, m) == cells[m..rows] + BlankGrid(m, cols, BLANK) + cells[rows..]
  {
  }

  lemma ScrolledDown(cells: seq<Row>, rows: nat, cols: nat, m: nat)
    requires rows <= |cells| && 0 < m < rows
    ensures Scrolled(cells, rows, cols, 0 - m) == BlankGrid(m, cols, BLANK) + cells[..rows - m] + cells[rows..]
  {
  }

  lemma FlagsUp(flags: seq<bool>, rows: nat, m: nat)
    requires rows <= |flags| && 0 < m < rows
    ensures ScrolledFlags(flags, rows, m) == flags[m..rows] + NoFlags(m) + flags[rows..]
  {
  }

  lemma FlagsDown(flags: seq<bool>, rows: nat, m: nat)
    requires rows <= |flags| && 0 < m < rows
    ensures ScrolledFlags(flags, rows, 0 - m) == NoFlags(m) + flags[..rows - m] + flags[rows..]
  {
  }

  lemma DeleteMoves(t: Screen, rows: nat, m: nat)
    requires t.Valid() && t.pen == DEFAULT_PEN && t.curRow == 0 && t.top == 0 && t.bottom == rows - 1 && 0 < m < rows
    ensures var t1 := DeleteLines(t, m);
      t1 == t.(cells := t.cells[..0] + t.cells[m..rows] + BlankGrid(m, t.cols, BLANK) + t.cells[rows..],
               flags := t.flags[..0] + t.flags[m..rows] + NoFlags(m) + t.flags[rows..],
               history := t1.history, curRow := 0, curCol := 0, pendingWrap := false)
  {
    hide Scrollback.CaptureRows, BlankGrid, NoFlags;
  }

  lemma DeleteScrolls(t: Screen, rows: nat, m: nat)
    requires t.Valid() && t.pen == DEFAULT_PEN && t.curRow == 0 && t.top == 0 && t.bottom == rows - 1 && 0 < m < rows
    ensures var t1 := DeleteLines(t, m); t1 == ScrolledTerm(t, rows, m, t1.history)
  {
    hide DeleteLines, Scrolled, ScrolledFlags, BlankGrid, NoFlags;
    DeleteMoves(t, rows, m);
    ScrolledUp(t.cells, rows, t.cols, m);
    FlagsUp(t.flags, rows, m);
    assert t.cells[..0] + t.cells[m..rows] == t.cells[m..rows];
    assert t.flags[..0] + t.flags[m..rows] == t.flags[m..rows];
  }

  lemma InsertMoves(t: Screen, rows: nat, m: nat)
    requires t.Valid() && t.pen == DEFAULT_PEN && t.curRow == 0 && t.top == 0 && t.bottom == rows - 1 && 0 < m < rows
    ensures var t1 := InsertLines(t, m);
      && t1 == t.(cells := t1.cells, flags := t1.flags, curCol := 0, pendingWrap := false)
      && t1.cells == t.cells[..0] + BlankGrid(m, t.cols, BLANK) + t.cells[0..rows - m] + t.cells[rows..]
      && t1.flags == t.flags[..0] + NoFlags(m) + t.flags[0..rows - m] + t.flags[rows..]
  {
    hide BlankGrid, NoFlags;
  }

  lemma InsertScrolls(t: Screen, rows: nat, m: nat)
    requires t.Valid() && t.pen == DEFAULT_PEN && t.curRow == 0 && t.top == 0 && t.bottom == rows - 1 && 0 < m < rows
    ensures InsertLines(t, m) == ScrolledTerm(t, rows, 0 - m, t.history)
  {
    hide InsertLines, Scrolled, ScrolledFlags, BlankGrid, NoFlags;
    InsertMoves(t, rows, m);
    ScrolledDown(t.cells, rows, t.cols, m);
    FlagsDown(t.flags, rows, m);
    assert t.cells[..0] + BlankGrid(m, t.cols, BLANK) == BlankGrid(m, t.cols, BLANK);
    assert t.flags[..0] + NoFlags(m) == NoFlags(m);
    assert t.cells[0..rows - m] == t.cells[..rows - m] && t.flags[0..rows - m] == t.flags[..rows - m];
  }

  lemma RegionSet(t: Screen, rows: nat)
    requires Plain(t) && 2 <= rows <= t.rows
    ensures Step(t, Region(rows)) == At(t, 0, 0).(bottom := rows - 1)
  {
  }

  lemma RegionReset(t: Screen)
    requires t.Valid() && !t.origin && 2 <= t.rows
    ensures Step(t, ResetRegion) == At(t, 0, 0).(top := 0, bottom := t.rows - 1)
  {
  }

  lemma LineOpFits(shift: int)
    requires 0 < Abs(shift) < PARAM_LIMIT
    ensures Fits(LineOp(shift))
  {
  }

  lemma LineOpScrolls(t: Screen, rows: nat, shift: int)
    requires t.Valid() && t.pen == DEFAULT_PEN && t.curRow == 0 && t.top == 0 && t.bottom == rows - 1
             && 0 < Abs(shift) < rows
    ensures var t1 := Step(t, LineOp(shift)); t1 == ScrolledTerm(t, rows, shift, t1.history)
  {
    hide Step, DeleteLines, InsertLines, Scrolled, ScrolledFlags;
    StepLines(t, LineOp(shift));
    if shift > 0 { DeleteScrolls(t, rows, shift); } else { InsertScrolls(t, rows, -shift); }
  }

  lemma ScrollRuns(t: Screen, rows: nat, shift: int)
    requires Plain(t) && t.pen == DEFAULT_PEN && 2 <= rows <= t.rows <= MAX_DIM && 0 < Abs(shift) < rows
    ensures AllFit(ScrollOps(rows, shift))
    ensures var t1 := Run(t, ScrollOps(rows, shift));
            Plain(t1) && t1 == ScrolledTerm(t, rows, shift, t1.history)
  {
    hide Run, Step, Scrolled, ScrolledFlags, LineOp;
    var region := At(t, 0, 0).(bottom := rows - 1);
    RunThree(t, Region(rows), LineOp(shift), ResetRegion);
    RegionSet(t, rows);
    LineOpScrolls(region, rows, shift);
    RegionReset(Step(region, LineOp(shift)));
    LineOpFits(shift);
  }

  lemma StepLines(t: Screen, op: Op)
    requires t.Valid()
    ensures op.DelLines? ==> Step(t, op) == DeleteLines(t, op.n)
    ensures op.InsLines? ==> Step(t, op) == InsertLines(t, op.n)
  {
  }

  /* ---- screens ---- */

  /** A screen of the renderer's size whose rows are well formed. */
  ghost predicate ScreenOk(s: Screen, rows: nat, cols: nat) {
    && s.Valid() && s.rows == rows && s.cols == cols
    && forall r :: 0 <= r < rows ==> RowOk(s.cells[r])
  }

  /** row_wants_wrap: the last row never does, for its wrap would scroll. */
  predicate WantsWrap(s: Screen, r: nat)
    requires r < |s.flags|
  {
    s.cols >= 2 && r + 1 < s.rows && s.flags[r]
  }

  /** Row r of the terminal is row r of the screen, wrap flag and all. */
  ghost predicate RowDone(t: Screen, s: Screen, r: nat) {
    && r < |t.cells| && r < |t.flags| && r < |s.cells| && r < |s.flags|
    && RowShows(t.cells[r], s.cells[r]) && t.flags[r] == WantsWrap(s, r)
  }

  lemma RowsKept(t0: Screen, t1: Screen, s: Screen, n: nat)
    requires n <= |t0.cells| == |t1.cells| && n <= |t0.flags| == |t1.flags|
    requires forall k :: 0 <= k < n ==> t1.cells[k] == t0.cells[k] && t1.flags[k] == t0.flags[k]
    requires forall k :: 0 <= k < n ==> RowDone(t0, s, k)
    ensures forall k :: 0 <= k < n ==> RowDone(t1, s, k)
  {
    forall k | 0 <= k < n ensures RowDone(t1, s, k) {
      assert RowDone(t0, s, k);
    }
  }

  lemma EraseRuns(t: Screen)
    requires Plain(t)
    ensures Run(t, [SetPen([]), EraseAll, Cup(0, 0)])
            == At(t, 0, 0).(pen := DEFAULT_PEN, cells := BlankGrid(t.rows, t.cols, BLANK), flags := NoFlags(t.rows))
  {
    hide Run;
    RunThree(t, SetPen([]), EraseAll, Cup(0, 0));
    var t1 := Step(t, SetPen([]));
    assert t1 == t.(pen := DEFAULT_PEN);
    EraseAllClears(t1);
  }

  lemma EraseAllClears(t: Screen)
    requires t.Valid() && t.pen == DEFAULT_PEN
    ensures Step(t, EraseAll) == t.(cells := BlankGrid(t.rows, t.cols, BLANK), flags := NoFlags(t.rows))
  {
    var t1 := ClearRows(t, 0, t.rows);
    assert t1.cells == BlankGrid(t.rows, t.cols, BLANK);
    assert ClearFlags(t1, 0, t.rows).flags == NoFlags(t.rows);
  }

  /** The terminal shows the screen in its first rows: text, wrap flags, and the cursor if it is visible. */
  ghost predicate ShowsScreen(t: Screen, s: Screen) {
    && (forall r :: 0 <= r < s.rows ==> RowDone(t, s, r))
    && t.visible == s.visible
    && (s.visible ==> t.curRow == s.curRow && t.curCol == s.curCol && !t.pendingWrap)
  }

  /** A terminal that shows a screen paints what the screen does. */
  lemma ShowsPaints(t: Screen, s: Screen)
    requires ShowsScreen(t, s) && s.Valid()
    ensures ScreenPainted(t, s)
  {
    hide RowShows, RowPainted;
    forall r | 0 <= r < s.rows
      ensures r < |t.cells| && r < |t.flags| && RowPainted(t.cells[r], s.cells[r])
              && t.flags[r] == (s.flags[r] && r < s.rows - 1)
    {
      assert RowDone(t, s, r);
      RowLooksPaint(t.cells[r], s.cells[r]);
    }
    assert RowDone(t, s, s.rows - 1);
  }

  /** A renderer and, for the record, the terminal it writes to. */
  class RenderState {
    const rows: nat
    const cols: nat
    var shadow: array<Row>
    var rowWrapped: array<bool>
    var cursorRow: int
    var cursorCol: int
    var status: Row
    var statusRow: int
    var pen: Pen
    var cursorVisible: bool

    /** Everything written so far. */
    var out: seq<Op>
    /** The terminal before anything was written, and now. */
    ghost var start: Screen
    ghost var term: Screen

    /** The terminal is what the bytes written make of it. */
    ghost predicate Linked()
      reads this`start, this`term, this`out
    {
      start.Valid() && term == Run(start, out) && AllFit(out)
    }

    /** What is believed about the cursor. Its column counts only if it is not past the end of a row. */
    ghost predicate CursorBelief()
      reads this`term, this`cursorRow, this`cursorCol
    {
      cursorRow >= 0 ==>
        && term.curRow == cursorRow
        && (0 <= cursorCol < cols ==> term.curCol == cursorCol && !term.pendingWrap)
    }

    ghost predicate Ready()
      reads this`start, this`term, this`out, this`cursorRow, this`cursorCol, this`pen
    {
      && Linked() && Plain(term) && term.cols == cols <= MAX_DIM && rows < term.rows <= MAX_DIM
      && CursorBelief() && term.pen == pen && SgrCodes.PenOk(pen)
    }

    method Emit(op: Op)
      requires Linked() && Fits(op)
      modifies this`out, this`term
      ensures Linked() && term == Step(old(term), op) && out == old(out) + [op]
    {
      hide Step, Run;
      RunSnoc(start, out, op);
      out := out + [op];
      term := Step(term, op);
    }

    method EmitAll(ops: seq<Op>)
      requires Linked() && AllFit(ops)
      modifies this`out, this`term
      ensures Linked() && term == Run(old(term), ops) && out == old(out) + ops
    {
      hide Step, Run;
      RunOne(term, Cr);
      assert ops[..0] == [];
      for i := 0 to |ops|
        invariant Linked() && term == Run(old(term), ops[..i]) && out == old(out) + ops[..i]
      {
        assert ops[..i + 1] == ops[..i] + [ops[i]];
        RunSnoc(old(term), ops[..i], ops[i]);
        Emit(ops[i]);
      }
      assert ops[..|ops|] == ops;
    }

    /** emit_move: the shortest of the sequences that are certain to work. */
    method EmitMove(row: nat, col: nat)
      requires Ready() && row < term.rows && col < cols
      modifies this`out, this`term, this`cursorRow, this`cursorCol
      ensures Ready() && cursorRow == row && cursorCol == col
      ensures term == At(old(term), row, col)
      ensures out == old(out)
              + MoveOps(old(cursorRow), if 0 <= old(cursorCol) < cols then old(cursorCol) else -1, row, col)
    {
      hide Run, Step, BytesOf, VerticalOps, HorizontalOps;
      var cr, cc := cursorRow, cursorCol;
      if cr == row && cc == col { return; }
      var best := [Cup(row, col)];
      RunMove(term, Cup(row, col), row, col);
      if cr >= 0 {
        var t := RelativeMove(row, col);
        if |BytesOf(t)| < |BytesOf(best)| { best := t; }
      }
      EmitAll(best);
      cursorRow, cursorCol := row, col;
    }

    /** A move in two parts, down or up and then along the row, when the cursor's row is known. */
    method RelativeMove(row: nat, col: nat) returns (t: seq<Op>)
      requires Ready() && row < term.rows && col < cols && cursorRow >= 0 && !(cursorRow == row && cursorCol == col)
      ensures AllFit(t) && Run(term, t) == At(term, row, col)
      ensures t == VerticalOps(row - cursorRow) + HorizontalOps(if 0 <= cursorCol < cols then cursorCol else -1, col)
    {
      hide Run, Step, VerticalOps, HorizontalOps;
      var kc := if 0 <= cursorCol < cols then cursorCol else -1;
      var v := VerticalMove(row - cursorRow);
      ghost var t1 := Run(term, v);
      assert t1.curRow == row && t1.curCol == term.curCol;
      var h := HorizontalMove(kc, col, t1);
      RunAppend(term, v, h);
      t := v + h;
    }

    /** The first part of a relative move: dr rows down, the column kept. */
    method VerticalMove(dr: int) returns (t: seq<Op>)
      requires Ready() && 0 <= term.curRow + dr < term.rows
      ensures AllFit(t) && t == VerticalOps(dr)
      ensures Run(term, t) == if dr == 0 then term else At(term, term.curRow + dr, term.curCol)
    {
      hide Run, Step;
      if 0 < dr <= 3 {
        t := Repeat(Lf, dr);
        RunLineFeeds(term, dr);
      } else if dr != 0 {
        t := [if dr > 0 then Down(dr) else Up(-dr)];
        RunMove(term, t[0], term.curRow + dr, term.curCol);
      } else {
        t := [];
        RunOne(term, Cr);
      }
    }

    /** The second part: to column col of the row t1 is on, from column kc if that is known. */
    method HorizontalMove(kc: int, col: nat, ghost t1: Screen) returns (h: seq<Op>)
      requires Plain(t1) && t1.cols == cols <= MAX_DIM && col < cols
      requires kc >= -1 && (kc >= 0 ==> t1.curCol == kc)
      requires kc == col ==> !t1.pendingWrap
      ensures AllFit(h) && h == HorizontalOps(kc, col)
      ensures Run(t1, h) == At(t1, t1.curRow, col)
    {
      hide Run, Step;
      if col == 0 {
        h := [Cr];
        RunMove(t1, Cr, t1.curRow, 0);
      } else if kc >= 0 && col < kc && kc - col <= 3 {
        h := Repeat(Bs, kc - col);
        RunBackspaces(t1, kc - col);
      } else if kc >= 0 && col > kc {
        h := [Forward(col - kc)];
        RunMove(t1, h[0], t1.curRow, col);
      } else if kc != col {
        h := [Column(col)];
        RunMove(t1, h[0], t1.curRow, col);
      } else {
        h := [];
        RunOne(t1, Cr);
      }
    }

    /** emit_sgr: a reset and everything, or only the changes if that is shorter and possible. */
    method EmitSgr(target: Pen)
      requires Ready() && SgrCodes.PenOk(target)
      modifies this`out, this`term, this`pen
      ensures Ready() && pen == target
      ensures term == old(term).(pen := target)
    {
      hide Run, SgrCodes.Params, SgrCodes.AttrCodes, Bytes, SgrList;
      if target == pen { return; }
      var ps := SgrCodes.SgrParams(false, pen, target);
      var full := SetPen(if |ps| == 0 then [] else [0] + ps);
      SgrCodes.FullRead(term, target);
      SgrCodes.ParamsFit(false, pen, target);
      SgrCodes.ParamsSmall(false, pen, target);
      var op := full;
      if pen.attrs <= target.attrs {
        var inc := SgrCodes.SgrParams(true, pen, target);
        if |inc| > 0 && |Bytes(SetPen(inc))| < |Bytes(full)| {
          SgrCodes.IncRead(term, target);
          SgrCodes.ParamsFit(true, pen, target);
          SgrCodes.ParamsSmall(true, pen, target);
          op := SetPen(inc);
        }
      }
      Emit(op);
      pen := target;
    }

    /** put_cell; without `move`, where a full row makes the terminal wrap to. */
    method PutCell(r: nat, c: nat, cell: Cell, srow: Row, move: bool) returns (srow': Row)
      requires Ready() && CellOk(cell) && r < term.rows && c + CellWidth(cell) <= cols == |srow|
      requires move || (term.pendingWrap && term.curRow + 1 == r && c == 0)
      modifies this`out, this`term, this`cursorRow, this`cursorCol, this`pen
      ensures Ready() && srow' == RecordOn(srow, c, cell)
      ensures cursorRow == r && cursorCol == c + CellWidth(cell)
      ensures PlainAt(term, term, r, c + CellWidth(cell))
      ensures var t := if move then old(term) else old(term).(flags := old(term).flags[r - 1 := true]);
              term == Shown(At(t, r, c).(pen := PenOf(cell)), c, cell)
    {
      hide Run, Step, RecordOn, Shadow.CellOk, Shown;
      if move { EmitMove(r, c); }
      EmitSgr(PenOf(cell));
      if move { PrintInPlace(term, cell); } else { PrintWraps(term, cell); }
      // A blank is one column wide, so it never has a continuation to fill.
      Emit(Print(Glyph(cell)));
      srow' := RecordOn(srow, c, cell);
      cursorRow, cursorCol := r, c + CellWidth(cell);
    }

    /** The short gap before column c filled with blanks, when that keeps what is shown and costs no SGR. */
    method FillGap(want: Row, ghost srow: Row, r: nat, c: nat)
      requires Ready() && r < term.rows && c < cols == |want|
      requires RowOk(want) && Drawn(want, srow, term.cells[r], c)
      modifies this`out, this`term, this`cursorCol
      ensures Ready() && SameButContent(old(term), term)
      ensures term.flags == old(term).flags && term.cells == old(term).cells[r := term.cells[r]]
      ensures Drawn(want, srow, term.cells[r], c)
    {
      hide Run, Step, Drawn, Shadow.RowOk, ScrollUp;
      if cursorRow != r || cursorCol < 0 || cursorCol >= c || c - cursorCol > GAP_FILL_MAX || pen != DEFAULT_PEN {
        return;
      }
      for k := cursorCol to c
        invariant forall j :: cursorCol <= j < k ==> IsBlank(want[j])
      {
        if !IsBlank(want[k]) { return; }
      }
      while cursorCol < c
        invariant old(cursorCol) <= cursorCol <= c
        invariant Ready() && cursorRow == r && pen == DEFAULT_PEN && SameButContent(old(term), term)
        invariant term.flags == old(term).flags && term.cells == old(term).cells[r := term.cells[r]]
        invariant Drawn(want, srow, term.cells[r], c)
      {
        PrintInPlace(term, BLANK);
        DrawnFill(want, srow, term.cells[r], c, cursorCol, BLANK);
        Emit(Print(SPACE));
        cursorCol := cursorCol + 1;
      }
    }

    /** The rest of row r, from column c, erased in the default colours. */
    method EraseFrom(r: nat, c: nat)
      requires Ready() && r < term.rows && c < cols
      modifies this`out, this`term, this`cursorRow, this`cursorCol, this`pen
      ensures Ready() && SameButContent(old(term), term) && cursorRow == r
      ensures term.flags == old(term).flags[r := false]
      ensures term.cells == old(term).cells[r := ClearRange(old(term).cells[r], c, cols - 1, BLANK)]
    {
      hide Run, Step, BytesOf, ClearRange;
      EmitMove(r, c);
      EmitSgr(DEFAULT_PEN);
      StepErase(term);
      Emit(EraseToEol);
    }

    /** One cell of row r printed; if it ends a row that wraps, the first cell below is printed at once. */
    method DrawCell(want: Row, srow0: Row, r: nat, c: nat, wrapped: bool, nrow: Row, nsrow0: Row)
      returns (made: bool, srow: Row, nsrow: Row)
      requires Ready() && r < term.rows && c < cols == |want| == |srow0|
      requires RowOk(want) && Drawn(want, srow0, term.cells[r], c) && !want[c].cont
      requires wrapped ==> r + 1 < term.rows && NextOk(nrow, nsrow0, term.cells[r + 1], cols)
      modifies this`out, this`term, this`cursorRow, this`cursorCol, this`pen
      ensures Ready() && Drew(old(term), term, r, wrapped, made) && |srow| == cols
      ensures Drawn(want, srow, term.cells[r], c + 1) && srow == RecordOn(srow0, c, want[c])
      ensures if wrapped then NextOk(nrow, nsrow, term.cells[r + 1], cols) else nsrow == nsrow0
      ensures wrapped && c == WrapCellCol(want) ==> made
    {
      hide Run, Step, Drawn, Belief, Shadow.RowOk, Shadow.CellOk, PrintOn, RecordOn, Shown, At, Drew, SameButContent;
      made, nsrow := false, nsrow0;
      WantCell(want, c);
      ghost var t0 := term;
      FillGap(want, srow0, r, c);
      ghost var t1 := term;
      DrewGap(t0, t1, r, wrapped);
      DrawnPrint(want, srow0, t1.cells[r], c);
      DrewShown(t1, r, c, want[c], wrapped);
      srow := PutCell(r, c, want[c], srow0, true);
      ghost var t2 := term;
      DrewTrans(t0, t1, t2, r, wrapped, false, false);
      if cursorCol >= cols {
        if wrapped {
          WantCell(nrow, 0);
          assert |t2.cells[r + 1]| == cols >= 2;
          BeliefPrintFirst(nsrow0, t2.cells[r + 1], nrow[0]);
          DrewWrap(t2, r, nrow[0]);
          nsrow := PutCell(r + 1, 0, nrow[0], nsrow0, false);
          DrewTrans(t0, t2, term, r, wrapped, false, true);
          made := true;
        } else {
          cursorCol := -2;
        }
      }
    }

    /** draw_row. */
    method DrawRow(want: Row, srow0: Row, r: nat, wrapped: bool, forceC: int, nrow: Row, nsrow0: Row)
      returns (made: bool, srow: Row, nsrow: Row)
      requires Ready() && r < term.rows && cols == |want| == |srow0|
      requires RowOk(want) && Belief(srow0, term.cells[r])
      requires wrapped ==> r + 1 < term.rows && NextOk(nrow, nsrow0, term.cells[r + 1], cols)
      modifies this`out, this`term, this`cursorRow, this`cursorCol, this`pen
      ensures Ready() && Drew(old(term), term, r, wrapped, made)
      ensures RowShows(term.cells[r], want) && Belief(srow, term.cells[r]) && |srow| == cols
      ensures Recorded(want, srow, cols)
      ensures if wrapped then NextOk(nrow, nsrow, term.cells[r + 1], cols) else nsrow == nsrow0
      ensures wrapped && forceC == WrapCellCol(want) ==> made
    {
      hide Run, Step, Drawn, Belief, Shadow.RowOk, RowShows, Shadow.CellsEq, Plain, Drew, NextOk, ClearRange, Recorded,
           RecordOn;
      var tail := cols;
      while tail > 0 && IsBlank(want[tail - 1])
        invariant 0 <= tail <= cols && forall k :: tail <= k < cols ==> IsBlank(want[k])
      {
        tail := tail - 1;
      }
      made, srow, nsrow := false, srow0, nsrow0;
      BeliefIsDrawn(want, srow, term.cells[r]);
      RecordedNone(want, srow);
      DrewNothing(term, r, wrapped);
      var c := 0;
      while c < cols
        invariant c <= cols == |srow|
        invariant Ready() && term.rows == old(term).rows && Drew(old(term), term, r, wrapped, made)
        invariant Drawn(want, srow, term.cells[r], c) && Recorded(want, srow, c)
        invariant if wrapped then NextOk(nrow, nsrow, term.cells[r + 1], cols) else nsrow == nsrow0
        invariant wrapped && forceC == WrapCellCol(want) && forceC < c ==> made
      {
        var cell := want[c];
        ghost var t := term;
        WantCell(want, c);
        if cell.cont {
          DrawnContinuation(want, srow, term.cells[r], c);
          RecordedContinuation(want, srow, c);
          srow := srow[c := cell];
        } else if c != forceC && CellsEq(cell, srow[c]) {
          DrawnSkip(want, srow, term.cells[r], c);
          RecordedSkip(want, srow, c);
        } else if !wrapped && c >= tail && cols - c > 3 {
          DrawnErase(want, srow, term.cells[r], c, BLANK);
          RecordedErase(want, srow, c);
          EraseFrom(r, c);
          DrewErase(t, term, r);
          DrewTrans(old(term), t, term, r, wrapped, made, false);
          srow := srow[..c] + want[c..];
          c := cols;
          break;
        } else {
          var wrapMade;
          RecordedPrint(want, srow, c);
          wrapMade, srow, nsrow := DrawCell(want, srow, r, c, wrapped, nrow, nsrow);
          DrewTrans(old(term), t, term, r, wrapped, made, wrapMade);
          made := made || wrapMade;
        }
        c := c + 1;
      }
      DrawnAtEnd(want, srow, term.cells[r]);
    }

    /* ---- whole screens ---- */

    ghost predicate Sized()
      reads this`shadow, this`rowWrapped, this`status, this`statusRow, this`term, shadow
    {
      && 1 <= rows < term.rows && shadow.Length == rows + 1 && rowWrapped.Length == rows && |status| == cols
      && (forall r :: 0 <= r <= rows ==> |shadow[r]| == cols)
      && (statusRow == -1 || rows <= statusRow < term.rows)
    }

    /** Everything the renderer believes is true of the terminal. */
    ghost predicate Believes()
      reads this, shadow, rowWrapped
    {
      && Ready() && Sized() && cursorVisible == term.visible
      && (forall r :: 0 <= r < rows ==> Belief(shadow[r], term.cells[r]) && rowWrapped[r] == term.flags[r])
      && (statusRow >= 0 ==> Belief(shadow[rows], term.cells[statusRow]))
    }

    /** The shadow moved as the terminal was: three reversals, and the rows that come in blanked. */
    method MoveShadow(shift: int)
      requires shadow.Length == rows + 1 && rowWrapped.Length == rows && 0 < Abs(shift) < rows
      modifies shadow, rowWrapped
      ensures shadow[..] == Scrolled(old(shadow[..]), rows, cols, shift)
      ensures rowWrapped[..] == ScrolledFlags(old(rowWrapped[..]), rows, shift)
    {
      hide Scrolled, ScrolledFlags, Rotated;
      RotationScrolls(shadow[..], rows, cols, shift);
      RotationScrollsFlags(rowWrapped[..], rows, shift);
      var left, first := LeftOf(rows, shift), FirstOf(rows, shift);
      Rotate(shadow, rows, left);
      Rotate(rowWrapped, rows, left);
      ghost var g, f := shadow[..], rowWrapped[..];
      for r := first to first + Abs(shift)
        invariant shadow[..] == Filled(g, first, r, BlankRow(cols, BLANK))
        invariant rowWrapped[..] == Filled(f, first, r, false)
      {
        shadow[r] := BlankRow(cols, BLANK);
        rowWrapped[r] := false;
      }
    }

    /** The terminal's part of a scroll. */
    method EmitScroll(shift: int)
      requires Ready() && 2 <= rows && 0 < Abs(shift) < rows
      modifies this`out, this`term, this`cursorRow, this`cursorCol, this`pen
      ensures Ready()
      ensures term == ScrolledTerm(old(term).(pen := DEFAULT_PEN), rows, shift, term.history)
    {
      hide Run, Step, ScrollOps, Scrolled, ScrolledFlags;
      EmitSgr(DEFAULT_PEN);
      ScrollRuns(term, rows, shift);
      EmitAll(ScrollOps(rows, shift));
      cursorRow, cursorCol := 0, 0;
    }

    /** The rows below the screen are as they were. */
    ghost predicate Below(t0: Screen, t1: Screen) {
      |t0.cells| == |t1.cells| && forall k :: rows <= k < |t1.cells| ==> t1.cells[k] == t0.cells[k]
    }

    /** scroll_lines. */
    method ScrollLines(shift: int)
      requires Believes() && 2 <= rows && 0 < Abs(shift) < rows
      modifies this`out, this`term, this`cursorRow, this`cursorCol, this`pen, shadow, rowWrapped
      ensures Believes() && SameButContent(old(term), term)
      ensures shadow[..] == Scrolled(old(shadow[..]), rows, cols, shift) && shadow[rows] == old(shadow[rows])
      ensures Below(old(term), term)
    {
      hide Belief, Run;
      EmitScroll(shift);
      MoveShadow(shift);
      BlankBelief(cols);
    }

    /** The shift that matches the most rows of the new screen against the shadow; 0 if fewer than two match. */
    method BestShift(s: Screen) returns (best: int)
      requires Believes() && ScreenOk(s, rows, cols)
      ensures Abs(best) < rows
    {
      hide Belief, RowOk, Plain;
      SizedRows();
      var hnew, hold := new nat[rows], new nat[rows];
      for r := 0 to rows {
        hnew[r] := RowHash(s.cells[r]);
        hold[r] := RowHash(shadow[r]);
      }
      best := MostMatches(hnew, hold);
    }

    /** maybe_scroll: scrolls when that saves enough; the count returned is what is left to send. */
    method MaybeScroll(s: Screen, base: nat) returns (after: nat)
      requires Believes() && ScreenOk(s, rows, cols)
      requires base == Changed(s.cells, shadow[..], rows, cols, 0, rows)
      modifies this`out, this`term, this`cursorRow, this`cursorCol, this`pen, shadow, rowWrapped
      ensures Believes() && SameModes(old(term), term)
      ensures after == Changed(s.cells, shadow[..], rows, cols, 0, rows)
      ensures after + 32 <= base || (after == base && out == old(out))
      ensures shadow.Length == rows + 1 && shadow[rows] == old(shadow[rows])
      ensures Below(old(term), term)
    {
      hide Ready, Changed, Belief, Shadow.RowOk, Scrolled, Sized;
      SizedRows();
      after := base;
      if rows < 2 || base < SCROLL_MIN_SAVING { return; }
      var best := BestShift(s);
      if best == 0 { return; }
      var count := CountChanged(s.cells, shadow, rows, cols, best);
      if base - count < SCROLL_MIN_SAVING { return; }
      CountAfterScroll(s.cells, shadow[..], rows, cols, best, rows);
      ScrollLines(best);
      after := count;
    }

    lemma SizedRows()
      requires Sized()
      ensures shadow.Length == rows + 1 && Rectangle(shadow[..], rows, cols)
    {
    }

    /** clear_row_flag: an erase from column 0 takes the flag off, and the row with it. */
    method ClearRowFlag(r: nat)
      requires Believes() && r < rows
      modifies this`out, this`term, this`cursorRow, this`cursorCol, this`pen, shadow, rowWrapped
      ensures Believes() && SameButContent(old(term), term)
      ensures !rowWrapped[r] && forall k :: 0 <= k <= rows && k != r ==> shadow[k] == old(shadow[k])
      ensures forall k :: 0 <= k < term.rows && k != r ==>
                term.cells[k] == old(term).cells[k] && term.flags[k] == old(term).flags[k]
    {
      hide Run, Belief;
      EraseFrom(r, 0);
      assert term.cells[r] == BlankRow(cols, BLANK);
      BlankBelief(cols);
      shadow[r] := BlankRow(cols, BLANK);
      rowWrapped[r] := false;
    }

    /** A row drawn whose flag is not on the terminal unless it is wanted. */
    method DrawScreenRow(s: Screen, r: nat)
      requires Believes() && ScreenOk(s, rows, cols) && r < rows
      requires rowWrapped[r] ==> WantsWrap(s, r)
      modifies this`out, this`term, this`cursorRow, this`cursorCol, this`pen, shadow, rowWrapped
      ensures Believes() && SameButContent(old(term), term)
      ensures RowDone(term, s, r) && Recorded(s.cells[r], shadow[r], cols)
      ensures forall k :: 0 <= k <= rows && k != r && (k != r + 1 || k == rows) ==> shadow[k] == old(shadow[k])
      ensures forall k :: 0 <= k < term.rows && k != r ==> term.flags[k] == old(term).flags[k]
      ensures forall k :: 0 <= k < term.rows && k != r && k != r + 1 ==> term.cells[k] == old(term).cells[k]
      ensures r + 1 == rows < term.rows ==> term.cells[rows] == old(term).cells[rows]
    {
      hide Run, Step, Belief, RowShows, Shadow.RowOk, Linked, CursorBelief, Recorded;
      var want := WantsWrap(s, r);
      var forceC := if want && !rowWrapped[r] then WrapCellCol(s.cells[r]) else -1;
      var made, srow, nsrow := DrawRow(s.cells[r], shadow[r], r, want, forceC,
                                       if want then s.cells[r + 1] else [], if want then shadow[r + 1] else []);
      RecordRow(r, srow, want, nsrow, made);
    }

    /** What drawing a row has told of it and of the row below. */
    method RecordRow(r: nat, srow: Row, want: bool, nsrow: Row, made: bool)
      requires shadow.Length == rows + 1 && rowWrapped.Length == rows && r < rows
      modifies shadow, rowWrapped
      ensures shadow[..] == if want then old(shadow[..])[r := srow][r + 1 := nsrow] else old(shadow[..])[r := srow]
      ensures rowWrapped[..] == if made then old(rowWrapped[..])[r := true] else old(rowWrapped[..])
    {
      shadow[r] := srow;
      if want { shadow[r + 1] := nsrow; }
      if made { rowWrapped[r] := true; }
    }

    /** One row of the screen: its wrap flag brought into line, then its cells. */
    method UpdateRow(s: Screen, r: nat)
      requires Believes() && ScreenOk(s, rows, cols) && r < rows
      requires forall k :: 0 <= k < r ==> RowDone(term, s, k) && Recorded(s.cells[k], shadow[k], cols)
      modifies this`out, this`term, this`cursorRow, this`cursorCol, this`pen, shadow, rowWrapped
      ensures Believes() && SameButContent(old(term), term)
      ensures forall k :: 0 <= k <= r ==> RowDone(term, s, k) && Recorded(s.cells[k], shadow[k], cols)
      ensures shadow[rows] == old(shadow[rows])
      ensures Below(old(term), term)
    {
      hide RowShows, Linked, CursorBelief, Shadow.RowOk, Belief, Recorded;
      if rowWrapped[r] && !WantsWrap(s, r) { ClearRowFlag(r); }
      DrawScreenRow(s, r);
      RowsKept(old(term), term, s, r);
    }

    /** status_changed: the cells of the status row that differ from what it shows. */
    method StatusChanged() returns (n: nat)
      requires Believes()
      ensures statusRow >= 0 ==> (n == 0 <==> Recorded(status, shadow[rows], cols))
      ensures statusRow < 0 ==> n == 0
    {
      hide Ready, Belief, CellsEq;
      n := 0;
      if statusRow < 0 { return; }
      for c := 0 to cols
        invariant n == 0 <==> Recorded(status, shadow[rows], c)
      {
        if !CellsEq(status[c], shadow[rows][c]) { n := n + 1; }
      }
    }

    /** flags_differ. */
    method FlagsDiffer(s: Screen) returns (differ: bool)
      requires Sized() && |s.flags| == rows
      ensures !differ <==> forall r :: 0 <= r < rows ==> WantsWrap(s, r) == rowWrapped[r]
    {
      for r := 0 to rows
        invariant forall k :: 0 <= k < r ==> WantsWrap(s, k) == rowWrapped[k]
      {
        if WantsWrap(s, r) != rowWrapped[r] { return true; }
      }
      return false;
    }

    /** The status row is on the terminal as the caller filled it in. */
    ghost predicate StatusShown()
      reads this`term, this`status, this`statusRow
    {
      0 <= statusRow < |term.cells| ==> RowShows(term.cells[statusRow], status)
    }

    lemma StatusUnchanged()
      requires Believes() && RowOk(status)
      requires statusRow >= 0 ==> Recorded(status, shadow[rows], cols)
      ensures StatusShown()
    {
      hide RowShows, Shadow.RowOk, CellsEq, Belief, Linked, CursorBelief;
      if statusRow >= 0 { NothingChanged(status, shadow[rows], term.cells[statusRow]); }
    }

    /** When nothing differs, nothing has to be sent. */
    lemma NothingToSend(s: Screen)
      requires Believes() && ScreenOk(s, rows, cols) && Settled(s)
      ensures ShowsScreen(term, s)
    {
      hide RowShows, Shadow.RowOk, CellsEq, Belief, Run;
      Unchanged(s.cells, shadow[..], rows, cols, rows);
      forall r | 0 <= r < rows ensures RowDone(term, s, r) {
        assert shadow[..][r] == shadow[r] && Belief(shadow[r], term.cells[r]);
        assert |term.cells[r]| == cols;
        NothingChanged(s.cells[r], shadow[r], term.cells[r]);
      }
    }

    /** The status row drawn. */
    method DrawStatus()
      requires Believes() && statusRow >= 0 && RowOk(status)
      modifies this`out, this`term, this`cursorRow, this`cursorCol, this`pen, shadow
      ensures Believes() && SameButContent(old(term), term) && StatusShown() && Recorded(status, shadow[rows], cols)
      ensures forall k :: 0 <= k < rows ==> shadow[k] == old(shadow[k])
      ensures forall k :: 0 <= k < rows ==> term.flags[k] == old(term).flags[k]
      ensures forall k :: 0 <= k < |term.cells| == |old(term).cells| && k != statusRow ==>
                term.cells[k] == old(term).cells[k]
    {
      hide Run, Step, Belief, RowShows, Shadow.RowOk, Linked, CursorBelief, Recorded;
      var made, srow, nsrow := DrawRow(status, shadow[rows], statusRow, false, -1, [], []);
      shadow[rows] := srow;
    }

    /** The cursor parked and shown, or left hidden where it is. */
    method ParkCursor(s: Screen)
      requires Ready() && cursorVisible == term.visible && s.curRow < term.rows && s.curCol < cols
      modifies this`out, this`term, this`cursorRow, this`cursorCol, this`pen, this`cursorVisible
      ensures Ready() && cursorVisible == term.visible == s.visible
      ensures s.visible ==> term.curRow == s.curRow && term.curCol == s.curCol && !term.pendingWrap
      ensures s.visible ==> cursorRow == s.curRow && cursorCol == s.curCol
      ensures term.cells == old(term).cells && term.flags == old(term).flags
      ensures SameModes(old(term), term)
    {
      hide Run;
      EmitSgr(DEFAULT_PEN);
      if s.visible { EmitMove(s.curRow, s.curCol); }
      if s.visible != cursorVisible { SetVisible(s.visible); }
    }

    method SetVisible(visible: bool)
      requires Ready()
      modifies this`out, this`term, this`cursorVisible
      ensures Ready() && cursorVisible == visible && term == old(term).(visible := visible)
    {
      hide Run;
      Emit(if visible then ShowCursor else HideCursor);
      cursorVisible := visible;
    }

    /** Every row of the screen, from the top. */
    method DrawScreen(s: Screen)
      requires Believes() && ScreenOk(s, rows, cols)
      modifies this`out, this`term, this`cursorRow, this`cursorCol, this`pen, shadow, rowWrapped
      ensures Believes() && SameModes(old(term), term) && Below(old(term), term)
      ensures forall r :: 0 <= r < rows ==> RowDone(term, s, r) && Recorded(s.cells[r], shadow[r], cols)
      ensures shadow[rows] == old(shadow[rows])
    {
      hide Belief, RowDone, Shadow.RowOk, Ready, Sized, Recorded;
      SizedRows();
      for r := 0 to rows
        invariant Believes() && SameButContent(old(term), term) && Below(old(term), term)
        invariant forall k :: 0 <= k < r ==> RowDone(term, s, k) && Recorded(s.cells[k], shadow[k], cols)
        invariant shadow[rows] == old(shadow[rows])
      {
        UpdateRow(s, r);
      }
    }

    /** What follows the rows: the status row if it differs, and the cursor. */
    method FinishScreen(s: Screen, statusN: nat)
      requires Believes() && ScreenOk(s, rows, cols) && RowOk(status)
      requires forall r :: 0 <= r < rows ==> RowDone(term, s, r) && Recorded(s.cells[r], shadow[r], cols)
      requires statusN == 0 ==> StatusShown() && (statusRow >= 0 ==> Recorded(status, shadow[rows], cols))
      requires statusN > 0 ==> statusRow >= 0
      modifies this`out, this`term, this`cursorRow, this`cursorCol, this`pen, this`cursorVisible, shadow
      ensures Believes() && ShowsScreen(term, s) && StatusShown() && Settled(s)
      ensures SameModes(old(term), term)
      ensures forall r :: rows <= r < |term.cells| == |old(term).cells| && r != statusRow ==>
                term.cells[r] == old(term).cells[r]
    {
      hide Belief, RowDone, RowShows, Shadow.RowOk, Linked, CursorBelief, Recorded, Settled;
      ghost var t0 := term;
      if statusN > 0 { DrawStatus(); }
      RowsKept(t0, term, s, rows);
      ghost var t1 := term;
      ParkCursor(s);
      RowsKept(t1, term, s, rows);
      RowsSettled(s);
    }

    /** Nothing of the screen or of the status row differs from what is recorded, nor the wrap flags, nor the cursor. */
    ghost predicate Settled(s: Screen)
      requires ScreenOk(s, rows, cols)
      reads this`shadow, this`rowWrapped, this`status, this`statusRow, this`cursorVisible, this`cursorRow,
            this`cursorCol, shadow, rowWrapped
    {
      && shadow.Length == rows + 1 && rowWrapped.Length == rows && Rectangle(shadow[..], rows, cols)
      && Changed(s.cells, shadow[..], rows, cols, 0, rows) == 0
      && (statusRow >= 0 ==> Recorded(status, shadow[rows], cols))
      && (forall r :: 0 <= r < rows ==> WantsWrap(s, r) == rowWrapped[r])
      && cursorVisible == s.visible && (s.visible ==> cursorRow == s.curRow && cursorCol == s.curCol)
    }

    /** What a frame leaves behind: its status row recorded, and its screen. */
    ghost predicate LeftBy(f: Frame, row: nat)
      requires ScreenOk(f.screen, rows, cols)
      reads this`shadow, this`rowWrapped, this`status, this`statusRow, this`cursorVisible, this`cursorRow,
            this`cursorCol, shadow, rowWrapped
    {
      Settled(f.screen) && status == f.status && statusRow == row
    }

    lemma LeftSame(frames: seq<Frame>, i: nat, row: nat)
      requires 0 < i < |frames| && FrameOk(frames[i - 1], rows, cols) && FrameOk(frames[i], rows, cols)
      requires LeftBy(frames[i - 1], row)
      ensures SameAgain(frames, i) ==> !frames[i].full && LeftBy(frames[i], row)
    {
      hide Settled;
    }

    /** What render_screen looks at to find out. */
    lemma SettledIs(s: Screen, changed: nat, statusN: nat, cursorOk: bool, differ: bool)
      requires Believes() && ScreenOk(s, rows, cols) && changed == Changed(s.cells, shadow[..], rows, cols, 0, rows)
      requires if statusRow >= 0 then statusN == 0 <==> Recorded(status, shadow[rows], cols) else statusN == 0
      requires cursorOk
               == (cursorVisible == s.visible && (!s.visible || (cursorRow == s.curRow && cursorCol == s.curCol)))
      requires !differ <==> forall r :: 0 <= r < rows ==> WantsWrap(s, r) == rowWrapped[r]
      ensures Settled(s) <==> changed == 0 && statusN == 0 && cursorOk && !differ
    {
      hide Belief, Recorded, Changed, Linked, CursorBelief, Shadow.RowOk;
    }

    lemma RowsSettled(s: Screen)
      requires Believes() && ScreenOk(s, rows, cols)
      requires forall r :: 0 <= r < rows ==> RowDone(term, s, r) && Recorded(s.cells[r], shadow[r], cols)
      requires statusRow >= 0 ==> Recorded(status, shadow[rows], cols)
      requires cursorVisible == s.visible && (s.visible ==> cursorRow == s.curRow && cursorCol == s.curCol)
      ensures Settled(s)
    {
      hide Belief, RowShows, Shadow.RowOk, Recorded, Changed, Linked, CursorBelief;
      RecordedUnchanged(s.cells, shadow[..], rows, cols);
      forall r | 0 <= r < rows ensures WantsWrap(s, r) == rowWrapped[r] {
        assert RowDone(term, s, r);
      }
    }

    /** The frame, once it is known that something differs. A large one is drawn with the cursor hidden. */
    method SendScreen(s: Screen, base: nat, statusN: nat)
      requires Believes() && ScreenOk(s, rows, cols) && RowOk(status)
      requires base == Changed(s.cells, shadow[..], rows, cols, 0, rows)
      requires if statusN == 0 then StatusShown() && (statusRow >= 0 ==> Recorded(status, shadow[rows], cols))
               else statusRow >= 0
      modifies this`out, this`term, this`cursorRow, this`cursorCol, this`pen, this`cursorVisible, shadow, rowWrapped
      ensures Believes() && ShowsScreen(term, s) && StatusShown() && Settled(s)
      ensures SameModes(old(term), term)
      ensures forall r :: rows <= r < |term.cells| == |old(term).cells| && r != statusRow ==>
                term.cells[r] == old(term).cells[r]
    {
      hide Belief, RowDone, RowShows, Shadow.RowOk, Changed, Ready, ShowsScreen, ScreenOk, SameModes, Recorded, Settled;
      ghost var t0 := term;
      var changed := MaybeScroll(s, base);
      ghost var t1 := term;
      HideIfLarge(changed + statusN);
      ghost var t2 := term;
      SameModesTrans(t0, t1, t2);
      DrawScreen(s);
      ghost var t3 := term;
      SameModesTrans(t0, t2, t3);
      FinishScreen(s, statusN);
      SameModesTrans(t0, t3, term);
    }

    method HideIfLarge(n: nat)
      requires Believes()
      modifies this`out, this`term, this`cursorVisible
      ensures Believes() && SameModes(old(term), term) && term.cells == old(term).cells
    {
      hide Belief, Linked, CursorBelief;
      if cursorVisible && n >= HIDE_MIN_CELLS { SetVisible(false); }
    }

    /** out_flush: what was written since the last one goes to the terminal. */
    method Flush() returns (sent: seq<Op>)
      requires Believes()
      modifies this`out, this`start
      ensures Believes() && out == [] && start == term && term == Run(old(start), sent) && AllFit(sent)
    {
      hide Step, Belief;
      RunOne(term, Cr);
      sent := out;
      out := [];
      start := term;
    }

    /** render_screen: what is sent makes the terminal show the screen, whatever it showed before. The screen that has
        just been sent is not sent again. */
    method RenderScreen(s: Screen) returns (sent: seq<Op>)
      requires Believes() && ScreenOk(s, rows, cols) && RowOk(status) && out == []
      modifies this`out, this`term, this`start, this`cursorRow, this`cursorCol, this`pen, this`cursorVisible, shadow,
               rowWrapped
      ensures Believes() && out == [] && term == Run(old(term), sent) && AllFit(sent)
      ensures ShowsScreen(term, s) && StatusShown()
      ensures ScreenPainted(term, s) && (0 <= statusRow < |term.cells| ==> RowPainted(term.cells[statusRow], status))
      ensures Settled(s) && (old(Settled(s)) ==> sent == [])
      ensures SameModes(old(term), term)
      ensures forall r :: rows <= r < |term.cells| == |old(term).cells| && r != statusRow ==>
                term.cells[r] == old(term).cells[r]
    {
      hide Step, Belief, RowDone, RowShows, Shadow.RowOk, Changed, Sized, Plain, CursorBelief, ShowsScreen, StatusShown,
           SameModes, ScreenPainted, RowPainted, Recorded, Settled;
      RunOne(term, Cr);
      sent := [];
      var changed, statusN, nothing := Differences(s);
      if nothing {
        NothingToSend(s);
        SameModesSelf(term);
      } else {
        SendScreen(s, changed, statusN);
        sent := Flush();
      }
      AllPainted(s);
    }

    /** What render_screen looks at first: the cells that differ, and whether anything does. */
    method Differences(s: Screen) returns (changed: nat, statusN: nat, nothing: bool)
      requires Believes() && ScreenOk(s, rows, cols) && RowOk(status)
      ensures changed == Changed(s.cells, shadow[..], rows, cols, 0, rows) && nothing == Settled(s)
      ensures if statusN == 0 then StatusShown() && (statusRow >= 0 ==> Recorded(status, shadow[rows], cols))
              else statusRow >= 0
      ensures nothing ==> statusN == 0
    {
      hide Belief, Shadow.RowOk, Changed, Sized, Plain, CursorBelief, StatusShown, Recorded, Settled;
      SizedRows();
      changed := CountChanged(s.cells, shadow, rows, cols, 0);
      statusN := StatusChanged();
      var cursorOk := cursorVisible == s.visible && (!s.visible || (cursorRow == s.curRow && cursorCol == s.curCol));
      var differ := FlagsDiffer(s);
      if statusN == 0 { StatusUnchanged(); }
      SettledIs(s, changed, statusN, cursorOk, differ);
      nothing := changed == 0 && statusN == 0 && cursorOk && !differ;
    }

    /** What is shown is painted. */
    lemma AllPainted(s: Screen)
      requires ShowsScreen(term, s) && StatusShown() && s.Valid()
      ensures ScreenPainted(term, s) && (0 <= statusRow < |term.cells| ==> RowPainted(term.cells[statusRow], status))
    {
      hide RowShows, RowPainted, ShowsScreen, ScreenPainted;
      ShowsPaints(term, s);
      if 0 <= statusRow < |term.cells| { RowLooksPaint(term.cells[statusRow], status); }
    }

    /* ---- starting afresh ---- */

    /** render_init: nothing is known but the pen, the wrap flags and that the cursor is visible. */
    constructor (rows: nat, cols: nat, ghost t: Screen)
      requires Plain(t) && t.cols == cols <= MAX_DIM && 1 <= rows < t.rows <= MAX_DIM
      requires t.pen == DEFAULT_PEN && t.visible && forall r :: 0 <= r < rows ==> !t.flags[r]
      ensures Believes() && out == [] && term == t && this.rows == rows && this.cols == cols && statusRow == -1
      ensures fresh(shadow) && fresh(rowWrapped)
    {
      this.rows, this.cols := rows, cols;
      shadow := new Row[rows + 1](_ => BlankRow(cols, UNKNOWN_CELL));
      rowWrapped := new bool[rows](_ => false);
      cursorRow, cursorCol := -1, -1;
      status, statusRow := BlankRow(cols, BLANK), -1;
      pen, cursorVisible := DEFAULT_PEN, true;
      out, start, term := [], t, t;
      new;
      hide Step;
      RunOne(t, Cr);
      forall r | 0 <= r < rows ensures Belief(shadow[r], term.cells[r]) {
        UnknownRowBelief(shadow[r], term.cells[r]);
      }
    }

    /** render_status_row: the row claimed, its cells blank for the caller to fill in. */
    method ClaimStatusRow(row: nat)
      requires Believes() && rows <= row < term.rows
      modifies this`status, this`statusRow, shadow
      ensures Believes() && statusRow == row && status == BlankRow(cols, BLANK)
      ensures row == old(statusRow) ==> shadow[..] == old(shadow[..])
    {
      hide Run, Belief;
      if row != statusRow {
        shadow[rows] := Forgotten(shadow[rows]);
        statusRow := row;
        UnknownRowBelief(shadow[rows], term.cells[row]);
      }
      status := BlankRow(cols, BLANK);
    }

    /** The caller's cells put in the claimed row. */
    method FillStatus(cells: Row)
      requires Believes() && |cells| == cols
      modifies this`status
      ensures Believes() && status == cells
    {
      status := cells;
    }

    /** render_invalidate_cursor: the beliefs hold wherever something else has put the cursor. */
    method InvalidateCursor()
      requires Believes()
      modifies this`cursorRow, this`cursorCol
      ensures Believes() && cursorRow < 0
    {
      cursorRow, cursorCol := -1, -1;
    }

    /** render_full_redraw: nothing has to be believed beforehand but the terminal's modes and the cursor's
        visibility. */
    method FullRedraw(s: Screen) returns (sent: seq<Op>)
      requires Linked() && Plain(term) && Sized() && term.cols == cols <= MAX_DIM && term.rows <= MAX_DIM
               && cursorVisible == term.visible && out == []
      requires ScreenOk(s, rows, cols) && RowOk(status)
      modifies this`out, this`term, this`start, this`cursorRow, this`cursorCol, this`pen, this`cursorVisible, shadow,
               rowWrapped
      ensures Believes() && out == [] && term == Run(old(term), sent) && AllFit(sent)
      ensures ShowsScreen(term, s) && StatusShown() && Settled(s) && SameModes(old(term), term)
      ensures ScreenPainted(term, s) && (0 <= statusRow < |term.cells| ==> RowPainted(term.cells[statusRow], status))
    {
      hide Step, Belief, RowDone, RowShows, Shadow.RowOk, ShowsScreen, StatusShown, ScreenPainted, RowPainted, Settled;
      ghost var t0 := term;
      EraseEverything();
      ghost var t1 := term;
      var first := Flush();
      var second := RenderScreen(s);
      sent := first + second;
      RunAppend(t0, first, second);
      SameModesTrans(t0, t1, term);
    }

    /** The reset, erase and home that start a redraw, and the beliefs they leave. */
    method EraseEverything()
      requires Linked() && Plain(term) && Sized() && term.cols == cols <= MAX_DIM && term.rows <= MAX_DIM
               && cursorVisible == term.visible
      modifies this`out, this`term, this`cursorRow, this`cursorCol, this`pen, shadow, rowWrapped
      ensures Believes() && SameModes(old(term), term)
    {
      hide Run, Step, Belief, Linked;
      forall r | 0 <= r < rows { rowWrapped[r] := false; }
      EraseRuns(term);
      EmitAll([SetPen([]), EraseAll, Cup(0, 0)]);
      pen := DEFAULT_PEN;
      cursorRow, cursorCol := 0, 0;
      forall r | 0 <= r <= rows { shadow[r] := BlankRow(cols, BLANK); }
      BlankBelief(cols);
    }
  }

  /* ---- a session ---- */

  /** What is to be shown: a screen, the row below it, and whether the terminal is cleared first. */
  datatype Frame = Frame(screen: Screen, status: Row, full: bool)

  ghost predicate FrameOk(f: Frame, rows: nat, cols: nat) {
    ScreenOk(f.screen, rows, cols) && |f.status| == cols && RowOk(f.status)
  }

  /** The terminal looks as the frame does, and paints what the frame paints. */
  ghost predicate FrameShown(t: Screen, f: Frame, statusRow: nat) {
    && ShowsScreen(t, f.screen) && statusRow < |t.cells| && RowShows(t.cells[statusRow], f.status)
    && ScreenPainted(t, f.screen) && RowPainted(t.cells[statusRow], f.status)
  }

  /** t[0] is the terminal at first, and each sent[i] makes t[i] into t[i + 1], which shows frame i. */
  ghost predicate AllShown(t: seq<Screen>, sent: seq<seq<Op>>, frames: seq<Frame>, statusRow: nat) {
    && |t| == |sent| + 1 && |sent| <= |frames|
    && forall i :: 0 <= i < |sent| ==>
         t[i].Valid() && t[i + 1] == Run(t[i], sent[i]) && AllFit(sent[i]) && FrameShown(t[i + 1], frames[i], statusRow)
  }

  /** Frame i asks for what the frame before it left there. */
  ghost predicate SameAgain(frames: seq<Frame>, i: nat) {
    0 < i < |frames| && !frames[i].full && frames[i].(full := false) == frames[i - 1].(full := false)
  }

  /** refresh and full_redraw of tmux/main.c, frame after frame: the terminal shows every one of them, and nothing is
      sent for one that is the same as the one before. */
  method Play(rs: RenderState, statusRow: nat, frames: seq<Frame>)
    returns (sent: seq<seq<Op>>, ghost terms: seq<Screen>)
    requires rs.Believes() && rs.out == [] && rs.rows <= statusRow < rs.term.rows
    requires forall i :: 0 <= i < |frames| ==> FrameOk(frames[i], rs.rows, rs.cols)
    modifies rs, rs.shadow, rs.rowWrapped
    ensures rs.Believes() && |sent| == |frames| && AllShown(terms, sent, frames, statusRow)
    ensures terms[0] == old(rs.term) && terms[|frames|] == rs.term
    ensures Quiet(frames, sent)
  {
    hide RenderState.Settled, RenderState.LeftBy, AllShown, SameAgain, Quiet;
    sent, terms := [], [rs.term];
    NothingShown(terms, sent, frames, statusRow);
    for i := 0 to |frames|
      invariant rs.shadow == old(rs.shadow) && rs.rowWrapped == old(rs.rowWrapped)
      invariant rs.Believes() && rs.out == [] && rs.term.rows == old(rs.term.rows)
      invariant |sent| == i && |terms| == i + 1 && AllShown(terms, sent, frames, statusRow)
      invariant terms[0] == old(rs.term) && terms[i] == rs.term
      invariant i > 0 ==> FrameOk(frames[i - 1], rs.rows, rs.cols) && rs.LeftBy(frames[i - 1], statusRow)
      invariant Quiet(frames, sent)
    {
      if i > 0 { rs.LeftSame(frames, i, statusRow); } else { FirstIsNew(frames); }
      var ops := ShowFrame(rs, statusRow, frames[i]);
      ShownSnoc(terms, sent, frames, statusRow, rs.term, ops);
      QuietSnoc(frames, sent, ops);
      sent, terms := sent + [ops], terms + [rs.term];
    }
  }

  /** Nothing has been sent for the frames that asked for no more than what was there. */
  ghost predicate Quiet(frames: seq<Frame>, sent: seq<seq<Op>>) {
    |sent| <= |frames| && forall k :: 0 <= k < |sent| && SameAgain(frames, k) ==> sent[k] == []
  }

  lemma FirstIsNew(frames: seq<Frame>)
    ensures !SameAgain(frames, 0)
  {
  }

  lemma QuietSnoc(frames: seq<Frame>, sent: seq<seq<Op>>, ops: seq<Op>)
    requires Quiet(frames, sent) && |sent| < |frames| && (SameAgain(frames, |sent|) ==> ops == [])
    ensures Quiet(frames, sent + [ops])
  {
    hide SameAgain;
  }

  lemma NothingShown(t: seq<Screen>, sent: seq<seq<Op>>, frames: seq<Frame>, statusRow: nat)
    requires |t| == 1 && sent == []
    ensures AllShown(t, sent, frames, statusRow) && Quiet(frames, sent)
  {
  }

  lemma ShownSnoc(t: seq<Screen>, sent: seq<seq<Op>>, frames: seq<Frame>, statusRow: nat, t1: Screen, ops: seq<Op>)
    requires AllShown(t, sent, frames, statusRow) && |sent| < |frames| && t[|sent|].Valid()
    requires t1 == Run(t[|sent|], ops) && AllFit(ops) && FrameShown(t1, frames[|sent|], statusRow)
    ensures AllShown(t + [t1], sent + [ops], frames, statusRow)
  {
    hide Run, FrameShown;
  }

  /** One frame: the status row claimed and filled in, then the screen. */
  method ShowFrame(rs: RenderState, statusRow: nat, f: Frame) returns (sent: seq<Op>)
    requires rs.Believes() && rs.out == [] && rs.rows <= statusRow < rs.term.rows && FrameOk(f, rs.rows, rs.cols)
    modifies rs, rs.shadow, rs.rowWrapped
    ensures rs.shadow == old(rs.shadow) && rs.rowWrapped == old(rs.rowWrapped)
    ensures rs.Believes() && rs.out == [] && rs.term == Run(old(rs.term), sent) && AllFit(sent)
    ensures rs.term.rows == old(rs.term.rows) && FrameShown(rs.term, f, statusRow) && rs.LeftBy(f, statusRow)
    ensures !f.full && old(rs.LeftBy(f, statusRow)) ==> sent == []
  {
    hide Run, Step, Belief, RowShows, ShowsScreen, Shadow.RowOk, ScreenPainted, RowPainted, Changed;
    rs.ClaimStatusRow(statusRow);
    rs.FillStatus(f.status);
    if f.full { sent := rs.FullRedraw(f.screen); } else { sent := rs.RenderScreen(f.screen); }
  }
}
