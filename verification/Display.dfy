/** The terminal's screen as _lib/vt.c keeps it, changed in place; each operation does what the one on values says
    (Vt). */
module Display {
  import opened Cells
  import opened Scrollback
  import opened Vt
  import opened Grid
  import Width

  /** Grids that share nothing. */
  ghost predicate Apart(a: Grid, b: Grid) {
    a.cells != b.cells && a.flags != b.flags && a.rowSet !! b.rowSet
  }

  class Display {
    var grid: Grid
    var other: Grid?
    var rows: nat
    var cols: nat
    var curRow: nat
    var curCol: nat
    var visible: bool
    var pendingWrap: bool
    var origin: bool
    var autoWrap: bool
    var insert: bool
    var inAlt: bool
    var top: nat
    var bottom: nat
    var pen: Pen
    var savedRow: nat
    var savedCol: nat
    var savedPen: Pen
    var savedWrap: bool
    var altRow: nat
    var altCol: nat
    var altPen: Pen
    var history: History

    /** What the grids are stored in. */
    ghost function Frame(): set<object>
      reads this
    {
      grid.Frame() + (if other == null then {} else other.Frame())
    }

    /** The grids are g and, if there is one, o, in their places, or in each other's if the alternate screen has come or
        gone since. */
    ghost predicate KeptFrom(g: Grid, o: Grid?, alt: bool)
      reads this
    {
      if inAlt == alt then grid == g && (o != null ==> other == o) else other == g && (o != null ==> grid == o)
    }

    /** The row pointers of each grid point to rows of its own, no row twice, and the two grids share nothing. */
    ghost predicate Formed()
      reads this, Frame()
    {
      && grid.Valid() && grid.nr == rows && grid.nc == cols
      && (other != null ==> other.Valid() && other.nr == rows && other.nc == cols && Apart(grid, other))
    }

    ghost function Value(): (s: Screen)
      requires Formed()
      reads this, Frame()
    {
      Screen(rows, cols, grid.Rows(), grid.flags[..],
             if other == null then Vt.NoGrid else Vt.Grid(other.Rows(), other.flags[..]),
             curRow, curCol, visible, pendingWrap, origin, autoWrap, insert, inAlt, top, bottom, pen,
             savedRow, savedCol, savedPen, savedWrap, altRow, altCol, altPen, history)
    }

    ghost predicate Valid()
      reads this, Frame()
    {
      Formed() && Value().Valid()
    }

    /** scr_init. */
    constructor (nr: nat, nc: nat, h: History)
      requires 1 <= nr && 2 <= nc
      ensures Valid() && Value() == Init(nr, nc, h) && fresh(Frame())
    {
      grid := new Grid(nr, nc);
      other := null;
      rows, cols, curRow, curCol, visible, pendingWrap := nr, nc, 0, 0, true, false;
      origin, autoWrap, insert, inAlt, top, bottom := false, true, false, false, 0, nr - 1;
      pen, savedRow, savedCol, savedPen, savedWrap := DEFAULT_PEN, 0, 0, Pen(0, 0, {}), false;
      altRow, altCol, altPen, history := 0, 0, Pen(0, 0, {}), h;
    }

    /** scr_free and scr_init. */
    method Reset(nr: nat, nc: nat, h: History)
      requires Formed() && 1 <= nr && 2 <= nc
      modifies this
      ensures Valid() && Value() == Init(nr, nc, h) && fresh(Frame())
    {
      hide Display.Value, Content, Distinct, Shaped, Among, Apart, BlankGrid, NoFlags;
      var g := new Grid(nr, nc);
      UseGrids(g, null, nr, nc);
      ResetState(h);
    }

    method ResetState(h: History)
      requires Formed() && rows >= 1
      modifies this`curRow, this`curCol, this`pendingWrap, this`top, this`bottom, this`visible, this`origin,
               this`insert, this`pen, this`autoWrap
      modifies this`savedRow, this`savedCol, this`savedPen, this`savedWrap, this`altRow, this`altCol, this`altPen,
               this`history, this`inAlt
      ensures Formed() && Value() == Init(1, 2, h).(rows := rows, cols := cols, bottom := rows - 1,
                                                    cells := old(Value()).cells, flags := old(Value()).flags,
                                                    hidden := old(Value()).hidden)
    {
      hide Display.Value, Display.Formed, BlankGrid, NoFlags;
      Parts();
      MoveTo(0, 0, false);
      SetRows(0, rows - 1);
      SetModes(true, false, false);
      SetPen(DEFAULT_PEN, true);
      PutSaved(0, 0, Pen(0, 0, {}), false);
      PutAlt(0, 0, Pen(0, 0, {}));
      PutHistory(h, false);
      Parts();
    }

    method UseGrids(g: Grid, o: Grid?, nr: nat, nc: nat)
      requires Formed() && g.Valid() && g.nr == nr && g.nc == nc
      requires o != null ==> o.Valid() && o.nr == nr && o.nc == nc && Apart(g, o)
      modifies this`grid, this`other, this`rows, this`cols
      ensures Formed() && grid == g && other == o
      ensures Value() == old(Value()).(rows := nr, cols := nc, cells := g.Rows(), flags := g.flags[..],
                                       hidden := if o == null then Vt.NoGrid else Vt.Grid(o.Rows(), o.flags[..]))
    {
      hide Content, Distinct, Shaped, Among, Apart, Grid.Valid;
      grid, other, rows, cols := g, o, nr, nc;
    }

    method PutSavedPlace(r: nat, c: nat)
      requires Formed()
      modifies this`savedRow, this`savedCol
      ensures Formed() && Value() == old(Value()).(savedRow := r, savedCol := c)
    {
      hide Content, Distinct, Shaped, Among, Apart, Grid.Valid;
      savedRow, savedCol := r, c;
    }

    method PutSavedPen(p: Pen, wrap: bool)
      requires Formed()
      modifies this`savedPen, this`savedWrap
      ensures Formed() && Value() == old(Value()).(savedPen := p, savedWrap := wrap)
    {
      hide Content, Distinct, Shaped, Among, Apart, Grid.Valid;
      savedPen, savedWrap := p, wrap;
    }

    method PutSaved(r: nat, c: nat, p: Pen, wrap: bool)
      requires Formed()
      modifies this`savedRow, this`savedCol, this`savedPen, this`savedWrap
      ensures Formed() && Value() == old(Value()).(savedRow := r, savedCol := c, savedPen := p, savedWrap := wrap)
    {
      hide Display.Value, Display.Formed;
      PutSavedPlace(r, c);
      PutSavedPen(p, wrap);
    }

    method PutAlt(r: nat, c: nat, p: Pen)
      requires Formed()
      modifies this`altRow, this`altCol, this`altPen
      ensures Formed() && Value() == old(Value()).(altRow := r, altCol := c, altPen := p)
    {
      hide Content, Distinct, Shaped, Among, Apart, Grid.Valid;
      altRow, altCol, altPen := r, c, p;
    }

    method SetHistory(h: History)
      requires Formed()
      modifies this`history
      ensures Formed() && Value() == old(Value()).(history := h)
    {
      hide Content, Distinct, Shaped, Among, Apart;
      history := h;
    }

    method PutHistory(h: History, alt: bool)
      requires Formed()
      modifies this`history, this`inAlt
      ensures Formed() && Value() == old(Value()).(history := h, inAlt := alt)
    {
      hide Content, Distinct, Shaped, Among, Apart;
      history, inAlt := h, alt;
    }

    /* ---- one thing at a time ---- */

    lemma Parts()
      requires Formed()
      ensures var s := Value();
              && s.rows == rows == |s.cells| == |s.flags| && s.cols == cols
              && (forall r :: 0 <= r < rows ==> |s.cells[r]| == cols)
              && s.curRow == curRow && s.curCol == curCol && s.pendingWrap == pendingWrap && s.origin == origin
              && s.autoWrap == autoWrap && s.insert == insert && s.inAlt == inAlt && s.top == top && s.bottom == bottom
              && s.pen == pen && s.history == history && (s.hidden.Grid? <==> other != null)
    {
    }

    lemma Inside()
      requires Valid()
      ensures 1 <= rows && 2 <= cols && curRow < rows && curCol < cols && top <= bottom < rows
      ensures savedRow < rows && savedCol < cols && altRow < rows && altCol < cols && (inAlt ==> other != null)
    {
    }

    /** A change of the grid alone. */
    twostate lemma GridOnly()
      requires old(Formed()) && grid.Valid() && unchanged(this)
      requires other != null ==> unchanged(other.cells) && unchanged(other.flags) && unchanged(other.rowSet)
      ensures Formed() && Value() == old(Value()).(cells := grid.Rows(), flags := grid.flags[..])
    {
      if other != null { assert other.Rows() == old(other.Rows()) && other.flags[..] == old(other.flags[..]); }
    }

    method RaiseRows(n: nat)
      requires Formed() && top <= bottom < rows && 0 < n <= bottom - top + 1
      modifies grid.Frame()
      ensures Formed() && Value() == old(Value()).(
                cells := RaisedBy(old(Value()).cells, top, bottom, n, BlankGrid(n, cols, BlankCell(pen))),
                flags := RaisedBy(old(Value()).flags, top, bottom, n, NoFlags(n)))
    {
      hide RaisedBy, Content, Distinct, Shaped, Among;
      grid.ScrollUp(top, bottom, n, BlankCell(pen));
      GridOnly();
    }

    method LowerRows(n: nat)
      requires Formed() && top <= bottom < rows && 0 < n <= bottom - top + 1
      modifies grid.Frame()
      ensures Formed() && Value() == old(Value()).(
                cells := LoweredBy(old(Value()).cells, top, bottom, n, BlankGrid(n, cols, BlankCell(pen))),
                flags := LoweredBy(old(Value()).flags, top, bottom, n, NoFlags(n)))
    {
      hide LoweredBy, Content, Distinct, Shaped, Among;
      grid.ScrollDown(top, bottom, n, BlankCell(pen));
      GridOnly();
    }

    lemma RowsShown()
      requires Formed()
      ensures |Value().cells| == grid.cells.Length == grid.flags.Length
      ensures forall r :: 0 <= r < grid.cells.Length ==>
                Value().cells[r] == grid.cells[r][..] && Value().flags[r] == grid.flags[r]
    {
    }

    /* ---- scrolling ---- */

    /** Rows that leave at the top of the primary screen go into the history. */
    method CaptureLeaving(n: nat)
      requires Formed() && top + n <= bottom + 1 <= rows
      modifies this`history
      ensures Formed() && Value()
              == old(Value()).(history := CaptureRows(old(Value()).history, old(Value()).cells[top..top + n],
                                                      old(Value()).flags[top..top + n]))
    {
      hide Capture, CaptureRows, Display.Value, Display.Formed;
      ghost var s := Value();
      Parts();
      RowsShown();
      ghost var cells, flags := s.cells[top..top + n], s.flags[top..top + n];
      var h := history;
      var i: nat := 0;
      NothingCaptured(h, cells, flags);
      while i < n
        invariant i <= n && h == CaptureRows(s.history, cells[..i], flags[..i])
        invariant Formed() && Value() == s
        modifies {}
      {
        CapturedNext(s.history, cells, flags, i);
        h := Capture(h, grid.cells[top + i][..], grid.flags[top + i]);
        i := i + 1;
      }
      assert cells[..n] == cells && flags[..n] == flags;
      SetHistory(h);
    }

    method ScrollUp(n0: nat)
      requires Valid()
      modifies this`history, Frame()
      ensures Valid() && Value() == Vt.ScrollUp(old(Value()), n0)
    {
      hide CaptureRows, RaisedBy, Vt.ScrollUp, Display.Value, Display.Formed;
      ghost var s := Value();
      Parts();
      var n := Min(n0, bottom - top + 1);
      if n == 0 {
        NotScrolledUp(s);
        return;
      }
      ScrolledUpIs(s, n0, n);
      if top == 0 && !inAlt { CaptureLeaving(n); }
      RaiseRows(n);
    }

    method ScrollDown(n0: nat)
      requires Valid()
      modifies Frame()
      ensures Valid() && Value() == Vt.ScrollDown(old(Value()), n0)
    {
      hide LoweredBy, Vt.ScrollDown, Display.Value, Display.Formed;
      ghost var s := Value();
      Parts();
      var n := Min(n0, bottom - top + 1);
      ScrolledDownIs(s, n0, n);
      if n == 0 { return; }
      LowerRows(n);
    }

    /* ---- cursor ---- */

    method MoveTo(r: nat, c: nat, pending: bool)
      requires Formed()
      modifies this`curRow, this`curCol, this`pendingWrap
      ensures Formed() && Value() == old(Value()).(curRow := r, curCol := c, pendingWrap := pending)
    {
      hide Content, Distinct, Shaped, Among, Apart;
      curRow, curCol, pendingWrap := r, c, pending;
    }

    method CursorSet(row0: int, col0: int)
      requires Valid()
      modifies this`curRow, this`curCol, this`pendingWrap
      ensures Valid() && Value() == Vt.CursorSet(old(Value()), row0, col0)
    {
      hide Display.Value, Display.Formed, Screen.Valid, Vt.CursorSet;
      Parts();
      Inside();
      ghost var s := Value();
      var lo, hi := if origin then top else 0, if origin then bottom else rows - 1;
      var row, col := Clamp(row0, lo, hi), Clamp(col0, 0, cols - 1);
      CursorSetIs(s, row0, col0, row, col);
      MoveTo(row, col, false);
    }

    method LineFeed()
      requires Valid()
      modifies this`curRow, this`curCol, this`pendingWrap, this`history, Frame()
      ensures Valid() && Value() == Vt.LineFeed(old(Value()))
    {
      hide Display.Value, Display.Formed, Screen.Valid, Vt.LineFeed, Vt.ScrollUp;
      Parts();
      Inside();
      LineFeedIs(Value());
      var r := if curRow == bottom || curRow >= rows - 1 then curRow else curRow + 1;
      if curRow == bottom {
        ScrollUp(1);
        Parts();
      }
      MoveTo(r, curCol, false);
    }

    method ReverseIndex()
      requires Valid()
      modifies this`curRow, this`curCol, this`pendingWrap, Frame()
      ensures Valid() && Value() == Vt.ReverseIndex(old(Value()))
    {
      hide Display.Value, Display.Formed, Screen.Valid, Vt.ReverseIndex, Vt.ScrollDown;
      Parts();
      Inside();
      ReverseIndexIs(Value());
      var r := if curRow == top || curRow == 0 then curRow else curRow - 1;
      if curRow == top {
        ScrollDown(1);
        Parts();
      }
      MoveTo(r, curCol, false);
    }

    method CarriageReturn()
      requires Valid()
      modifies this`curRow, this`curCol, this`pendingWrap
      ensures Valid() && Value() == Vt.CarriageReturn(old(Value()))
    {
      hide Display.Value, Display.Formed;
      Parts();
      MoveTo(curRow, 0, false);
    }

    method Backspace()
      requires Valid()
      modifies this`curRow, this`curCol, this`pendingWrap
      ensures Valid() && Value() == Vt.Backspace(old(Value()))
    {
      hide Display.Value, Display.Formed;
      Parts();
      if curCol > 0 { MoveTo(curRow, curCol - 1, false); }
    }

    /* ---- printing ---- */

    method SetFlag(r: nat, f: bool)
      requires Formed() && r < rows
      modifies grid.Frame()
      ensures Formed() && Value() == old(Value()).(flags := old(Value()).flags[r := f])
    {
      hide Content, Distinct, Shaped, Among;
      grid.SetFlag(r, f);
      GridOnly();
    }

    method SetCell(r: nat, c: nat, x: Cell)
      requires Formed() && r < rows && c < cols
      modifies grid.Frame()
      ensures Formed() && |old(Value()).cells| == rows && |old(Value()).cells[r]| == cols
      ensures Value() == old(Value()).(cells := old(Value()).cells[r := old(Value()).cells[r][c := x]])
    {
      hide Content, Distinct, Shaped;
      Parts();
      assert grid.cells[r] in grid.rowSet;
      grid.SetCell(r, c, x);
      GridOnly();
    }

    method InsertCells(r: nat, c: nat, k: nat)
      requires Formed() && r < rows && c + k <= cols
      modifies grid.Frame()
      ensures Formed() && |old(Value()).cells| == rows && |old(Value()).cells[r]| == cols
      ensures Value()
              == old(Value()).(cells := old(Value()).cells[r := OpenGap(old(Value()).cells[r], c, k, BlankCell(pen))])
    {
      hide Content, Distinct, Shaped, OpenGap;
      Parts();
      assert grid.cells[r] in grid.rowSet;
      grid.InsertCells(r, c, k, BlankCell(pen));
      GridOnly();
    }

    /** The cursor's row is marked as continuing, and the cursor goes to the start of the next. */
    method Wrap()
      requires Valid()
      modifies this`curRow, this`curCol, this`pendingWrap, this`history, Frame()
      ensures Valid() && Value() == Vt.Wrap(old(Value()))
    {
      hide Display.Value, Display.Formed, Vt.LineFeed;
      Parts();
      SetFlag(curRow, true);
      MoveTo(curRow, 0, false);
      LineFeed();
    }

    /** In insert mode room is made at the cursor. */
    method OpenAtCursor(w: nat)
      requires Formed() && curRow < rows && curCol + w <= cols
      modifies grid.Frame()
      ensures Formed() && |old(Value()).cells| == rows && |old(Value()).cells[curRow]| == cols
      ensures Value() == old(Value()).(cells := old(Value()).cells[curRow :=
                if insert then OpenGap(old(Value()).cells[curRow], curCol, w, BlankCell(pen))
                else old(Value()).cells[curRow]])
    {
      hide Display.Value, Display.Formed, OpenGap, BlankCell;
      Parts();
      if insert { InsertCells(curRow, curCol, w); }
    }

    /** One cell or two, at the cursor. */
    method SetCells(cell: Cell, w: nat)
      requires Formed() && 1 <= w <= 2 && curRow < rows && curCol + w <= cols
      modifies grid.Frame()
      ensures Formed() && |old(Value()).cells| == rows && |old(Value()).cells[curRow]| == cols
      ensures Value()
              == old(Value()).(cells := old(Value()).cells[curRow := CellsSet(old(Value()).cells[curRow], curCol, cell,
                                                                              w)])
    {
      hide Display.Value, Display.Formed;
      Parts();
      SetCell(curRow, curCol, cell);
      Parts();
      if w == 2 { SetCell(curRow, curCol + 1, Continued(cell)); }
    }

    /** The character's cells written at the cursor. */
    method WriteCharacter(cp: nat, w: nat)
      requires Formed() && 1 <= w <= 2 && curRow < rows && curCol + w <= cols
      modifies grid.Frame()
      ensures Formed() && |old(Value()).cells| == rows && |old(Value()).cells[curRow]| == cols
      ensures Value()
              == old(Value()).(cells := old(Value()).cells[curRow := Written(old(Value()).cells[curRow], curCol, cp, w,
                                                                             insert, pen)])
    {
      hide Display.Value, Display.Formed, OpenGap, BlankCell, Printed, CellsSet;
      OpenAtCursor(w);
      SetCells(Printed(pen, cp, w == 2), w);
    }

    /** The character's cells written at the cursor, which moves past them. */
    method Place(cp: nat, w: nat)
      requires Valid() && 1 <= w <= 2 && curCol + w <= cols
      modifies this`curRow, this`curCol, this`pendingWrap, Frame()
      ensures old(Value()).curCol + w <= old(Value()).cols
      ensures Valid() && Value() == Vt.Place(old(Value()), cp, w)
    {
      hide Display.Value, Display.Formed, Screen.Valid, OpenGap, BlankCell, Printed, Vt.Place;
      Parts();
      Inside();
      ghost var s := Value();
      WriteCharacter(cp, w);
      Parts();
      PlaceIs(s, cp, w, Value().cells);
      if curCol + w >= cols { MoveTo(curRow, cols - 1, true); } else { MoveTo(curRow, curCol + w, false); }
    }

    /** A wrap that was due, or is not wanted any more. */
    method SettlePending()
      requires Valid()
      modifies this`curRow, this`curCol, this`pendingWrap, this`history, Frame()
      ensures Valid() && Value() == AfterPending(old(Value()))
    {
      hide Display.Value, Display.Formed, Vt.Wrap;
      Parts();
      if pendingWrap {
        if autoWrap { Wrap(); } else { MoveTo(curRow, curCol, false); }
      }
    }

    /** put_char. */
    method PutChar(ch: nat)
      requires Valid()
      modifies this`curRow, this`curCol, this`pendingWrap, this`history, Frame()
      ensures Valid() && Value() == Vt.PutChar(old(Value()), ch)
    {
      hide Display.Value, Display.Formed, Screen.Valid, Vt.Wrap, Vt.Place, Vt.PutChar, Width.CpWidth, AfterPending;
      var width := Width.CpWidth(ch);
      PutCharIs(Value(), ch);
      if width == 0 { return; }
      SettlePending();
      Parts();
      Inside();
      if width == 2 && curCol + 1 >= cols {
        ghost var s := Value();
        SetCell(curRow, curCol, BlankCell(pen).(pad := true));
        PaddedIs(s);
        Parts();
        if !autoWrap { return; }
        Wrap();
        WrapGoesLeft(Padded(s));
      }
      Parts();
      Inside();
      Place(ch, width);
    }

    /* ---- erasing ---- */

    method ClearCells(r: nat, from: nat, to: int)
      requires Valid() && r < rows && to < cols
      modifies grid.Frame()
      ensures Valid() && Value() == Vt.ClearCells(old(Value()), r, from, to)
    {
      hide Content, Distinct, Shaped, ClearRange;
      Parts();
      assert grid.cells[r] in grid.rowSet;
      grid.ClearCells(r, from, to, BlankCell(pen));
      GridOnly();
    }

    method ClearRows(from: nat, end: nat)
      requires Valid() && from <= end <= rows
      modifies grid.Frame()
      ensures Valid() && Value() == Vt.ClearRows(old(Value()), from, end)
    {
      hide Content, Distinct, Shaped, Among, Placed, Grid.Valid, Vt.ClearRows, BlankGrid, Screen.Valid;
      Parts();
      ghost var s := Value();
      ClearRowsIs(s, from, end);
      grid.ClearRows(from, end, BlankCell(pen));
      GridOnly();
    }

    method ClearFlags(from: nat, end: nat)
      requires Valid() && from <= end <= rows
      modifies grid.Frame()
      ensures Valid() && Value() == Vt.ClearFlags(old(Value()), from, end)
    {
      hide Content, Distinct, Shaped, Among, Placed;
      Parts();
      grid.ClearFlags(from, end);
      GridOnly();
      PlacedIs(old(Value()).flags, from, NoFlags(end - from));
    }

    /** ED. */
    method EraseDisplay(m: nat)
      requires Valid()
      modifies Frame()
      ensures Valid() && Value() == Vt.EraseDisplay(old(Value()), m)
    {
      hide Display.Value, Display.Formed, Screen.Valid, Vt.ClearCells, Vt.ClearRows, Vt.ClearFlags;
      Parts();
      Inside();
      ghost var s := Value();
      if m == 0 || m == 2 {
        var startRow, startCol := if m == 2 then 0 else curRow, if m == 2 then 0 else curCol;
        ClearCells(startRow, startCol, cols - 1);
        ClearRows(startRow + 1, rows);
        ClearFlags(startRow, rows);
        if m == 2 { WholeRowFirst(s); }
      } else if m == 1 {
        ClearRows(0, curRow);
        Parts();
        ClearCells(curRow, 0, curCol);
        ClearFlags(0, curRow);
      } else if m == 3 {
        ClearRows(0, rows);
        ClearFlags(0, rows);
      }
    }

    /** EL. */
    method EraseLine(m: nat)
      requires Valid()
      modifies Frame()
      ensures Valid() && Value() == Vt.EraseLine(old(Value()), m)
    {
      hide Display.Value, Display.Formed, Screen.Valid, Vt.ClearCells;
      Parts();
      Inside();
      EraseLineIs(Value(), m);
      if m == 0 {
        ClearCells(curRow, curCol, cols - 1);
        SetFlag(curRow, false);
      } else if m == 1 {
        ClearCells(curRow, 0, curCol);
      } else if m == 2 {
        ClearCells(curRow, 0, cols - 1);
      }
    }

    /** ECH. */
    method EraseChars(n: nat)
      requires Valid()
      modifies Frame()
      ensures Valid() && Value() == Vt.EraseChars(old(Value()), n)
    {
      hide Display.Value, Display.Formed, Screen.Valid, Vt.ClearCells;
      Parts();
      Inside();
      var end := curCol + n - 1;
      if end >= cols { end := cols - 1; }
      ClearCells(curRow, curCol, end);
    }

    /* ---- inserting and deleting ---- */

    /** ICH. */
    method InsertChars(n0: nat)
      requires Valid()
      modifies Frame()
      ensures Valid() && Value() == Vt.InsertChars(old(Value()), n0)
    {
      hide Display.Value, Display.Formed, OpenGap, BlankCell;
      Parts();
      Inside();
      var n := if n0 > cols - curCol then cols - curCol else n0;
      InsertCells(curRow, curCol, n);
    }

    /** DCH. */
    method DeleteChars(n0: nat)
      requires Valid()
      modifies Frame()
      ensures Valid() && Value() == Vt.DeleteChars(old(Value()), n0)
    {
      hide Content, Distinct, Shaped, CloseGap, Screen.Valid, Vt.DeleteChars;
      Parts();
      Inside();
      var n := if n0 > cols - curCol then cols - curCol else n0;
      DeleteCharsIs(Value(), n0, n);
      assert grid.cells[curRow] in grid.rowSet;
      grid.DeleteCells(curRow, curCol, n, BlankCell(pen));
      GridOnly();
    }

    method SetTop(t: nat)
      requires Formed()
      modifies this`top
      ensures Formed() && Value() == old(Value()).(top := t) && top == t
    {
      hide Content, Distinct, Shaped, Among, Apart;
      top := t;
    }

    /** IL. */
    method InsertLines(n: nat)
      requires Valid()
      modifies this`top, this`curRow, this`curCol, this`pendingWrap, Frame()
      ensures Valid() && Value() == Vt.InsertLines(old(Value()), n)
    {
      hide Display.Value, Display.Formed, Vt.ScrollDown;
      Parts();
      if top <= curRow <= bottom {
        var saved := top;
        SetTop(curRow);
        ScrollDown(n);
        SetTop(saved);
      }
      CarriageReturn();
    }

    /** DL. */
    method DeleteLines(n: nat)
      requires Valid()
      modifies this`top, this`curRow, this`curCol, this`pendingWrap, this`history, Frame()
      ensures Valid() && Value() == Vt.DeleteLines(old(Value()), n)
    {
      hide Display.Value, Display.Formed, Vt.ScrollUp;
      Parts();
      if top <= curRow <= bottom {
        var saved := top;
        SetTop(curRow);
        ScrollUp(n);
        SetTop(saved);
      }
      CarriageReturn();
    }

    method SetRows(t: nat, b: nat)
      requires Formed()
      modifies this`top, this`bottom
      ensures Formed() && Value() == old(Value()).(top := t, bottom := b)
    {
      hide Content, Distinct, Shaped, Among, Apart;
      top, bottom := t, b;
    }

    method SetPen(p: Pen, wrap: bool)
      requires Formed()
      modifies this`pen, this`autoWrap
      ensures Formed() && Value() == old(Value()).(pen := p, autoWrap := wrap)
    {
      hide Content, Distinct, Shaped, Among, Apart;
      pen, autoWrap := p, wrap;
    }

    lemma SavedParts()
      requires Formed()
      ensures var s := Value();
              && s.savedRow == savedRow && s.savedCol == savedCol && s.savedPen == savedPen && s.savedWrap == savedWrap
              && s.altRow == altRow && s.altCol == altCol && s.altPen == altPen && s.visible == visible
    {
    }

    /** DECSTBM. */
    method SetRegion(first: nat, last: nat)
      requires Valid()
      modifies this`top, this`bottom, this`curRow, this`curCol, this`pendingWrap
      ensures Valid() && Value() == Vt.SetRegion(old(Value()), first, last)
    {
      hide Display.Value, Display.Formed, Screen.Valid, Vt.CursorSet, Vt.SetRegion;
      Parts();
      Inside();
      SetRegionIs(Value(), first, last);
      var t, b := first - 1, last - 1;
      if t < 0 { t := 0; }
      if b >= rows { b := rows - 1; }
      if t < b { SetRows(t, b); }
      Parts();
      CursorSet(if origin then top else 0, 0);
    }

    /* ---- saved cursor and alternate screen ---- */

    method SaveCursor()
      requires Valid()
      modifies this`savedRow, this`savedCol, this`savedPen, this`savedWrap
      ensures Valid() && Value() == Vt.SaveCursor(old(Value()))
    {
      hide Display.Value, Display.Formed;
      Parts();
      PutSaved(curRow, curCol, pen, autoWrap);
    }

    method RestoreCursor()
      requires Valid()
      modifies this`curRow, this`curCol, this`pen, this`autoWrap, this`pendingWrap
      ensures Valid() && Value() == Vt.RestoreCursor(old(Value()))
    {
      hide Display.Value, Display.Formed;
      SavedParts();
      var r, c := savedRow, savedCol;
      MoveTo(r, c, false);
      SavedParts();
      SetPen(savedPen, savedWrap);
    }

    /** The other grid is made when it is first needed. */
    method MakeOther()
      requires Formed() && other == null
      modifies this`other
      ensures Formed() && other != null && fresh(other.Frame())
      ensures Value() == old(Value()).(hidden := Vt.Grid(BlankGrid(rows, cols, BLANK), NoFlags(rows)))
    {
      hide Content, Distinct, Shaped, Among;
      other := new Grid(rows, cols);
    }

    /** alt_swap. */
    method SwapGrids()
      requires Formed() && other != null
      modifies this`grid, this`other, this`inAlt
      ensures Formed() && grid == old(other) && other == old(grid) && inAlt == !old(inAlt) && Frame() == old(Frame())
              && old(Value()).hidden.Grid?
      ensures Value() == old(Value()).(cells := old(Value()).hidden.cells, flags := old(Value()).hidden.flags,
                                       hidden := Vt.Grid(old(Value()).cells, old(Value()).flags),
                                       inAlt := !old(Value()).inAlt)
    {
      hide Content, Distinct, Shaped, Among, Grid.Valid;
      grid, other, inAlt := other, grid, !inAlt;
    }

    method SaveAlt()
      requires Formed()
      modifies this`altRow, this`altCol, this`altPen
      ensures Formed() && Value()
              == old(Value()).(altRow := old(Value()).curRow, altCol := old(Value()).curCol, altPen := old(Value()).pen)
    {
      hide Display.Value, Display.Formed;
      Parts();
      PutAlt(curRow, curCol, pen);
    }

    /** Everything of the grid blank, and no wrap flags. */
    method ClearGrid()
      requires Formed()
      modifies grid.Frame()
      ensures Formed() && Value()
              == old(Value()).(cells := BlankGrid(rows, cols, BlankCell(pen)), flags := NoFlags(rows))
    {
      hide Content, Distinct, Shaped, Among, Placed;
      grid.ClearFlags(0, rows);
      grid.ClearRows(0, rows, BlankCell(pen));
      GridOnly();
      PlacedWhole(old(Value()).cells, BlankGrid(rows, cols, BlankCell(pen)));
      PlacedWhole(old(Value()).flags, NoFlags(rows));
    }

    /** The other grid is shown; its cells are still what they were. */
    method ToOther()
      requires Formed()
      modifies this`grid, this`other, this`inAlt
      ensures Formed() && fresh(Frame() - old(Frame())) && KeptFrom(old(grid), old(other), old(inAlt))
      ensures Value() == old(Value()).(cells := Value().cells, flags := Value().flags,
                                       hidden := Vt.Grid(old(Value()).cells, old(Value()).flags),
                                       inAlt := !old(Value()).inAlt)
    {
      hide Display.Value, Display.Formed;
      if other == null { MakeOther(); }
      SwapGrids();
    }

    /** The other grid is shown, blank. */
    method ShowOther()
      requires Formed()
      modifies this`grid, this`other, this`inAlt, Frame()
      ensures Formed() && fresh(Frame() - old(Frame())) && KeptFrom(old(grid), old(other), old(inAlt))
      ensures Value() == old(Value()).(cells := BlankGrid(rows, cols, BlankCell(pen)), flags := NoFlags(rows),
                                       hidden := Vt.Grid(old(Value()).cells, old(Value()).flags),
                                       inAlt := !old(Value()).inAlt)
    {
      hide Display.Value, Display.Formed, BlankGrid, NoFlags, BlankCell;
      ToOther();
      ClearGrid();
    }

    method ShowAlt()
      requires Formed() && !inAlt
      modifies this`altRow, this`altCol, this`altPen, this`grid, this`other, this`inAlt, Frame()
      ensures Formed() && fresh(Frame() - old(Frame())) && Value() == AltShown(old(Value()))
      ensures KeptFrom(old(grid), old(other), old(inAlt))
    {
      hide Display.Value, Display.Formed, BlankGrid, NoFlags, BlankCell;
      Parts();
      SaveAlt();
      ShowOther();
    }

    method SetPlace(r: nat, c: nat)
      requires Formed()
      modifies this`curRow, this`curCol
      ensures Formed() && Value() == old(Value()).(curRow := r, curCol := c)
    {
      hide Content, Distinct, Shaped, Among, Apart, Grid.Valid;
      curRow, curCol := r, c;
    }

    /** The cursor goes home, with its pending wrap, and the region is the whole screen. */
    method Home()
      requires Formed() && rows >= 1
      modifies this`curRow, this`curCol, this`top, this`bottom
      ensures Formed() && Value() == old(Value()).(curRow := 0, curCol := 0, top := 0, bottom := rows - 1)
    {
      hide Display.Value, Display.Formed;
      SetPlace(0, 0);
      SetRows(0, rows - 1);
    }

    method EnterAlt()
      requires Valid()
      modifies this, Frame()
      ensures Valid() && Value() == Vt.EnterAlt(old(Value())) && fresh(Frame() - old(Frame()))
      ensures KeptFrom(old(grid), old(other), old(inAlt))
    {
      hide Display.Value, Display.Formed, Screen.Valid, Vt.EnterAlt, AltShown;
      Parts();
      EnterAltIs(Value());
      if inAlt { return; }
      ShowAlt();
      Home();
    }

    method LeaveAlt()
      requires Valid()
      modifies this, Frame()
      ensures Valid() && Value() == Vt.LeaveAlt(old(Value())) && Frame() == old(Frame())
      ensures KeptFrom(old(grid), old(other), old(inAlt))
    {
      hide Display.Value, Display.Formed, Screen.Valid, Vt.LeaveAlt;
      Parts();
      Inside();
      LeaveAltIs(Value());
      if !inAlt { return; }
      SwapGrids();
      SavedParts();
      Parts();
      MoveTo(altRow, altCol, pendingWrap);
      SavedParts();
      Parts();
      SetPen(altPen, autoWrap);
    }

    /** The row pointers of the grids there were are those there are, in some order. */
    twostate lemma RowsKept()
      requires old(Formed()) && Formed() && KeptFrom(old(grid), old(other), old(inAlt))
      ensures multiset(old(grid).Pointers()) == multiset(old(grid.Pointers()))
      ensures old(other) != null ==> multiset(old(other).Pointers()) == multiset(old(other.Pointers()))
    {
      hide Content, Distinct, Shaped, Among, Apart;
      old(grid).RowsPermuted();
      if old(other) != null { old(other).RowsPermuted(); }
    }

    /* ---- modes and rendition ---- */

    method SetModes(visible': bool, origin': bool, insert': bool)
      requires Formed()
      modifies this`visible, this`origin, this`insert
      ensures Formed() && Value() == old(Value()).(visible := visible', origin := origin', insert := insert')
    {
      hide Content, Distinct, Shaped, Among, Apart;
      visible, origin, insert := visible', origin', insert';
    }

    /** handle_sgr. */
    method Sgr(ps: seq<nat>)
      requires Valid()
      modifies this`pen, this`autoWrap
      ensures Valid() && Value() == Vt.Sgr(old(Value()), ps)
    {
      hide Display.Value, Display.Formed, SgrList, SgrCode;
      Parts();
      if |ps| == 0 {
        SetPen(DEFAULT_PEN, autoWrap);
        return;
      }
      var p := pen;
      var i: nat := 0;
      assert ps[0..] == ps;
      while i < |ps|
        invariant i <= |ps| && SgrList(p, ps[i..]) == SgrList(pen, ps)
        invariant Formed() && Value() == old(Value())
        modifies {}
      {
        SgrStep(p, ps, i);
        var v := ps[i];
        if v == 38 || v == 48 {
          if i + 2 < |ps| && ps[i + 1] == 5 {
            p := if v == 38 then p.(fg := ps[i + 2] % 65536) else p.(bg := ps[i + 2] % 65536);
            i := i + 2;
          } else if i + 4 < |ps| && ps[i + 1] == 2 {
            i := i + 4;
          }
        } else {
          p := SgrCode(p, v);
        }
        i := i + 1;
      }
      NoSgr(p, ps[i..]);
      SetPen(p, autoWrap);
    }
  }

  lemma PlacedIs<T>(s: seq<T>, at: nat, x: seq<T>)
    requires at + |x| <= |s|
    ensures Placed(s, at, x) == s[..at] + x + s[at + |x|..]
  {
  }

  lemma ClearRowsIs(s: Screen, from: nat, end: nat)
    requires s.Valid() && from <= end <= s.rows
    ensures Vt.ClearRows(s, from, end)
            == s.(cells := Placed(s.cells, from, BlankGrid(end - from, s.cols, BlankCell(s.pen))))
  {
    hide BlankGrid;
  }

  /** ED 2 clears the first row by itself and then the others. */
  lemma WholeRowFirst(s: Screen)
    requires s.Valid()
    ensures Vt.ClearRows(Vt.ClearCells(s, 0, 0, s.cols - 1), 1, s.rows) == Vt.ClearRows(s, 0, s.rows)
  {
    var b := BlankCell(s.pen);
    var x, y := Vt.ClearRows(Vt.ClearCells(s, 0, 0, s.cols - 1), 1, s.rows), Vt.ClearRows(s, 0, s.rows);
    assert ClearRange(s.cells[0], 0, s.cols - 1, b) == BlankRow(s.cols, b);
    assert x.cells == y.cells;
  }

  lemma EraseLineIs(s: Screen, m: nat)
    requires s.Valid()
    ensures m == 0 ==> Vt.EraseLine(s, m) == Vt.ClearCells(s, s.curRow, s.curCol, s.cols - 1).(
                                               flags := Vt.ClearCells(s, s.curRow, s.curCol,
                                                                      s.cols - 1).flags[s.curRow := false])
    ensures m != 0 ==> Vt.EraseLine(s, m) == if m == 1 then Vt.ClearCells(s, s.curRow, 0, s.curCol)
                                             else if m == 2 then Vt.ClearCells(s, s.curRow, 0, s.cols - 1) else s
  {
  }

  lemma SetRegionIs(s: Screen, first: nat, last: nat)
    requires s.Valid()
    ensures var t, b := if first == 0 then 0 else first - 1, Min(last - 1, s.rows - 1);
            var s1 := if t < b then s.(top := t, bottom := b) else s;
            s1.Valid() && Vt.SetRegion(s, first, last) == Vt.CursorSet(s1, if s1.origin then s1.top else 0, 0)
  {
    hide Vt.CursorSet;
  }

  lemma DeleteCharsIs(s: Screen, n0: nat, n: nat)
    requires s.Valid() && n == Min(n0, s.cols - s.curCol)
    ensures Vt.DeleteChars(s, n0)
            == s.(cells := s.cells[s.curRow := CloseGap(s.cells[s.curRow], s.curCol, n, BlankCell(s.pen))])
  {
  }

  lemma NoSgr(p: Pen, ps: seq<nat>)
    requires ps == []
    ensures SgrList(p, ps) == p
  {
  }

  lemma SgrStep(p: Pen, ps: seq<nat>, i: nat)
    requires i < |ps|
    ensures SgrList(p, ps[i..])
            == if ps[i] == 38 || ps[i] == 48 then
                 (if i + 2 < |ps| && ps[i + 1] == 5 then
                    SgrList(if ps[i] == 38 then p.(fg := ps[i + 2] % 65536) else p.(bg := ps[i + 2] % 65536),
                            ps[i + 3..])
                  else if i + 4 < |ps| && ps[i + 1] == 2 then SgrList(p, ps[i + 5..])
                  else SgrList(p, ps[i + 1..]))
               else SgrList(SgrCode(p, ps[i]), ps[i + 1..])
  {
    hide SgrCode;
    var rest := ps[i..];
    assert |rest| > 2 ==> rest[3..] == ps[i + 3..];
    assert |rest| > 4 ==> rest[5..] == ps[i + 5..];
    assert rest[1..] == ps[i + 1..];
  }

  lemma PlacedWhole<T>(s: seq<T>, x: seq<T>)
    requires |s| == |x|
    ensures Placed(s, 0, x) == x
  {
  }

  /** The cursor saved and the other grid shown, blank. */
  function AltShown(s: Screen): Screen {
    s.(altRow := s.curRow, altCol := s.curCol, altPen := s.pen,
       cells := BlankGrid(s.rows, s.cols, BlankCell(s.pen)), flags := NoFlags(s.rows),
       hidden := Vt.Grid(s.cells, s.flags), inAlt := true)
  }

  lemma EnterAltIs(s: Screen)
    requires s.Valid()
    ensures Vt.EnterAlt(s)
            == if s.inAlt then s
               else AltShown(s).(curRow := 0, curCol := 0, top := 0, bottom := s.rows - 1)
    ensures s.rows >= 1
  {
    hide BlankGrid, NoFlags, BlankCell;
  }

  lemma LeaveAltIs(s: Screen)
    requires s.Valid()
    ensures s.inAlt ==> s.hidden.Grid?
    ensures Vt.LeaveAlt(s)
            == if !s.inAlt then s
               else s.(cells := s.hidden.cells, flags := s.hidden.flags, hidden := Vt.Grid(s.cells, s.flags),
                       inAlt := !s.inAlt,
                       curRow := s.altRow, curCol := s.altCol, pen := s.altPen)
  {
  }

  lemma NothingCaptured(h: History, cells: seq<Row>, flags: seq<bool>)
    requires |cells| == |flags|
    ensures CaptureRows(h, cells[..0], flags[..0]) == h && CaptureRows(h, [], []) == h
  {
  }

  lemma CapturedNext(h: History, cells: seq<Row>, flags: seq<bool>, i: nat)
    requires |cells| == |flags| && i < |cells|
    ensures CaptureRows(h, cells[..i + 1], flags[..i + 1])
            == Capture(CaptureRows(h, cells[..i], flags[..i]), cells[i], flags[i])
  {
    assert cells[..i + 1][..i] == cells[..i] && flags[..i + 1][..i] == flags[..i];
  }

  lemma ScrolledUpIs(s: Screen, n0: nat, n: nat)
    requires s.Valid() && n == Min(n0, s.bottom - s.top + 1)
    ensures Vt.ScrollUp(s, n0)
            == s.(cells := RaisedBy(s.cells, s.top, s.bottom, n, BlankGrid(n, s.cols, BlankCell(s.pen))),
                  flags := RaisedBy(s.flags, s.top, s.bottom, n, NoFlags(n)),
                  history := if s.top == 0 && !s.inAlt
                             then CaptureRows(s.history, s.cells[s.top..s.top + n], s.flags[s.top..s.top + n])
                             else s.history)
  {
    hide CaptureRows, BlankGrid, NoFlags, BlankCell, BlankRow;
  }

  lemma NotScrolledUp(s: Screen)
    requires s.Valid()
    ensures Vt.ScrollUp(s, 0) == s
  {
    hide CaptureRows, BlankGrid, NoFlags, BlankCell, RaisedBy, Vt.ScrollUp;
    ScrolledUpIs(s, 0, 0);
    NothingCaptured(s.history, s.cells[s.top..s.top], s.flags[s.top..s.top]);
    RaisedByNone(s.cells, s.top, s.bottom, BlankGrid(0, s.cols, BlankCell(s.pen)));
    RaisedByNone(s.flags, s.top, s.bottom, NoFlags(0));
    assert s.cells[s.top..s.top] == [] && s.flags[s.top..s.top] == [];
  }

  lemma RaisedByNone<T>(s: seq<T>, top: nat, bottom: nat, x: seq<T>)
    requires top <= bottom < |s| && x == []
    ensures RaisedBy(s, top, bottom, 0, x) == s && LoweredBy(s, top, bottom, 0, x) == s
  {
  }

  lemma ScrolledDownIs(s: Screen, n0: nat, n: nat)
    requires s.Valid() && n == Min(n0, s.bottom - s.top + 1)
    ensures Vt.ScrollDown(s, n0)
            == s.(cells := LoweredBy(s.cells, s.top, s.bottom, n, BlankGrid(n, s.cols, BlankCell(s.pen))),
                  flags := LoweredBy(s.flags, s.top, s.bottom, n, NoFlags(n)))
    ensures n == 0 ==> Vt.ScrollDown(s, n0) == s
  {
    hide BlankGrid, NoFlags, BlankCell;
    if n == 0 {
      RaisedByNone(s.cells, s.top, s.bottom, BlankGrid(0, s.cols, BlankCell(s.pen)));
      RaisedByNone(s.flags, s.top, s.bottom, NoFlags(0));
    }
  }

  lemma CursorSetIs(s: Screen, row0: int, col0: int, row: int, col: int)
    requires s.Valid()
    requires row == Clamp(row0, if s.origin then s.top else 0, if s.origin then s.bottom else s.rows - 1)
             && col == Clamp(col0, 0, s.cols - 1)
    ensures 0 <= row && 0 <= col
            && Vt.CursorSet(s, row0, col0) == s.(curRow := row, curCol := col, pendingWrap := false)
  {
  }

  lemma LineFeedIs(s: Screen)
    requires s.Valid()
    ensures Vt.LineFeed(s) == if s.curRow == s.bottom then Vt.ScrollUp(s, 1).(pendingWrap := false)
                              else s.(curRow := if s.curRow < s.rows - 1 then s.curRow + 1 else s.curRow,
                                      pendingWrap := false)
    ensures Vt.ScrollUp(s, 1).curRow == s.curRow && Vt.ScrollUp(s, 1).curCol == s.curCol
  {
    hide Vt.ScrollUp;
  }

  lemma ReverseIndexIs(s: Screen)
    requires s.Valid()
    ensures Vt.ReverseIndex(s) == if s.curRow == s.top then Vt.ScrollDown(s, 1).(pendingWrap := false)
                                  else s.(curRow := if s.curRow > 0 then s.curRow - 1 else s.curRow,
                                          pendingWrap := false)
    ensures Vt.ScrollDown(s, 1).curRow == s.curRow && Vt.ScrollDown(s, 1).curCol == s.curCol
  {
    hide Vt.ScrollDown;
  }

  /** A row with a character of w columns written at column c. */
  function CellsSet(row: Row, c: nat, cell: Cell, w: nat): (r: Row)
    requires 1 <= w <= 2 && c + w <= |row|
    ensures |r| == |row|
  {
    if w == 2 then row[c := cell][c + 1 := Continued(cell)] else row[c := cell]
  }

  function Written(row: Row, c: nat, cp: nat, w: nat, insert: bool, pen: Pen): (r: Row)
    requires 1 <= w <= 2 && c + w <= |row|
    ensures |r| == |row|
  {
    CellsSet(if insert then OpenGap(row, c, w, BlankCell(pen)) else row, c, Printed(pen, cp, w == 2), w)
  }

  lemma PlaceIs(s: Screen, cp: nat, w: nat, cells: seq<Row>)
    requires s.Valid() && 1 <= w <= 2 && s.curCol + w <= s.cols && |cells| == |s.cells|
    requires cells == s.cells[s.curRow := Written(s.cells[s.curRow], s.curCol, cp, w, s.insert, s.pen)]
    ensures Vt.Place(s, cp, w)
            == s.(cells := cells, curCol := if s.curCol + w >= s.cols then s.cols - 1 else s.curCol + w,
                                     pendingWrap := s.curCol + w >= s.cols)
  {
    hide OpenGap, BlankCell, Printed;
  }

  function AfterPending(s: Screen): (r: Screen)
    requires s.Valid()
    ensures r.Valid() && r.cols == s.cols
  {
    hide Vt.Wrap;
    if !s.pendingWrap then s else if s.autoWrap then Vt.Wrap(s) else s.(pendingWrap := false)
  }

  /** The margin marked as padding. */
  function Padded(s: Screen): (r: Screen)
    requires s.Valid()
    ensures r.Valid()
  {
    Vt.SetCell(s, BlankCell(s.pen).(pad := true))
  }

  lemma PaddedIs(s: Screen)
    requires s.Valid()
    ensures Padded(s) == s.(cells := s.cells[s.curRow := s.cells[s.curRow][s.curCol := BlankCell(s.pen).(pad := true)]])
    ensures Padded(s).cols == s.cols && Padded(s).autoWrap == s.autoWrap
  {
  }

  lemma WrapGoesLeft(s: Screen)
    requires s.Valid()
    ensures Vt.Wrap(s).curCol == 0 && Vt.Wrap(s).cols == s.cols >= 2
  {
    hide Vt.LineFeed;
  }

  lemma PutCharIs(s: Screen, ch: nat)
    requires s.Valid()
    ensures var w, s1 := Width.CpWidth(ch), AfterPending(s);
            Vt.PutChar(s, ch)
            == if w == 0 then s
               else if w == 2 && s1.curCol + 1 >= s1.cols then
                 (if s1.autoWrap then (WrapGoesLeft(Padded(s1)); Vt.Place(Vt.Wrap(Padded(s1)), ch, w)) else Padded(s1))
               else Vt.Place(s1, ch, w)
  {
    hide Vt.Wrap, Vt.Place, Width.CpWidth;
  }
}
