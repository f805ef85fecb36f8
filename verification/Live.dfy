/** The terminal in place through output and changes of size (vt_feed and vt_resize of _lib/vt.c). */
module Live {
  import opened Cells
  import opened Utf8
  import opened Vt
  import opened VtParser
  import opened Grid
  import opened Display
  import opened Dispatch
  import opened Terminal
  import opened Scrollback
  import opened Reflow
  import R = Resize

  /** A row copied into a grid. */
  method CopyRow(g: Grid, r: nat, row: Row)
    requires g.Valid() && r < g.nr && |row| == g.nc
    modifies g.cells[r]
    ensures g.Valid() && g.Rows() == old(g.Rows())[r := row]
  {
    var p := g.cells[r];
    var c: nat := 0;
    while c < |row|
      invariant c <= |row| && forall k :: 0 <= k < c ==> p[k] == row[k]
      modifies p
    {
      p[c] := row[c];
      c := c + 1;
    }
    assert p[..] == row;
  }

  /** A new grid with these rows and flags. */
  method GridFrom(cells: seq<Row>, flags: seq<bool>, nr: nat, nc: nat) returns (g: Grid)
    requires GridOf(cells, flags, nr, nc)
    ensures fresh(g) && fresh(g.Frame()) && g.Valid() && g.nr == nr && g.nc == nc && g.Rows() == cells
            && g.flags[..] == flags
  {
    hide Content, Distinct, Shaped, BlankGrid;
    g := new Grid(nr, nc);
    var r: nat := 0;
    while r < nr
      invariant r <= nr && g.Valid() && |g.Rows()| == nr && g.Rows()[..r] == cells[..r] && g.flags[..r] == flags[..r]
      modifies g.flags, g.rowSet
    {
      ghost var rows := g.Rows();
      AmongAt(g.cells[..], r, g.rowSet);
      CopyRow(g, r, cells[r]);
      g.flags[r] := flags[r];
      assert g.Rows()[..r + 1] == rows[..r] + [cells[r]];
      r := r + 1;
    }
    assert g.Rows()[..nr] == g.Rows() && cells[..nr] == cells && flags[..nr] == flags && g.flags[..nr] == g.flags[..];
  }

  method RowsOf(g: Grid) returns (cells: seq<Row>)
    requires g.Valid()
    ensures cells == g.Rows()
  {
    cells := [];
    var r: nat := 0;
    while r < g.nr
      invariant r <= g.nr && |cells| == r && forall k :: 0 <= k < r ==> cells[k] == g.cells[k][..]
    {
      cells := cells + [g.cells[r][..]];
      r := r + 1;
    }
  }

  /** The screen as a value. */
  method Snapshot(d: Display) returns (s: Screen)
    requires d.Formed()
    ensures d.Formed() && s == d.Value() == old(d.Value())
  {
    hide Content, Distinct, Shaped, Among, Apart;
    var cells := RowsOf(d.grid);
    var hidden := Vt.NoGrid;
    if d.other != null {
      var rows := RowsOf(d.other);
      hidden := Vt.Grid(rows, d.other.flags[..]);
    }
    s := Screen(d.rows, d.cols, cells, d.grid.flags[..], hidden,
                d.curRow, d.curCol, d.visible, d.pendingWrap, d.origin, d.autoWrap, d.insert, d.inAlt, d.top, d.bottom,
                d.pen,
                d.savedRow, d.savedCol, d.savedPen, d.savedWrap, d.altRow, d.altCol, d.altPen, d.history);
  }

  /** New grids in place of the old. */
  method PutGrids(d: Display, cells: seq<Row>, flags: seq<bool>, hidden: Hidden, nr: nat, nc: nat)
    requires d.Formed() && GridOf(cells, flags, nr, nc) && (hidden.Grid? ==> GridOf(hidden.cells, hidden.flags, nr, nc))
    modifies d`grid, d`other, d`rows, d`cols
    ensures d.Formed() && fresh(d.Frame())
    ensures d.Value() == old(d.Value()).(rows := nr, cols := nc, cells := cells, flags := flags, hidden := hidden)
  {
    hide Content, Distinct, Shaped, Among, GridOf, Apart;
    var grid := GridFrom(cells, flags, nr, nc);
    var other: Grid? := null;
    if hidden.Grid? {
      other := OtherFrom(grid, hidden.cells, hidden.flags, nr, nc);
    }
    d.UseGrids(grid, other, nr, nc);
  }

  /** A second grid, which shares nothing with the first. */
  method OtherFrom(grid: Grid, cells: seq<Row>, flags: seq<bool>, nr: nat, nc: nat) returns (g: Grid)
    requires GridOf(cells, flags, nr, nc) && grid.Valid()
    ensures fresh(g) && fresh(g.Frame()) && g.Valid() && g.nr == nr && g.nc == nc && g.Rows() == cells
            && g.flags[..] == flags
    ensures Apart(grid, g) && grid.Valid() && grid.Rows() == old(grid.Rows()) && grid.flags[..] == old(grid.flags[..])
  {
    hide Content, Distinct, Shaped, Among, GridOf;
    g := GridFrom(cells, flags, nr, nc);
  }

  /** All that a change of size may change. */
  function Resettled(v: Screen, s: Screen): Screen {
    v.(rows := s.rows, cols := s.cols, cells := s.cells, flags := s.flags, hidden := s.hidden,
       savedRow := s.savedRow, savedCol := s.savedCol, altRow := s.altRow, altCol := s.altCol, history := s.history,
       top := s.top, bottom := s.bottom, curRow := s.curRow, curCol := s.curCol, pendingWrap := s.pendingWrap)
  }

  /** The screen made what s says, in grids of its own. */
  method Load(d: Display, s: Screen)
    requires d.Formed() && s.Valid()
    modifies d
    ensures d.Formed() && d.Value() == Resettled(old(d.Value()), s) && fresh(d.Frame())
  {
    hide Display.Value, Display.Formed, GridOf;
    PutGrids(d, s.cells, s.flags, s.hidden, s.rows, s.cols);
    LoadSaved(d, s);
    d.SetHistory(s.history);
    d.SetRows(s.top, s.bottom);
    d.MoveTo(s.curRow, s.curCol, s.pendingWrap);
  }

  /** The saved cursors where s has them. */
  method LoadSaved(d: Display, s: Screen)
    requires d.Formed()
    modifies d`savedRow, d`savedCol, d`savedPen, d`savedWrap, d`altRow, d`altCol, d`altPen
    ensures d.Formed()
    ensures d.Value() == old(d.Value()).(savedRow := s.savedRow, savedCol := s.savedCol, altRow := s.altRow,
                                         altCol := s.altCol)
  {
    hide Display.Value, Display.Formed;
    d.SavedParts();
    d.PutSaved(s.savedRow, s.savedCol, d.savedPen, d.savedWrap);
    d.SavedParts();
    d.PutAlt(s.altRow, s.altCol, d.altPen);
  }

  method ResizeValue(d: Display, s: Screen, nr: nat, nc: nat, junk: Cell) returns (r: Screen)
    requires d.Formed() && s.Valid() && nr >= 1 && nc >= 2
    ensures r == R.Resized(s, nr, nc, junk) && d.Formed() && d.Value() == old(d.Value())
  {
    hide R.Resized, Content, Distinct, Shaped, Among, Apart;
    r := R.ResizeScreen(s, nr, nc, junk);
  }

  /** scr_resize. */
  method ResizeDisplay(d: Display, nr: nat, nc: nat, junk: Cell)
    requires d.Valid() && nr >= 1 && nc >= 2
    modifies d
    ensures d.Valid() && d.Value() == R.Resized(old(d.Value()), nr, nc, junk) && fresh(d.Frame())
  {
    hide Display.Value, Display.Formed, Screen.Valid, R.Resized;
    var s := Snapshot(d);
    var r := ResizeValue(d, s, nr, nc, junk);
    ResizedIsResettled(s, nr, nc, junk);
    Load(d, r);
  }

  /** A change of size leaves the modes and the renditions as they are. */
  lemma ResizedIsResettled(s: Screen, nr: nat, nc: nat, junk: Cell)
    requires s.Valid() && nr >= 1 && nc >= 2
    ensures var r := R.Resized(s, nr, nc, junk); r.Valid() && r == Resettled(s, r)
  {
    hide *;
    ResizedCases(s, nr, nc, junk);
    if R.Reflows(s) { ReflowedIsResettled(s, nr, nc, junk); } else { PlainIsResettled(s, nr, nc); }
  }

  lemma ResizedCases(s: Screen, nr: nat, nc: nat, junk: Cell)
    requires s.Valid() && nr >= 1 && nc >= 2
    ensures R.Reflows(s) ==> s.history.History?
    ensures R.Resized(s, nr, nc, junk) == if R.Reflows(s) then Reflowed(s, nr, nc, junk) else R.PlainResized(s, nr, nc)
  {
    hide Reflowed, R.PlainResized;
  }

  lemma ReflowedIsResettled(s: Screen, nr: nat, nc: nat, junk: Cell)
    requires s.Valid() && s.history.History? && nr >= 1 && nc >= 2
    ensures var r := Reflowed(s, nr, nc, junk); r == Resettled(s, r)
  {
    hide WholePage, CursorAt, HistoryLeft, Settle;
    SettledIsResettled(s, WholePage(s, nr, nc, junk), CursorAt(s, nr, nc, junk), HistoryLeft(s, nr, nc, junk), nr, nc);
  }

  lemma SettledIsResettled(s: Screen, page: Page, at: nat, text: seq<Byte>, nr: nat, nc: nat)
    requires s.Valid() && nr >= 1 && nc >= 2 && page.Valid(nc) && at < |page.rows|
    ensures var r := Settle(s, page, at, text, nr, nc); r == Resettled(s, r)
  {
    hide CaptureRows, ResizedHidden, BlankGrid, NoFlags;
  }

  lemma PlainIsResettled(s: Screen, nr: nat, nc: nat)
    requires s.Valid() && nr >= 1 && nc >= 2
    ensures var r := R.PlainResized(s, nr, nc); r == Resettled(s, r)
  {
    hide ResizedGrid, ResizedFlags, ResizedHidden;
  }

  /** vt_resize. */
  method ResizeTerminal(t: Terminal, nr: nat, nc: nat, junk: Cell)
    requires t.Valid() && nr >= 1 && nc >= 2
    modifies t.tabstops, t.scr
    ensures t.Valid() && t.Value() == R.ResizedParser(old(t.Value()), nr, nc, junk)
            && fresh(t.scr.Frame() - old(t.scr.Frame()))
  {
    hide Display.Value, Display.Formed, Screen.Valid, R.Resized, DefaultTabs;
    t.scr.Parts();
    if nr == t.scr.rows && nc == t.scr.cols { return; }
    ResetTabs(t.tabstops, nc);
    ResizeDisplay(t.scr, nr, nc, junk);
  }

  /** Any interleaving of output and changes of size: every cursor stays in the grid, every index in its buffer,
      no row is pointed to twice, and the terminal is what the model on values says. */
  method Run(t: Terminal, events: seq<R.Event>)
    requires t.Valid() && R.EventsOk(events)
    modifies t, t.params, t.inter, t.osc, t.utf8Buf, t.tabstops, t.scr, t.scr.Frame()
    ensures t.Valid() && t.Value() == R.Live(old(t.Value()), events)
  {
    hide Terminal.Value, Terminal.Formed, Parser.Valid, Screen.Valid, FeedAll, NoReset, R.ResizedParser, R.Live,
         Display.Value, Display.Formed, Display.KeptFrom;
    ghost var p, frame := t.Value(), t.scr.Frame();
    var i: nat := 0;
    LiveNothing(p, events[..0]);
    while i < |events|
      invariant i <= |events| && t.Valid() && t.Value() == R.Live(p, events[..i]) && fresh(t.scr.Frame() - frame)
    {
      LiveStep(p, events, i);
      match events[i] {
        case Output(bytes) => t.FeedBytes(bytes);
        case Resize(rows, cols, junk) => ResizeTerminal(t, rows, cols, junk);
      }
      i := i + 1;
    }
    assert events[..i] == events;
  }

  lemma LiveNothing(p: Parser, events: seq<R.Event>)
    requires p.Valid() && events == []
    ensures R.Live(p, events) == p
  {
  }

  lemma LiveStep(p: Parser, events: seq<R.Event>, i: nat)
    requires p.Valid() && R.EventsOk(events) && i < |events|
    ensures var q := R.Live(p, events[..i]);
            R.Live(p, events[..i + 1]) == match events[i]
                                          case Output(bytes) => FeedAll(q, bytes)
                                          case Resize(rows, cols, junk) => R.ResizedParser(q, rows, cols, junk)
  {
    hide FeedAll, R.ResizedParser;
    assert events[..i + 1][..i] == events[..i];
  }
}
