/** Control sequences carried out on the screen in place (dispatch_csi of _lib/vt.c). */
module Dispatch {
  import opened Cells
  import opened Scrollback
  import opened Vt
  import opened VtParser
  import opened Display

  ghost function TabsOf(t: array<bool>): (s: set<nat>)
    reads t
  {
    set c: nat | 0 <= c < t.Length && t[c]
  }

  /** The tab stops are no part of the screen. */
  ghost predicate Beside(t: array<bool>, d: Display)
    reads d
  {
    t as object !in d.Frame()
  }

  /** tab_get. */
  function TabGet(t: array<bool>, col: nat): bool
    reads t
  {
    col < t.Length && t[col]
  }

  /** HT. */
  method TabForward(d: Display, t: array<bool>)
    requires d.Valid() && Beside(t, d)
    modifies d`curRow, d`curCol, d`pendingWrap
    ensures d.Valid() && d.Value() == VtParser.Tab(old(d.Value()), TabsOf(t))
  {
    hide Display.Value, Display.Formed, Screen.Valid, VtParser.Tab;
    d.Parts();
    d.Inside();
    var c: nat := d.curCol;
    if c < d.cols - 1 {
      c := c + 1;
      while c < d.cols - 1 && !TabGet(t, c)
        invariant c < d.cols && NextTab(TabsOf(t), d.cols, c) == NextTab(TabsOf(t), d.cols, d.curCol + 1)
        decreases d.cols - c
        modifies {}
      {
        c := c + 1;
      }
    }
    TabIs(d.Value(), TabsOf(t), c);
    d.MoveTo(d.curRow, c, false);
  }

  lemma TabIs(s: Screen, tabs: set<nat>, c: nat)
    requires s.Valid() && c < s.cols
    requires if s.curCol < s.cols - 1 then NextTab(tabs, s.cols, s.curCol + 1) == NextTab(tabs, s.cols, c)
             && (c == s.cols - 1 || c in tabs)
             else c == s.curCol
    ensures VtParser.Tab(s, tabs) == s.(curCol := c, pendingWrap := false)
  {
  }

  /** CHT. */
  method TabsForward(d: Display, t: array<bool>, n: nat)
    requires d.Valid() && Beside(t, d)
    modifies d`curRow, d`curCol, d`pendingWrap
    ensures d.Valid() && d.Value() == VtParser.Tabs(old(d.Value()), TabsOf(t), n)
  {
    hide Display.Value, Display.Formed, Screen.Valid, VtParser.Tab;
    var k := n;
    while k > 0
      invariant 0 <= k <= n && d.Valid()
                && VtParser.Tabs(d.Value(), TabsOf(t), k) == VtParser.Tabs(old(d.Value()), TabsOf(t), n)
      modifies d`curRow, d`curCol, d`pendingWrap
    {
      TabForward(d, t);
      k := k - 1;
    }
  }

  /** The tab stop at column c0 or before it; column 0 if there is none. */
  method StopBefore(t: array<bool>, c0: nat) returns (c: nat)
    ensures c == PrevTab(TabsOf(t), c0)
  {
    c := c0;
    while c > 0 && !TabGet(t, c)
      invariant PrevTab(TabsOf(t), c) == PrevTab(TabsOf(t), c0)
    {
      c := c - 1;
    }
  }

  /** n stops back from column c0. */
  method StopsBack(t: array<bool>, c0: nat, n: nat) returns (c: nat)
    ensures c == BackCols(TabsOf(t), c0, n)
  {
    hide PrevTab, TabsOf;
    var k: nat := n;
    c := c0;
    while k > 0 && c > 0
      invariant k <= n && BackCols(TabsOf(t), c, k) == BackCols(TabsOf(t), c0, n)
    {
      c := StopBefore(t, c - 1);
      k := k - 1;
    }
  }

  /** CBT. */
  method TabsBack(d: Display, t: array<bool>, n: nat)
    requires d.Valid() && Beside(t, d)
    modifies d`curRow, d`curCol, d`pendingWrap
    ensures d.Valid() && d.Value()
            == old(d.Value()).(curCol := BackCols(TabsOf(t), old(d.Value()).curCol, n), pendingWrap := false)
  {
    hide Display.Value, Display.Formed, Screen.Valid, PrevTab;
    ghost var s := d.Value();
    d.Parts();
    d.Inside();
    var c := StopsBack(t, d.curCol, n);
    BackIs(s, TabsOf(t), n, c);
    d.MoveTo(d.curRow, c, false);
  }

  lemma BackIs(s: Screen, tabs: set<nat>, n: nat, c: nat)
    requires s.Valid() && c == BackCols(tabs, s.curCol, n)
    ensures s.(curCol := c, pendingWrap := false).Valid()
  {
  }

  /** The cursor movements of a control sequence. */
  method CsiMove(d: Display, t: array<bool>, final: char, ps: seq<nat>)
    requires d.Valid() && Beside(t, d) && IsMove(final)
    modifies d`curRow, d`curCol, d`pendingWrap, d`savedRow, d`savedCol, d`savedPen, d`savedWrap, d`pen, d`autoWrap
    ensures d.Valid() && d.Value() == VtParser.CsiMove(old(d.Value()), TabsOf(t), final, ps)
  {
    hide Display.Value, Display.Formed, Screen.Valid, Vt.CursorSet, VtParser.Tabs, BackCols, Vt.SaveCursor,
         Vt.RestoreCursor;
    d.Parts();
    var n := P(ps, 0, 1);
    match final {
      case 'A' => d.CursorSet(d.curRow - n, d.curCol);
      case 'B' => d.CursorSet(d.curRow + n, d.curCol);
      case 'C' => d.CursorSet(d.curRow, d.curCol + n);
      case 'D' => d.CursorSet(d.curRow, d.curCol - n);
      case 'E' => d.CursorSet(d.curRow + n, 0);
      case 'F' => d.CursorSet(d.curRow - n, 0);
      case 'G' => d.CursorSet(d.curRow, n - 1);
      case 'd' => d.CursorSet(n - 1, d.curCol);
      case 'H' => d.CursorSet(n - 1 + (if d.origin then d.top else 0), P(ps, 1, 1) - 1);
      case 'f' => d.CursorSet(n - 1 + (if d.origin then d.top else 0), P(ps, 1, 1) - 1);
      case 'I' => TabsForward(d, t, n);
      case 'Z' => TabsBack(d, t, n);
      case 's' => d.SaveCursor();
      case 'u' => d.RestoreCursor();
      case _ =>
    }
  }

  /** What a control sequence edits on the screen. */
  method CsiEdit(d: Display, final: char, ps: seq<nat>)
    requires d.Valid()
    modifies d, d.Frame()
    ensures d.Valid() && d.Value() == VtParser.CsiEdit(old(d.Value()), final, ps) && d.Frame() == old(d.Frame())
    ensures d.KeptFrom(old(d.grid), old(d.other), old(d.inAlt))
  {
    hide Display.Value, Display.Formed, Screen.Valid, Vt.EraseDisplay, Vt.EraseLine, Vt.EraseChars, Vt.InsertChars,
         Vt.DeleteChars;
    hide Vt.InsertLines, Vt.DeleteLines, Vt.ScrollUp, Vt.ScrollDown, Vt.Sgr, Vt.SetRegion;
    d.Parts();
    var n := P(ps, 0, 1);
    match final {
      case 'J' => d.EraseDisplay(P(ps, 0, 0));
      case 'K' => d.EraseLine(P(ps, 0, 0));
      case 'X' => d.EraseChars(n);
      case '@' => d.InsertChars(n);
      case 'P' => d.DeleteChars(n);
      case 'L' => d.InsertLines(n);
      case 'M' => d.DeleteLines(n);
      case 'S' => d.ScrollUp(n);
      case 'T' => d.ScrollDown(n);
      case 'm' => d.Sgr(ps);
      case 'h' => SetInsert(d, ps, true);
      case 'l' => SetInsert(d, ps, false);
      case 'r' => d.SetRegion(n, P(ps, 1, d.rows));
      case _ =>
    }
  }

  /** IRM. */
  method SetInsert(d: Display, ps: seq<nat>, on: bool)
    requires d.Valid()
    modifies d`visible, d`origin, d`insert
    ensures d.Valid() && d.Value() == if P(ps, 0, 0) == 4 then old(d.Value()).(insert := on) else old(d.Value())
  {
    hide Display.Value, Display.Formed;
    d.Parts();
    d.SavedParts();
    if P(ps, 0, 0) == 4 { d.SetModes(d.visible, d.origin, on); }
  }

  /** DECOM, which takes the cursor home. */
  method SetOrigin(d: Display, on: bool)
    requires d.Valid()
    modifies d`visible, d`origin, d`insert, d`curRow, d`curCol, d`pendingWrap
    ensures d.Valid() && d.Value() == VtParser.PrivateMode(old(d.Value()), 6, on)
  {
    hide Display.Value, Display.Formed, Vt.CursorSet;
    d.Parts();
    d.SavedParts();
    d.SetModes(d.visible, on, d.insert);
    d.Parts();
    d.CursorSet(if on then d.top else 0, 0);
  }

  method SetWrapOrVisible(d: Display, mode: nat, on: bool)
    requires d.Valid() && (mode == 7 || mode == 25)
    modifies d`visible, d`origin, d`insert, d`pen, d`autoWrap
    ensures d.Valid() && d.Value() == VtParser.PrivateMode(old(d.Value()), mode, on)
  {
    hide Display.Value, Display.Formed;
    d.Parts();
    d.SavedParts();
    if mode == 7 { d.SetPen(d.pen, on); } else { d.SetModes(on, d.origin, d.insert); }
  }

  /** DECSET and DECRST of one mode. */
  method PrivateMode(d: Display, mode: nat, on: bool)
    requires d.Valid()
    modifies d, d.Frame()
    ensures d.Valid() && d.Value() == VtParser.PrivateMode(old(d.Value()), mode, on)
            && fresh(d.Frame() - old(d.Frame()))
    ensures d.KeptFrom(old(d.grid), old(d.other), old(d.inAlt))
  {
    hide Display.Value, Display.Formed, Screen.Valid, Vt.CursorSet, Vt.EnterAlt, Vt.LeaveAlt;
    if mode == 6 { SetOrigin(d, on); }
    else if mode == 7 || mode == 25 { SetWrapOrVisible(d, mode, on); }
    else if mode == 47 || mode == 1047 || mode == 1049 {
      if on { d.EnterAlt(); } else { d.LeaveAlt(); }
    }
  }

  method PrivateModes(d: Display, ps: seq<nat>, on: bool)
    requires d.Valid()
    modifies d, d.Frame()
    ensures d.Valid() && d.Value() == VtParser.PrivateModes(old(d.Value()), ps, on) && fresh(d.Frame() - old(d.Frame()))
    ensures d.KeptFrom(old(d.grid), old(d.other), old(d.inAlt))
  {
    hide Display.Value, Display.Formed, Screen.Valid, VtParser.PrivateMode, VtParser.PrivateModes;
    ghost var s := d.Value();
    ghost var frame, g, o, alt := d.Frame(), d.grid, d.other, d.inAlt;
    var i: nat := 0;
    NoModes(s, ps[..0], on);
    while i < |ps|
      invariant i <= |ps| && d.Valid() && d.Value() == VtParser.PrivateModes(s, ps[..i], on) && fresh(d.Frame() - frame)
      invariant d.KeptFrom(g, o, alt)
    {
      OneMoreMode(s, ps, i, on);
      PrivateMode(d, ps[i], on);
      i := i + 1;
    }
    assert ps[..i] == ps;
  }

  lemma NoModes(s: Screen, ps: seq<nat>, on: bool)
    requires s.Valid() && ps == []
    ensures VtParser.PrivateModes(s, ps, on) == s
  {
  }

  lemma OneMoreMode(s: Screen, ps: seq<nat>, i: nat, on: bool)
    requires s.Valid() && i < |ps|
    ensures VtParser.PrivateModes(s, ps[..i + 1], on)
            == VtParser.PrivateMode(VtParser.PrivateModes(s, ps[..i], on), ps[i], on)
  {
    hide VtParser.PrivateMode;
    assert ps[..i + 1][..i] == ps[..i];
  }
}
