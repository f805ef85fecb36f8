/** What a terminal puts on the glass for a cell: its ground, its character and its lines. */
module Paint {
  import opened Cells
  import opened Vt
  import Lines

  datatype Colour = DefaultInk | DefaultGround | Palette(n: nat)

  /** A stroke is drawn in one colour and one manner; a line has no code point. */
  datatype Stroke =
    | NoStroke
    | Character(code: nat, colour: Colour, manner: set<Attr>)
    | Line(colour: Colour, manner: set<Attr>)

  datatype Square =
    | SecondHalf
    | Square(columns: nat, ground: Colour, glyph: Stroke, underline: Stroke, strike: Stroke)

  /** Reverse video exchanges the two colours. */
  function GroundOf(c: Cell): Colour {
    if Reverse in c.attrs then (if c.fgDfl then DefaultInk else Palette(c.fg))
    else if c.bgDfl then DefaultGround else Palette(c.bg)
  }

  function InkOf(c: Cell): Colour {
    if Reverse in c.attrs then (if c.bgDfl then DefaultGround else Palette(c.bg))
    else if c.fgDfl then DefaultInk else Palette(c.fg)
  }

  function MannerOf(c: Cell): set<Attr> {
    c.attrs * {Bold, Dim, Italic, Blink, Invis}
  }

  /** A space, and a cell never written, have no glyph. */
  function Painted(c: Cell): Square {
    if c.cont then SecondHalf
    else
      Square(if c.wide then 2 else 1, GroundOf(c),
             if c.ch == 0 || c.ch == 0x20 then NoStroke else Character(c.ch, InkOf(c), MannerOf(c)),
             if Underline in c.attrs then Line(InkOf(c), MannerOf(c)) else NoStroke,
             if Strike in c.attrs then Line(InkOf(c), MannerOf(c)) else NoStroke)
  }

  /** A cell is blank exactly when it paints nothing but the default ground in one column. */
  lemma BlankPaints(c: Cell)
    ensures IsBlank(c) <==> Painted(c) == Square(1, DefaultGround, NoStroke, NoStroke, NoStroke)
  {
  }

  /** And what is not kept at the end of a line when its rows are laid out anew paints no more than that. */
  lemma TrimmedPaints(c: Cell)
    ensures Lines.LineBlank(c)
            <==> Painted(c) == Square(if c.wide then 2 else 1, DefaultGround, NoStroke, NoStroke, NoStroke)
  {
  }

  /** Cells that look the same are painted the same. */
  lemma LooksPaint(a: Cell, b: Cell)
    requires LookOf(a) == LookOf(b)
    ensures Painted(a) == Painted(b)
  {
    BlankPaints(a);
    BlankPaints(b);
  }

  ghost predicate RowPainted(shown: Row, wanted: Row) {
    |shown| == |wanted| && forall c :: 0 <= c < |wanted| ==> Painted(shown[c]) == Painted(wanted[c])
  }

  lemma RowLooksPaint(shown: Row, wanted: Row)
    requires RowShows(shown, wanted)
    ensures RowPainted(shown, wanted)
  {
    hide LookOf, Painted;
    forall c | 0 <= c < |wanted| ensures Painted(shown[c]) == Painted(wanted[c]) {
      LooksPaint(shown[c], wanted[c]);
    }
  }

  /** The rows of a screen painted in the first rows of a terminal, joined to the row below as the screen's are, the
      last one excepted, and the cursor seen where it is to be seen. */
  ghost predicate ScreenPainted(t: Screen, s: Screen) {
    && |s.cells| == |s.flags| == s.rows && s.rows <= |t.cells| && s.rows <= |t.flags|
    && (forall r :: 0 <= r < s.rows ==> RowPainted(t.cells[r], s.cells[r]))
    && (forall r :: 0 <= r < s.rows ==> t.flags[r] == (s.flags[r] && r < s.rows - 1))
    && t.visible == s.visible
    && (s.visible ==> t.curRow == s.curRow && t.curCol == s.curCol && !t.pendingWrap)
  }
}
