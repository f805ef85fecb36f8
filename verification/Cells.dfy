/** The cells of a screen grid (_lib/vt.h) and what they look like. */
module Cells {
  /** The bits of a cell's attribute byte; a byte of them is a set here. */
  datatype Attr = Bold | Dim | Italic | Underline | Blink | Reverse | Invis | Strike

  type Color = n: nat | n < 256

  /** The SGR state's "default colour", never stored in a cell. */
  const COLOR_DEFAULT := 256

  /** ch is a code point; the flag byte is spelt out as one field per bit. */
  datatype Cell = Cell(ch: nat, fg: Color, bg: Color, attrs: set<Attr>,
                       wide: bool, cont: bool, fgDfl: bool, bgDfl: bool, pad: bool)

  type Row = seq<Cell>

  const SPACE := 0x20

  /** What an erase in the default colours leaves. */
  const BLANK := Cell(SPACE, 0, 0, {}, false, false, true, true, false)

  /** A never-written cell holds 0, which shows as a space. */
  function Glyph(c: Cell): nat {
    if c.ch == 0 then SPACE else c.ch
  }

  predicate IsBlank(c: Cell) {
    && !c.wide && !c.cont
    && (c.ch == 0 || c.ch == SPACE)
    && c.bgDfl
    && Underline !in c.attrs && Strike !in c.attrs && Reverse !in c.attrs
  }

  /** What a cell shows. The continuation of a wide character shows nothing of its own. */
  datatype Look =
    | Nothing
    | Continuation
    | Ink(glyph: nat, wide: bool, fg: nat, bg: nat, attrs: set<Attr>)

  function LookOf(c: Cell): Look {
    if c.cont then Continuation
    else if IsBlank(c) then Nothing
    else Ink(Glyph(c), c.wide, if c.fgDfl then COLOR_DEFAULT else c.fg, if c.bgDfl then COLOR_DEFAULT else c.bg,
             c.attrs)
  }

  /** Two rows of one length that look the same. */
  ghost predicate RowShows(shown: Row, wanted: Row) {
    |shown| == |wanted| && forall c :: 0 <= c < |wanted| ==> LookOf(shown[c]) == LookOf(wanted[c])
  }

  /** Cells from..to (inclusive) of a row replaced by b. */
  function ClearRange(row: Row, from: int, to: int, b: Cell): (r: Row)
    requires 0 <= from && to < |row|
    ensures |r| == |row|
    ensures forall c :: 0 <= c < |row| ==> r[c] == if from <= c <= to then b else row[c]
  {
    seq(|row|, c requires 0 <= c < |row| => if from <= c <= to then b else row[c])
  }

  function BlankRow(cols: nat, b: Cell): (r: Row)
    ensures |r| == cols && forall c :: 0 <= c < cols ==> r[c] == b
  {
    seq(cols, _ => b)
  }

  /** Cells of which every wide one is followed by its second half, and no second half stands alone. */
  ghost predicate Paired(cells: seq<Cell>) {
    && (forall c :: 0 <= c < |cells| && cells[c].wide ==> !cells[c].cont && c + 1 < |cells| && cells[c + 1].cont)
    && (forall c :: 0 <= c < |cells| && cells[c].cont ==> c > 0 && cells[c - 1].wide)
  }
}
