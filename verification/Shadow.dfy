/** What the renderer believes about one row of the terminal, and how printing and erasing keep it true. */
module Shadow {
  import opened Cells
  import opened Vt
  import Width

  /** The code point of a shadow cell about which nothing is known. */
  const UNKNOWN := 0xFFFF_FFFF

  /** cells_eq: whether two cells look the same, as the renderer decides it. */
  predicate CellsEq(a: Cell, b: Cell) {
    && Glyph(a) == Glyph(b) && a.attrs == b.attrs
    && a.wide == b.wide && a.cont == b.cont && a.fgDfl == b.fgDfl && a.bgDfl == b.bgDfl && a.pad == b.pad
    && (a.fgDfl || a.fg == b.fg)
    && (a.bgDfl || a.bg == b.bg)
  }

  predicate Printable(cp: nat) {
    0x20 <= cp < 0x20_0000 && cp != 0x7F
  }

  /** A cell that one print shows, and whose width the terminal agrees on. */
  predicate CellOk(c: Cell) {
    && (c.ch == 0 || Printable(c.ch))
    && Width.CpWidth(Glyph(c)) == if c.wide then 2 else 1
  }

  /** Wide characters are whole, and every cell can be shown. */
  ghost predicate RowOk(row: Row) {
    Paired(row) && forall c :: 0 <= c < |row| ==> row[c].cont || CellOk(row[c])
  }

  /** The terminal's cell is what the shadow says, if it says anything. */
  predicate Agrees(shadow: Cell, shown: Cell) {
    shadow.ch == UNKNOWN || LookOf(shadow) == LookOf(shown)
  }

  predicate KnownWide(shadow: Cell) {
    shadow.wide && shadow.ch != UNKNOWN
  }

  /** The belief about cell c: it looks as recorded, and a wide character is followed by its second half. */
  predicate CellBelief(shadow: Row, shown: Row, c: nat)
    requires c < |shadow| == |shown|
  {
    && Agrees(shadow[c], shown[c])
    && (KnownWide(shadow[c]) ==> c + 1 < |shown| && shown[c + 1].cont)
  }

  ghost predicate Belief(shadow: Row, shown: Row) {
    |shadow| == |shown| && forall c :: 0 <= c < |shown| ==> CellBelief(shadow, shown, c)
  }

  /** Drawing row `want` has reached column c: what is left of it is done, the rest is as believed. */
  ghost predicate Drawn(want: Row, shadow: Row, shown: Row, c: nat) {
    && |want| == |shadow| == |shown| && c <= |want|
    && (forall k :: 0 <= k < c ==> LookOf(shown[k]) == LookOf(want[k]) && Agrees(shadow[k], shown[k])
                                   && (KnownWide(shadow[k]) ==> want[k].wide))
    && (forall k :: c <= k < |want| ==> CellBelief(shadow, shown, k))
    && (0 < c < |want| && want[c - 1].wide ==> shown[c].cont)
  }

  lemma DrawnAtEnd(want: Row, shadow: Row, shown: Row)
    requires RowOk(want) && Drawn(want, shadow, shown, |want|)
    ensures RowShows(shown, want) && Belief(shadow, shown)
  {
    forall k | 0 <= k < |want| ensures CellBelief(shadow, shown, k) {
      if KnownWide(shadow[k]) {
        assert LookOf(shown[k + 1]) == LookOf(want[k + 1]);
      }
    }
  }

  lemma EqualLooks(a: Cell, b: Cell)
    requires CellsEq(a, b) && CellOk(a)
    ensures LookOf(a) == LookOf(b) && b.ch != UNKNOWN
  {
  }

  /** A cell that already looks right is passed over. */
  lemma DrawnSkip(want: Row, shadow: Row, shown: Row, c: nat)
    requires RowOk(want) && Drawn(want, shadow, shown, c) && c < |want|
    requires !want[c].cont && CellsEq(want[c], shadow[c])
    ensures Drawn(want, shadow, shown, c + 1)
  {
    EqualLooks(want[c], shadow[c]);
    assert CellBelief(shadow, shown, c);
  }

  /** The second half of a wide character came with the first. */
  lemma DrawnContinuation(want: Row, shadow: Row, shown: Row, c: nat)
    requires RowOk(want) && Drawn(want, shadow, shown, c) && c < |want| && want[c].cont
    ensures Drawn(want, shadow[c := want[c]], shown, c + 1)
  {
    var shadow' := shadow[c := want[c]];
    assert !want[c].wide;
    assert shown[c].cont;
    forall k | c + 1 <= k < |want| ensures CellBelief(shadow', shown, k) {
      assert CellBelief(shadow, shown, k);
    }
  }

  /* ---- printing a cell ---- */

  /** The pen a cell is printed with. */
  function PenOf(c: Cell): Pen {
    Pen(if c.fgDfl then COLOR_DEFAULT else c.fg, if c.bgDfl then COLOR_DEFAULT else c.bg, c.attrs)
  }

  /** The terminal's row after cell c of `want` is printed on it. */
  function PrintOn(shown: Row, c: nat, cell: Cell): (r: Row)
    requires c < |shown|
    ensures |r| == |shown|
  {
    var p := Printed(PenOf(cell), Glyph(cell), cell.wide);
    if cell.wide && c + 1 < |shown| then shown[c := p][c + 1 := Continued(p)] else shown[c := p]
  }

  /** The shadow's row after the same. */
  function RecordOn(shadow: Row, c: nat, cell: Cell): (r: Row)
    requires c < |shadow|
    ensures |r| == |shadow|
  {
    if cell.wide && c + 1 < |shadow| then shadow[c := cell][c + 1 := cell.(wide := false, cont := true)]
    else shadow[c := cell]
  }

  lemma PrintedLooks(cell: Cell)
    requires !cell.cont
    ensures LookOf(Printed(PenOf(cell), Glyph(cell), cell.wide)) == LookOf(cell)
  {
  }

  lemma DrawnPrint(want: Row, shadow: Row, shown: Row, c: nat)
    requires RowOk(want) && Drawn(want, shadow, shown, c) && c < |want| && !want[c].cont
    ensures Drawn(want, RecordOn(shadow, c, want[c]), PrintOn(shown, c, want[c]), c + 1)
  {
    var shadow', shown' := RecordOn(shadow, c, want[c]), PrintOn(shown, c, want[c]);
    PrintedLooks(want[c]);
    forall k | c + 1 <= k < |want| ensures CellBelief(shadow', shown', k) {
      assert CellBelief(shadow, shown, k);
    }
  }

  /** The first cell of a row printed outside the row's own pass keeps the belief about it. */
  lemma BeliefPrintFirst(shadow: Row, shown: Row, cell: Cell)
    requires Belief(shadow, shown) && |shown| >= 2 && !cell.cont && CellOk(cell)
    ensures Belief(RecordOn(shadow, 0, cell), PrintOn(shown, 0, cell))
  {
    var shadow', shown' := RecordOn(shadow, 0, cell), PrintOn(shown, 0, cell);
    PrintedLooks(cell);
    forall k | 0 <= k < |shown| ensures CellBelief(shadow', shown', k) {
      assert CellBelief(shadow, shown, k);
    }
  }

  /* ---- erasing and filling ---- */

  /** An erase from column c on finishes a row that is blank from there. */
  lemma DrawnErase(want: Row, shadow: Row, shown: Row, c: nat, b: Cell)
    requires RowOk(want) && Drawn(want, shadow, shown, c) && c < |want|
    requires forall k :: c <= k < |want| ==> IsBlank(want[k])
    requires IsBlank(b)
    ensures Drawn(want, shadow[..c] + want[c..], ClearRange(shown, c, |shown| - 1, b), |want|)
  {
    assert IsBlank(want[c]);
  }

  /** One blank of a gap written over cell k, which is done and looks blank. */
  lemma DrawnFill(want: Row, shadow: Row, shown: Row, c: nat, k: nat, b: Cell)
    requires RowOk(want) && Drawn(want, shadow, shown, c) && k < c && c < |want|
    requires IsBlank(want[k]) && IsBlank(b)
    ensures Drawn(want, shadow, shown[k := b], c)
  {
    var shown' := shown[k := b];
    forall j | c <= j < |want| ensures CellBelief(shadow, shown', j) {
      assert CellBelief(shadow, shown, j);
    }
  }

  lemma BeliefIsDrawn(want: Row, shadow: Row, shown: Row)
    requires |want| == |shown| && Belief(shadow, shown)
    ensures Drawn(want, shadow, shown, 0)
  {
  }

  /** A row of whose cells nothing is known any more. */
  function Forgotten(row: Row): (r: Row)
    ensures |r| == |row| && forall c :: 0 <= c < |row| ==> r[c].ch == UNKNOWN
  {
    seq(|row|, c requires 0 <= c < |row| => row[c].(ch := UNKNOWN))
  }

  /** Of a row of unknown cells, anything may be believed. */
  lemma UnknownRowBelief(shadow: Row, shown: Row)
    requires |shadow| == |shown| && forall c :: 0 <= c < |shadow| ==> shadow[c].ch == UNKNOWN
    ensures Belief(shadow, shown)
  {
  }

  lemma BlankBelief(cols: nat)
    ensures Belief(BlankRow(cols, BLANK), BlankRow(cols, BLANK))
  {
  }

  /** A row none of whose cells differs from the shadow is on the terminal already. */
  lemma NothingChanged(want: Row, shadow: Row, shown: Row)
    requires RowOk(want) && |want| == |shown| && Belief(shadow, shown)
    requires forall c :: 0 <= c < |want| && !want[c].cont ==> CellsEq(want[c], shadow[c])
    ensures RowShows(shown, want)
  {
    forall c | 0 <= c < |want| ensures LookOf(shown[c]) == LookOf(want[c]) {
      if want[c].cont {
        EqualLooks(want[c - 1], shadow[c - 1]);
        assert CellBelief(shadow, shown, c - 1);
      } else {
        EqualLooks(want[c], shadow[c]);
        assert CellBelief(shadow, shown, c);
      }
    }
  }

  /* ---- what has been recorded ---- */

  /** The shadow says of the first c cells what is wanted there, so they will not be sent again. */
  ghost predicate Recorded(want: Row, shadow: Row, c: nat) {
    c <= |want| == |shadow| && forall k :: 0 <= k < c ==> CellsEq(want[k], shadow[k])
  }

  lemma RecordedNone(want: Row, shadow: Row)
    requires |want| == |shadow|
    ensures Recorded(want, shadow, 0)
  {
  }

  lemma RecordedSkip(want: Row, shadow: Row, c: nat)
    requires Recorded(want, shadow, c) && c < |want| && CellsEq(want[c], shadow[c])
    ensures Recorded(want, shadow, c + 1)
  {
  }

  lemma RecordedContinuation(want: Row, shadow: Row, c: nat)
    requires Recorded(want, shadow, c) && c < |want|
    ensures Recorded(want, shadow[c := want[c]], c + 1)
  {
  }

  lemma RecordedPrint(want: Row, shadow: Row, c: nat)
    requires Recorded(want, shadow, c) && c < |want|
    ensures Recorded(want, RecordOn(shadow, c, want[c]), c + 1)
  {
  }

  lemma RecordedErase(want: Row, shadow: Row, c: nat)
    requires Recorded(want, shadow, c)
    ensures Recorded(want, shadow[..c] + want[c..], |want|)
  {
  }
}
