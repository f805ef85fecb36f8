/** The cursor moves tmux/render.c chooses from, and how many bytes they take. */
module Moves {
  import opened Utf8
  import opened Vt
  import opened TermOps

  /* ---- what emit_move considers ---- */

  /** dr rows down (or up), the column kept: line feeds if they are few, or one sequence. */
  ghost predicate Vertical(dr: int, v: seq<Op>) {
    || (dr == 0 && v == [])
    || (0 < dr <= 3 && v == Repeat(Lf, dr))
    || (dr > 0 && v == [Down(dr)])
    || (dr < 0 && v == [Up(-dr)])
  }

  /** To column col, from column kc if that is known (it is -1 if not). */
  ghost predicate Horizontal(kc: int, col: nat, h: seq<Op>) {
    || (kc == col && h == [])
    || (col == 0 && h == [Cr])
    || (col < kc <= col + 3 && h == Repeat(Bs, kc - col))
    || (0 <= kc < col && h == [Forward(col - kc)])
    || h == [Column(col)]
  }

  /* ---- what it takes ---- */

  function VerticalOps(dr: int): seq<Op> {
    if 0 < dr <= 3 then Repeat(Lf, dr) else if dr > 0 then [Down(dr)] else if dr < 0 then [Up(-dr)] else []
  }

  function HorizontalOps(kc: int, col: nat): seq<Op> {
    if col == 0 then [Cr]
    else if col < kc <= col + 3 then Repeat(Bs, kc - col)
    else if 0 <= kc < col then [Forward(col - kc)]
    else if kc != col then [Column(col)]
    else []
  }

  /** emit_move from row cr and column kc, either -1 if it is not known. */
  function MoveOps(cr: int, kc: int, row: nat, col: nat): seq<Op> {
    if cr == row && kc == col then []
    else
      var best, t := [Cup(row, col)], VerticalOps(row - cr) + HorizontalOps(kc, col);
      if cr >= 0 && |BytesOf(t)| < |BytesOf(best)| then t else best
  }

  /* ---- lengths ---- */

  lemma {:induction false} BytesOfAppend(a: seq<Op>, b: seq<Op>)
    ensures BytesOf(a + b) == BytesOf(a) + BytesOf(b)
    decreases |b|
  {
    hide Bytes;
    if |b| == 0 {
      assert a + b == a;
    } else {
      assert (a + b)[..|a + b| - 1] == a + b[..|b| - 1];
      BytesOfAppend(a, b[..|b| - 1]);
    }
  }

  lemma BytesOfOne(op: Op)
    ensures BytesOf([op]) == Bytes(op) && BytesOf([]) == []
  {
    hide Bytes;
    assert [op][..0] == [];
  }

  lemma {:induction false} BytesOfRepeat(op: Op, n: nat)
    requires op.Lf? || op.Bs?
    ensures |BytesOf(Repeat(op, n))| == n
    decreases n
  {
    if n > 0 {
      assert Repeat(op, n)[..n - 1] == Repeat(op, n - 1);
      BytesOfRepeat(op, n - 1);
    }
  }

  lemma {:induction false} DecimalLonger(m: nat, n: nat)
    requires m <= n
    ensures |Decimal(m)| <= |Decimal(n)|
    decreases n
  {
    if n >= 10 && m >= 10 {
      assert m / 10 <= n / 10;
      DecimalLonger(m / 10, n / 10);
    }
  }

  lemma CountLonger(m: nat, n: nat)
    requires 1 <= m <= n
    ensures |Count(m)| <= |Count(n)|
  {
    hide Decimal;
    DecimalLonger(m, n);
  }

  lemma SequenceLengths(n: nat)
    ensures |Bytes(Down(n))| == |Bytes(Up(n))| == |Bytes(Forward(n))|
            == |Bytes(Column(n))| - |Count(n + 1)| + |Count(n)| == 3 + |Count(n)|
    ensures |Bytes(Cr)| == 1
  {
    hide Decimal;
  }

  /** Of the vertical moves the one taken is the shortest. */
  lemma VerticalIsShortest(dr: int, v: seq<Op>)
    requires Vertical(dr, v)
    ensures Vertical(dr, VerticalOps(dr)) && |BytesOf(VerticalOps(dr))| <= |BytesOf(v)|
  {
    hide Bytes, BytesOf, Count;
    if dr > 0 {
      SequenceLengths(dr);
      BytesOfOne(Down(dr));
      if dr <= 3 { BytesOfRepeat(Lf, dr); }
    }
  }

  /** Of the horizontal ones too, but at column 0, where a carriage return is written even if the column is known to be
      0. */
  lemma HorizontalIsShortest(kc: int, col: nat, h: seq<Op>)
    requires Horizontal(kc, col, h) && (h == [] ==> col > 0)
    ensures Horizontal(kc, col, HorizontalOps(kc, col)) && |BytesOf(HorizontalOps(kc, col))| <= |BytesOf(h)|
  {
    hide Bytes, BytesOf, Count;
    BytesOfOne(Cr);
    BytesOfOne(Column(col));
    SequenceLengths(col);
    if col < kc <= col + 3 { BytesOfRepeat(Bs, kc - col); }
    if 0 <= kc < col {
      BytesOfOne(Forward(col - kc));
      SequenceLengths(col - kc);
      CountLonger(col - kc, col + 1);
    }
  }

  /** Whether every combination of the moves considered takes at least as many bytes. */
  ghost predicate Shortest(cr: int, kc: int, row: nat, col: nat) {
    && |BytesOf(MoveOps(cr, kc, row, col))| <= |BytesOf([Cup(row, col)])|
    && (cr >= 0 ==> forall v, h :: Vertical(row - cr, v) && Horizontal(kc, col, h) ==>
          |BytesOf(MoveOps(cr, kc, row, col))| <= |BytesOf(v + h)|)
  }

  function Digits(n: nat): nat {
    if n < 10 then 1 else 1 + Digits(n / 10)
  }

  lemma {:induction false} DecimalDigits(n: nat)
    ensures |Decimal(n)| == Digits(n)
    decreases n
  {
    if n >= 10 { DecimalDigits(n / 10); }
  }

  /** The cursor is known to be in column 0 and is to stay there, in another row; and the way there is three rows down
      at the most, or one up, or its length has fewer digits than the number of the row. */
  predicate AlongMargin(cr: int, kc: int, row: nat, col: nat) {
    && cr >= 0 && kc == 0 && col == 0
    && if row > cr then row - cr <= 3 || Digits(row - cr) < Digits(row + 1)
       else row > 0 && row < cr && (cr - row == 1 || Digits(cr - row) < Digits(row + 1))
  }

  /** How long CUP to column 0 and the vertical part are. */
  lemma MarginLengths(cr: int, row: nat)
    requires cr >= 0 && cr != row
    ensures |BytesOf(VerticalOps(row - cr))| < |BytesOf([Cup(row, 0)])| <==> AlongMargin(cr, 0, row, 0)
  {
    hide Decimal, BytesOf, Digits;
    BytesOfOne(Cup(row, 0));
    DecimalDigits(row + 1);
    assert Digits(row + 1) >= 1 by { DigitsPositive(row + 1); }
    if row > cr {
      SequenceLengths(row - cr);
      BytesOfOne(Down(row - cr));
      DecimalDigits(row - cr);
      if row - cr <= 3 { BytesOfRepeat(Lf, row - cr); }
    } else {
      SequenceLengths(cr - row);
      BytesOfOne(Up(cr - row));
      DecimalDigits(cr - row);
    }
  }

  lemma DigitsPositive(n: nat)
    ensures Digits(n) >= 1
  {
  }

  /** One row down along the margin: a line feed would do, and a carriage return is written after it. */
  lemma OneTooMany()
    ensures MoveOps(0, 0, 1, 0) == [Lf, Cr] && |BytesOf([Lf, Cr])| == 2
    ensures Vertical(1, [Lf]) && Horizontal(0, 0, []) && |BytesOf([Lf] + [])| == 1 && !Shortest(0, 0, 1, 0)
  {
    hide BytesOf;
    BytesOfOne(Lf);
    BytesOfOne(Cr);
    BytesOfOne(Cup(1, 0));
    BytesOfAppend([Lf], [Cr]);
    assert [Lf] + [Cr] == [Lf, Cr] && Repeat(Lf, 1) == [Lf] && [Lf] + [] == [Lf];
  }

  /** What is taken is the shortest there is, but for a move along the margin: then it may be one byte longer, the
      carriage return. */
  lemma ShortestIff(cr: int, kc: int, row: nat, col: nat)
    requires kc >= -1
    ensures Shortest(cr, kc, row, col) <==> !AlongMargin(cr, kc, row, col)
  {
    hide Bytes, BytesOf, VerticalOps, HorizontalOps, Vertical, Horizontal, Digits;
    if cr >= 0 {
      MoveLength(cr, kc, row, col);
      forall v, h | Vertical(row - cr, v) && Horizontal(kc, col, h)
        ensures |BytesOf(v + h)| >= |BytesOf(VerticalOps(row - cr))|
        ensures kc != 0 || col != 0 || cr == row ==> |BytesOf(MoveOps(cr, kc, row, col))| <= |BytesOf(v + h)|
        ensures h != [] ==> |BytesOf(MoveOps(cr, kc, row, col))| <= |BytesOf(v + h)|
      {
        NoneShorter(cr, kc, row, col, v, h);
      }
      if cr != row && kc == 0 && col == 0 {
        AtMargin(cr, row);
        MarginLengths(cr, row);
      }
    }
  }

  /** How long the move taken is, if the row is known. */
  lemma MoveLength(cr: int, kc: int, row: nat, col: nat)
    requires cr >= 0
    ensures cr == row && kc == col ==> |BytesOf(MoveOps(cr, kc, row, col))| == 0
    ensures |BytesOf(MoveOps(cr, kc, row, col))| <= |BytesOf([Cup(row, col)])|
    ensures |BytesOf(MoveOps(cr, kc, row, col))| <= |BytesOf(VerticalOps(row - cr))| + |BytesOf(HorizontalOps(kc, col))|
    ensures |BytesOf(MoveOps(cr, kc, row, col))| == |BytesOf([Cup(row, col)])| || (cr == row && kc == col)
         || |BytesOf(MoveOps(cr, kc, row, col))| == |BytesOf(VerticalOps(row - cr))| + |BytesOf(HorizontalOps(kc, col))|
  {
    hide Bytes, BytesOf, VerticalOps, HorizontalOps;
    BytesOfOne(Cr);
    BytesOfAppend(VerticalOps(row - cr), HorizontalOps(kc, col));
  }

  lemma NoneShorter(cr: int, kc: int, row: nat, col: nat, v: seq<Op>, h: seq<Op>)
    requires kc >= -1 && cr >= 0 && Vertical(row - cr, v) && Horizontal(kc, col, h)
    ensures |BytesOf(v + h)| >= |BytesOf(VerticalOps(row - cr))|
    ensures h != [] || kc != 0 || col != 0 || cr == row ==> |BytesOf(MoveOps(cr, kc, row, col))| <= |BytesOf(v + h)|
  {
    hide Bytes, BytesOf, VerticalOps, HorizontalOps, MoveOps, Vertical;
    MoveLength(cr, kc, row, col);
    VerticalIsShortest(row - cr, v);
    BytesOfAppend(v, h);
    if h != [] || col > 0 { HorizontalIsShortest(kc, col, h); }
  }

  /** At the left margin the vertical move alone would do. */
  lemma AtMargin(cr: int, row: nat)
    requires 0 <= cr && cr != row
    ensures var v := VerticalOps(row - cr);
            && Vertical(row - cr, v) && Horizontal(0, 0, []) && v + [] == v
            && |BytesOf(HorizontalOps(0, 0))| == 1
            && (|BytesOf(v)| < |BytesOf([Cup(row, 0)])| <==> |BytesOf(v)| < |BytesOf(MoveOps(cr, 0, row, 0))|)
  {
    hide Bytes, BytesOf;
    BytesOfOne(Cr);
    SequenceLengths(0);
    MoveLength(cr, 0, row, 0);
  }
}
