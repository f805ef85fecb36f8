/** The control sequences tmux/render.c writes: their bytes, and what _lib/vt.c does on reading them. */
module TermOps {
  import opened Cells
  import opened Utf8
  import opened Vt

  /** Rows and columns are 0-based here and 1-based in the bytes. */
  datatype Op =
    | Cup(row: nat, col: nat)
    | Up(n: nat)
    | Down(n: nat)
    | Forward(n: nat)
    | Column(col: nat)
    | Cr
    | Lf
    | Bs
    | SetPen(params: seq<nat>)
    | EraseToEol
    | EraseAll
    | Region(last: nat)
    | ResetRegion
    | DelLines(n: nat)
    | InsLines(n: nat)
    | Print(cp: nat)
    | ShowCursor
    | HideCursor

  /* ---- meaning ---- */

  function Step(s: Screen, op: Op): (r: Screen)
    requires s.Valid()
    ensures r.Valid()
  {
    match op
    case Cup(row, col) => CursorSet(s, row + (if s.origin then s.top else 0), col)
    case Up(n) => CursorSet(s, s.curRow - n, s.curCol)
    case Down(n) => CursorSet(s, s.curRow + n, s.curCol)
    case Forward(n) => CursorSet(s, s.curRow, s.curCol + n)
    case Column(col) => CursorSet(s, s.curRow, col)
    case Cr => CarriageReturn(s)
    case Lf => LineFeed(s)
    case Bs => Backspace(s)
    case SetPen(ps) => Sgr(s, ps)
    case EraseToEol => EraseLine(s, 0)
    case EraseAll => EraseDisplay(s, 2)
    case Region(last) => SetRegion(s, 1, last)
    case ResetRegion => SetRegion(s, 1, s.rows)
    case DelLines(n) => DeleteLines(s, n)
    case InsLines(n) => InsertLines(s, n)
    case Print(cp) => PutChar(s, cp)
    case ShowCursor => s.(visible := true)
    case HideCursor => s.(visible := false)
  }

  function Run(s: Screen, ops: seq<Op>): (r: Screen)
    requires s.Valid()
    ensures r.Valid()
  {
    if |ops| == 0 then s else Step(Run(s, ops[..|ops| - 1]), ops[|ops| - 1])
  }

  lemma RunSnoc(s: Screen, ops: seq<Op>, op: Op)
    requires s.Valid()
    ensures Run(s, ops + [op]) == Step(Run(s, ops), op)
  {
    hide Step;
    assert (ops + [op])[..|ops|] == ops;
  }

  lemma RunOne(s: Screen, op: Op)
    requires s.Valid()
    ensures Run(s, []) == s && Run(s, [op]) == Step(s, op)
  {
    hide Step;
    RunSnoc(s, [], op);
  }

  lemma RunThree(s: Screen, a: Op, b: Op, c: Op)
    requires s.Valid()
    ensures Run(s, [a, b, c]) == Step(Step(Step(s, a), b), c)
  {
    hide Step, Run;
    RunOne(s, a);
    RunSnoc(s, [a], b);
    assert [a] + [b] == [a, b];
    RunSnoc(s, [a, b], c);
    assert [a, b] + [c] == [a, b, c];
  }

  lemma {:induction false} RunAppend(s: Screen, a: seq<Op>, b: seq<Op>)
    requires s.Valid()
    ensures Run(s, a + b) == Run(Run(s, a), b)
    decreases |b|
  {
    hide Step;
    if |b| == 0 {
      assert a + b == a;
    } else {
      assert (a + b)[..|a + b| - 1] == a + b[..|b| - 1];
      RunAppend(s, a, b[..|b| - 1]);
    }
  }

  function Repeat(op: Op, n: nat): (ops: seq<Op>)
    ensures |ops| == n && forall i :: 0 <= i < n ==> ops[i] == op
  {
    seq(n, _ => op)
  }

  /* ---- bytes ---- */

  /** The numbers vt.c's parser reads without cutting them short: it stops adding digits at 16384. */
  const PARAM_LIMIT := 163840

  /** Counts and positions are such as can be written, and characters such as are printed. */
  predicate Fits(op: Op) {
    match op
    case Cup(row, col) => row + 1 < PARAM_LIMIT && col + 1 < PARAM_LIMIT
    case Column(col) => col + 1 < PARAM_LIMIT
    case SetPen(ps) => |ps| <= 16 && forall i :: 0 <= i < |ps| ==> ps[i] < PARAM_LIMIT
    case Print(cp) => 0x20 <= cp < 0x20_0000 && cp != 0x7F
    case Up(n) => 0 < n < PARAM_LIMIT
    case Down(n) => 0 < n < PARAM_LIMIT
    case Forward(n) => 0 < n < PARAM_LIMIT
    case Region(last) => 0 < last < PARAM_LIMIT
    case DelLines(n) => 0 < n < PARAM_LIMIT
    case InsLines(n) => 0 < n < PARAM_LIMIT
    case _ => true
  }

  /** The most rows or columns a terminal has: its size is told in 16-bit numbers. */
  const MAX_DIM := 65535

  ghost predicate AllFit(ops: seq<Op>) {
    forall i :: 0 <= i < |ops| ==> Fits(ops[i])
  }

  const ESC: Byte := 0x1B
  const SEMICOLON: Byte := 0x3B

  function Decimal(n: nat): (s: seq<Byte>)
    ensures |s| >= 1
  {
    if n < 10 then [0x30 + n] else Decimal(n / 10) + [0x30 + n % 10]
  }

  /** Parameters with a semicolon between each two. */
  function Joined(ps: seq<nat>): seq<Byte> {
    if |ps| == 0 then []
    else if |ps| == 1 then Decimal(ps[0])
    else Joined(ps[..|ps| - 1]) + [SEMICOLON] + Decimal(ps[|ps| - 1])
  }

  function Csi(text: seq<Byte>, final: Byte): seq<Byte> {
    [ESC, 0x5B] + text + [final]
  }

  /** A count, left out when it is 1. */
  function Count(n: nat): seq<Byte> {
    if n == 1 then [] else Decimal(n)
  }

  function Bytes(op: Op): seq<Byte> {
    match op
    case Cup(row, col) =>
      Csi((if row > 0 then Decimal(row + 1) else []) + (if col > 0 then [SEMICOLON] + Decimal(col + 1) else []), 0x48)
    case Up(n) => Csi(Count(n), 0x41)
    case Down(n) => Csi(Count(n), 0x42)
    case Forward(n) => Csi(Count(n), 0x43)
    case Column(col) => Csi(Count(col + 1), 0x47)
    case Cr => [0x0D]
    case Lf => [0x0A]
    case Bs => [0x08]
    case SetPen(ps) => Csi(Joined(ps), 0x6D)
    case EraseToEol => Csi([], 0x4B)
    case EraseAll => Csi([0x32], 0x4A)
    case Region(last) => Csi([0x31, SEMICOLON] + Decimal(last), 0x72)
    case ResetRegion => Csi([], 0x72)
    case DelLines(n) => Csi(Decimal(n), 0x4D)
    case InsLines(n) => Csi(Decimal(n), 0x4C)
    case Print(cp) => Encode(cp)
    case ShowCursor => Csi([0x3F, 0x32, 0x35], 0x68)
    case HideCursor => Csi([0x3F, 0x32, 0x35], 0x6C)
  }

  function BytesOf(ops: seq<Op>): seq<Byte> {
    if |ops| == 0 then [] else BytesOf(ops[..|ops| - 1]) + Bytes(ops[|ops| - 1])
  }
}
