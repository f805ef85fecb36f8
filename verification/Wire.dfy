/** The bytes of each operation make the terminal's parser do that operation. */
module Wire {
  import opened Cells
  import opened Utf8
  import opened Vt
  import opened VtParser
  import opened TermOps
  import Width

  /** Between sequences, with the ASCII character set. */
  ghost predicate Idle(p: Parser) {
    p.Valid() && p.state.Ground? && p.utf8Want == 0 && !p.g0Dec
  }

  /** q is an idle parser whose screen is s. */
  ghost predicate Shows(q: Parser, s: Screen) {
    Idle(q) && q.scr == s
  }

  lemma FeedOne(p: Parser, c: Byte)
    requires p.Valid()
    ensures FeedAll(p, [c]) == Feed(p, c) && FeedAll(p, []) == p
  {
    hide Feed;
    assert [c][..0] == [];
  }

  lemma {:induction false} FeedAppend(p: Parser, a: seq<Byte>, b: seq<Byte>)
    requires p.Valid()
    ensures FeedAll(p, a + b) == FeedAll(FeedAll(p, a), b)
    decreases |b|
  {
    hide Feed;
    if |b| == 0 {
      assert a + b == a;
    } else {
      assert (a + b)[..|a + b| - 1] == a + b[..|b| - 1];
      FeedAppend(p, a, b[..|b| - 1]);
    }
  }

  /** A byte after some others. */
  lemma FeedSnoc(p: Parser, a: seq<Byte>, c: Byte)
    requires p.Valid()
    ensures FeedAll(p, a + [c]) == Feed(FeedAll(p, a), c)
  {
    hide Feed;
    FeedAppend(p, a, [c]);
    FeedOne(FeedAll(p, a), c);
  }

  /* ---- parameters ---- */

  /** The parser has just read the introducer of a control sequence. */
  function Started(p: Parser): Parser {
    CsiClear(p).(state := CsiParam)
  }

  lemma FeedIntroducer(p: Parser)
    requires Idle(p)
    ensures FeedAll(p, [ESC, 0x5B]) == Started(p)
  {
    hide DispatchCsi, DispatchEsc, HandleC0, FeedUtf8, FeedCsiInter;
    FeedOne(p, ESC);
    assert [ESC] + [0x5B] == [ESC, 0x5B];
    FeedSnoc(p, [ESC], 0x5B);
  }

  lemma FeedInParam(p: Parser, c: Byte)
    requires p.Valid() && p.state.CsiParam?
    ensures 0x30 <= c <= 0x39 ==> Feed(p, c) == p.(params := CsiDigit(p.params, c - 0x30))
    ensures c == 0x3B ==> Feed(p, c) == p.(params := CsiSep(p.params))
    ensures c == 0x3F ==> Feed(p, c) == p.(priv := true)
    ensures 0x40 <= c <= 0x7E ==> Feed(p, c) == DispatchCsi(p, c as char).(state := Ground)
  {
    hide DispatchCsi, DispatchEsc, HandleC0, FeedUtf8;
  }

  /** A number written into a fresh parameter. */
  function WithParam(ps: seq<nat>, n: nat): seq<nat> {
    if |ps| == 0 then [n] else ps[|ps| - 1 := n]
  }

  lemma {:induction false} FeedDecimal(p: Parser, n: nat)
    requires p.Valid() && p.state.CsiParam? && n < PARAM_LIMIT
    requires |p.params| == 0 || p.params[|p.params| - 1] == 0
    ensures FeedAll(p, Decimal(n)) == p.(params := WithParam(p.params, n))
  {
    hide Feed, FeedAll;
    if n < 10 {
      FeedOne(p, 0x30 + n);
      FeedInParam(p, 0x30 + n);
    } else {
      FeedDecimal(p, n / 10);
      FeedSnoc(p, Decimal(n / 10), 0x30 + n % 10);
      FeedInParam(p.(params := WithParam(p.params, n / 10)), 0x30 + n % 10);
    }
  }

  lemma {:induction false} FeedJoined(p: Parser, ps: seq<nat>)
    requires p.Valid() && p.state.CsiParam? && p.params == []
    requires |ps| <= MAX_PARAMS && forall i :: 0 <= i < |ps| ==> ps[i] < PARAM_LIMIT
    ensures FeedAll(p, Joined(ps)) == p.(params := ps)
    decreases |ps|
  {
    hide Feed, FeedAll, Decimal;
    if |ps| == 0 {
      FeedOne(p, 0);
    } else if |ps| == 1 {
      FeedDecimal(p, ps[0]);
      assert ps == [ps[0]];
    } else {
      var front, last := ps[..|ps| - 1], ps[|ps| - 1];
      FeedJoined(p, front);
      var p1 := p.(params := front);
      FeedSnoc(p, Joined(front), SEMICOLON);
      FeedInParam(p1, SEMICOLON);
      var p2 := p.(params := front + [0]);
      FeedDecimal(p2, last);
      FeedAppend(p, Joined(front) + [SEMICOLON], Decimal(last));
      assert WithParam(front + [0], last) == ps;
    }
  }

  /** A whole control sequence, once it is known what its text leaves in the parameters. */
  lemma FeedCsi(p: Parser, text: seq<Byte>, final: Byte, q: Parser)
    requires Idle(p) && 0x40 <= final <= 0x7E
    requires FeedAll(Started(p), text) == q && q.state.CsiParam?
    ensures FeedAll(p, Csi(text, final)) == DispatchCsi(q, final as char).(state := Ground)
  {
    hide Feed, FeedAll, DispatchCsi;
    FeedIntroducer(p);
    FeedAppend(p, [ESC, 0x5B], text);
    FeedSnoc(p, [ESC, 0x5B] + text, final);
    FeedInParam(q, final);
  }

  /** One with plain parameters. */
  lemma FeedCsiParams(p: Parser, text: seq<Byte>, final: Byte, ps: seq<nat>)
    requires Idle(p) && 0x40 <= final <= 0x7E && |ps| <= MAX_PARAMS
    requires FeedAll(Started(p), text) == Started(p).(params := ps)
    ensures FeedAll(p, Csi(text, final)) == DispatchCsi(Started(p).(params := ps), final as char).(state := Ground)
  {
    hide DispatchCsi, FeedAll;
    FeedCsi(p, text, final, Started(p).(params := ps));
  }

  /* ---- what each control sequence is dispatched to ---- */

  /** The parser in the middle of a control sequence with these parameters. */
  ghost predicate Reading(q: Parser, ps: seq<nat>, priv: bool) {
    q.Valid() && q.state.CsiParam? && q.params == ps && q.priv == priv && q.utf8Want == 0 && !q.g0Dec
  }

  lemma DispatchVertical(q: Parser, n: nat)
    requires Reading(q, q.params, false) && P(q.params, 0, 1) == n > 0
    ensures Shows(DispatchCsi(q, 'A').(state := Ground), Step(q.scr, Up(n)))
    ensures Shows(DispatchCsi(q, 'B').(state := Ground), Step(q.scr, Down(n)))
  {
    hide CsiEdit, CursorSet;
  }

  lemma DispatchHorizontal(q: Parser, n: nat)
    requires Reading(q, q.params, false) && P(q.params, 0, 1) == n > 0
    ensures Shows(DispatchCsi(q, 'C').(state := Ground), Step(q.scr, Forward(n)))
    ensures Shows(DispatchCsi(q, 'G').(state := Ground), Step(q.scr, Column(n - 1)))
  {
    hide CsiEdit, CursorSet;
  }

  lemma DispatchCup(q: Parser, row: nat, col: nat)
    requires Reading(q, q.params, false) && P(q.params, 0, 1) == row + 1 && P(q.params, 1, 1) == col + 1
    ensures Shows(DispatchCsi(q, 'H').(state := Ground), Step(q.scr, Cup(row, col)))
  {
    hide CsiEdit, CursorSet;
  }

  lemma DispatchPen(q: Parser, ps: seq<nat>)
    requires Reading(q, ps, false)
    ensures Shows(DispatchCsi(q, 'm').(state := Ground), Step(q.scr, SetPen(ps)))
  {
    hide CsiMove, Sgr;
  }

  lemma DispatchErase(q: Parser)
    requires Reading(q, q.params, false)
    ensures q.params == [] ==> Shows(DispatchCsi(q, 'K').(state := Ground), Step(q.scr, EraseToEol))
    ensures q.params == [2] ==> Shows(DispatchCsi(q, 'J').(state := Ground), Step(q.scr, EraseAll))
  {
    hide CsiMove, EraseLine, EraseDisplay;
  }

  lemma DispatchLines(q: Parser, n: nat)
    requires Reading(q, [n], false) && n > 0
    ensures Shows(DispatchCsi(q, 'M').(state := Ground), Step(q.scr, DelLines(n)))
    ensures Shows(DispatchCsi(q, 'L').(state := Ground), Step(q.scr, InsLines(n)))
  {
    hide CsiMove, DeleteLines, InsertLines;
  }

  lemma DispatchRegion(q: Parser, last: nat)
    requires Reading(q, q.params, false)
    ensures q.params == [1, last] && last > 0
            ==> Shows(DispatchCsi(q, 'r').(state := Ground), Step(q.scr, Region(last)))
    ensures q.params == [] ==> Shows(DispatchCsi(q, 'r').(state := Ground), Step(q.scr, ResetRegion))
  {
    hide CsiMove, SetRegion;
  }

  lemma DispatchCursor(q: Parser)
    requires Reading(q, [25], true)
    ensures Shows(DispatchCsi(q, 'h').(state := Ground), Step(q.scr, ShowCursor))
    ensures Shows(DispatchCsi(q, 'l').(state := Ground), Step(q.scr, HideCursor))
  {
    hide CsiMove, CsiEdit, EnterAlt, LeaveAlt, CursorSet;
    assert [25][..0] == [];
    assert PrivateModes(q.scr, [], true) == q.scr && PrivateModes(q.scr, [], false) == q.scr;
  }

  /* ---- the operations ---- */

  /** A count: the parameter is there, or left out because it is 1. */
  lemma FeedCount(p: Parser, n: nat, final: Byte) returns (q: Parser)
    requires Idle(p) && 0 < n < PARAM_LIMIT && 0x40 <= final <= 0x7E
    ensures Reading(q, q.params, false) && q.scr == p.scr && P(q.params, 0, 1) == n
    ensures FeedAll(p, Csi(Count(n), final)) == DispatchCsi(q, final as char).(state := Ground)
  {
    hide DispatchCsi, FeedAll;
    var ps := if n == 1 then [] else [n];
    if n == 1 { FeedOne(Started(p), 0); } else { FeedDecimal(Started(p), n); }
    FeedCsiParams(p, Count(n), final, ps);
    q := Started(p).(params := ps);
  }

  lemma FeedMoves(p: Parser, op: Op)
    requires Idle(p) && Fits(op) && (op.Up? || op.Down? || op.Forward? || op.Column?)
    ensures Shows(FeedAll(p, Bytes(op)), Step(p.scr, op))
  {
    hide FeedAll, DispatchCsi, Step, Count;
    match op
    case Up(n) =>
      var q := FeedCount(p, n, 0x41);
      DispatchVertical(q, n);
    case Down(n) =>
      var q := FeedCount(p, n, 0x42);
      DispatchVertical(q, n);
    case Forward(n) =>
      var q := FeedCount(p, n, 0x43);
      DispatchHorizontal(q, n);
    case Column(col) =>
      var q := FeedCount(p, col + 1, 0x47);
      DispatchHorizontal(q, col + 1);
  }

  /** The parameters of CUP as they are written, and as they are read. */
  function CupText(row: nat, col: nat): seq<Byte> {
    (if row > 0 then Decimal(row + 1) else []) + (if col > 0 then [SEMICOLON] + Decimal(col + 1) else [])
  }

  function CupParams(row: nat, col: nat): seq<nat> {
    if col > 0 then [if row > 0 then row + 1 else 0, col + 1] else if row > 0 then [row + 1] else []
  }

  lemma FeedCupParams(p0: Parser, row: nat, col: nat)
    requires Reading(p0, [], false) && row + 1 < PARAM_LIMIT && col + 1 < PARAM_LIMIT
    ensures FeedAll(p0, CupText(row, col)) == p0.(params := CupParams(row, col))
  {
    hide FeedAll, DispatchCsi, Decimal, Screen.Valid;
    var first := if row > 0 then Decimal(row + 1) else [];
    var second := if col > 0 then [SEMICOLON] + Decimal(col + 1) else [];
    var ps1 := if row > 0 then [row + 1] else [];
    var p1 := p0.(params := ps1);
    if row > 0 { FeedDecimal(p0, row + 1); } else { FeedOne(p0, 0); }
    if col > 0 {
      FeedOne(p1, SEMICOLON);
      FeedInParam(p1, SEMICOLON);
      FeedDecimal(p1.(params := CsiSep(ps1)), col + 1);
      FeedAppend(p1, [SEMICOLON], Decimal(col + 1));
    } else {
      FeedOne(p1, 0);
    }
    FeedAppend(p0, first, second);
  }

  lemma FeedCup(p: Parser, row: nat, col: nat)
    requires Idle(p) && Fits(Cup(row, col))
    ensures Shows(FeedAll(p, Bytes(Cup(row, col))), Step(p.scr, Cup(row, col)))
  {
    hide FeedAll, DispatchCsi, Step, Decimal, Screen.Valid;
    var p0 := Started(p);
    FeedCupParams(p0, row, col);
    FeedCsiParams(p, CupText(row, col), 0x48, CupParams(row, col));
    DispatchCup(p0.(params := CupParams(row, col)), row, col);
  }

  lemma FeedPen(p: Parser, ps: seq<nat>)
    requires Idle(p) && Fits(SetPen(ps))
    ensures Shows(FeedAll(p, Bytes(SetPen(ps))), Step(p.scr, SetPen(ps)))
  {
    hide FeedAll, DispatchCsi, Step, Joined;
    FeedJoined(Started(p), ps);
    FeedCsiParams(p, Joined(ps), 0x6D, ps);
    DispatchPen(Started(p).(params := ps), ps);
  }

  lemma FeedErase(p: Parser)
    requires Idle(p)
    ensures Shows(FeedAll(p, Bytes(EraseToEol)), Step(p.scr, EraseToEol))
    ensures Shows(FeedAll(p, Bytes(EraseAll)), Step(p.scr, EraseAll))
  {
    hide FeedAll, DispatchCsi, Step, Decimal;
    FeedOne(Started(p), 0x32);
    FeedInParam(Started(p), 0x32);
    FeedCsiParams(p, [], 0x4B, []);
    FeedCsiParams(p, [0x32], 0x4A, [2]);
    DispatchErase(Started(p));
    DispatchErase(Started(p).(params := [2]));
  }

  lemma FeedLines(p: Parser, op: Op)
    requires Idle(p) && Fits(op) && (op.DelLines? || op.InsLines?)
    ensures Shows(FeedAll(p, Bytes(op)), Step(p.scr, op))
  {
    hide FeedAll, DispatchCsi, Step, Decimal;
    FeedDecimal(Started(p), op.n);
    FeedCsiParams(p, Decimal(op.n), if op.DelLines? then 0x4D else 0x4C, [op.n]);
    DispatchLines(Started(p).(params := [op.n]), op.n);
  }

  /** The text "1;n". */
  lemma FeedOneAnd(q: Parser, n: nat)
    requires Reading(q, [], false) && n < PARAM_LIMIT
    ensures FeedAll(q, [0x31, SEMICOLON] + Decimal(n)) == q.(params := [1, n])
  {
    hide FeedAll, Feed, Decimal;
    FeedOne(q, 0x31);
    FeedInParam(q, 0x31);
    FeedSnoc(q, [0x31], SEMICOLON);
    FeedInParam(q.(params := [1]), SEMICOLON);
    assert CsiSep([1]) == [1, 0];
    FeedDecimal(q.(params := [1, 0]), n);
    assert [0x31] + [SEMICOLON] == [0x31, SEMICOLON];
    FeedAppend(q, [0x31, SEMICOLON], Decimal(n));
    assert WithParam([1, 0], n) == [1, n];
  }

  lemma FeedRegion(p: Parser, op: Op)
    requires Idle(p) && Fits(op) && (op.Region? || op.ResetRegion?)
    ensures Shows(FeedAll(p, Bytes(op)), Step(p.scr, op))
  {
    hide FeedAll, DispatchCsi, Step, Decimal;
    var p0 := Started(p);
    if op.Region? {
      FeedOneAnd(p0, op.last);
      FeedCsiParams(p, [0x31, SEMICOLON] + Decimal(op.last), 0x72, [1, op.last]);
      DispatchRegion(p0.(params := [1, op.last]), op.last);
    } else {
      FeedOne(p0, 0);
      FeedCsiParams(p, [], 0x72, []);
      DispatchRegion(p0, 0);
    }
  }

  /** The text "?25". */
  lemma FeedPrivate25(q: Parser)
    requires Reading(q, [], false)
    ensures FeedAll(q, [0x3F, 0x32, 0x35]) == q.(priv := true, params := [25])
  {
    hide FeedAll, Feed;
    FeedOne(q, 0x3F);
    FeedInParam(q, 0x3F);
    FeedSnoc(q, [0x3F], 0x32);
    FeedInParam(q.(priv := true), 0x32);
    assert [0x3F] + [0x32] == [0x3F, 0x32];
    FeedSnoc(q, [0x3F, 0x32], 0x35);
    FeedInParam(q.(priv := true, params := [2]), 0x35);
    assert [0x3F, 0x32] + [0x35] == [0x3F, 0x32, 0x35];
  }

  lemma FeedCursor(p: Parser, on: bool)
    requires Idle(p)
    ensures var op := if on then ShowCursor else HideCursor;
            Shows(FeedAll(p, Bytes(op)), Step(p.scr, op))
  {
    hide FeedAll, DispatchCsi, Step, Screen.Valid;
    var q := Started(p).(priv := true, params := [25]);
    FeedPrivate25(Started(p));
    FeedCsi(p, [0x3F, 0x32, 0x35], if on then 0x68 else 0x6C, q);
    DispatchCursor(q);
  }

  lemma FeedControls(p: Parser, op: Op)
    requires Idle(p) && (op.Cr? || op.Lf? || op.Bs?)
    ensures Shows(FeedAll(p, Bytes(op)), Step(p.scr, op))
  {
    hide FeedAll, DispatchEsc, DispatchCsi, FeedUtf8, LineFeed;
    FeedOne(p, Bytes(op)[0]);
  }

  /* ---- characters ---- */

  lemma DecodeTwo(cp: nat)
    requires 0x80 <= cp < 0x800
    ensures Decode([0xC0 + cp / 64, 0x80 + cp % 64]) == cp
  {
  }

  lemma DivTwice(x: nat)
    ensures x / 64 / 64 == x / 4096
  {
    var q := x / 64;
    assert x == 64 * q + x % 64 && q == 64 * (q / 64) + q % 64;
  }

  lemma DecodeThree(cp: nat)
    requires 0x800 <= cp < 0x1_0000
    ensures Decode([0xE0 + cp / 4096, 0x80 + cp / 64 % 64, 0x80 + cp % 64]) == cp
  {
    DivTwice(cp);
  }

  lemma DecodeFourDigits(a: nat, b: nat, c: nat, d: nat)
    requires a < 8 && b < 64 && c < 64 && d < 64
    ensures Decode([0xF0 + a, 0x80 + b, 0x80 + c, 0x80 + d]) == a * 262144 + b * 4096 + c * 64 + d
  {
  }

  /** The six-bit digits of a number. */
  lemma SixBits(cp: nat)
    requires cp < 0x20_0000
    ensures cp / 262144 < 8 && cp == cp / 262144 * 262144 + cp / 4096 % 64 * 4096 + cp / 64 % 64 * 64 + cp % 64
  {
    var x := cp / 64;
    var y := x / 64;
    DivTwice(cp);
    DivTwice(x);
    assert cp == 64 * x + cp % 64 && x == 64 * y + x % 64 && y == 64 * (y / 64) + y % 64;
    assert y == cp / 4096;
    FourthDigit(cp);
  }

  lemma FourthDigit(cp: nat)
    ensures cp / 4096 / 64 == cp / 262144
  {
    var y := cp / 4096;
    assert cp == 4096 * y + cp % 4096 && y == 64 * (y / 64) + y % 64;
  }

  lemma DecodeFour(cp: nat)
    requires 0x1_0000 <= cp < 0x20_0000
    ensures Decode([0xF0 + cp / 262144 % 16, 0x80 + cp / 4096 % 64, 0x80 + cp / 64 % 64, 0x80 + cp % 64]) == cp
  {
    hide Decode;
    SixBits(cp);
    assert cp / 262144 % 16 == cp / 262144;
    DecodeFourDigits(cp / 262144, cp / 4096 % 64, cp / 64 % 64, cp % 64);
  }

  lemma DecodeEncode(cp: nat)
    requires 0x80 <= cp < 0x20_0000
    ensures |Encode(cp)| >= 2 && Decode(Encode(cp)) == cp
  {
    hide Decode;
    if cp < 0x800 { DecodeTwo(cp); } else if cp < 0x1_0000 { DecodeThree(cp); } else { DecodeFour(cp); }
  }

  /** A byte of a character not yet complete, or its last. */
  lemma FeedContinuation(p: Parser, c: Byte)
    requires p.Valid() && p.state.Ground? && p.utf8Want > 0 && 0x80 <= c < 0xC0
    ensures |p.utf8| + 1 < p.utf8Want ==> Feed(p, c) == p.(utf8 := p.utf8 + [c])
    ensures |p.utf8| + 1 == p.utf8Want ==> Feed(p, c) == PutCode(p.(utf8 := [], utf8Want := 0), Decode(p.utf8 + [c]))
  {
    hide DispatchEsc, DispatchCsi, HandleC0, PutCode, Decode;
  }

  lemma FeedLead(p: Parser, c: Byte, want: nat)
    requires Idle(p)
    requires if want == 2 then 0xC0 <= c < 0xE0
             else if want == 3 then 0xE0 <= c < 0xF0
             else want == 4 && 0xF0 <= c < 0xF8
    ensures Feed(p, c) == p.(utf8 := [c], utf8Want := want)
  {
    hide DispatchEsc, DispatchCsi, HandleC0, PutCode, Decode;
  }

  /** A character's bytes, from the lead byte to the last. */
  lemma FeedChar(p: Parser, cp: nat)
    requires Idle(p) && 0x20 <= cp < 0x20_0000 && cp != 0x7F
    ensures FeedAll(p, Encode(cp)) == PutCode(p, cp)
  {
    hide FeedAll, Feed, PutCode, Decode;
    var b := Encode(cp);
    FeedOne(p, b[0]);
    if cp < 0x80 {
      FeedAscii(p, cp);
    } else {
      DecodeEncode(cp);
      assert b[0] >= 0xC0 && forall i :: 1 <= i < |b| ==> 0x80 <= b[i] < 0xC0;
      FeedLead(p, b[0], |b|);
      assert b[..1] == [b[0]];
      FeedTail(p, b, 1);
    }
  }

  lemma FeedAscii(p: Parser, c: Byte)
    requires Idle(p) && 0x20 <= c < 0x7F
    ensures Feed(p, c) == PutCode(p, c)
  {
    hide DispatchEsc, DispatchCsi, HandleC0, PutCode;
  }

  lemma {:induction false} FeedTail(p: Parser, b: seq<Byte>, i: nat)
    requires Idle(p) && 2 <= |b| <= 4 && 1 <= i < |b|
    requires forall j :: 1 <= j < |b| ==> 0x80 <= b[j] < 0xC0
    requires FeedAll(p, b[..i]) == p.(utf8 := b[..i], utf8Want := |b|)
    ensures FeedAll(p, b) == PutCode(p, Decode(b))
    decreases |b| - i
  {
    hide FeedAll, Feed, PutCode, Decode;
    var p1 := p.(utf8 := b[..i], utf8Want := |b|);
    assert b[..i] + [b[i]] == b[..i + 1];
    FeedSnoc(p, b[..i], b[i]);
    FeedContinuation(p1, b[i]);
    if i + 1 == |b| {
      assert b[..i + 1] == b;
      assert p1.(utf8 := [], utf8Want := 0) == p;
    } else {
      FeedTail(p, b, i + 1);
    }
  }

  lemma FeedPrint(p: Parser, cp: nat)
    requires Idle(p) && Fits(Print(cp))
    ensures Shows(FeedAll(p, Bytes(Print(cp))), Step(p.scr, Print(cp)))
  {
    hide FeedAll, Place, Wrap, Width.CpWidth;
    FeedChar(p, cp);
  }

  /* ---- together ---- */

  /** One operation's bytes. */
  lemma FeedOp(p: Parser, op: Op)
    requires Idle(p) && Fits(op)
    ensures Shows(FeedAll(p, Bytes(op)), Step(p.scr, op))
  {
    hide FeedAll, Bytes, Step;
    match op
    case Cup(row, col) => FeedCup(p, row, col);
    case Up(_) => FeedMoves(p, op);
    case Down(_) => FeedMoves(p, op);
    case Forward(_) => FeedMoves(p, op);
    case Column(_) => FeedMoves(p, op);
    case Cr => FeedControls(p, op);
    case Lf => FeedControls(p, op);
    case Bs => FeedControls(p, op);
    case SetPen(ps) => FeedPen(p, ps);
    case EraseToEol => FeedErase(p);
    case EraseAll => FeedErase(p);
    case Region(_) => FeedRegion(p, op);
    case ResetRegion => FeedRegion(p, op);
    case DelLines(_) => FeedLines(p, op);
    case InsLines(_) => FeedLines(p, op);
    case Print(cp) => FeedPrint(p, cp);
    case ShowCursor => FeedCursor(p, true);
    case HideCursor => FeedCursor(p, false);
  }

  /** A stream of them: what the bytes do is what the operations mean. */
  lemma {:induction false} FeedOps(p: Parser, ops: seq<Op>)
    requires Idle(p) && AllFit(ops)
    ensures Shows(FeedAll(p, BytesOf(ops)), Run(p.scr, ops))
    decreases |ops|
  {
    hide Feed, Bytes, Step;
    if |ops| == 0 {
    } else {
      var front, last := ops[..|ops| - 1], ops[|ops| - 1];
      FeedOps(p, front);
      FeedAppend(p, BytesOf(front), Bytes(last));
      FeedOp(FeedAll(p, BytesOf(front)), last);
    }
  }
}
