/** Control sequences written with any digits, read by the parser in any of its states (vt_feed of _lib/vt.c). */
module Sequences {
  import opened Cells
  import opened Utf8
  import opened Vt
  import opened VtParser
  import opened Wire
  import TermOps

  ghost predicate Digits(d: seq<Byte>) {
    forall i :: 0 <= i < |d| ==> 0x30 <= d[i] <= 0x39
  }

  /** What digits write, the most significant first. */
  function Number(d: seq<Byte>): nat
    requires Digits(d)
    decreases |d|
  {
    if |d| == 0 then 0 else Number(d[..|d| - 1]) * 10 + (d[|d| - 1] - 0x30)
  }

  /** A parameter as it may be written: digits, or nothing, for a number the parser does not cut short. */
  ghost predicate Argument(d: seq<Byte>) {
    Digits(d) && Number(d) < 163840
  }

  /** A count: nothing and 0 stand for 1. */
  function Amount(d: seq<Byte>): (n: nat)
    requires Digits(d)
    ensures n >= 1
  {
    if Number(d) == 0 then 1 else Number(d)
  }

  lemma {:induction false} DecimalWrites(n: nat)
    ensures Digits(TermOps.Decimal(n)) && Number(TermOps.Decimal(n)) == n
    ensures n > 0 ==> TermOps.Decimal(n)[0] != 0x30
  {
    var d := TermOps.Decimal(n);
    if n >= 10 {
      DecimalWrites(n / 10);
      assert d[..|d| - 1] == TermOps.Decimal(n / 10);
    } else {
      assert d[..0] == [];
    }
  }

  /** ESC [ d final. */
  function Command(d: seq<Byte>, final: char): seq<Byte>
    requires 0x40 <= final as int <= 0x7E
  {
    [0x1B, 0x5B] + d + [final as int]
  }

  /** ESC [ d1 ; d2 final. */
  function Command2(d1: seq<Byte>, d2: seq<Byte>, final: char): seq<Byte>
    requires 0x40 <= final as int <= 0x7E
  {
    [0x1B, 0x5B] + d1 + [0x3B] + d2 + [final as int]
  }

  /** ESC [ ? d final. */
  function Private(d: seq<Byte>, final: char): seq<Byte>
    requires 0x40 <= final as int <= 0x7E
  {
    [0x1B, 0x5B, 0x3F] + d + [final as int]
  }

  /** The same bytes n times. */
  function Times(b: seq<Byte>, n: nat): seq<Byte> {
    if n == 0 then [] else b + Times(b, n - 1)
  }

  /* ---- how they are read ---- */

  /** The parameters that are left of one argument. */
  function Read(d: seq<Byte>): seq<nat>
    requires Digits(d)
  {
    if |d| == 0 then [] else [Number(d)]
  }

  /** One more digit. */
  lemma DigitRead(ps: seq<nat>, d: seq<Byte>)
    requires |d| > 0 && Argument(d) && |ps| <= MAX_PARAMS && (|ps| == 0 || ps[|ps| - 1] == 0)
    ensures Argument(d[..|d| - 1])
    ensures var front := d[..|d| - 1];
            CsiDigit(if |front| == 0 then ps else WithParam(ps, Number(front)), d[|d| - 1] - 0x30)
            == WithParam(ps, Number(d))
  {
  }

  lemma {:induction false} FeedDigits(p: Parser, d: seq<Byte>)
    requires p.Valid() && p.state.CsiParam? && Argument(d)
    requires |p.params| == 0 || p.params[|p.params| - 1] == 0
    ensures FeedAll(p, d) == p.(params := if |d| == 0 then p.params else WithParam(p.params, Number(d)))
    decreases |d|
  {
    hide Feed, FeedAll, Number, CsiDigit, WithParam, Screen.Valid;
    FeedOne(p, 0);
    if |d| > 0 {
      var front, c := d[..|d| - 1], d[|d| - 1];
      DigitRead(p.params, d);
      FeedDigits(p, front);
      assert d == front + [c];
      FeedSnoc(p, front, c);
      FeedInParam(FeedAll(p, front), c);
    }
  }

  /** An escape is read in any state. */
  lemma FeedStart(p: Parser)
    requires p.Valid()
    ensures FeedAll(p, [0x1B, 0x5B]) == Started(p)
  {
    hide DispatchCsi, DispatchEsc, HandleC0, FeedUtf8, FeedCsiInter;
    FeedOne(p, 0x1B);
    assert [0x1B] + [0x5B] == [0x1B, 0x5B];
    FeedSnoc(p, [0x1B], 0x5B);
  }

  /** The rest of a sequence. */
  lemma FeedRest(p: Parser, start: seq<Byte>, text: seq<Byte>, final: char, q: Parser)
    requires p.Valid() && 0x40 <= final as int <= 0x7E
    requires var p1 := FeedAll(p, start); FeedAll(p1, text) == q
    requires q.state.CsiParam?
    ensures FeedAll(p, start + text + [final as int]) == DispatchCsi(q, final).(state := Ground)
  {
    hide Feed, FeedAll, DispatchCsi;
    FeedAppend(p, start, text);
    FeedSnoc(p, start + text, final as int);
    FeedInParam(q, final as int);
  }

  lemma FeedCommand(p: Parser, d: seq<Byte>, final: char)
    requires p.Valid() && Argument(d) && 0x40 <= final as int <= 0x7E
    ensures FeedAll(p, Command(d, final)) == DispatchCsi(Started(p).(params := Read(d)), final).(state := Ground)
  {
    hide Feed, FeedAll, DispatchCsi;
    FeedStart(p);
    FeedDigits(Started(p), d);
    FeedRest(p, [0x1B, 0x5B], d, final, Started(p).(params := Read(d)));
  }

  lemma NextArgument(d: seq<Byte>)
    requires Argument(d)
    ensures CsiSep(Read(d)) == [Number(d), 0]
  {
  }

  lemma FeedTwo(q: Parser, d1: seq<Byte>, d2: seq<Byte>)
    requires q.Valid() && q.state.CsiParam? && q.params == [] && Argument(d1) && Argument(d2)
    ensures FeedAll(q, d1 + [0x3B] + d2) == q.(params := [Number(d1), Number(d2)])
  {
    hide Feed, FeedAll, Number, CsiSep, Screen.Valid;
    FeedDigits(q, d1);
    FeedSnoc(q, d1, 0x3B);
    FeedInParam(FeedAll(q, d1), 0x3B);
    NextArgument(d1);
    FeedDigits(q.(params := [Number(d1), 0]), d2);
    FeedAppend(q, d1 + [0x3B], d2);
    NoDigits(d2);
  }

  lemma NoDigits(d: seq<Byte>)
    requires Digits(d)
    ensures |d| == 0 ==> Number(d) == 0
  {
  }

  lemma FeedCommand2(p: Parser, d1: seq<Byte>, d2: seq<Byte>, final: char)
    requires p.Valid() && Argument(d1) && Argument(d2) && 0x40 <= final as int <= 0x7E
    ensures FeedAll(p, Command2(d1, d2, final))
            == DispatchCsi(Started(p).(params := [Number(d1), Number(d2)]), final).(state := Ground)
  {
    hide Feed, FeedAll, DispatchCsi, Number;
    FeedStart(p);
    FeedTwo(Started(p), d1, d2);
    FeedRest(p, [0x1B, 0x5B], d1 + [0x3B] + d2, final, Started(p).(params := [Number(d1), Number(d2)]));
    assert [0x1B, 0x5B] + (d1 + [0x3B] + d2) + [final as int] == Command2(d1, d2, final);
  }

  lemma FeedPrivate(p: Parser, d: seq<Byte>, final: char)
    requires p.Valid() && Argument(d) && 0x40 <= final as int <= 0x7E
    ensures FeedAll(p, Private(d, final))
            == DispatchCsi(Started(p).(priv := true, params := Read(d)), final).(state := Ground)
  {
    hide Feed, FeedAll, DispatchCsi, Number;
    FeedStart(p);
    FeedInParam(Started(p), 0x3F);
    assert [0x1B, 0x5B] + [0x3F] == [0x1B, 0x5B, 0x3F];
    FeedSnoc(p, [0x1B, 0x5B], 0x3F);
    FeedDigits(Started(p).(priv := true), d);
    FeedRest(p, [0x1B, 0x5B, 0x3F], d, final, Started(p).(priv := true, params := Read(d)));
  }

  /** ESC final. */
  lemma FeedEscape(p: Parser, final: char)
    requires p.Valid() && 0x30 <= final as int <= 0x7E && final !in {'[', ']', 'P', '^', '_'}
    ensures FeedAll(p, [0x1B, final as int]) == DispatchEsc(CsiClear(p).(state := Esc), final).(state := Ground)
  {
    hide FeedAll, DispatchCsi, DispatchEsc, HandleC0, FeedUtf8, FeedCsiInter, Screen.Valid;
    FeedOne(p, 0x1B);
    var q := CsiClear(p).(state := Esc);
    assert [0x1B] + [final as int] == [0x1B, final as int];
    FeedSnoc(p, [0x1B], final as int);
  }
}
