/** inflate_raw of mc/mc.c: a bit reader, two code tables and a window that slides. */
module Inflate {
  import opened Bits
  import opened Huffman
  import opened Deflate
  import opened Utf8

  const OUT_SIZE := 65536
  const EIO := 5
  const EINVAL := 22

  /** The input's bits, each byte's least significant first. */
  ghost function BitsOf(inp: seq<Byte>): (b: seq<Bit>)
    ensures |b| == 8 * |inp|
    ensures forall k :: 0 <= k < |b| ==> b[k] == Shr(inp[k / 8], k % 8) % 2
  {
    seq(8 * |inp|, k requires 0 <= k < 8 * |inp| => Shr(inp[k / 8], k % 8) % 2)
  }

  lemma {:induction false} ValueSnoc(bits: seq<Bit>, p: nat, n: nat)
    requires p + n < |bits|
    ensures Value(bits, p, n + 1) == Value(bits, p, n) + bits[p + n] * Pow2(n)
    decreases n
  {
    if n > 0 { ValueSnoc(bits, p + 1, n - 1); }
  }

  /** Copying does not look at how a copy is cut up. */
  lemma {:induction false} CopyStep(out: seq<Byte>, dist: nat, len: nat)
    requires 1 <= dist <= |out| && len > 0
    ensures CopyBack(out, dist, len) == CopyBack(out + [out[|out| - dist]], dist, len - 1)
  {
  }

  lemma DistancesFit(d: nat, extra: nat)
    requires d < 30 && extra < Pow2(DistExtra(d))
    ensures DistBase(d) + extra <= WINDOW
  {
    assert Pow2(3) == 8 && Pow2(6) == 64 && Pow2(9) == 512 && Pow2(12) == 4096;
  }

  /** The bits of byte i, from the k-th on, are what is left of it. */
  lemma {:induction false} ByteTail(inp: seq<Byte>, i: nat, k: nat)
    requires i < |inp| && k <= 8
    ensures Value(BitsOf(inp), 8 * i + k, 8 - k) == Shr(inp[i], k)
    decreases 8 - k
  {
    hide Shr;
    var bits, p := BitsOf(inp), 8 * i + k;
    if k == 8 {
      assert Pow2(8) == 256;
      ShrVanishes(inp[i], 8);
    } else {
      ByteTail(inp, i, k + 1);
      ShrStep(inp[i], k);
      assert p / 8 == i && p % 8 == k;
      assert bits[p] == Shr(inp[i], k) % 2;
      assert Value(bits, p, 8 - k) == bits[p] + 2 * Value(bits, p + 1, 7 - k);
    }
  }

  lemma ByteValue(inp: seq<Byte>, i: nat)
    requires i < |inp|
    ensures Value(BitsOf(inp), 8 * i, 8) == inp[i]
  {
    hide Value;
    ByteTail(inp, i, 0);
  }

  lemma {:induction false} ValueSplit(bits: seq<Bit>, p: nat, m: nat, n: nat)
    requires p + m + n <= |bits|
    ensures Value(bits, p, m + n) == Value(bits, p, m) + Pow2(m) * Value(bits, p + m, n)
    decreases m
  {
    hide Value, Pow2;
    if m == 0 {
      ValueEmpty(bits, p);
    } else {
      ValueSplit(bits, p + 1, m - 1, n);
      ValueFirst(bits, p, m + n);
      ValueFirst(bits, p, m);
      Doubled(m, Value(bits, p + m, n));
    }
  }

  lemma ValueEmpty(bits: seq<Bit>, p: nat)
    requires p <= |bits|
    ensures Value(bits, p, 0) == 0 && Pow2(0) == 1
  {
  }

  lemma ValueFirst(bits: seq<Bit>, p: nat, n: nat)
    requires 0 < n && p + n <= |bits|
    ensures Value(bits, p, n) == bits[p] + 2 * Value(bits, p + 1, n - 1)
  {
  }

  lemma Doubled(m: nat, v: nat)
    requires m > 0
    ensures Pow2(m) * v == 2 * (Pow2(m - 1) * v)
  {
    var x := Pow2(m - 1);
    assert Pow2(m) == 2 * x;
    assert (2 * x) * v == 2 * (x * v);
  }

  /** Two bytes, the low one first. */
  function Word(inp: seq<Byte>, i: nat): nat
    requires i + 2 <= |inp|
  {
    var lo: nat, hi: nat := inp[i], inp[i + 1];
    lo + 256 * hi
  }

  lemma WordValue(inp: seq<Byte>, i: nat)
    requires i + 2 <= |inp|
    ensures Value(BitsOf(inp), 8 * i, 16) == Word(inp, i)
  {
    hide Value;
    ByteValue(inp, i);
    ByteValue(inp, i + 1);
    ValueSplit(BitsOf(inp), 8 * i, 8, 8);
    assert Pow2(8) == 256;
  }

  lemma {:induction false} BytesSnoc(bits: seq<Bit>, p: nat, n: nat)
    requires p + 8 * (n + 1) <= |bits|
    ensures BytesAt(bits, p, n + 1) == BytesAt(bits, p, n) + [Value(bits, p + 8 * n, 8)]
    decreases n
  {
    hide Value;
    if n > 0 {
      BytesSnoc(bits, p + 8, n - 1);
      assert p + 8 + 8 * (n - 1) == p + 8 * n;
    }
  }

  lemma StoredGrows(h: seq<Byte>, g: seq<Byte>, bits: seq<Bit>, p: nat, n: nat)
    requires p + 8 * (n + 1) <= |bits| && g == h + BytesAt(bits, p, n)
    ensures g + [Value(bits, p + 8 * n, 8)] == h + BytesAt(bits, p, n + 1)
  {
    hide BytesAt, Value;
    BytesSnoc(bits, p, n);
  }

  lemma TwoParts<T>(s: seq<T>, a: nat, b: nat)
    requires a + b <= |s|
    ensures s[..a + b][..a] == s[..a] && s[..a + b][a..] == s[a..a + b]
  {
  }

  class Infl {
    const inp: seq<Byte>
    var i: nat
    var bb: nat
    var nb: nat
    const out: array<Byte>
    var pos: nat
    var total: nat
    var err: int

    /** What the k-th call of the callback returns, and what it has been given so far. */
    const put: nat -> int
    var calls: nat
    var sink: seq<Byte>

    /** Every byte ever written. */
    ghost var hist: seq<Byte>

    constructor (inp: seq<Byte>, put: nat -> int)
      ensures Valid() && fresh(out) && this.inp == inp && this.put == put
      ensures err == 0 && Pos() == 0 && hist == [] && sink == []
    {
      this.inp, this.put := inp, put;
      i, bb, nb, pos, total, err, calls, sink, hist := 0, 0, 0, 0, 0, 0, 0, [], [];
      out := new Byte[OUT_SIZE](_ => 0);
    }

    /** The next unread bit. */
    ghost function Pos(): int
      reads this`i, this`nb
    {
      8 * i - nb
    }

    /** What is held of the byte being read. */
    ghost predicate Holding()
      reads this`i, this`nb, this`bb
    {
      i <= |inp| && nb <= 8 && (nb > 0 ==> i > 0 && bb == Shr(inp[i - 1], 8 - nb))
    }

    ghost predicate Reader()
      reads this`i, this`nb, this`bb
    {
      Holding() && nb < 8
    }

    /** The window: what has been sent and what is held is everything, and enough is held to copy from. */
    ghost predicate Window()
      reads this`pos, this`total, this`sink, this`hist, out
    {
      && out.Length == OUT_SIZE && pos <= OUT_SIZE
      && total == |hist| && pos <= |hist| && out[..pos] == hist[|hist| - pos..]
      && (pos >= |hist| || pos >= WINDOW)
      && sink <= hist
    }

    /** Unless something failed, all but the window has been sent. */
    ghost predicate Sent()
      reads this`pos, this`err, this`sink, this`hist
    {
      err == 0 ==> |sink| == |hist| - pos
    }

    ghost predicate Valid()
      reads this, out
    {
      Reader() && Window() && Sent()
    }

    ghost predicate PutFine()
    {
      forall k :: put(k) >= 0
    }

    /* ---- output ---- */

    /** inf_put. */
    method Put(data: seq<Byte>)
      modifies this`err, this`calls, this`sink
      ensures old(err) == 0 ==> sink == old(sink) + data
      ensures old(err) != 0 ==> err == old(err) && sink == old(sink)
      ensures PutFine() ==> err == old(err)
    {
      if err == 0 && |data| > 0 {
        var r := put(calls);
        calls, sink := calls + 1, sink + data;
        if r < 0 { err := r; }
      }
    }

    /** inf_slide. */
    method Slide()
      requires Window() && Sent() && pos == OUT_SIZE
      modifies this`pos, this`err, this`calls, this`sink, out
      ensures Window() && Sent() && pos == WINDOW
      ensures (old(err) != 0 ==> err != 0) && (PutFine() ==> err == old(err))
    {
      var keep := pos - WINDOW;
      ghost var held := out[..];
      Put(out[..keep]);
      for k := 0 to WINDOW
        modifies out
        invariant forall j :: 0 <= j < k ==> out[j] == held[keep + j]
        invariant forall j :: k <= j < OUT_SIZE ==> out[j] == held[j]
      {
        out[k] := out[keep + k];
      }
      pos := WINDOW;
      assert out[..pos] == held[keep..];
    }

    /** inf_byte. */
    method PutByte(c: Byte)
      requires Window() && Sent()
      modifies this`pos, this`total, this`err, this`calls, this`sink, this`hist, out
      ensures Window() && Sent() && hist == old(hist) + [c]
      ensures (old(err) != 0 ==> err != 0) && (PutFine() ==> err == old(err))
    {
      hide Window, Sent;
      WindowSize();
      if pos == OUT_SIZE { Slide(); }
      WindowSize();
      Append(c);
    }

    lemma WindowSize()
      requires Window()
      ensures pos <= out.Length == OUT_SIZE
    {
    }

    method Append(c: Byte)
      requires Window() && Sent() && pos < OUT_SIZE
      modifies this`pos, this`total, this`hist, out
      ensures Window() && Sent() && hist == old(hist) + [c]
    {
      ghost var was := out[..pos];
      out[pos] := c;
      pos, total := pos + 1, total + 1;
      hist := hist + [c];
      assert out[..pos] == was + [c];
    }

    /** The window holds what was written dist bytes ago. */
    lemma Held(dist: nat)
      requires Window() && 1 <= dist <= |hist| && dist <= WINDOW
      ensures dist <= pos <= out.Length && out[pos - dist] == hist[|hist| - dist]
    {
      assert out[pos - dist] == out[..pos][pos - dist];
    }

    lemma CopyNone(h: seq<Byte>, dist: nat)
      requires 1 <= dist <= |h|
      ensures CopyBack(h, dist, 0) == h
    {
    }

    /** The copy of a match: each byte is the one dist back, wherever the window has slid to. */
    method CopyMatch(dist: nat, len: nat)
      requires Window() && Sent() && 1 <= dist <= |hist| && dist <= WINDOW
      modifies this`pos, this`total, this`err, this`calls, this`sink, this`hist, out
      ensures Window() && Sent() && hist == CopyBack(old(hist), dist, len)
      ensures (old(err) != 0 ==> err != 0) && (PutFine() ==> err == old(err))
    {
      hide CopyBack, Window;
      CopyNone(hist, dist);
      for k := 0 to len
        invariant Window() && Sent() && dist <= |hist|
        invariant CopyBack(hist, dist, len - k) == CopyBack(old(hist), dist, len)
        invariant (old(err) != 0 ==> err != 0) && (PutFine() ==> err == old(err))
      {
        CopyStep(hist, dist, len - k);
        Held(dist);
        PutByte(out[pos - dist]);
      }
      CopyNone(hist, dist);
    }

    lemma TotalIsAll()
      requires Window()
      ensures total == |hist|
    {
    }

    /* ---- input ---- */

    lemma PosInside()
      requires Reader()
      ensures 0 <= Pos() <= 8 * |inp|
    {
    }

    /** inf_bits. */
    method Bits(need: nat) returns (v: nat)
      requires Reader()
      modifies this`i, this`bb, this`nb, this`err
      ensures Reader() && old(Pos()) <= Pos() <= 8 * |inp|
      ensures old(Pos()) + need <= 8 * |inp|
              ==> err == old(err) && Pos() == old(Pos()) + need && v == Value(BitsOf(inp), old(Pos()), need)
      ensures old(Pos()) + need > 8 * |inp| ==> err == -EIO && v == 0
    {
      hide Value, Shr;
      v := 0;
      ghost var bits, p := BitsOf(inp), Pos();
      ValueNone(bits, p);
      for k := 0 to need
        invariant Reader() && Pos() == p + k <= 8 * |inp| && err == old(err)
        invariant v == Value(bits, p, k)
      {
        if nb == 0 {
          if i >= |inp| {
            err := -EIO;
            return 0;
          }
          bb, i, nb := inp[i], i + 1, 8;
          ShrStep(bb, 0);
        }
        NextBit();
        ValueSnoc(bits, p, k);
        v := v + bb % 2 * Pow2(k);
        bb, nb := bb / 2, nb - 1;
      }
    }

    lemma ValueNone(bits: seq<Bit>, p: nat)
      requires p <= |bits|
      ensures Value(bits, p, 0) == 0
    {
    }

    /** The lowest bit held is the next of the input, and the rest are what follows it. */
    lemma NextBit()
      requires Holding() && nb > 0
      ensures Pos() < 8 * |inp| && BitsOf(inp)[Pos()] == bb % 2
      ensures Shr(inp[i - 1], 8 - (nb - 1)) == bb / 2
    {
      hide Shr;
      assert Pos() == 8 * (i - 1) + (8 - nb);
      if nb == 8 {
        assert Pos() / 8 == i - 1 && Pos() % 8 == 0;
      } else {
        assert Pos() / 8 == i - 1 && Pos() % 8 == 8 - nb;
      }
      ShrHalves(inp[i - 1], 8 - nb);
    }

    lemma ShrHalves(x: nat, k: nat)
      ensures Shr(x, k + 1) == Shr(x, k) / 2
    {
    }

    /** huff_decode: one symbol, bit by bit. Running out of bits is noticed only by the caller. */
    method Decode(h: Huff, ghost lens: seq<nat>) returns (sym: nat)
      requires Reader() && IsTable(h, lens)
      modifies this`i, this`bb, this`nb, this`err
      ensures Reader() && (old(err) != 0 ==> err != 0)
      ensures old(err) == 0 ==>
                var d := SymbolAt(lens, BitsOf(inp), old(Pos()));
                if d.Symbol? then err == 0 && sym == d.sym && Pos() == d.end else err != 0
    {
      hide DecodeFrom, Value, Offset, Count, SymbolAt;
      ghost var bits, p := BitsOf(inp), Pos();
      DecodeIsSymbolAt(h, lens, bits, p);
      OffsetOne(lens);
      var code: int, first: int, index: int := 0, 0, 0;
      for len := 1 to 16
        invariant Reader() && 0 <= first <= code && index == Offset(lens, len) && (old(err) != 0 ==> err != 0)
        invariant old(err) == 0 && err == 0
                  ==> DecodeFrom(h, bits, p, 1, 0, 0, 0) == DecodeFrom(h, bits, Pos(), len, code, first, index)
        invariant old(err) == 0 && err != 0 ==> DecodeFrom(h, bits, p, 1, 0, 0, 0).NoSymbol?
      {
        ghost var q, ok := Pos(), old(err) == 0 && err == 0;
        var b := Bits(1);
        DecodeOne(h, bits, q, len, code, first, index);
        code := code + b;
        var count := h.count[len];
        if code - count < first {
          IndexInside(h, lens, len, code - first);
          return h.sym[index + (code - first)];
        }
        OffsetStep(lens, len);
        index, first, code := index + count, 2 * (first + count), 2 * code;
      }
      DecodeEnds(h, bits, Pos(), code, first, index);
      err := -EINVAL;
      sym := 0;
    }

    lemma ValueOne(bits: seq<Bit>, p: nat)
      requires p < |bits|
      ensures Value(bits, p, 1) == bits[p]
    {
      assert Value(bits, p + 1, 0) == 0;
    }

    lemma DecodeOne(h: Huff, bits: seq<Bit>, p: nat, len: nat, code: nat, first: nat, index: nat)
      requires |h.count| == 16 && |h.sym| == 288 && 1 <= len < 16 && first <= code
      ensures p >= |bits| ==> DecodeFrom(h, bits, p, len, code, first, index).NoSymbol?
      ensures p < |bits| ==> Value(bits, p, 1) == bits[p]
      ensures p < |bits| ==>
                var c, n := code + bits[p], h.count[len];
                DecodeFrom(h, bits, p, len, code, first, index)
                == if c < first + n then
                  Symbol(if index + (c - first) < 288 then h.sym[index + (c - first)] else 0, p + 1)
                   else DecodeFrom(h, bits, p + 1, len + 1, 2 * c, 2 * (first + n), index + n)
    {
      if p < |bits| { ValueOne(bits, p); }
      hide Value;
    }

    lemma DecodeEnds(h: Huff, bits: seq<Bit>, p: nat, code: nat, first: nat, index: nat)
      requires |h.count| == 16 && |h.sym| == 288 && first <= code
      ensures DecodeFrom(h, bits, p, 16, code, first, index).NoSymbol?
    {
    }

    /* ---- blocks ---- */

    /** What reading came to agrees with what the bits mean; a callback that failed may have cut it short. */
    ghost predicate Outcome(r: Result)
      reads this`i, this`nb, this`err, this`hist
    {
      && (err == 0 ==> r.Done? && hist == r.out && Pos() == r.end)
      && (err != 0 && PutFine() ==> r.Failed? && hist == r.out)
    }

    /** The extra bits and the distance that follow a length symbol. */
    method ReadMatch(dc: Huff, ghost dl: seq<nat>, lsym: nat) returns (len: nat, dist: nat)
      requires Reader() && IsTable(dc, dl) && err == 0 && lsym < 29
      modifies this`i, this`bb, this`nb, this`err
      ensures Reader() && 1 <= dist <= WINDOW
      ensures var m := Deflate.ReadMatch(dl, BitsOf(inp), old(Pos()), lsym);
              if m.Copy? then err == 0 && m == Copy(len, dist, Pos()) else err != 0
    {
      hide Value, SymbolAt, IsTable, Reader, LenBase, LenExtra, DistBase, DistExtra, BitsOf;
      BitsLength();
      ghost var bits, p := BitsOf(inp), Pos();
      dist := 1;
      var extra := Bits(LenExtra(lsym));
      len := LenBase(lsym) + extra;
      var d := Decode(dc, dl);
      if err != 0 { return; }
      if d >= 30 {
        err := -EINVAL;
        return;
      }
      ghost var q := Pos();
      extra := Bits(DistExtra(d));
      if err != 0 { return; }
      ValueBound(bits, q, DistExtra(d));
      DistancesFit(d, extra);
      dist := DistBase(d) + extra;
    }

    /** inf_codes. */
    method Codes(lc: Huff, dc: Huff, ghost ll: seq<nat>, ghost dl: seq<nat>)
      requires Valid() && IsTable(lc, ll) && IsTable(dc, dl)
      modifies this`i, this`bb, this`nb, this`pos, this`total, this`err, this`calls, this`sink, this`hist, out
      ensures Valid()
      ensures old(err) == 0 ==> Outcome(Deflate.Codes(ll, dl, BitsOf(inp), old(Pos()), old(hist)))
      ensures old(err) != 0 ==> err != 0 && hist == old(hist)
    {
      hide Value, SymbolAt, IsTable, Reader, Window, Deflate.ReadMatch, CopyBack, BitsOf, Deflate.Codes;
      PosInside();
      ghost var bits := BitsOf(inp);
      ghost var r := Deflate.Codes(ll, dl, bits, Pos(), hist);
      while true
        invariant Valid() && (old(err) == 0 && PutFine() ==> err == 0)
        invariant err == 0 ==> old(err) == 0 && Deflate.Codes(ll, dl, bits, Pos(), hist) == r
        invariant old(err) != 0 ==> err != 0 && hist == old(hist)
        decreases err == 0, |bits| - Pos()
      {
        PosInside();
        CodesStep(ll, dl, bits, Pos(), hist);
        var sym := Decode(lc, ll);
        if err != 0 { return; }
        if sym < 256 {
          PutByte(sym);
          continue;
        }
        if sym == END_OF_BLOCK { return; }
        if sym - 257 >= 29 {
          err := -EINVAL;
          return;
        }
        var len, dist := ReadMatch(dc, dl, sym - 257);
        if err != 0 { return; }
        TotalIsAll();
        if dist > total {
          err := -EINVAL;
          return;
        }
        CopyMatch(dist, len);
      }
    }

    /** inf_stored. */
    method Stored()
      requires Valid() && err == 0
      modifies this`i, this`bb, this`nb, this`pos, this`total, this`err, this`calls, this`sink, this`hist, out
      ensures Valid() && Outcome(Deflate.Stored(BitsOf(inp), old(Pos()), old(hist)))
    {
      hide Value, Window, BytesAt, BitsOf, Aligned, Shr, Word;
      ghost var bits, q := BitsOf(inp), 8 * i;
      BitsLength();
      AlignedPos();
      nb := 0;
      if i + 4 > |inp| {
        err := -EIO;
        return;
      }
      WordValue(inp, i);
      WordValue(inp, i + 2);
      var len, nlen := Word(inp, i), Word(inp, i + 2);
      i := i + 4;
      if len != 0xffff - nlen {
        err := -EINVAL;
        return;
      }
      if len > |inp| - i {
        err := -EIO;
        return;
      }
      StoredBytes(len);
    }

    lemma AlignedPos()
      requires Reader()
      ensures Pos() >= 0 && Aligned(Pos()) == 8 * i
    {
      hide Shr;
    }

    /** The bytes of a stored block. */
    method StoredBytes(len: nat)
      requires Valid() && err == 0 && nb == 0 && i + len <= |inp|
      modifies this`i, this`pos, this`total, this`err, this`calls, this`sink, this`hist, out
      ensures Valid() && nb == 0 && i == old(i) + len && (PutFine() ==> err == 0)
      ensures hist == old(hist) + BytesAt(BitsOf(inp), 8 * old(i), len)
    {
      hide Value, Window, BytesAt, BitsOf, Shr;
      ghost var bits := BitsOf(inp);
      BitsLength();
      BytesNone(bits, 8 * i);
      for k := 0 to len
        invariant Valid() && nb == 0 && i == old(i) + k && (PutFine() ==> err == 0)
        invariant hist == old(hist) + BytesAt(bits, 8 * old(i), k)
      {
        StoredGrows(old(hist), hist, bits, 8 * old(i), k);
        ByteValue(inp, i);
        PutByte(inp[i]);
        i := i + 1;
      }
    }

    lemma BytesNone(bits: seq<Bit>, p: nat)
      requires p <= |bits|
      ensures BytesAt(bits, p, 0) == []
    {
    }

    /** inf_fixed's lengths of the literal code. */
    method FixedLens() returns (len: array<nat>)
      ensures fresh(len) && len.Length == 318 && len[..288] == FixedLit()
    {
      len := new nat[318](_ => 0);
      for k := 0 to 144
        invariant forall j :: 0 <= j < k ==> len[j] == 8
      { len[k] := 8; }
      for k := 144 to 256
        invariant forall j :: 0 <= j < k ==> len[j] == if j < 144 then 8 else 9
      { len[k] := 9; }
      for k := 256 to 280
        invariant forall j :: 0 <= j < k ==> len[j] == if j < 144 then 8 else if j < 256 then 9 else 7
      { len[k] := 7; }
      for k := 280 to 288
        invariant forall j :: 0 <= j < k ==>
                    len[j] == if j < 144 then 8 else if j < 256 then 9 else if j < 280 then 7 else 8
      { len[k] := 8; }
    }

    /** inf_fixed. */
    method Fixed()
      requires Valid() && err == 0
      modifies this`i, this`bb, this`nb, this`pos, this`total, this`err, this`calls, this`sink, this`hist, out
      ensures Valid() && Outcome(Deflate.Codes(FixedLit(), FixedDist(), BitsOf(inp), old(Pos()), old(hist)))
    {
      hide Window, Reader, Deflate.Codes, IsTable;
      var len := FixedLens();
      FixedAreLengths();
      var lc := HuffBuild(len[..288]);
      for k := 0 to 30
        modifies len
        invariant forall j :: 0 <= j < k ==> len[j] == 5
      { len[k] := 5; }
      assert len[..30] == FixedDist();
      var dc := HuffBuild(len[..30]);
      Codes(lc, dc, FixedLit(), FixedDist());
    }

    lemma FixedAreLengths()
      ensures Lengths(FixedLit()) && Lengths(FixedDist())
    {
    }

    /** The code length code's lengths, as far as they are sent. */
    method ReadClLens(len: array<nat>, ncode: nat)
      requires Reader() && len.Length == 320 && ncode <= 19 && len[..19] == Times(19, 0)
      modifies this`i, this`bb, this`nb, this`err, len
      ensures Reader() && Lengths(len[..19]) && (old(err) != 0 ==> err != 0)
      ensures old(err) == 0 ==>
                if old(Pos()) + 3 * ncode <= 8 * |inp|
                then err == 0 && Pos() == old(Pos()) + 3 * ncode
                  && len[..19] == ClLens(BitsOf(inp), old(Pos()), ncode, Times(19, 0))
                else err != 0
    {
      hide Value, Reader, BitsOf;
      PosInside();
      ghost var bits, p := BitsOf(inp), Pos();
      BitsLength();
      for k := 0 to ncode
        modifies this`i, this`bb, this`nb, this`err, len
        invariant Reader() && 0 <= Pos() <= |bits| && (old(err) != 0 ==> err != 0)
        invariant forall j :: 0 <= j < 19 ==> len[j] < 8
        invariant old(err) == 0 && err == 0 ==> p + 3 * k <= |bits| && Pos() == p + 3 * k
        invariant old(err) == 0 && err == 0 ==> len[..19] == ClLens(bits, p, k, Times(19, 0))
        invariant old(err) == 0 && err != 0 ==> p + 3 * k > |bits|
      {
        ghost var q, was := Pos(), len[..19];
        var v := Bits(3);
        if q + 3 <= |bits| { ThreeBits(bits, q); }
        ClOrderFits(k);
        len[CLORDER[k]] := v;
        assert len[..19] == was[CLORDER[k] := v];
      }
    }

    lemma BitsLength()
      ensures |BitsOf(inp)| == 8 * |inp|
    {
    }

    lemma ThreeBits(bits: seq<Bit>, p: nat)
      requires p + 3 <= |bits|
      ensures Value(bits, p, 3) < 8
    {
      ValueBound(bits, p, 3);
      assert Pow2(3) == 8;
    }

    lemma ClOrderFits(k: nat)
      requires k < 19
      ensures CLORDER[k] < 19
    {
    }

    /** The loop over the code lengths of both codes. */
    method ReadLens(len: array<nat>, cl: Huff, ghost clLens: seq<nat>, total': nat)
      requires Reader() && len.Length == 320 && total' <= 316 && IsTable(cl, clLens) && |clLens| == 19
      modifies this`i, this`bb, this`nb, this`err, len
      ensures Reader() && (old(err) != 0 ==> err != 0)
      ensures err == 0 ==> forall j :: 0 <= j < total' ==> len[j] <= MAX_BITS
      ensures old(err) == 0 ==>
                var r := CodeLens(clLens, BitsOf(inp), old(Pos()), total', []);
                if r.Lens? then err == 0 && r == Lens(len[..total'], Pos()) else err != 0
    {
      hide Value, Reader, BitsOf, SymbolAt, IsTable, CodeLens;
      PosInside();
      BitsLength();
      ghost var bits := BitsOf(inp);
      ghost var r := CodeLens(clLens, bits, Pos(), total', []);
      var index := 0;
      assert len[..0] == [];
      while index < total'
        modifies this`i, this`bb, this`nb, this`err, len
        invariant Reader() && 0 <= Pos() <= |bits| && index <= total' && (old(err) != 0 ==> err != 0)
        invariant forall j :: 0 <= j < index ==> len[j] <= MAX_BITS
        invariant old(err) == 0 && err == 0 ==> r == CodeLens(clLens, bits, Pos(), total', len[..index])
        invariant old(err) == 0 && err != 0 ==> r.NoLens?
        decreases total' - index
      {
        CodeLensStep(clLens, bits, Pos(), total', len[..index]);
        var sym := Decode(cl, clLens);
        if err != 0 { return; }
        ghost var d, acc := SymbolAt(clLens, bits, old(Pos())), len[..index];
        if sym < 16 {
          len[index] := sym;
          index := index + 1;
          assert len[..index] == acc + [sym];
          continue;
        }
        var val, rep := 0, 0;
        if sym == 16 && index == 0 {
          err := -EINVAL;
          return;
        }
        if sym == 16 { val := len[index - 1]; }
        rep := Bits(RepBits(sym));
        rep := rep + RepBase(sym);
        if index + rep > total' {
          err := -EINVAL;
          return;
        }
        Fill(len, index, rep, val);
        index := index + rep;
        assert len[..index] == acc + Times(rep, val);
      }
      CodeLensEnd(clLens, bits, Pos(), total', len[..index]);
    }

    method Fill(len: array<nat>, index: nat, rep: nat, val: nat)
      requires index + rep <= len.Length
      modifies len
      ensures forall j :: 0 <= j < len.Length ==> len[j] == if index <= j < index + rep then val else old(len[j])
    {
      for k := 0 to rep
        invariant forall j :: 0 <= j < len.Length ==> len[j] == if index <= j < index + k then val else old(len[j])
      {
        len[index + k] := val;
      }
    }

    /** One step of CodeLens. */
    lemma CodeLensStep(cl: seq<nat>, bits: seq<Bit>, p: nat, total': nat, acc: seq<nat>)
      requires |acc| < total'
      ensures var d, r := SymbolAt(cl, bits, p), CodeLens(cl, bits, p, total', acc);
              if d.NoSymbol? then r.NoLens?
              else if d.sym < 16 then r == CodeLens(cl, bits, d.end, total', acc + [d.sym])
              else if (d.sym == 16 && |acc| == 0) || d.end + RepBits(d.sym) > |bits| then r.NoLens?
              else
                var n := RepBase(d.sym) + Value(bits, d.end, RepBits(d.sym));
                if |acc| + n > total' then r.NoLens?
                else r == CodeLens(cl, bits, d.end + RepBits(d.sym), total',
                                   acc + Times(n, if d.sym == 16 then acc[|acc| - 1] else 0))
    {
      hide SymbolAt, Value;
    }

    lemma CodeLensEnd(cl: seq<nat>, bits: seq<Bit>, p: nat, total': nat, acc: seq<nat>)
      requires |acc| == total'
      ensures CodeLens(cl, bits, p, total', acc) == Lens(acc, p)
    {
    }

    /** The three counts that start a dynamic block. */
    method ReadCounts() returns (nlit: nat, ndist: nat, ncode: nat)
      requires Reader() && err == 0
      modifies this`i, this`bb, this`nb, this`err
      ensures Reader()
      ensures var bits, p := BitsOf(inp), old(Pos());
              if p + 14 > |bits| then err != 0
              else
                && err == 0 && Pos() == p + 14 && nlit == Value(bits, p, 5) + 257
                && ndist == Value(bits, p + 5, 5) + 1 && ncode == Value(bits, p + 10, 4) + 4 <= 19
    {
      hide Value, Reader, BitsOf;
      PosInside();
      BitsLength();
      ghost var bits, p := BitsOf(inp), Pos();
      nlit := Bits(5);
      ndist := Bits(5);
      ncode := Bits(4);
      nlit, ndist, ncode := nlit + 257, ndist + 1, ncode + 4;
      if err != 0 { return; }
      ValueBound(bits, p + 10, 4);
      assert Pow2(4) == 16;
    }

    /** The header of a dynamic block: how many lengths there are, and the lengths. */
    method ReadHeader(len: array<nat>) returns (nlit: nat, ndist: nat)
      requires Reader() && err == 0 && len.Length == 320
      modifies this`i, this`bb, this`nb, this`err, len
      ensures Reader()
      ensures var h := Deflate.ReadHeader(BitsOf(inp), old(Pos()));
              if h.NoHeader? then err != 0
              else
                && err == 0 && nlit + ndist <= 316 && nlit <= 286 && ndist <= 30
                && Lengths(len[..nlit]) && Lengths(len[nlit..nlit + ndist])
                && h == Header(len[..nlit], len[nlit..nlit + ndist], Pos())
    {
      hide Value, Reader, BitsOf, IsTable, CodeLens, ClLens;
      PosInside();
      BitsLength();
      ghost var bits, p := BitsOf(inp), Pos();
      var ncode;
      nlit, ndist, ncode := ReadCounts();
      if err != 0 { return; }
      if nlit > 286 || ndist > 30 {
        err := -EINVAL;
        return;
      }
      for k := 0 to 19
        modifies len
        invariant forall j :: 0 <= j < k ==> len[j] == 0
      { len[k] := 0; }
      assert len[..19] == Times(19, 0);
      ReadClLens(len, ncode);
      ghost var cls := len[..19];
      var cl := HuffBuild(len[..19]);
      ReadLens(len, cl, cls, nlit + ndist);
      if err != 0 { return; }
      ghost var all := len[..nlit + ndist];
      TwoParts(len[..], nlit, ndist);
      if len[256] == 0 { err := -EINVAL; }
    }

    /** inf_dynamic. */
    method Dynamic()
      requires Valid() && err == 0
      modifies this`i, this`bb, this`nb, this`pos, this`total, this`err, this`calls, this`sink, this`hist, out
      ensures Valid() && Outcome(Deflate.Dynamic(BitsOf(inp), old(Pos()), old(hist)))
    {
      hide Window, Reader, Deflate.Codes, Deflate.ReadHeader, IsTable, BitsOf;
      PosInside();
      var len := new nat[320](_ => 0);
      var nlit, ndist := ReadHeader(len);
      if err != 0 { return; }
      ghost var ll, dl := len[..nlit], len[nlit..nlit + ndist];
      var lc := HuffBuild(len[..nlit]);
      var dc := HuffBuild(len[nlit..nlit + ndist]);
      Codes(lc, dc, ll, dl);
    }

    /** inflate_raw's loop, and the last of the output sent. */
    method Run()
      requires Valid() && err == 0 && hist == [] && Pos() == 0
      modifies this`i, this`bb, this`nb, this`pos, this`total, this`err, this`calls, this`sink, this`hist, out
      ensures var r := Blocks(BitsOf(inp), 0, []);
              && (err == 0 ==> r.Done? && sink == r.out && total == |r.out|)
              && (PutFine() ==> (err == 0 <==> r.Done?) && total == |r.out| && sink <= r.out)
    {
      hide Window, Reader, Block, BitsOf;
      PosInside();
      BitsLength();
      ghost var bits := BitsOf(inp);
      ghost var r := Blocks(bits, 0, []);
      var last := false;
      while !last && err == 0
        invariant Valid() && 0 <= Pos() <= |bits|
        invariant err == 0 ==> r == if last then Done(Pos(), hist) else Blocks(bits, Pos(), hist)
        invariant err != 0 && PutFine() ==> r.Failed? && hist == r.out
        decreases !last && err == 0, |bits| - Pos()
      {
        last := BlockStep();
      }
      AtEnd();
      Put(out[..pos]);
    }

    /** Everything is the part sent and the part held. */
    lemma AtEnd()
      requires Window() && Sent()
      ensures pos <= out.Length && total == |hist| && sink <= hist
      ensures err == 0 ==> sink + out[..pos] == hist
    {
    }

    /** One block, from its header bits on. */
    method BlockStep() returns (last: bool)
      requires Valid() && err == 0
      modifies this`i, this`bb, this`nb, this`pos, this`total, this`err, this`calls, this`sink, this`hist, out
      ensures Valid() && 0 <= Pos() <= 8 * |inp|
      ensures var r := Blocks(BitsOf(inp), old(Pos()), old(hist));
              && (err == 0 ==> old(Pos()) < Pos())
              && (err == 0 ==> r == if last then Done(Pos(), hist) else Blocks(BitsOf(inp), Pos(), hist))
              && (err != 0 && PutFine() ==> r.Failed? && hist == r.out)
    {
      hide Window, Reader, BitsOf, Value, Deflate.Codes, Deflate.Stored, Deflate.Dynamic;
      PosInside();
      BitsLength();
      ghost var bits, p := BitsOf(inp), Pos();
      var bit := Bits(1);
      last := bit != 0;
      if p < |bits| { ValueOne(bits, p); }
      var kind := Bits(2);
      if err != 0 { return; }
      if kind == 0 { Stored(); }
      else if kind == 1 { Fixed(); }
      else if kind == 2 { Dynamic(); }
      else { err := -EINVAL; }
      PosInside();
    }
  }

  /** inflate_raw: 0 and the whole output sent if the stream is whole, a negative error otherwise. */
  method InflateRaw(inp: seq<Byte>, put: nat -> int) returns (err: int, total: nat, sent: seq<Byte>)
    ensures var r := Blocks(BitsOf(inp), 0, []);
            && (err == 0 ==> r.Done? && sent == r.out && total == |r.out|)
            && ((forall k :: put(k) >= 0) ==> (err == 0 <==> r.Done?) && total == |r.out| && sent <= r.out)
  {
    hide Blocks, BitsOf;
    var s := new Infl(inp, put);
    s.Run();
    err, total, sent := s.err, s.total, s.sink;
  }
}
