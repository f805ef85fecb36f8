/** Damaged streams (sections 3.2.3 to 3.2.7 of RFC 1951), and that inflate_raw refuses them (mc/mc.c). */
module DeflateRefusals {
  import opened Bits
  import opened Huffman
  import opened Deflate
  import opened DeflateEncode
  import opened DeflateTables
  import opened FixedCodes
  import opened Utf8

  /** Block type 3. */
  lemma RefusesType(bits: seq<Bit>, p: nat, last: Bit, out: seq<Byte>)
    requires At(bits, p, [last] + Lsb(3, 2))
    ensures Blocks(bits, p, out) == Failed(out)
  {
    hide Lsb, At, Value;
    assert Pow2(2) == 4;
    AtSplit(bits, p, [last], Lsb(3, 2));
    AtInside(bits, p, [last] + Lsb(3, 2));
    ReadsLsb(bits, p + 1, 3, 2);
  }

  /** A stream that ends before its last block. */
  lemma RefusesEnd(bits: seq<Bit>, p: nat, out: seq<Byte>)
    requires p <= |bits| < p + 3
    ensures Blocks(bits, p, out) == Failed(out)
  {
  }

  /** A stored block whose length is not the complement of what follows it, or whose bytes are not all there. */
  lemma RefusesStored(bits: seq<Bit>, p: nat, pad: seq<Bit>, n: nat, m: nat, out: seq<Byte>)
    requires n < 65536 && m < 65536 && |pad| == Aligned(p) - p && At(bits, p, pad + (Lsb(n, 16) + Lsb(m, 16)))
    requires n + m != 65535 || Aligned(p) + 32 + 8 * n > |bits|
    ensures Stored(bits, p, out) == Failed(out)
  {
    hide Lsb, Value, At, Aligned, BytesAt;
    assert Pow2(16) == 65536 by { assert Pow2(8) == 256; }
    AtSplit(bits, p, pad, Lsb(n, 16) + Lsb(m, 16));
    AtSplit(bits, Aligned(p), Lsb(n, 16), Lsb(m, 16));
    ReadsLsb(bits, Aligned(p), n, 16);
    ReadsLsb(bits, Aligned(p) + 16, m, 16);
  }

  /** More than 286 literal and length codes, or more than 30 distance codes. */
  lemma RefusesCounts(bits: seq<Bit>, p: nat, h: nat, d: nat, c: nat)
    requires h < 32 && d < 32 && c < 16 && At(bits, p, Lsb(h, 5) + (Lsb(d, 5) + Lsb(c, 4))) && (h > 29 || d > 29)
    ensures ReadHeader(bits, p) == NoHeader
  {
    hide Lsb, Value, At, ClLens, CodeLens;
    assert Pow2(4) == 16 && Pow2(5) == 32;
    AtSplit(bits, p, Lsb(h, 5), Lsb(d, 5) + Lsb(c, 4));
    AtSplit(bits, p + 5, Lsb(d, 5), Lsb(c, 4));
    AtInside(bits, p + 10, Lsb(c, 4));
    ReadsLsb(bits, p, h, 5);
    ReadsLsb(bits, p + 5, d, 5);
  }

  /** One symbol of the list of code lengths. */
  lemma LensStep(cl: seq<nat>, bits: seq<Bit>, p: nat, total: nat, acc: seq<nat>)
    requires |acc| < total
    ensures var d := SymbolAt(cl, bits, p);
      d.Symbol? && d.sym >= 16
      && ((d.sym == 16 && |acc| == 0) || d.end + RepBits(d.sym) > |bits|
          || |acc| + RepBase(d.sym) + Value(bits, d.end, RepBits(d.sym)) > total)
      ==> CodeLens(cl, bits, p, total, acc) == NoLens
  {
    hide SymbolAt, Value, RepBits, RepBase;
  }

  /** The bits of a repeat: its symbol and how often more than at least. */
  lemma RunExtra(cl: seq<nat>, r: DeflateEncode.Run)
    requires RunSym(r) < |cl|
    requires match r case OneLen(l) => false case Previous(n) => 3 <= n <= 6 case Zeros(n) => 3 <= n <= 10
                     case ManyZeros(n) => 11 <= n <= 138
    ensures var s := RunSym(r);
      && 16 <= s && (s == 16 <==> r.Previous?) && RepBase(s) <= r.n && r.n - RepBase(s) < Pow2(RepBits(s))
      && RunBits(cl, r) == SymBits(cl, s) + Lsb(r.n - RepBase(s), RepBits(s))
  {
    hide SymBits, Lsb, Pow2;
    Powers();
  }

  /** A repeat of the length before with none before it, and a repeat that goes on past the last length. */
  lemma RefusesRun(cl: seq<nat>, bits: seq<Bit>, p: nat, r: DeflateEncode.Run, acc: seq<nat>, total: nat)
    requires Lengths(cl) && |cl| == 19 && NotOverSubscribed(cl) && |acc| < total
    requires RunSym(r) < 19 && cl[RunSym(r)] > 0 && At(bits, p, RunBits(cl, r))
    requires match r case OneLen(l) => false case Previous(n) => 3 <= n <= 6 case Zeros(n) => 3 <= n <= 10
                     case ManyZeros(n) => 11 <= n <= 138
    requires (r.Previous? && |acc| == 0) || |acc| + r.n > total
    ensures CodeLens(cl, bits, p, total, acc) == NoLens
  {
    hide At, SymBits, Lsb, Lengths, SymbolAt, NotOverSubscribed, Value, CodeLens, Pow2, RepBits, RepBase, RunBits;
    RunExtra(cl, r);
    var s := RunSym(r);
    var extra := Lsb(r.n - RepBase(s), RepBits(s));
    AtSplit(bits, p, SymBits(cl, s), extra);
    ReadsSymbol(cl, bits, p, s);
    AtInside(bits, p + cl[s], extra);
    ReadsLsb(bits, p + cl[s], r.n - RepBase(s), RepBits(s));
    LensStep(cl, bits, p, total, acc);
  }

  /** The length symbol of a copy is read, and then the rest of it. */
  lemma CopyIsRead(ll: seq<nat>, dl: seq<nat>, bits: seq<Bit>, p: nat, i: Item)
    requires CodesOk(ll, dl) && i.CopyItem? && i.lsym < 29 && 257 + i.lsym < |ll| && ll[257 + i.lsym] > 0
    requires i.dsym < 30 && i.dsym < |dl| && dl[i.dsym] > 0
    requires i.lextra < Pow2(LenExtra(i.lsym)) && i.dextra < Pow2(DistExtra(i.dsym))
    requires At(bits, p, ItemBits(ll, dl, i))
    ensures SymbolAt(ll, bits, p) == Symbol(257 + i.lsym, p + ll[257 + i.lsym])
    ensures var m := ReadMatch(dl, bits, p + ll[257 + i.lsym], i.lsym); m.Copy? && m.dist == DistOf(i)
  {
    hide At, SymBits, Lsb, NotOverSubscribed, Lengths, SymbolAt, Pow2, LenExtra, DistExtra, ReadMatch, LengthOf, DistOf;
    var tail := Lsb(i.lextra, LenExtra(i.lsym)) + (SymBits(dl, i.dsym) + Lsb(i.dextra, DistExtra(i.dsym)));
    AtSplit(bits, p, SymBits(ll, 257 + i.lsym), tail);
    ReadsSymbol(ll, bits, p, 257 + i.lsym);
    ReadsCopy(dl, bits, p + ll[257 + i.lsym], i);
  }

  /** A copy from before the first byte of the output. */
  lemma RefusesFar(ll: seq<nat>, dl: seq<nat>, bits: seq<Bit>, p: nat, i: Item, out: seq<Byte>)
    requires CodesOk(ll, dl) && i.CopyItem? && i.lsym < 29 && 257 + i.lsym < |ll| && ll[257 + i.lsym] > 0
    requires i.dsym < 30 && i.dsym < |dl| && dl[i.dsym] > 0
    requires i.lextra < Pow2(LenExtra(i.lsym)) && i.dextra < Pow2(DistExtra(i.dsym)) && DistOf(i) > |out|
    requires At(bits, p, ItemBits(ll, dl, i))
    ensures Codes(ll, dl, bits, p, out) == Failed(out)
  {
    hide At, CodesOk, ItemBits, SymbolAt, Pow2, LenExtra, DistExtra, ReadMatch, DistOf, Codes;
    CopyIsRead(ll, dl, bits, p, i);
    FarFails(ll, dl, bits, p, i.lsym, out);
  }

  lemma FarFails(ll: seq<nat>, dl: seq<nat>, bits: seq<Bit>, p: nat, lsym: nat, out: seq<Byte>)
    requires lsym < 29
    requires var d := SymbolAt(ll, bits, p);
      d.Symbol? && d.sym == 257 + lsym && (var m := ReadMatch(dl, bits, d.end, lsym); m.Copy? && m.dist > |out|)
    ensures Codes(ll, dl, bits, p, out) == Failed(out)
  {
    hide SymbolAt, ReadMatch, Codes, CopyBack;
    CodesStep(ll, dl, bits, p, out);
  }

  /** The length symbols 286 and 287, which have fixed codes but stand for nothing. */
  lemma RefusesSymbol(bits: seq<Bit>, p: nat, s: nat, out: seq<Byte>)
    requires 286 <= s <= 287 && At(bits, p, SymBits(FixedLit(), s))
    ensures Codes(FixedLit(), FixedDist(), bits, p, out) == Failed(out)
  {
    hide At, SymBits, NotOverSubscribed, SymbolAt, ReadMatch, Codes;
    FixedOk();
    FixedCode(s);
    ReadsSymbol(FixedLit(), bits, p, s);
    CodesStep(FixedLit(), FixedDist(), bits, p, out);
  }

  /** Code lengths that give the end of a block no code, as a dynamic block sends them. */
  lemma RefusesNoEnd(bits: seq<Bit>, p: nat, b: Codebook)
    requires 257 <= b.nlit <= 286 && 1 <= b.ndist <= 30 && 4 <= b.ncode <= 19
    requires |b.cl| == 19 && Lengths(b.cl) && NotOverSubscribed(b.cl) && (forall k :: 0 <= k < 19 ==> b.cl[k] < 8)
    requires forall j :: b.ncode <= j < 19 ==> CLORDER[j] < 19 && b.cl[CLORDER[j]] == 0
    requires RunsOk(b.cl, b.runs, [], b.nlit + b.ndist) && AllLens(b)[256] == 0
    requires At(bits, p, Lsb(b.nlit - 257, 5) + (Lsb(b.ndist - 1, 5) + (Lsb(b.ncode - 4, 4)
                         + (ClBits(b.cl, b.ncode) + RunsBits(b.cl, b.runs, [], b.nlit + b.ndist)))))
    ensures ReadHeader(bits, p) == NoHeader
  {
    hide Lsb, Value, At, RunsOk, NotOverSubscribed, ClLens, ClBits, CodeLens, RunsBits, ExpandRuns;
    assert Pow2(4) == 16 && Pow2(5) == 32;
    var runs := RunsBits(b.cl, b.runs, [], b.nlit + b.ndist);
    var t3 := ClBits(b.cl, b.ncode) + runs;
    var t2 := Lsb(b.ncode - 4, 4) + t3;
    AtSplit(bits, p, Lsb(b.nlit - 257, 5), Lsb(b.ndist - 1, 5) + t2);
    AtSplit(bits, p + 5, Lsb(b.ndist - 1, 5), t2);
    AtSplit(bits, p + 10, Lsb(b.ncode - 4, 4), t3);
    AtSplit(bits, p + 14, ClBits(b.cl, b.ncode), runs);
    ReadsLsb(bits, p, b.nlit - 257, 5);
    ReadsLsb(bits, p + 5, b.ndist - 1, 5);
    ReadsLsb(bits, p + 10, b.ncode - 4, 4);
    ReadsWholeCl(bits, p + 14, b);
    ReadsRuns(b.cl, bits, p + 14 + 3 * b.ncode, b.runs, [], b.nlit + b.ndist);
  }
}
