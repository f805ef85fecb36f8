/** What a deflate stream means (RFC 1951), as a function on its bits. */
module Deflate {
  import opened Bits
  import opened Huffman
  import opened Utf8

  /** n bits read as a number, the first one least significant. */
  function Value(bits: seq<Bit>, p: nat, n: nat): nat
    requires p + n <= |bits|
    decreases n
  {
    if n == 0 then 0 else bits[p] + 2 * Value(bits, p + 1, n - 1)
  }

  lemma {:induction false} ValueBound(bits: seq<Bit>, p: nat, n: nat)
    requires p + n <= |bits|
    ensures Value(bits, p, n) < Pow2(n)
    decreases n
  {
    if n > 0 { ValueBound(bits, p + 1, n - 1); }
  }

  const LBASE: seq<nat> := [3, 4, 5, 6, 7, 8, 9, 10, 11, 13, 15, 17, 19, 23, 27, 31,
    35, 43, 51, 59, 67, 83, 99, 115, 131, 163, 195, 227, 258]
  const LEXT: seq<nat> := [0, 0, 0, 0, 0, 0, 0, 0, 1, 1, 1, 1, 2, 2, 2, 2, 3, 3, 3, 3, 4, 4, 4, 4, 5, 5, 5, 5, 0]
  const DBASE: seq<nat> := [1, 2, 3, 4, 5, 7, 9, 13, 17, 25, 33, 49, 65, 97, 129,
    193, 257, 385, 513, 769, 1025, 1537, 2049, 3073, 4097, 6145, 8193, 12289, 16385, 24577]
  const DEXT: seq<nat> := [0, 0, 0, 0, 1, 1, 2, 2, 3, 3, 4, 4, 5, 5, 6, 6, 7, 7, 8, 8, 9, 9, 10, 10, 11, 11, 12, 12, 13,
                           13]
  const CLORDER: seq<nat> := [16, 17, 18, 0, 8, 7, 9, 6, 10, 5, 11, 4, 12, 3, 13, 2, 14, 1, 15]

  /** The base and the number of extra bits of each length and distance symbol. */
  function LenBase(k: nat): (b: nat)
    requires k < 29
    ensures b >= 3
  {
    LBASE[k]
  }

  function LenExtra(k: nat): nat
    requires k < 29
  {
    LEXT[k]
  }

  function DistBase(k: nat): (b: nat)
    requires k < 30
    ensures b >= 1
  {
    DBASE[k]
  }

  function DistExtra(k: nat): nat
    requires k < 30
  {
    DEXT[k]
  }

  const END_OF_BLOCK := 256
  const WINDOW := 32768

  /** The end of what was read, and all output so far; or the output when the stream turned out damaged. */
  datatype Result = Done(end: nat, out: seq<Byte>) | Failed(out: seq<Byte>)

  /** len bytes copied from dist back, which may overlap what is being written. */
  function CopyBack(out: seq<Byte>, dist: nat, len: nat): (r: seq<Byte>)
    requires 1 <= dist <= |out|
    ensures |r| == |out| + len && out <= r
    decreases len
  {
    if len == 0 then out else CopyBack(out + [out[|out| - dist]], dist, len - 1)
  }

  /** A length and distance read after a length symbol: the copy, or nothing if that is not possible. */
  datatype Match = Copy(len: nat, dist: nat, end: nat) | NoMatch

  ghost function ReadMatch(dl: seq<nat>, bits: seq<Bit>, p: nat, lsym: nat): (m: Match)
    ensures m.Copy? ==> p < m.end <= |bits| && m.dist >= 1
  {
    hide LenBase, LenExtra, DistBase, DistExtra, SymbolAt;
    if lsym >= 29 || p + LenExtra(lsym) > |bits| then NoMatch
    else
      var q := p + LenExtra(lsym);
      var d := SymbolAt(dl, bits, q);
      if d.NoSymbol? || d.sym >= 30 || d.end + DistExtra(d.sym) > |bits| then NoMatch
      else Copy(LenBase(lsym) + Value(bits, p, LenExtra(lsym)), DistBase(d.sym) + Value(bits, d.end, DistExtra(d.sym)),
                d.end + DistExtra(d.sym))
  }

  /** The compressed data of a block, up to its end-of-block code. */
  ghost function Codes(ll: seq<nat>, dl: seq<nat>, bits: seq<Bit>, p: nat, out: seq<Byte>): (r: Result)
    ensures r.Done? ==> p < r.end <= |bits|
    ensures out <= r.out
    decreases |bits| - p
  {
    var d := SymbolAt(ll, bits, p);
    if d.NoSymbol? then Failed(out)
    else if d.sym < 256 then Codes(ll, dl, bits, d.end, out + [d.sym])
    else if d.sym == END_OF_BLOCK then Done(d.end, out)
    else
      var m := ReadMatch(dl, bits, d.end, d.sym - 257);
      if m.NoMatch? || m.dist > |out| then Failed(out)
      else Codes(ll, dl, bits, m.end, CopyBack(out, m.dist, m.len))
  }

  /** One symbol of compressed data. */
  lemma CodesStep(ll: seq<nat>, dl: seq<nat>, bits: seq<Bit>, p: nat, out: seq<Byte>)
    ensures var d, r := SymbolAt(ll, bits, p), Codes(ll, dl, bits, p, out);
            if d.NoSymbol? then r == Failed(out)
            else if d.sym < 256 then r == Codes(ll, dl, bits, d.end, out + [d.sym])
            else if d.sym == END_OF_BLOCK then r == Done(d.end, out)
            else
              var m := ReadMatch(dl, bits, d.end, d.sym - 257);
              && (d.sym - 257 >= 29 ==> m.NoMatch?)
              && r == if m.NoMatch? || m.dist > |out| then Failed(out)
                      else Codes(ll, dl, bits, m.end, CopyBack(out, m.dist, m.len))
  {
    hide SymbolAt, CopyBack, Value, LenBase, LenExtra, DistBase, DistExtra;
  }

  /** The n bytes from bit p on. */
  function BytesAt(bits: seq<Bit>, p: nat, n: nat): (s: seq<Byte>)
    requires p + 8 * n <= |bits|
    ensures |s| == n
    decreases n
  {
    if n == 0 then []
    else
      ValueBound(bits, p, 8);
      assert Pow2(8) == 256;
      [Value(bits, p, 8)] + BytesAt(bits, p + 8, n - 1)
  }

  /** The next byte boundary. */
  function Aligned(p: nat): (q: nat)
    ensures p <= q < p + 8 && q % 8 == 0
  {
    p + (8 - p % 8) % 8
  }

  /** A stored block's length, its complement, and its bytes. */
  function Stored(bits: seq<Bit>, p: nat, out: seq<Byte>): (r: Result)
    ensures r.Done? ==> p < r.end <= |bits|
    ensures out <= r.out
  {
    var q := Aligned(p);
    if q + 32 > |bits| then Failed(out)
    else
      var len := Value(bits, q, 16);
      if len + Value(bits, q + 16, 16) != 0xffff || q + 32 + 8 * len > |bits| then Failed(out)
      else Done(q + 32 + 8 * len, out + BytesAt(bits, q + 32, len))
  }

  /** The lengths of the fixed codes. */
  function FixedLit(): (s: seq<nat>)
    ensures |s| == 288
    ensures forall i :: 0 <= i < 288 ==> s[i] == if i < 144 then 8 else if i < 256 then 9 else if i < 280 then 7 else 8
  {
    seq(288, i => if i < 144 then 8 else if i < 256 then 9 else if i < 280 then 7 else 8)
  }

  function FixedDist(): (s: seq<nat>)
    ensures |s| == 30 && forall i :: 0 <= i < 30 ==> s[i] == 5
  {
    seq(30, _ => 5)
  }

  /** The lengths of the code length code, as they are sent: ncode of them, in a set order. */
  function ClLens(bits: seq<Bit>, p: nat, ncode: nat, lens: seq<nat>): (r: seq<nat>)
    requires ncode <= 19 && p + 3 * ncode <= |bits| && |lens| == 19
    ensures |r| == 19
  {
    if ncode == 0 then lens
    else ClLens(bits, p, ncode - 1, lens)[CLORDER[ncode - 1] := Value(bits, p + 3 * (ncode - 1), 3)]
  }

  /** Code lengths read, and where they end. */
  datatype Lens = Lens(lens: seq<nat>, end: nat) | NoLens

  function Times(n: nat, v: nat): (s: seq<nat>)
    ensures |s| == n && forall i :: 0 <= i < n ==> s[i] == v
  {
    seq(n, _ => v)
  }

  /** How many extra bits a repeat symbol takes, and the least it repeats. */
  function RepBits(sym: nat): nat { if sym == 16 then 2 else if sym == 17 then 3 else 7 }
  function RepBase(sym: nat): nat { if sym == 18 then 11 else 3 }

  /** The code lengths of a dynamic block, total of them in all. */
  ghost function CodeLens(cl: seq<nat>, bits: seq<Bit>, p: nat, total: nat, acc: seq<nat>): (r: Lens)
    requires |acc| <= total
    ensures r.Lens? ==> |r.lens| == total && p <= r.end && (p <= |bits| ==> r.end <= |bits|)
    decreases total - |acc|
  {
    if |acc| == total then Lens(acc, p)
    else
      var d := SymbolAt(cl, bits, p);
      if d.NoSymbol? then NoLens
      else if d.sym < 16 then CodeLens(cl, bits, d.end, total, acc + [d.sym])
      else if (d.sym == 16 && |acc| == 0) || d.end + RepBits(d.sym) > |bits| then NoLens
      else
        var n := RepBase(d.sym) + Value(bits, d.end, RepBits(d.sym));
        if |acc| + n > total then NoLens
        else CodeLens(cl, bits, d.end + RepBits(d.sym), total,
                      acc + Times(n, if d.sym == 16 then acc[|acc| - 1] else 0))
  }

  /** The header of a dynamic block: its two codes, and where it ends. */
  datatype Header = Header(ll: seq<nat>, dl: seq<nat>, end: nat) | NoHeader

  ghost function ReadHeader(bits: seq<Bit>, p: nat): (h: Header)
    ensures h.Header? ==> p < h.end <= |bits| && 257 <= |h.ll| <= 286 && 1 <= |h.dl| <= 30
  {
    if p + 14 > |bits| then NoHeader
    else
      var nlit, ndist, ncode := Value(bits, p, 5) + 257, Value(bits, p + 5, 5) + 1, Value(bits, p + 10, 4) + 4;
      ValueBound(bits, p + 10, 4);
      assert Pow2(4) == 16;
      if nlit > 286 || ndist > 30 || p + 14 + 3 * ncode > |bits| then NoHeader
      else
        var r := CodeLens(ClLens(bits, p + 14, ncode, Times(19, 0)), bits, p + 14 + 3 * ncode, nlit + ndist, []);
        if r.NoLens? || r.lens[END_OF_BLOCK] == 0 then NoHeader
        else Header(r.lens[..nlit], r.lens[nlit..], r.end)
  }

  ghost function Dynamic(bits: seq<Bit>, p: nat, out: seq<Byte>): (r: Result)
    ensures r.Done? ==> p < r.end <= |bits|
    ensures out <= r.out
  {
    var h := ReadHeader(bits, p);
    if h.NoHeader? then Failed(out) else Codes(h.ll, h.dl, bits, h.end, out)
  }

  /** One block after its three header bits. */
  ghost function Block(bits: seq<Bit>, p: nat, kind: nat, out: seq<Byte>): (r: Result)
    ensures r.Done? ==> p < r.end <= |bits|
    ensures out <= r.out
  {
    if kind == 0 then Stored(bits, p, out)
    else if kind == 1 then Codes(FixedLit(), FixedDist(), bits, p, out)
    else if kind == 2 then Dynamic(bits, p, out)
    else Failed(out)
  }

  /** Blocks up to and including the one marked as the last. */
  ghost function Blocks(bits: seq<Bit>, p: nat, out: seq<Byte>): (r: Result)
    ensures r.Done? ==> p < r.end <= |bits|
    ensures out <= r.out
    decreases |bits| - p
  {
    if p + 3 > |bits| then Failed(out)
    else
      var r := Block(bits, p + 3, Value(bits, p + 1, 2), out);
      if r.Failed? || bits[p] == 1 then r else Blocks(bits, r.end, r.out)
  }
}
