/** The constants of RFC 1951 by their rules, and streams given by lengths and distances instead of symbols. */
module DeflateTables {
  import opened Bits
  import opened Huffman
  import opened Deflate
  import opened DeflateEncode
  import opened Inflate
  import opened InflateCorrect
  import opened Utf8

  /* ---- the tables of section 3.2.5 ---- */

  lemma Powers()
    ensures Pow2(0) == 1 && Pow2(1) == 2 && Pow2(2) == 4 && Pow2(3) == 8 && Pow2(4) == 16 && Pow2(5) == 32
    ensures Pow2(6) == 64 && Pow2(7) == 128 && Pow2(8) == 256 && Pow2(9) == 512 && Pow2(10) == 1024
    ensures Pow2(11) == 2048 && Pow2(12) == 4096 && Pow2(13) == 8192
  {
    assert Pow2(7) == 128;
    assert Pow2(10) == 1024;
  }

  /** Lengths 3 to 257 without a gap and without an overlap, in groups of four symbols with one more extra bit each; 258
      has a symbol of its own. */
  lemma LengthTable(k: nat)
    requires k < 29
    ensures LenBase(0) == 3 && LenBase(28) == 258 && LenExtra(28) == 0 && LenBase(27) + Pow2(LenExtra(27)) == 259
    ensures k < 28 ==> LenExtra(k) == (if k < 8 then 0 else k / 4 - 1)
    ensures k < 27 ==> LenBase(k + 1) == LenBase(k) + Pow2(LenExtra(k))
  {
    hide Pow2;
    Powers();
  }

  /** Distances 1 to 32768 in the same way, in groups of two. */
  lemma DistanceTable(k: nat)
    requires k < 30
    ensures DistBase(0) == 1 && DistBase(29) + Pow2(DistExtra(29)) == 32769
    ensures DistExtra(k) == (if k < 4 then 0 else k / 2 - 1)
    ensures k < 29 ==> DistBase(k + 1) == DistBase(k) + Pow2(DistExtra(k))
  {
    hide Pow2;
    Powers();
  }

  /** The order in which the lengths of the code length code are sent: the repeats, 0, and then those around 8, going
      outwards. */
  lemma CodeLengthOrder(j: nat)
    requires j < 19
    ensures CLORDER[j] == if j < 3 then 16 + j else if j == 3 then 0
                          else if j % 2 == 0 then 8 + (j - 4) / 2 else 7 - (j - 5) / 2
  {
  }

  /* ---- symbols of lengths and distances ---- */

  /** How many bits of m, a length less 3, follow its three leading ones. */
  function LenShift(m: nat): nat {
    if m < 8 then 0 else 1 + LenShift(m / 2)
  }

  /** How many bits of m, a distance less 1, follow its two leading ones. */
  function DistShift(m: nat): nat {
    if m < 4 then 0 else 1 + DistShift(m / 2)
  }

  lemma DivPow(m: nat, e: nat)
    ensures m / Pow2(e + 1) == m / 2 / Pow2(e)
  {
    var d := Pow2(e);
    var q := m / 2 / d;
    assert m / 2 == q * d + m / 2 % d && m == 2 * (m / 2) + m % 2;
    var r := 2 * (m / 2 % d) + m % 2;
    assert m == q * (2 * d) + r && 0 <= r < 2 * d;
    QuotientIs(m, 2 * d, q, r);
  }

  lemma QuotientIs(m: nat, d: nat, q: nat, r: nat)
    requires m == q * d + r && r < d
    ensures m / d == q
  {
    var q' := m / d;
    assert m == q' * d + m % d;
    if q' < q { Monotone(q' + 1, q, d); }
    if q < q' { Monotone(q + 1, q', d); }
  }

  lemma Monotone(a: nat, b: nat, d: nat)
    requires a <= b
    ensures a * d <= b * d
  {
  }

  lemma {:induction false} LeadingThree(m: nat, n: nat)
    requires m < 8 * Pow2(n)
    ensures LenShift(m) <= n && m / Pow2(LenShift(m)) < 8 && (m >= 4 ==> m / Pow2(LenShift(m)) >= 4)
    decreases n
  {
    if m >= 8 {
      LeadingThree(m / 2, n - 1);
      DivPow(m, LenShift(m / 2));
    }
  }

  lemma {:induction false} LeadingTwo(m: nat, n: nat)
    requires m < 4 * Pow2(n)
    ensures DistShift(m) <= n && m / Pow2(DistShift(m)) < 4 && (m >= 2 ==> m / Pow2(DistShift(m)) >= 2)
    decreases n
  {
    if m >= 4 {
      LeadingTwo(m / 2, n - 1);
      DivPow(m, DistShift(m / 2));
    }
  }

  /** The group of a symbol. */
  lemma LengthGroup(e: nat, q: nat)
    requires e <= 5 && q < 8 && (e > 0 ==> q >= 4)
    ensures LenExtra(4 * e + q) == e
  {
    hide LenExtra, LenBase, Pow2;
    LengthTable(4 * e + q);
  }

  lemma DistanceGroup(e: nat, q: nat)
    requires e <= 13 && q < 4 && (e > 0 ==> q >= 2)
    ensures DistExtra(2 * e + q) == e
  {
    hide DistExtra, DistBase, Pow2;
    DistanceTable(2 * e + q);
  }

  /** Its base. */
  lemma {:induction false} LengthRow(e: nat, q: nat)
    requires e <= 5 && q < 8 && (e > 0 ==> q >= 4)
    ensures LenBase(4 * e + q) == 3 + q * Pow2(e)
    decreases 4 * e + q
  {
    hide LenBase, LenExtra, Pow2;
    if e > 0 && q == 4 {
      LengthRow(e - 1, 7);
      LengthGroup(e - 1, 7);
      LengthTable(4 * e + 3);
      PowStep(e);
    } else if q > 0 {
      LengthRow(e, q - 1);
      LengthGroup(e, q - 1);
      LengthTable(4 * e + q - 1);
      OneMore(q - 1, Pow2(e));
    } else {
      LengthTable(0);
    }
  }

  lemma PowStep(e: nat)
    requires e > 0
    ensures Pow2(e) == 2 * Pow2(e - 1)
  {
  }

  lemma OneMore(q: nat, d: nat)
    ensures (q + 1) * d == q * d + d
  {
  }

  lemma {:induction false} DistanceRow(e: nat, q: nat)
    requires e <= 13 && q < 4 && (e > 0 ==> q >= 2)
    ensures DistBase(2 * e + q) == 1 + q * Pow2(e)
    decreases 2 * e + q
  {
    hide DistBase, DistExtra, Pow2;
    if e > 0 && q == 2 {
      DistanceRow(e - 1, 3);
      DistanceGroup(e - 1, 3);
      DistanceTable(2 * e + 1);
      PowStep(e);
    } else if q > 0 {
      DistanceRow(e, q - 1);
      DistanceGroup(e, q - 1);
      DistanceTable(2 * e + q - 1);
      OneMore(q - 1, Pow2(e));
    } else {
      DistanceTable(0);
    }
  }

  /* ---- streams given by lengths and distances ---- */

  /** A byte, or a copy of len bytes from dist back. */
  datatype Piece = One(b: Byte) | Match(len: nat, dist: nat)

  /** The item that stands for it: the leading bits choose the symbols, the others follow as they are. */
  function ItemOf(x: Piece): (i: Item)
    requires x.Match? ==> 3 <= x.len && 1 <= x.dist
  {
    match x
    case One(b) => Literal(b)
    case Match(len, dist) =>
      var e, f := LenShift(len - 3), DistShift(dist - 1);
      var lsym := if len == 258 then 28 else 4 * e + (len - 3) / Pow2(e);
      CopyItem(lsym, if len == 258 then 0 else (len - 3) % Pow2(e),
               2 * f + (dist - 1) / Pow2(f), (dist - 1) % Pow2(f))
  }

  lemma Parts(m: nat, d: nat)
    requires d > 0
    ensures m == m / d * d + m % d && m % d < d
  {
  }

  lemma LengthCoded(len: nat)
    requires 3 <= len <= 258
    ensures var i := ItemOf(Match(len, 1));
      i.lsym < 29 && i.lextra < Pow2(LenExtra(i.lsym)) && LenBase(i.lsym) + i.lextra == len
  {
    hide LenBase, LenExtra, Pow2, LenShift, DistShift;
    LengthTable(0);
    Powers();
    if len < 258 {
      var m, e := len - 3, LenShift(len - 3);
      LeadingThree(m, 5);
      LenShiftIs(m);
      var q := m / Pow2(e);
      Parts(m, Pow2(e));
      LengthRow(e, q);
      LengthGroup(e, q);
    }
  }

  lemma LenShiftIs(m: nat)
    ensures m < 8 <==> LenShift(m) == 0
    ensures m < 4 <==> DistShift(m) == 0
  {
  }

  lemma DistanceCoded(dist: nat)
    requires 1 <= dist <= 32768
    ensures var i := ItemOf(Match(3, dist));
      i.dsym < 30 && i.dextra < Pow2(DistExtra(i.dsym)) && DistBase(i.dsym) + i.dextra == dist
  {
    hide DistBase, DistExtra, Pow2, LenShift, DistShift;
    Powers();
    var m, e := dist - 1, DistShift(dist - 1);
    LeadingTwo(m, 13);
    LenShiftIs(m);
    var q := m / Pow2(e);
    Parts(m, Pow2(e));
    DistanceRow(e, q);
    DistanceGroup(e, q);
  }

  /** Every length from 3 to 258 and every distance from 1 to 32768 has symbols and extra bits that stand for it. */
  lemma EveryMatchCoded(len: nat, dist: nat)
    requires 3 <= len <= 258 && 1 <= dist <= 32768
    ensures var i := ItemOf(Match(len, dist));
      && i.lsym < 29 && i.lextra < Pow2(LenExtra(i.lsym)) && LengthOf(i) == len
      && i.dsym < 30 && i.dextra < Pow2(DistExtra(i.dsym)) && DistOf(i) == dist
  {
    hide LenBase, LenExtra, DistBase, DistExtra, Pow2;
    LengthCoded(len);
    DistanceCoded(dist);
  }

  /** The last dist bytes again and again. */
  function Repeated(out: seq<Byte>, len: nat, dist: nat): seq<Byte>
    requires 1 <= dist <= |out|
  {
    seq<Byte>(len, i requires 0 <= i < len => out[|out| - dist + i % dist])
  }

  lemma RepeatedStep(out: seq<Byte>, len: nat, dist: nat)
    requires 1 <= dist <= |out| && len > 0
    ensures var out1 := out + [out[|out| - dist]];
            out1 + Repeated(out1, len - 1, dist) == out + Repeated(out, len, dist)
  {
    var out1 := out + [out[|out| - dist]];
    var tail := Repeated(out1, len - 1, dist);
    forall i | 0 <= i < len ensures ([out[|out| - dist]] + tail)[i] == Repeated(out, len, dist)[i] {
      if i > 0 {
        NextInTurn(i - 1, dist);
        assert tail[i - 1] == out1[|out1| - dist + (i - 1) % dist];
      } else {
        assert 0 % dist == 0;
      }
    }
    assert [out[|out| - dist]] + tail == Repeated(out, len, dist);
    assert out1 + tail == out + ([out[|out| - dist]] + tail);
  }

  lemma {:induction false} CopyRepeats(out: seq<Byte>, dist: nat, len: nat)
    requires 1 <= dist <= |out|
    ensures CopyBack(out, dist, len) == out + Repeated(out, len, dist)
    decreases len
  {
    hide Repeated;
    if len > 0 {
      CopyRepeats(out + [out[|out| - dist]], dist, len - 1);
      RepeatedStep(out, len, dist);
    } else {
      NothingRepeated(out, dist);
    }
  }

  lemma NothingRepeated(out: seq<Byte>, dist: nat)
    requires 1 <= dist <= |out|
    ensures out + Repeated(out, 0, dist) == out
  {
  }

  lemma NextInTurn(i: nat, dist: nat)
    requires dist >= 1
    ensures (i + 1) % dist == if i % dist == dist - 1 then 0 else i % dist + 1
  {
    var q := i / dist;
    assert i == q * dist + i % dist;
    if i % dist == dist - 1 {
      QuotientIs(i + 1, dist, q + 1, 0);
    } else {
      QuotientIs(i + 1, dist, q, i % dist + 1);
    }
  }

  /** What the pieces stand for. */
  function Expand(x: Piece, out: seq<Byte>): seq<Byte>
    requires x.Match? ==> 1 <= x.dist <= |out|
  {
    match x
    case One(b) => out + [b]
    case Match(len, dist) => out + Repeated(out, len, dist)
  }

  /** A piece that can be written after out. */
  predicate PieceOk(x: Piece, out: seq<Byte>) {
    x.Match? ==> 3 <= x.len <= 258 && 1 <= x.dist <= 32768 && x.dist <= |out|
  }

  predicate PiecesOk(xs: seq<Piece>, out: seq<Byte>)
    decreases |xs|
  {
    |xs| == 0 || (PieceOk(xs[0], out) && PiecesOk(xs[1..], Expand(xs[0], out)))
  }

  function Expanded(xs: seq<Piece>, out: seq<Byte>): seq<Byte>
    requires PiecesOk(xs, out)
    decreases |xs|
  {
    if |xs| == 0 then out else Expanded(xs[1..], Expand(xs[0], out))
  }

  /** The two codes have one for each of its symbols. */
  predicate Coded(ll: seq<nat>, dl: seq<nat>, x: Piece) {
    match x
    case One(b) => b < |ll| && ll[b] > 0
    case Match(len, dist) =>
      3 <= len && 1 <= dist
      && (var i := ItemOf(x); 257 + i.lsym < |ll| && ll[257 + i.lsym] > 0 && i.dsym < |dl| && dl[i.dsym] > 0)
  }

  function ItemsOf(xs: seq<Piece>): (items: seq<Item>)
    requires forall k :: 0 <= k < |xs| && xs[k].Match? ==> 3 <= xs[k].len && 1 <= xs[k].dist
    ensures |items| == |xs|
    decreases |xs|
  {
    if |xs| == 0 then [] else [ItemOf(xs[0])] + ItemsOf(xs[1..])
  }

  lemma {:induction false} PiecesHaveItems(xs: seq<Piece>, out: seq<Byte>)
    requires PiecesOk(xs, out)
    ensures forall k :: 0 <= k < |xs| && xs[k].Match? ==> 3 <= xs[k].len && 1 <= xs[k].dist
    decreases |xs|
  {
    if |xs| > 0 { PiecesHaveItems(xs[1..], Expand(xs[0], out)); }
  }

  lemma PieceHasItem(ll: seq<nat>, dl: seq<nat>, x: Piece, out: seq<Byte>)
    requires PieceOk(x, out) && Coded(ll, dl, x)
    ensures ItemOk(ll, dl, ItemOf(x), out) && ExpandItem(ItemOf(x), out) == Expand(x, out)
  {
    hide LenBase, LenExtra, DistBase, DistExtra, Pow2, LenShift, DistShift, Repeated;
    if x.Match? {
      EveryMatchCoded(x.len, x.dist);
      CopyRepeats(out, x.dist, x.len);
    }
  }

  /** Under any two codes the items of the pieces can be written, and stand for what the pieces do. */
  lemma {:induction false} ItemsMean(ll: seq<nat>, dl: seq<nat>, xs: seq<Piece>, out: seq<Byte>)
    requires PiecesOk(xs, out) && forall k :: 0 <= k < |xs| ==> Coded(ll, dl, xs[k])
    ensures forall k :: 0 <= k < |xs| && xs[k].Match? ==> 3 <= xs[k].len && 1 <= xs[k].dist
    ensures ItemsOk(ll, dl, ItemsOf(xs), out) && ExpandItems(ll, dl, ItemsOf(xs), out) == Expanded(xs, out)
    decreases |xs|
  {
    hide Coded, ItemOk, ItemOf, Expand, ExpandItem;
    PiecesHaveItems(xs, out);
    if |xs| > 0 {
      PieceHasItem(ll, dl, xs[0], out);
      ItemsMean(ll, dl, xs[1..], Expand(xs[0], out));
      assert ItemsOf(xs)[0] == ItemOf(xs[0]) && ItemsOf(xs)[1..] == ItemsOf(xs[1..]);
    }
  }

  lemma {:induction false} FixedHasAll(xs: seq<Piece>, out: seq<Byte>)
    requires PiecesOk(xs, out)
    ensures forall k :: 0 <= k < |xs| ==> Coded(FixedLit(), FixedDist(), xs[k])
    decreases |xs|
  {
    hide LenBase, LenExtra, DistBase, DistExtra, Pow2, LenShift, DistShift, Repeated, ItemOf;
    if |xs| > 0 {
      if xs[0].Match? {
        EveryMatchCoded(xs[0].len, xs[0].dist);
        SameSymbols(xs[0].len, xs[0].dist);
      }
      FixedHasAll(xs[1..], Expand(xs[0], out));
    }
  }

  lemma SameSymbols(len: nat, dist: nat)
    requires len >= 3 && dist >= 1
    ensures ItemOf(Match(len, dist)).CopyItem?
  {
  }

  /** Written with the fixed codes, any pieces. */
  lemma FixedPieces(xs: seq<Piece>)
    requires PiecesOk(xs, [])
    ensures forall k :: 0 <= k < |xs| && xs[k].Match? ==> 3 <= xs[k].len && 1 <= xs[k].dist
    ensures var blocks := [FixedBlock(ItemsOf(xs))];
      StreamOk(blocks, 0, []) && StreamOut(blocks, 0, []) == Expanded(xs, [])
  {
    hide ItemsOf, Coded, Expanded, PiecesOk, CodesOk, StreamOk, StreamOut, ItemsOk, ExpandItems;
    FixedHasAll(xs, []);
    ItemsMean(FixedLit(), FixedDist(), xs, []);
    FixedOk();
    OneBlock(FixedBlock(ItemsOf(xs)));
  }

  /** And with the codes of any book that has one for every symbol needed. */
  lemma DynamicPieces(book: Codebook, xs: seq<Piece>)
    requires BookOk(book) && PiecesOk(xs, [])
    requires forall k :: 0 <= k < |xs| ==> Coded(LitLens(book), DistLens(book), xs[k])
    ensures forall k :: 0 <= k < |xs| && xs[k].Match? ==> 3 <= xs[k].len && 1 <= xs[k].dist
    ensures var blocks := [DynamicBlock(book, ItemsOf(xs))];
      StreamOk(blocks, 0, []) && StreamOut(blocks, 0, []) == Expanded(xs, [])
  {
    hide ItemsOf, Coded, Expanded, PiecesOk, LitLens, DistLens, BookOk, RunsOk, StreamOk, StreamOut, ItemsOk,
         ExpandItems;
    BookRuns(book);
    ItemsMean(LitLens(book), DistLens(book), xs, []);
    OneBlock(DynamicBlock(book, ItemsOf(xs)));
  }

  lemma BookRuns(book: Codebook)
    requires BookOk(book)
    ensures RunsOk(book.cl, book.runs, [], book.nlit + book.ndist)
  {
    hide CodesOk, Lengths, NotOverSubscribed;
  }

  lemma OneBlock(b: BlockOf)
    requires BlockOk(b, 0, [])
    ensures StreamOk([b], 0, []) && StreamOut([b], 0, []) == BlockOut(b, 0, [])
  {
    hide BlockOk, BlockOut, BlockBits;
  }

  /** The codes a block is written with. */
  datatype Scheme = FixedCodes | SentCodes(book: Codebook)

  ghost predicate SchemeOk(c: Scheme, xs: seq<Piece>) {
    && PiecesOk(xs, [])
    && (c.SentCodes? ==>
          BookOk(c.book) && forall k :: 0 <= k < |xs| ==> Coded(LitLens(c.book), DistLens(c.book), xs[k]))
  }

  /** The stream of one block that says the pieces. */
  ghost function Written(c: Scheme, xs: seq<Piece>): (blocks: seq<BlockOf>)
    requires SchemeOk(c, xs)
    ensures StreamOk(blocks, 0, []) && StreamOut(blocks, 0, []) == Expanded(xs, [])
  {
    hide ItemsOf, Coded, Expanded, PiecesOk, StreamOk, StreamOut, BookOk, LitLens, DistLens;
    PiecesHaveItems(xs, []);
    match c
    case FixedCodes =>
      FixedPieces(xs);
      [FixedBlock(ItemsOf(xs))]
    case SentCodes(book) =>
      DynamicPieces(book, xs);
      [DynamicBlock(book, ItemsOf(xs))]
  }

  /** inflate_raw sends what the lengths and distances say, whatever codes they are written with. */
  method InflatePieces(inp: seq<Byte>, put: nat -> int, ghost c: Scheme, ghost xs: seq<Piece>)
    returns (err: int, total: nat, sent: seq<Byte>)
    requires SchemeOk(c, xs) && At(BitsOf(inp), 0, StreamBits(Written(c, xs), 0, [])) && forall k :: put(k) >= 0
    ensures SchemeOk(c, xs) && err == 0 && sent == Expanded(xs, []) && total == |sent|
  {
    hide SchemeOk, Written, StreamOk, StreamOut, StreamBits, At, Expanded, BitsOf;
    err, total, sent := InflateEncoded(inp, put, Written(c, xs));
  }
}
