/** The codes of RFC 1951 by their rules: canonical order (section 3.2.2), the fixed codes (section 3.2.6), and a stream
    bit by bit. */
module FixedCodes {
  import opened Bits
  import opened Huffman
  import opened Deflate
  import opened DeflateEncode
  import opened DeflateTables
  import opened Inflate
  import opened Utf8

  /* ---- canonical order ---- */

  /** Codes of one length follow each other in the order of their symbols. */
  lemma CodesFollow(lens: seq<nat>, i: nat, j: nat)
    requires i < j < |lens| && lens[i] == lens[j] && forall k :: i < k < j ==> lens[k] != lens[i]
    ensures Code(lens, j) == Code(lens, i) + 1
  {
    NoneBetween(lens, lens[i], i + 1, j);
  }

  lemma {:induction false} NoneBetween(lens: seq<nat>, l: nat, m: nat, n: nat)
    requires m <= n <= |lens| && forall k :: m <= k < n ==> lens[k] != l
    ensures CountLen(lens, l, n) == CountLen(lens, l, m)
    decreases n
  {
    if m < n { NoneBetween(lens, l, m, n - 1); }
  }

  /** The first code of a length is the one after the last that is one bit shorter, with a zero behind it; the shortest
      codes begin with 0. */
  lemma FirstCode(lens: seq<nat>, i: nat, j: nat)
    requires i < |lens| && j < |lens| && lens[j] == lens[i] + 1 && lens[i] > 0
    requires (forall k :: i < k < |lens| ==> lens[k] != lens[i]) && forall k :: 0 <= k < j ==> lens[k] != lens[j]
    ensures Code(lens, j) == 2 * (Code(lens, i) + 1)
  {
    NoneBetween(lens, lens[i], i + 1, |lens|);
    NoneBetween(lens, lens[j], 0, j);
  }

  lemma ShortestCode(lens: seq<nat>, i: nat)
    requires i < |lens| && lens[i] > 0 && (forall k :: 0 <= k < i ==> lens[k] != lens[i])
    requires forall k :: 0 <= k < |lens| ==> lens[k] == 0 || lens[k] >= lens[i]
    ensures Code(lens, i) == 0
  {
    NoneBetween(lens, lens[i], 0, i);
    NoneShorter(lens, lens[i]);
  }

  lemma {:induction false} NoneShorter(lens: seq<nat>, l: nat)
    requires forall k :: 0 <= k < |lens| ==> lens[k] == 0 || lens[k] >= l
    ensures NextCode(lens, l) == 0
  {
    if l > 1 {
      NoneShorter(lens, l - 1);
      NoneBetween(lens, l - 1, 0, |lens|);
    }
  }

  /* ---- the fixed codes ---- */

  lemma FixedNext()
    ensures NextCode(FixedLit(), 7) == 0 && NextCode(FixedLit(), 8) == 48 && NextCode(FixedLit(), 9) == 400
    ensures NextCode(FixedDist(), 5) == 0
  {
    hide CountLen, FixedLit, FixedDist;
    var f := FixedLit();
    forall l ensures Count(f, l) == if l == 7 then 24 else if l == 8 then 152 else if l == 9 then 112 else 0 {
      FixedCounts(l, 288);
    }
    NoneShorter(f, 7);
    NoneShorter(FixedDist(), 5);
  }

  /** The table of section 3.2.6: 00110000 to 10111111, 110010000 to 111111111, 0000000 to 0010111 and 11000000 to
      11000111. */
  lemma FixedCode(s: nat)
    requires s < 288
    ensures FixedLit()[s] == (if s < 144 then 8 else if s < 256 then 9 else if s < 280 then 7 else 8)
    ensures Code(FixedLit(), s)
            == if s < 144 then 0x30 + s else if s < 256 then 0x190 + (s - 144) else if s < 280 then s - 256
               else 0xC0 + (s - 280)
  {
    hide FixedLit;
    FixedNext();
    FixedCounts(FixedLit()[s], s);
  }

  lemma FixedDistCode(d: nat)
    requires d < 30
    ensures FixedDist()[d] == 5 && Code(FixedDist(), d) == d
  {
    FixedNext();
    FixedDistCounts(5, d);
  }

  /** And longer codes come after shorter ones: the bits they begin with are beyond them. */
  lemma LongerBeyond(lens: seq<nat>, i: nat, j: nat)
    requires i < |lens| && j < |lens| && 0 < lens[i] < lens[j]
    ensures Shr(Code(lens, j), lens[j] - lens[i]) > Code(lens, i)
  {
    PrefixAbove(lens, Code(lens, j), lens[j], lens[i]);
    CountMonotone(lens, lens[i], i, |lens|);
  }

  /* ---- a stream ---- */

  const AB: seq<Piece> := [One(0x61), One(0x62), One(0x61), Match(5, 2)]

  /** A stream for "abababab": the last block, with the fixed codes; the bytes 97, 98 and 97, five from two back,
      and the end. */
  const AB_BYTES: seq<Byte> := [0x4B, 0x4C, 0x4A, 0x04, 0x43, 0x00]
  const A_CODE: seq<Bit> := [1, 0, 0, 1, 0, 0, 0, 1]
  const B_CODE: seq<Bit> := [1, 0, 0, 1, 0, 0, 1, 0]
  const FIVE: seq<Bit> := [0, 0, 0, 0, 0, 1, 1]
  const TWO_BACK: seq<Bit> := [0, 0, 0, 0, 1]
  const END: seq<Bit> := [0, 0, 0, 0, 0, 0, 0]

  lemma Shifts(n: nat)
    ensures Shr(n, 0) == n && Shr(n, 1) == n / 2 && Shr(n, 2) == n / 2 / 2 && Shr(n, 3) == n / 2 / 2 / 2
    ensures Shr(n, 4) == n / 2 / 2 / 2 / 2 && Shr(n, 5) == n / 2 / 2 / 2 / 2 / 2
    ensures Shr(n, 6) == n / 2 / 2 / 2 / 2 / 2 / 2 && Shr(n, 7) == n / 2 / 2 / 2 / 2 / 2 / 2 / 2
  {
    assert Shr(n, 1) == n / 2;
    assert Shr(n, 2) == n / 2 / 2;
    assert Shr(n, 3) == n / 2 / 2 / 2;
    assert Shr(n, 4) == n / 2 / 2 / 2 / 2;
    assert Shr(n, 5) == n / 2 / 2 / 2 / 2 / 2;
    assert Shr(n, 6) == n / 2 / 2 / 2 / 2 / 2 / 2;
  }

  lemma CodeOfA()
    ensures CodeBits(0x91, 8) == A_CODE
  {
    hide Shr;
    Shifts(0x91);
  }

  lemma CodeOfB()
    ensures CodeBits(0x92, 8) == B_CODE
  {
    hide Shr;
    Shifts(0x92);
  }

  lemma MatchCodes()
    ensures CodeBits(3, 7) == FIVE && CodeBits(1, 5) == TWO_BACK && CodeBits(0, 7) == END
  {
    hide Shr;
    Shifts(3);
    Shifts(1);
    Shifts(0);
  }

  lemma Symbols()
    ensures SymBits(FixedLit(), 97) == A_CODE && SymBits(FixedLit(), 98) == B_CODE && SymBits(FixedLit(), 256) == END
    ensures SymBits(FixedLit(), 259) == FIVE && SymBits(FixedDist(), 1) == TWO_BACK
  {
    hide Code, CodeBits, FixedLit, FixedDist;
    FixedCode(97);
    FixedCode(98);
    FixedCode(256);
    FixedCode(259);
    FixedDistCode(1);
    CodeOfA();
    CodeOfB();
    MatchCodes();
  }

  /** The eight bits of a byte of a stream, the least significant first. */
  lemma ByteOfStream(inp: seq<Byte>, j: nat)
    requires j < |inp|
    ensures var b, n: nat := BitsOf(inp), inp[j];
      b[8 * j..8 * j + 8] == [n % 2, n / 2 % 2, n / 2 / 2 % 2, n / 2 / 2 / 2 % 2, n / 2 / 2 / 2 / 2 % 2,
                              n / 2 / 2 / 2 / 2 / 2 % 2, n / 2 / 2 / 2 / 2 / 2 / 2 % 2,
                              n / 2 / 2 / 2 / 2 / 2 / 2 / 2 % 2]
  {
    hide Shr;
    Shifts(inp[j]);
    forall i | 0 <= i < 8 ensures BitsOf(inp)[8 * j + i] == Shr(inp[j], i) % 2 {
      assert (8 * j + i) / 8 == j && (8 * j + i) % 8 == i;
    }
  }

  lemma AtJoin(bits: seq<Bit>, p: nat, a: seq<Bit>, b: seq<Bit>)
    requires At(bits, p, a) && At(bits, p + |a|, b)
    ensures At(bits, p, a + b)
  {
    assert bits[p..p + |a + b|] == bits[p..p + |a|] + bits[p + |a|..p + |a| + |b|];
  }

  lemma AbFirstBytes()
    ensures var b := BitsOf(AB_BYTES);
      b[0..8] == [1, 1, 0, 1, 0, 0, 1, 0] && b[8..16] == [0, 0, 1, 1, 0, 0, 1, 0]
  {
    hide BitsOf;
    AbFirstByte();
    ByteOfStream(AB_BYTES, 1);
  }

  lemma AbFirstByte()
    ensures BitsOf(AB_BYTES)[0..8] == [1, 1, 0, 1, 0, 0, 1, 0]
  {
    hide BitsOf;
    ByteOfStream(AB_BYTES, 0);
  }

  lemma AbMiddleBytes()
    ensures var b := BitsOf(AB_BYTES);
      b[16..24] == [0, 1, 0, 1, 0, 0, 1, 0] && b[24..32] == [0, 0, 1, 0, 0, 0, 0, 0]
  {
    hide BitsOf;
    ByteOfStream(AB_BYTES, 2);
    ByteOfStream(AB_BYTES, 3);
  }

  lemma AbLastBytes()
    ensures var b := BitsOf(AB_BYTES);
      b[32..40] == [1, 1, 0, 0, 0, 0, 1, 0] && b[40..48] == [0, 0, 0, 0, 0, 0, 0, 0]
  {
    hide BitsOf;
    ByteOfStream(AB_BYTES, 4);
    ByteOfStream(AB_BYTES, 5);
  }

  lemma AbFront()
    ensures var b := BitsOf(AB_BYTES);
      At(b, 0, [1]) && At(b, 1, [1, 0]) && At(b, 3, A_CODE) && At(b, 11, B_CODE) && At(b, 19, A_CODE)
  {
    hide BitsOf;
    var b := BitsOf(AB_BYTES);
    AbFirstBytes();
    AbMiddleBytes();
    Within(b, 0, 0, 1);
    Within(b, 0, 1, 2);
    Across(b, 0, 3);
    Across(b, 8, 3);
    Across(b, 16, 3);
  }

  lemma AbBack()
    ensures var b := BitsOf(AB_BYTES); At(b, 27, FIVE) && At(b, 34, TWO_BACK) && At(b, 39, END)
  {
    hide BitsOf;
    var b := BitsOf(AB_BYTES);
    AbMiddleBytes();
    AbLastBytes();
    Across(b, 24, 3);
    Across(b, 32, 7);
    Within(b, 32, 2, 5);
    assert b[27..34] == b[27..35][..7] == FIVE;
    assert b[34..39] == TWO_BACK;
    assert b[39..46] == b[39..47][..7] == END;
  }

  lemma Within(b: seq<Bit>, at: nat, k: nat, n: nat)
    requires at + 8 <= |b| && k + n <= 8
    ensures b[at + k..at + k + n] == b[at..at + 8][k..k + n]
  {
    var x, y := b[at + k..at + k + n], b[at..at + 8][k..k + n];
    assert |x| == |y| && forall i :: 0 <= i < n ==> x[i] == y[i];
  }

  /** Bits k to k + 8 where two bytes meet. */
  lemma Across(b: seq<Bit>, at: nat, k: nat)
    requires at + 16 <= |b| && k <= 8
    ensures b[at + k..at + k + 8] == b[at..at + 8][k..] + b[at + 8..at + 16][..k]
  {
  }

  lemma AbPieces()
    ensures PiecesOk(AB, []) && Expanded(AB, []) == [0x61, 0x62, 0x61, 0x62, 0x61, 0x62, 0x61, 0x62]
    ensures SchemeOk(FixedCodes, AB)
  {
    var out := [0x61, 0x62, 0x61];
    assert Repeated(out, 5, 2) == [0x62, 0x61, 0x62, 0x61, 0x62];
    assert AB[1..] == [One(0x62), One(0x61), Match(5, 2)] && AB[1..][1..] == [One(0x61), Match(5, 2)];
    assert AB[1..][1..][1..] == [Match(5, 2)] && [Match(5, 2)][1..] == [];
    assert [0x61, 0x62] + [0x61] == out;
  }

  lemma AbItems()
    requires SchemeOk(FixedCodes, AB)
    ensures Written(FixedCodes, AB) == [FixedBlock([Literal(97), Literal(98), Literal(97), CopyItem(2, 0, 1, 0)])]
  {
    hide StreamOk, StreamOut, Expanded, SchemeOk;
    assert AB[1..] == [One(0x62), One(0x61), Match(5, 2)] && AB[1..][1..] == [One(0x61), Match(5, 2)];
    assert AB[1..][1..][1..] == [Match(5, 2)] && [Match(5, 2)][1..] == [];
    assert ItemOf(Match(5, 2)) == CopyItem(2, 0, 1, 0) by { assert Pow2(0) == 1; }
    assert ItemsOf([Match(5, 2)]) == [CopyItem(2, 0, 1, 0)];
    assert ItemsOf([One(0x61), Match(5, 2)]) == [Literal(97), CopyItem(2, 0, 1, 0)];
    assert ItemsOf(AB[1..]) == [Literal(98), Literal(97), CopyItem(2, 0, 1, 0)];
    assert ItemsOf(AB) == [Literal(97), Literal(98), Literal(97), CopyItem(2, 0, 1, 0)];
    assert Written(FixedCodes, AB) == [FixedBlock(ItemsOf(AB))];
  }

  /** Its compressed data as the encoder writes it. */
  lemma AbWritten()
    requires SchemeOk(FixedCodes, AB)
    ensures StreamBits(Written(FixedCodes, AB), 0, [])
            == [1] + ([1, 0] + ((A_CODE + (B_CODE + (A_CODE + ((FIVE + ([] + (TWO_BACK + []))) + END))))))
  {
    hide SchemeOk, Expanded, SymBits, Written, FixedLit, FixedDist, CodesOk, ItemOk, ExpandItem, StreamOk, StreamOut;
    AbItems();
    Symbols();
    var items := [Literal(97), Literal(98), Literal(97), CopyItem(2, 0, 1, 0)];
    var b := FixedBlock(items);
    assert StreamOk([b], 0, []);
    OneWritten(b);
    assert Lsb(1, 1) == [1] by { assert Lsb(0, 0) == []; }
    assert Lsb(1, 2) == [1, 0] by { assert Lsb(0, 1) == [0]; }
    AbItemsBits(items);
  }

  lemma OneWritten(b: BlockOf)
    requires StreamOk([b], 0, [])
    ensures BlockOk(b, 0, []) && StreamBits([b], 0, []) == Lsb(1, 1) + (Lsb(Kind(b), 2) + BlockBody(b, 0, []))
  {
    hide BlockOk, BlockBody, BlockOut, Lsb;
  }

  lemma AbItemsBits(items: seq<Item>)
    requires items == [Literal(97), Literal(98), Literal(97), CopyItem(2, 0, 1, 0)]
    requires CodesOk(FixedLit(), FixedDist()) && ItemsOk(FixedLit(), FixedDist(), items, [])
    ensures ItemsBits(FixedLit(), FixedDist(), items, [])
            == A_CODE + (B_CODE + (A_CODE + ((FIVE + ([] + (TWO_BACK + []))) + END)))
  {
    hide CodesOk, SymBits, FixedLit, FixedDist, ItemsBits, ItemsOk, ItemBits;
    var ll, dl := FixedLit(), FixedDist();
    assert items[1..][1..] == items[2..] && items[2..][1..] == items[3..] && items[3..][1..] == [];
    var o1 := NextItem(ll, dl, items, []);
    var o2 := NextItem(ll, dl, items[1..], o1);
    var o3 := NextItem(ll, dl, items[2..], o2);
    var o4 := NextItem(ll, dl, items[3..], o3);
    NoItem(ll, dl, o4);
    AbItemBits();
  }

  lemma AbItemBits()
    ensures ItemBits(FixedLit(), FixedDist(), Literal(97)) == A_CODE
    ensures ItemBits(FixedLit(), FixedDist(), Literal(98)) == B_CODE
    ensures ItemBits(FixedLit(), FixedDist(), CopyItem(2, 0, 1, 0)) == FIVE + ([] + (TWO_BACK + []))
    ensures SymBits(FixedLit(), 256) == END
  {
    hide SymBits, Lsb, LenExtra, DistExtra, FixedLit, FixedDist;
    Symbols();
    NoExtraBits();
  }

  lemma NoExtraBits()
    ensures LenExtra(2) == 0 && DistExtra(1) == 0 && Lsb(0, 0) == []
  {
  }

  lemma NextItem(ll: seq<nat>, dl: seq<nat>, items: seq<Item>, out: seq<Byte>) returns (out1: seq<Byte>)
    requires CodesOk(ll, dl) && |items| > 0 && ItemsOk(ll, dl, items, out)
    ensures ItemOk(ll, dl, items[0], out) && ItemsOk(ll, dl, items[1..], out1)
    ensures ItemsBits(ll, dl, items, out) == ItemBits(ll, dl, items[0]) + ItemsBits(ll, dl, items[1..], out1)
  {
    hide CodesOk, ExpandItem, ItemBits;
    out1 := ExpandItem(items[0], out);
  }

  lemma NoItem(ll: seq<nat>, dl: seq<nat>, out: seq<Byte>)
    requires CodesOk(ll, dl)
    ensures ItemsOk(ll, dl, [], out) && ItemsBits(ll, dl, [], out) == SymBits(ll, 256)
  {
    hide CodesOk, SymBits;
  }

  /** "abababab" is read from these six bytes. */
  lemma AbIsRead()
    ensures Blocks(BitsOf(AB_BYTES), 0, []) == Done(46, [0x61, 0x62, 0x61, 0x62, 0x61, 0x62, 0x61, 0x62])
  {
    hide Blocks, BitsOf, SchemeOk, Written, Expanded, At, StreamBits, StreamOk, StreamOut;
    var b := BitsOf(AB_BYTES);
    AbPieces();
    AbWritten();
    AbFront();
    AbBack();
    AtNothing(b, 39);
    AtNothing(b, 34);
    AtJoin(b, 34, TWO_BACK, []);
    AtJoin(b, 34, [], TWO_BACK + []);
    AtJoin(b, 27, FIVE, [] + (TWO_BACK + []));
    AtJoin(b, 27, FIVE + ([] + (TWO_BACK + [])), END);
    AtJoin(b, 19, A_CODE, (FIVE + ([] + (TWO_BACK + []))) + END);
    AtJoin(b, 11, B_CODE, A_CODE + ((FIVE + ([] + (TWO_BACK + []))) + END));
    AtJoin(b, 3, A_CODE, B_CODE + (A_CODE + ((FIVE + ([] + (TWO_BACK + []))) + END)));
    AtJoin(b, 1, [1, 0], A_CODE + (B_CODE + (A_CODE + ((FIVE + ([] + (TWO_BACK + []))) + END))));
    AtJoin(b, 0, [1], [1, 0] + (A_CODE + (B_CODE + (A_CODE + ((FIVE + ([] + (TWO_BACK + []))) + END)))));
    ReadsStream(b, Written(FixedCodes, AB), 0, []);
  }

  lemma AtNothing(b: seq<Bit>, p: nat)
    requires p <= |b|
    ensures At(b, p, [])
  {
  }
}
