/** Canonical Huffman codes (section 3.2.2 of RFC 1951) and the bit-by-bit decoder of mc/mc.c. */
module Huffman {
  import opened Bits
  type Bit = n: nat | n < 2

  const MAX_BITS := 15

  /** Code lengths, 0 for a symbol that has no code. */
  ghost predicate Lengths(lens: seq<nat>) {
    |lens| <= 288 && forall i :: 0 <= i < |lens| ==> lens[i] <= MAX_BITS
  }

  /** How many of the first n symbols have length l. */
  function CountLen(lens: seq<nat>, l: nat, n: nat): (c: nat)
    requires n <= |lens|
    ensures c <= n
  {
    if n == 0 then 0 else CountLen(lens, l, n - 1) + (if lens[n - 1] == l then 1 else 0)
  }

  /** How many symbols have length l: bl_count of the RFC. */
  function Count(lens: seq<nat>, l: nat): nat {
    CountLen(lens, l, |lens|)
  }

  /** The smallest code of length l: next_code of the RFC. */
  function NextCode(lens: seq<nat>, l: nat): nat {
    if l <= 1 then 0 else 2 * (NextCode(lens, l - 1) + Count(lens, l - 1))
  }

  /** How many symbols have a code shorter than l. */
  function Offset(lens: seq<nat>, l: nat): nat {
    if l <= 1 then 0 else Offset(lens, l - 1) + Count(lens, l - 1)
  }

  /** The canonical code of symbol i. */
  function Code(lens: seq<nat>, i: nat): nat
    requires i < |lens|
  {
    NextCode(lens, lens[i]) + CountLen(lens, lens[i], i)
  }

  /** Where symbol i stands among all, by length and then by value. */
  function Place(lens: seq<nat>, i: nat): nat
    requires i < |lens|
  {
    Offset(lens, lens[i]) + CountLen(lens, lens[i], i)
  }

  /** A code's bits, most significant first. */
  function CodeBits(code: nat, len: nat): (b: seq<Bit>)
    ensures |b| == len
    ensures forall k :: 0 <= k < len ==> b[k] == Shr(code, len - 1 - k) % 2
  {
    seq(len, k requires 0 <= k < len => Shr(code, len - 1 - k) % 2)
  }

  /* ---- decoding tables ---- */

  /** struct huff. */
  datatype Huff = Huff(count: seq<nat>, sym: seq<nat>)

  /** h is the decoding table of the code with these lengths. */
  ghost predicate IsTable(h: Huff, lens: seq<nat>) {
    && Lengths(lens) && |h.count| == 16 && |h.sym| == 288 && h.count[0] == 0
    && (forall l :: 1 <= l <= MAX_BITS ==> h.count[l] == Count(lens, l))
    && (forall i :: 0 <= i < |lens| && lens[i] > 0 ==> Place(lens, i) < |h.sym| && h.sym[Place(lens, i)] == i)
  }

  lemma {:induction false} CountMonotone(lens: seq<nat>, l: nat, m: nat, n: nat)
    requires m <= n <= |lens|
    ensures CountLen(lens, l, m) <= CountLen(lens, l, n)
    ensures m < n && lens[m] == l ==> CountLen(lens, l, m) < CountLen(lens, l, n)
    decreases n
  {
    if m < n { CountMonotone(lens, l, m, n - 1); }
  }

  lemma {:induction false} OffsetMonotone(lens: seq<nat>, k: nat, l: nat)
    requires 1 <= k < l
    ensures Offset(lens, k) + Count(lens, k) <= Offset(lens, l)
    decreases l
  {
    if k < l - 1 { OffsetMonotone(lens, k, l - 1); }
  }

  /** Two symbols with a code stand in different places. */
  lemma PlacesDiffer(lens: seq<nat>, i: nat, j: nat)
    requires i < j < |lens| && lens[i] > 0 && lens[j] > 0
    ensures Place(lens, i) != Place(lens, j)
  {
    CountMonotone(lens, lens[i], i, j);
    CountMonotone(lens, lens[i], i, |lens|);
    CountMonotone(lens, lens[j], j, |lens|);
    if lens[i] < lens[j] { OffsetMonotone(lens, lens[i], lens[j]); }
    if lens[j] < lens[i] { OffsetMonotone(lens, lens[j], lens[i]); }
  }

  /** How many of the first n symbols have a code of length 1 to l - 1. */
  ghost function CodedBelow(lens: seq<nat>, l: nat, n: nat): (c: nat)
    requires n <= |lens|
    ensures c <= n
  {
    if n == 0 then 0 else CodedBelow(lens, l, n - 1) + (if 1 <= lens[n - 1] < l then 1 else 0)
  }

  lemma {:induction false} CodedBelowStep(lens: seq<nat>, l: nat, n: nat)
    requires n <= |lens| && l >= 1
    ensures CodedBelow(lens, l + 1, n) == CodedBelow(lens, l, n) + CountLen(lens, l, n)
  {
    if n > 0 { CodedBelowStep(lens, l, n - 1); }
  }

  lemma {:induction false} NoneBelowOne(lens: seq<nat>, l: nat, n: nat)
    requires n <= |lens| && l <= 1
    ensures CodedBelow(lens, l, n) == 0
  {
    if n > 0 { NoneBelowOne(lens, l, n - 1); }
  }

  /** The offset of a length is the number of shorter codes, so places stay inside the table. */
  lemma {:induction false} OffsetCounts(lens: seq<nat>, l: nat)
    ensures Offset(lens, l) == CodedBelow(lens, l, |lens|) <= |lens|
  {
    if l <= 1 {
      NoneBelowOne(lens, l, |lens|);
    } else {
      OffsetCounts(lens, l - 1);
      CodedBelowStep(lens, l - 1, |lens|);
    }
  }

  lemma PlaceInside(lens: seq<nat>, i: nat)
    requires i < |lens| && lens[i] > 0
    ensures Place(lens, i) < |lens|
  {
    CountMonotone(lens, lens[i], i, |lens|);
    OffsetCounts(lens, lens[i] + 1);
  }

  /** huff_build: the symbols counted by length, and put in their places. */
  method HuffBuild(lens: seq<nat>) returns (h: Huff)
    requires Lengths(lens)
    ensures IsTable(h, lens)
  {
    hide CountLen, Offset;
    var count := CountLengths(lens);
    var sym := new nat[288](_ => 0);
    count[0] := 0;
    var offs := Offsets(lens, count);
    FillSymbols(lens, offs, sym);
    h := Huff(count[..], sym[..]);
  }

  method Offsets(lens: seq<nat>, count: array<nat>) returns (offs: array<nat>)
    requires count.Length == 16 && forall l :: 1 <= l < 16 ==> count[l] == Count(lens, l)
    ensures fresh(offs) && offs.Length == 16 && forall k :: 1 <= k < 16 ==> offs[k] == Offset(lens, k)
  {
    hide Offset, Count;
    offs := new nat[16](_ => 0);
    offs[1] := 0;
    OffsetOne(lens);
    for l := 1 to 15
      invariant forall k :: 1 <= k <= l ==> offs[k] == Offset(lens, k)
    {
      OffsetStep(lens, l);
      offs[l + 1] := offs[l] + count[l];
    }
  }

  method CountLengths(lens: seq<nat>) returns (count: array<nat>)
    requires Lengths(lens)
    ensures fresh(count) && count.Length == 16
    ensures forall l :: 0 <= l < 16 ==> count[l] == Count(lens, l)
  {
    hide CountLen;
    count := new nat[16](_ => 0);
    forall k ensures CountLen(lens, k, 0) == 0 { CountNone(lens, k); }
    for i := 0 to |lens|
      invariant forall l :: 0 <= l < 16 ==> count[l] == CountLen(lens, l, i)
    {
      forall k ensures CountLen(lens, k, i + 1) == CountLen(lens, k, i) + (if lens[i] == k then 1 else 0) {
        CountStep(lens, k, i);
      }
      count[lens[i]] := count[lens[i]] + 1;
    }
  }

  method FillSymbols(lens: seq<nat>, offs: array<nat>, sym: array<nat>)
    requires Lengths(lens) && offs.Length == 16 && sym.Length == 288 && offs != sym
    requires forall k :: 1 <= k < 16 ==> offs[k] == Offset(lens, k)
    modifies offs, sym
    ensures forall i :: 0 <= i < |lens| && lens[i] > 0 ==> Place(lens, i) < sym.Length && sym[Place(lens, i)] == i
  {
    hide Offset, CountLen;
    forall k | 1 <= k < 16 ensures CountLen(lens, k, 0) == 0 { CountNone(lens, k); }
    for i := 0 to |lens|
      invariant forall k :: 1 <= k < 16 ==> offs[k] == Offset(lens, k) + CountLen(lens, k, i)
      invariant forall j :: 0 <= j < i && lens[j] > 0 ==> Place(lens, j) < sym.Length && sym[Place(lens, j)] == j
    {
      forall k ensures CountLen(lens, k, i + 1) == CountLen(lens, k, i) + (if lens[i] == k then 1 else 0) {
        CountStep(lens, k, i);
      }
      if lens[i] > 0 {
        PlaceInside(lens, i);
        forall j | 0 <= j < i && lens[j] > 0 ensures Place(lens, j) != Place(lens, i) { PlacesDiffer(lens, j, i); }
        sym[offs[lens[i]]] := i;
        offs[lens[i]] := offs[lens[i]] + 1;
      }
    }
  }

  lemma CountNone(lens: seq<nat>, l: nat)
    ensures CountLen(lens, l, 0) == 0
  {
  }

  lemma CountStep(lens: seq<nat>, l: nat, i: nat)
    requires i < |lens|
    ensures CountLen(lens, l, i + 1) == CountLen(lens, l, i) + (if lens[i] == l then 1 else 0)
  {
  }

  /* ---- decoding ---- */

  /** A symbol and where its code ends, or no symbol: the bits ran out, or no code matched. */
  datatype Decoded = Symbol(sym: nat, end: nat) | NoSymbol

  /** huff_decode's loop, from length len on; code and first are shifted for the bit at p. */
  function DecodeFrom(h: Huff, bits: seq<Bit>, p: nat, len: nat, code: nat, first: nat, index: nat): (d: Decoded)
    requires |h.count| == 16 && |h.sym| == 288 && 1 <= len <= 16 && first <= code
    ensures d.Symbol? ==> p < d.end <= |bits| && d.end <= p + 16 - len
    decreases 16 - len
  {
    if len == 16 || p >= |bits| then NoSymbol
    else
      var c := code + bits[p];
      var n := h.count[len];
      if c < first + n then
        Symbol(if index + (c - first) < |h.sym| then h.sym[index + (c - first)] else 0, p + 1)
      else DecodeFrom(h, bits, p + 1, len + 1, 2 * c, 2 * (first + n), index + n)
  }

  function Decode(h: Huff, bits: seq<Bit>, p: nat): (d: Decoded)
    requires |h.count| == 16 && |h.sym| == 288
    ensures d.Symbol? ==> p < d.end <= |bits| && d.end <= p + MAX_BITS
  {
    DecodeFrom(h, bits, p, 1, 0, 0, 0)
  }

  /** At every length, whatever the lengths are: the index is inside the table. */
  lemma IndexInside(h: Huff, lens: seq<nat>, len: nat, rank: nat)
    requires IsTable(h, lens) && 1 <= len < 16 && rank < h.count[len]
    ensures Offset(lens, len) + rank < |lens|
  {
    OffsetCounts(lens, len + 1);
  }

  /** The symbol of length l with a given rank. */
  lemma {:induction false} Nth(lens: seq<nat>, l: nat, rank: nat, n: nat) returns (i: nat)
    requires n <= |lens| && rank < CountLen(lens, l, n)
    ensures i < n && lens[i] == l && CountLen(lens, l, i) == rank
  {
    if CountLen(lens, l, n - 1) <= rank { i := n - 1; } else { i := Nth(lens, l, rank, n - 1); }
  }

  /** The code's bits stand at position p. */
  ghost predicate CodeAt(bits: seq<Bit>, p: nat, lens: seq<nat>, i: nat)
    requires i < |lens|
  {
    p + lens[i] <= |bits| && bits[p..p + lens[i]] == CodeBits(Code(lens, i), lens[i])
  }

  /** Halving a code of length l down to length m leaves it at or above all codes of length m. */
  lemma {:induction false} PrefixAbove(lens: seq<nat>, code: nat, l: nat, m: nat)
    requires 1 <= m <= l && code >= NextCode(lens, l)
    ensures Shr(code, l - m) >= NextCode(lens, m)
    ensures m < l ==> Shr(code, l - m) >= NextCode(lens, m) + Count(lens, m)
    decreases l - m
  {
    if m < l { PrefixAbove(lens, code, l, m + 1); }
  }

  lemma OffsetOne(lens: seq<nat>)
    ensures Offset(lens, 1) == 0
  {
  }

  lemma ShrStep(code: nat, k: nat)
    ensures Shr(code, k) == 2 * Shr(code, k + 1) + Shr(code, k) % 2
    ensures Shr(code, 0) == code
  {
  }

  lemma OffsetStep(lens: seq<nat>, l: nat)
    requires l >= 1
    ensures Offset(lens, l + 1) == Offset(lens, l) + Count(lens, l)
    ensures NextCode(lens, l + 1) == 2 * (NextCode(lens, l) + Count(lens, l))
  {
  }

  lemma CodeOf(lens: seq<nat>, i: nat)
    requires i < |lens|
    ensures Code(lens, i) == NextCode(lens, lens[i]) + CountLen(lens, lens[i], i)
  {
  }

  lemma CodeBitAt(bits: seq<Bit>, p: nat, lens: seq<nat>, i: nat, k: nat)
    requires i < |lens| && CodeAt(bits, p, lens, i) && k < lens[i]
    ensures p + k < |bits| && bits[p + k] == Shr(Code(lens, i), lens[i] - 1 - k) % 2
  {
    hide Shr, Code;
    assert bits[p + k] == bits[p..p + lens[i]][k];
  }

  /** One round of the decoder. */
  lemma DecodeStep(h: Huff, bits: seq<Bit>, p: nat, len: nat, code: nat, first: nat, index: nat)
    requires |h.count| == 16 && |h.sym| == 288 && 1 <= len < 16 && first <= code && p < |bits|
    ensures var c, n := code + bits[p], h.count[len];
            DecodeFrom(h, bits, p, len, code, first, index)
            == if c < first + n then Symbol(if index + (c - first) < 288 then h.sym[index + (c - first)] else 0, p + 1)
               else DecodeFrom(h, bits, p + 1, len + 1, 2 * c, 2 * (first + n), index + n)
  {
  }

  lemma DecodeInside(h: Huff, bits: seq<Bit>, p: nat, len: nat, code: nat, first: nat, index: nat)
    requires |h.count| == 16 && |h.sym| == 288 && 1 <= len <= 16 && first <= code
    requires DecodeFrom(h, bits, p, len, code, first, index).Symbol?
    ensures len < 16 && p < |bits|
  {
  }

  /** The decoder has read m - 1 bits of symbol i's code. */
  lemma {:induction false} DecodesFrom(h: Huff, lens: seq<nat>, i: nat, bits: seq<Bit>, p: nat, m: nat)
    requires IsTable(h, lens) && i < |lens| && 1 <= m <= lens[i] && CodeAt(bits, p, lens, i)
    requires NextCode(lens, m) <= 2 * Shr(Code(lens, i), lens[i] - m + 1)
    ensures DecodeFrom(h, bits, p + m - 1, m, 2 * Shr(Code(lens, i), lens[i] - m + 1), NextCode(lens, m),
                       Offset(lens, m))
            == Symbol(i, p + lens[i])
    decreases lens[i] - m
  {
    hide CountLen, Code, Shr, Offset, NextCode, DecodeFrom, CodeAt;
    var l, code := lens[i], Code(lens, i);
    CodeBitAt(bits, p, lens, i, m - 1);
    ShrStep(code, l - m);
    ShrStep(code, 0);
    OffsetStep(lens, m);
    DecodeStep(h, bits, p + m - 1, m, 2 * Shr(code, l - m + 1), NextCode(lens, m), Offset(lens, m));
    CodeOf(lens, i);
    PrefixAbove(lens, code, l, m);
    if m == l {
      CountMonotone(lens, l, i, |lens|);
    } else {
      DecodesFrom(h, lens, i, bits, p, m + 1);
    }
  }

  /** The canonical code of a symbol decodes to that symbol and takes exactly its length. */
  lemma CodeDecodes(h: Huff, lens: seq<nat>, i: nat, bits: seq<Bit>, p: nat)
    requires IsTable(h, lens) && i < |lens| && lens[i] > 0 && Shr(Code(lens, i), lens[i]) == 0
    requires CodeAt(bits, p, lens, i)
    ensures Decode(h, bits, p) == Symbol(i, p + lens[i])
  {
    DecodesFrom(h, lens, i, bits, p, 1);
  }

  /** The last n bits before position `end` are the last n of a code. */
  ghost predicate Read(bits: seq<Bit>, end: nat, code: nat, n: nat) {
    n <= end <= |bits| && forall j :: 0 <= j < n ==> bits[end - 1 - j] == Shr(code, j) % 2
  }

  lemma ReadOne(bits: seq<Bit>, end: nat, code: nat, n: nat)
    requires Read(bits, end, code, n) && n < end && bits[end - 1 - n] == Shr(code, n) % 2
    ensures Read(bits, end, code, n + 1)
  {
    hide Shr;
  }

  lemma ReadNone(bits: seq<Bit>, end: nat, code: nat)
    requires end <= |bits|
    ensures Read(bits, end, code, 0)
  {
  }

  lemma TableCount(h: Huff, lens: seq<nat>, len: nat)
    requires IsTable(h, lens) && 1 <= len <= 16
    ensures |h.count| == 16 && |h.sym| == 288 && (len < 16 ==> h.count[len] == Count(lens, len))
  {
  }

  /** The symbol the table holds for a length and a rank, and its code. */
  lemma SymbolOf(h: Huff, lens: seq<nat>, len: nat, rank: nat) returns (i: nat)
    requires IsTable(h, lens) && 1 <= len < 16 && rank < h.count[len]
    ensures i < |lens| && lens[i] == len && Code(lens, i) == NextCode(lens, len) + rank
    ensures Offset(lens, len) + rank < 288 && h.sym[Offset(lens, len) + rank] == i
  {
    hide CountLen, NextCode, Offset;
    i := Nth(lens, len, rank, |lens|);
    IndexInside(h, lens, len, rank);
  }

  lemma ShrSplit(code: nat, k: nat, half: nat, bit: Bit)
    requires Shr(code, k) == 2 * half + bit
    ensures Shr(code, k + 1) == half && Shr(code, k) % 2 == bit
  {
  }

  /** The other way round: what is decoded is a symbol whose canonical code was read. */
  lemma {:induction false} DecodedFrom(h: Huff, lens: seq<nat>, bits: seq<Bit>, p: nat, len: nat, half: nat)
    returns (i: nat)
    requires IsTable(h, lens) && 1 <= len <= 16 && NextCode(lens, len) <= 2 * half
    requires DecodeFrom(h, bits, p, len, 2 * half, NextCode(lens, len), Offset(lens, len)).Symbol?
    ensures var d := DecodeFrom(h, bits, p, len, 2 * half, NextCode(lens, len), Offset(lens, len));
            && i < |lens| && d.sym == i && len <= lens[i] && d.end == p + lens[i] - len + 1
            && Shr(Code(lens, i), lens[i] - len + 1) == half
            && Read(bits, d.end, Code(lens, i), lens[i] - len + 1)
    decreases 16 - len
  {
    hide *;
    TableCount(h, lens, len);
    DecodeInside(h, bits, p, len, 2 * half, NextCode(lens, len), Offset(lens, len));
    var c, first, n := 2 * half + bits[p], NextCode(lens, len), h.count[len];
    OffsetStep(lens, len);
    DecodeStep(h, bits, p, len, 2 * half, first, Offset(lens, len));
    if c < first + n {
      i := SymbolOf(h, lens, len, c - first);
      ShrStep(c, 0);
      ReadNone(bits, p + 1, c);
    } else {
      i := DecodedFrom(h, lens, bits, p + 1, len + 1, c);
    }
    ShrSplit(Code(lens, i), lens[i] - len, half, bits[p]);
    ReadOne(bits, p + 1 + lens[i] - len, Code(lens, i), lens[i] - len);
  }

  /** A decoded symbol's canonical code fits its length and was just read. */
  lemma DecodedIsCode(h: Huff, lens: seq<nat>, bits: seq<Bit>, p: nat)
    requires IsTable(h, lens) && Decode(h, bits, p).Symbol?
    ensures var d := Decode(h, bits, p);
            && d.sym < |lens| && lens[d.sym] > 0 && d.end == p + lens[d.sym]
            && Shr(Code(lens, d.sym), lens[d.sym]) == 0 && CodeAt(bits, p, lens, d.sym)
  {
    hide DecodeFrom, Code, Shr, Read;
    var i := DecodedFrom(h, lens, bits, p, 1, 0);
    ReadIsCode(bits, p, lens[i], Code(lens, i));
  }

  lemma ReadIsCode(bits: seq<Bit>, p: nat, len: nat, code: nat)
    requires Read(bits, p + len, code, len)
    ensures bits[p..p + len] == CodeBits(code, len)
  {
    hide Shr;
    var read := bits[p..p + len];
    forall k | 0 <= k < len ensures read[k] == CodeBits(code, len)[k] {
      var j := len - 1 - k;
      assert read[k] == bits[p + len - 1 - j];
    }
  }

  /** Decoding gives symbol s exactly when s's canonical code, which fits its length, stands there. */
  lemma DecodesOnlyCodes(h: Huff, lens: seq<nat>, bits: seq<Bit>, p: nat, s: nat)
    requires IsTable(h, lens)
    ensures (Decode(h, bits, p).Symbol? && Decode(h, bits, p).sym == s)
            <==> (s < |lens| && lens[s] > 0 && Shr(Code(lens, s), lens[s]) == 0 && CodeAt(bits, p, lens, s))
  {
    hide Decode, CodeAt, Code, Shr;
    if Decode(h, bits, p).Symbol? { DecodedIsCode(h, lens, bits, p); }
    if s < |lens| && lens[s] > 0 && Shr(Code(lens, s), lens[s]) == 0 && CodeAt(bits, p, lens, s) {
      CodeDecodes(h, lens, s, bits, p);
    }
  }

  /** The canonical code of symbol s, one that fits its length, stands at position p. */
  ghost predicate Stands(lens: seq<nat>, bits: seq<Bit>, p: nat, s: nat) {
    s < |lens| && lens[s] > 0 && Shr(Code(lens, s), lens[s]) == 0 && CodeAt(bits, p, lens, s)
  }

  /** What a canonical code means: the symbol whose code stands at position p. */
  ghost function SymbolAt(lens: seq<nat>, bits: seq<Bit>, p: nat): (d: Decoded)
    ensures d.Symbol? ==> Stands(lens, bits, p, d.sym) && p < d.end == p + lens[d.sym] <= |bits|
    ensures d.NoSymbol? ==> forall s: nat :: !Stands(lens, bits, p, s)
  {
    if exists s: nat :: Stands(lens, bits, p, s) then
      var s: nat :| Stands(lens, bits, p, s);
      Symbol(s, p + lens[s])
    else NoSymbol
  }

  /** Whatever the lengths, the decoder finds the symbol whose code stands there, and no other can. */
  lemma DecodeIsSymbolAt(h: Huff, lens: seq<nat>, bits: seq<Bit>, p: nat)
    requires IsTable(h, lens)
    ensures Decode(h, bits, p) == SymbolAt(lens, bits, p)
  {
    hide Decode, CodeAt, Code, Shr, SymbolAt;
    var d, e := Decode(h, bits, p), SymbolAt(lens, bits, p);
    if d.Symbol? {
      DecodedIsCode(h, lens, bits, p);
      assert Stands(lens, bits, p, d.sym);
    }
    if e.Symbol? { CodeDecodes(h, lens, e.sym, bits, p); }
  }

  /* ---- over-subscription ---- */

  /** The sum of 2^(n - length) over the codes of length 1 to n. */
  function KraftSum(lens: seq<nat>, n: nat): nat {
    if n == 0 then 0 else 2 * KraftSum(lens, n - 1) + Count(lens, n)
  }

  /** The lengths leave room for all codes: the sum of 2^-length is at most 1. */
  ghost predicate NotOverSubscribed(lens: seq<nat>) {
    KraftSum(lens, MAX_BITS) <= Pow2(MAX_BITS)
  }

  lemma {:induction false} KraftIsNextCode(lens: seq<nat>, n: nat)
    requires n >= 1
    ensures KraftSum(lens, n) == NextCode(lens, n) + Count(lens, n)
  {
    if n > 1 { KraftIsNextCode(lens, n - 1); }
  }

  lemma {:induction false} KraftDown(lens: seq<nat>, m: nat, n: nat)
    requires m <= n && KraftSum(lens, n) <= Pow2(n)
    ensures KraftSum(lens, m) <= Pow2(m)
    decreases n
  {
    if m < n { KraftDown(lens, m, n - 1); }
  }

  lemma {:induction false} ShrVanishes(code: nat, l: nat)
    requires code < Pow2(l)
    ensures Shr(code, l) == 0
  {
    ShrBelow(code, l, l);
  }

  lemma {:induction false} ShrBelow(code: nat, l: nat, k: nat)
    requires k <= l && code < Pow2(l)
    ensures Shr(code, k) < Pow2(l - k)
  {
    if k > 0 { ShrBelow(code, l, k - 1); }
  }

  /** Then every code fits its length, and so decodes to its symbol. */
  lemma CodesFit(lens: seq<nat>, i: nat)
    requires Lengths(lens) && NotOverSubscribed(lens) && i < |lens| && lens[i] > 0
    ensures Shr(Code(lens, i), lens[i]) == 0
  {
    KraftDown(lens, lens[i], MAX_BITS);
    KraftIsNextCode(lens, lens[i]);
    CountMonotone(lens, lens[i], i, |lens|);
    ShrVanishes(Code(lens, i), lens[i]);
  }
}
