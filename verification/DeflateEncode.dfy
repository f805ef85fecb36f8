/** A reference encoder: blocks as sections 3.2.3 to 3.2.7 of RFC 1951 serialise them, and that reading them back
    works. */
module DeflateEncode {
  import opened Bits
  import opened Huffman
  import opened Deflate
  import opened Utf8

  /** A literal byte, or a copy given by its length and distance symbols and their extra bits. */
  datatype Item = Literal(b: Byte) | CopyItem(lsym: nat, lextra: nat, dsym: nat, dextra: nat)

  /** One step in the list of code lengths: a length, or a repeat. */
  datatype Run = OneLen(l: nat) | Previous(n: nat) | Zeros(n: nat) | ManyZeros(n: nat)

  /** A dynamic block's codes as they are sent: code lengths of the code length code, and runs. */
  datatype Codebook = Codebook(nlit: nat, ndist: nat, ncode: nat, cl: seq<nat>, runs: seq<Run>)

  /** pad stands for the bits before a byte boundary, which a reader ignores. */
  datatype BlockOf =
    | StoredBlock(pad: seq<Bit>, data: seq<Byte>)
    | FixedBlock(items: seq<Item>)
    | DynamicBlock(book: Codebook, items: seq<Item>)

  /* ---- bits ---- */

  /** A number in n bits, the least significant first. */
  function Lsb(v: nat, n: nat): (b: seq<Bit>)
    ensures |b| == n
    decreases n
  {
    if n == 0 then [] else [v % 2] + Lsb(v / 2, n - 1)
  }

  function SymBits(lens: seq<nat>, s: nat): (b: seq<Bit>)
    requires s < |lens|
    ensures |b| == lens[s]
  {
    CodeBits(Code(lens, s), lens[s])
  }

  /** w stands at position p. */
  ghost predicate At(bits: seq<Bit>, p: nat, w: seq<Bit>) {
    p + |w| <= |bits| && bits[p..p + |w|] == w
  }

  lemma AtSplit(bits: seq<Bit>, p: nat, a: seq<Bit>, b: seq<Bit>)
    requires At(bits, p, a + b)
    ensures At(bits, p, a) && At(bits, p + |a|, b)
  {
    var w := bits[p..p + |a| + |b|];
    assert w[..|a|] == a && w[|a|..] == b;
    assert bits[p..p + |a|] == w[..|a|] && bits[p + |a|..p + |a| + |b|] == w[|a|..];
  }

  lemma {:induction false} ReadsLsb(bits: seq<Bit>, p: nat, v: nat, n: nat)
    requires At(bits, p, Lsb(v, n)) && v < Pow2(n)
    ensures Value(bits, p, n) == v
    decreases n
  {
    if n > 0 {
      AtSplit(bits, p, [v % 2], Lsb(v / 2, n - 1));
      assert bits[p] == bits[p..p + 1][0];
      ReadsLsb(bits, p + 1, v / 2, n - 1);
    }
  }

  /** A symbol's code is read back as that symbol. */
  lemma ReadsSymbol(lens: seq<nat>, bits: seq<Bit>, p: nat, s: nat)
    requires Lengths(lens) && NotOverSubscribed(lens) && s < |lens| && lens[s] > 0 && At(bits, p, SymBits(lens, s))
    ensures SymbolAt(lens, bits, p) == Symbol(s, p + lens[s])
  {
    hide CodeBits, Code, Shr, NotOverSubscribed, SymbolAt;
    var h := TableFor(lens);
    CodesFit(lens, s);
    CodeDecodes(h, lens, s, bits, p);
    DecodeIsSymbolAt(h, lens, bits, p);
  }

  lemma TableFor(lens: seq<nat>) returns (h: Huff)
    requires Lengths(lens)
    ensures IsTable(h, lens)
  {
    hide Place, Count;
    var sym := SymbolsUpTo(lens, |lens|);
    h := Huff(seq(16, l requires 0 <= l < 16 => CountFrom1(lens, l)), sym);
    assert forall l :: 1 <= l <= 15 ==> h.count[l] == CountFrom1(lens, l) == Count(lens, l);
  }

  function CountFrom1(lens: seq<nat>, l: nat): nat { if l == 0 then 0 else Count(lens, l) }

  lemma {:induction false} SymbolsUpTo(lens: seq<nat>, n: nat) returns (sym: seq<nat>)
    requires Lengths(lens) && n <= |lens|
    ensures |sym| == 288
    ensures forall i :: 0 <= i < n && lens[i] > 0 ==> Place(lens, i) < 288 && sym[Place(lens, i)] == i
  {
    hide Place;
    if n == 0 {
      sym := seq(288, _ => 0);
    } else {
      sym := SymbolsUpTo(lens, n - 1);
      if lens[n - 1] > 0 {
        PlaceInside(lens, n - 1);
        forall j | 0 <= j < n - 1 && lens[j] > 0 ensures Place(lens, j) != Place(lens, n - 1) {
          PlacesDiffer(lens, j, n - 1);
        }
        sym := sym[Place(lens, n - 1) := n - 1];
      }
    }
  }

  /* ---- compressed data ---- */

  /** The two codes of a block. */
  ghost predicate CodesOk(ll: seq<nat>, dl: seq<nat>) {
    && Lengths(ll) && Lengths(dl) && NotOverSubscribed(ll) && NotOverSubscribed(dl)
    && |ll| > END_OF_BLOCK && ll[END_OF_BLOCK] > 0
  }

  function LengthOf(i: Item): nat
    requires i.CopyItem? && i.lsym < 29
  {
    LenBase(i.lsym) + i.lextra
  }

  function DistOf(i: Item): nat
    requires i.CopyItem? && i.dsym < 30
  {
    DistBase(i.dsym) + i.dextra
  }

  /** The item has codes, its extra bits fit, and a copy does not reach back before the start. */
  ghost predicate ItemOk(ll: seq<nat>, dl: seq<nat>, i: Item, out: seq<Byte>) {
    match i
    case Literal(b) => b < |ll| && ll[b] > 0
    case CopyItem(ls, lx, ds, dx) =>
      && ls < 29 && 257 + ls < |ll| && ll[257 + ls] > 0 && lx < Pow2(LenExtra(ls))
      && ds < 30 && ds < |dl| && dl[ds] > 0 && dx < Pow2(DistExtra(ds))
      && 1 <= DistOf(i) <= |out|
  }

  function ExpandItem(i: Item, out: seq<Byte>): seq<Byte>
    requires i.CopyItem? ==> i.lsym < 29 && i.dsym < 30 && 1 <= DistOf(i) <= |out|
  {
    match i
    case Literal(b) => out + [b]
    case CopyItem(_, _, _, _) => CopyBack(out, DistOf(i), LengthOf(i))
  }

  function ItemBits(ll: seq<nat>, dl: seq<nat>, i: Item): seq<Bit>
    requires match i
             case Literal(b) => b < |ll|
             case CopyItem(ls, _, ds, _) => ls < 29 && 257 + ls < |ll| && ds < 30 && ds < |dl|
  {
    match i
    case Literal(b) => SymBits(ll, b)
    case CopyItem(ls, lx, ds, dx) =>
      SymBits(ll, 257 + ls) + (Lsb(lx, LenExtra(ls)) + (SymBits(dl, ds) + Lsb(dx, DistExtra(ds))))
  }

  ghost predicate ItemsOk(ll: seq<nat>, dl: seq<nat>, items: seq<Item>, out: seq<Byte>)
    decreases |items|
  {
    |items| == 0 || (ItemOk(ll, dl, items[0], out)
                     && ItemsOk(ll, dl, items[1..], ExpandItem(items[0], out)))
  }

  ghost function ExpandItems(ll: seq<nat>, dl: seq<nat>, items: seq<Item>, out: seq<Byte>): seq<Byte>
    requires ItemsOk(ll, dl, items, out)
    decreases |items|
  {
    if |items| == 0 then out else ExpandItems(ll, dl, items[1..], ExpandItem(items[0], out))
  }

  /** The items' bits, and the end-of-block code. */
  ghost function ItemsBits(ll: seq<nat>, dl: seq<nat>, items: seq<Item>, out: seq<Byte>): (b: seq<Bit>)
    requires CodesOk(ll, dl) && ItemsOk(ll, dl, items, out)
    decreases |items|
  {
    if |items| == 0 then SymBits(ll, END_OF_BLOCK)
    else ItemBits(ll, dl, items[0]) + ItemsBits(ll, dl, items[1..], ExpandItem(items[0], out))
  }

  lemma ReadsCopy(dl: seq<nat>, bits: seq<Bit>, p: nat, i: Item)
    requires Lengths(dl) && NotOverSubscribed(dl)
    requires i.CopyItem? && i.lsym < 29 && i.dsym < 30 && i.dsym < |dl| && dl[i.dsym] > 0
    requires i.lextra < Pow2(LenExtra(i.lsym)) && i.dextra < Pow2(DistExtra(i.dsym))
    requires At(bits, p, Lsb(i.lextra, LenExtra(i.lsym)) + (SymBits(dl, i.dsym) + Lsb(i.dextra, DistExtra(i.dsym))))
    ensures ReadMatch(dl, bits, p, i.lsym)
            == Copy(LengthOf(i), DistOf(i), p + LenExtra(i.lsym) + dl[i.dsym] + DistExtra(i.dsym))
  {
    hide At, SymBits, Lsb, NotOverSubscribed, SymbolAt, Value, Pow2, LenBase, LenExtra, DistBase, DistExtra;
    var a, b, c := Lsb(i.lextra, LenExtra(i.lsym)), SymBits(dl, i.dsym), Lsb(i.dextra, DistExtra(i.dsym));
    AtSplit(bits, p, a, b + c);
    AtSplit(bits, p + |a|, b, c);
    AtInside(bits, p + |a| + |b|, c);
    AtInside(bits, p, a);
    ReadsLsb(bits, p, i.lextra, LenExtra(i.lsym));
    ReadsSymbol(dl, bits, p + |a|, i.dsym);
    ReadsLsb(bits, p + |a| + |b|, i.dextra, DistExtra(i.dsym));
  }

  lemma AtInside(bits: seq<Bit>, p: nat, w: seq<Bit>)
    requires At(bits, p, w)
    ensures p + |w| <= |bits|
  {
  }

  lemma ReadsLiteral(ll: seq<nat>, dl: seq<nat>, bits: seq<Bit>, p: nat, b: Byte, out: seq<Byte>)
    requires CodesOk(ll, dl) && ItemOk(ll, dl, Literal(b), out) && At(bits, p, SymBits(ll, b))
    ensures Codes(ll, dl, bits, p, out) == Codes(ll, dl, bits, p + |SymBits(ll, b)|, out + [b])
  {
    hide At, SymBits, NotOverSubscribed, SymbolAt, Codes, Pow2;
    CodesStep(ll, dl, bits, p, out);
    ReadsSymbol(ll, bits, p, b);
  }

  lemma ReadsMatchItem(ll: seq<nat>, dl: seq<nat>, bits: seq<Bit>, p: nat, i: Item, out: seq<Byte>)
    requires CodesOk(ll, dl) && ItemOk(ll, dl, i, out) && i.CopyItem? && At(bits, p, ItemBits(ll, dl, i))
    ensures Codes(ll, dl, bits, p, out)
            == Codes(ll, dl, bits, p + |ItemBits(ll, dl, i)|, CopyBack(out, DistOf(i), LengthOf(i)))
  {
    hide At, SymBits, Lsb, NotOverSubscribed, SymbolAt, ReadMatch, CopyBack, Codes, LenBase, LenExtra, DistBase,
         DistExtra, Pow2;
    CodesStep(ll, dl, bits, p, out);
    var tail := Lsb(i.lextra, LenExtra(i.lsym)) + (SymBits(dl, i.dsym) + Lsb(i.dextra, DistExtra(i.dsym)));
    AtSplit(bits, p, SymBits(ll, 257 + i.lsym), tail);
    ReadsSymbol(ll, bits, p, 257 + i.lsym);
    ReadsCopy(dl, bits, p + ll[257 + i.lsym], i);
  }

  /** One item is read back, and reading goes on after it. */
  lemma ReadsItem(ll: seq<nat>, dl: seq<nat>, bits: seq<Bit>, p: nat, i: Item, out: seq<Byte>)
    requires CodesOk(ll, dl) && ItemOk(ll, dl, i, out) && At(bits, p, ItemBits(ll, dl, i))
    ensures Codes(ll, dl, bits, p, out) == Codes(ll, dl, bits, p + |ItemBits(ll, dl, i)|, ExpandItem(i, out))
  {
    hide At, SymBits, Lsb, CodesOk, CopyBack, Codes, LenBase, LenExtra, DistBase, DistExtra;
    if i.Literal? { ReadsLiteral(ll, dl, bits, p, i.b, out); } else { ReadsMatchItem(ll, dl, bits, p, i, out); }
  }

  /** Compressed data is read back as what it was written for. */
  lemma {:induction false} ReadsItems(ll: seq<nat>, dl: seq<nat>, bits: seq<Bit>, p: nat, items: seq<Item>,
                                      out: seq<Byte>)
    requires CodesOk(ll, dl) && ItemsOk(ll, dl, items, out) && At(bits, p, ItemsBits(ll, dl, items, out))
    ensures Codes(ll, dl, bits, p, out) == Done(p + |ItemsBits(ll, dl, items, out)|, ExpandItems(ll, dl, items, out))
    decreases |items|
  {
    hide At, SymBits, SymbolAt, ReadMatch, ItemBits, ExpandItem, Codes, DistOf, NotOverSubscribed, LenExtra, DistExtra,
         Pow2;
    if |items| == 0 {
      CodesStep(ll, dl, bits, p, out);
      ReadsSymbol(ll, bits, p, END_OF_BLOCK);
    } else {
      var i, out1 := items[0], ExpandItem(items[0], out);
      var w, rest := ItemBits(ll, dl, i), ItemsBits(ll, dl, items[1..], out1);
      AtSplit(bits, p, w, rest);
      ReadsItem(ll, dl, bits, p, i, out);
      ReadsItems(ll, dl, bits, p + |w|, items[1..], out1);
    }
  }

  /* ---- stored data ---- */

  function ByteBits(data: seq<Byte>): (b: seq<Bit>)
    ensures |b| == 8 * |data|
    decreases |data|
  {
    if |data| == 0 then [] else Lsb(data[0], 8) + ByteBits(data[1..])
  }

  lemma {:induction false} ReadsBytes(bits: seq<Bit>, p: nat, data: seq<Byte>)
    requires At(bits, p, ByteBits(data))
    ensures p + 8 * |data| <= |bits| && BytesAt(bits, p, |data|) == data
    decreases |data|
  {
    hide Lsb, Value, At;
    AtInside(bits, p, ByteBits(data));
    if |data| > 0 {
      AtSplit(bits, p, Lsb(data[0], 8), ByteBits(data[1..]));
      assert Pow2(8) == 256;
      ReadsLsb(bits, p, data[0], 8);
      ReadsBytes(bits, p + 8, data[1..]);
    }
  }

  /** A stored block after its header bits: padding, length, complement, bytes. */
  function StoredBits(pad: seq<Bit>, data: seq<Byte>): seq<Bit>
    requires |data| <= 0xffff
  {
    pad + (Lsb(|data|, 16) + (Lsb(0xffff - |data|, 16) + ByteBits(data)))
  }

  lemma ReadsStored(bits: seq<Bit>, p: nat, pad: seq<Bit>, data: seq<Byte>, out: seq<Byte>)
    requires |data| <= 0xffff && |pad| == Aligned(p) - p && At(bits, p, StoredBits(pad, data))
    ensures Stored(bits, p, out) == Done(p + |StoredBits(pad, data)|, out + data)
  {
    hide Lsb, Value, At, Aligned, BytesAt;
    var q, n := Aligned(p), |data|;
    assert Pow2(16) == 65536 by { assert Pow2(8) == 256; }
    AtSplit(bits, p, pad, Lsb(n, 16) + (Lsb(0xffff - n, 16) + ByteBits(data)));
    AtSplit(bits, q, Lsb(n, 16), Lsb(0xffff - n, 16) + ByteBits(data));
    AtSplit(bits, q + 16, Lsb(0xffff - n, 16), ByteBits(data));
    AtInside(bits, q + 32, ByteBits(data));
    ReadsLsb(bits, q, n, 16);
    ReadsLsb(bits, q + 16, 0xffff - n, 16);
    ReadsBytes(bits, q + 32, data);
  }

  /* ---- code lengths ---- */

  /** The symbol of a run in the code length code. */
  function RunSym(r: Run): nat {
    match r case OneLen(l) => l case Previous(_) => 16 case Zeros(_) => 17 case ManyZeros(_) => 18
  }

  /** A run can be sent: its count is in range and its symbol has a code; a repeat needs something before it. */
  ghost predicate RunOk(cl: seq<nat>, r: Run, acc: seq<nat>) {
    && RunSym(r) < |cl| && cl[RunSym(r)] > 0
    && match r
       case OneLen(l) => l < 16
       case Previous(n) => |acc| > 0 && 3 <= n <= 6
       case Zeros(n) => 3 <= n <= 10
       case ManyZeros(n) => 11 <= n <= 138
  }

  function ExpandRun(r: Run, acc: seq<nat>): (a: seq<nat>)
    requires r.Previous? ==> |acc| > 0
    ensures |a| >= |acc|
  {
    match r
    case OneLen(l) => acc + [l]
    case Previous(n) => acc + Times(n, acc[|acc| - 1])
    case Zeros(n) => acc + Times(n, 0)
    case ManyZeros(n) => acc + Times(n, 0)
  }

  function RunBits(cl: seq<nat>, r: Run): seq<Bit>
    requires RunSym(r) < |cl|
  {
    match r
    case OneLen(l) => SymBits(cl, l)
    case Previous(n) => SymBits(cl, 16) + Lsb(if n >= 3 then n - 3 else 0, 2)
    case Zeros(n) => SymBits(cl, 17) + Lsb(if n >= 3 then n - 3 else 0, 3)
    case ManyZeros(n) => SymBits(cl, 18) + Lsb(if n >= 11 then n - 11 else 0, 7)
  }

  /** The runs fill up exactly `total` lengths, and stop as soon as they have. */
  ghost predicate RunsOk(cl: seq<nat>, runs: seq<Run>, acc: seq<nat>, total: nat)
    decreases |runs|
  {
    if |acc| >= total then |acc| == total && |runs| == 0
    else |runs| > 0 && RunOk(cl, runs[0], acc) && RunsOk(cl, runs[1..], ExpandRun(runs[0], acc), total)
  }

  ghost function ExpandRuns(cl: seq<nat>, runs: seq<Run>, acc: seq<nat>, total: nat): (a: seq<nat>)
    requires RunsOk(cl, runs, acc, total)
    ensures |a| == total
    decreases |runs|
  {
    if |runs| == 0 then acc else ExpandRuns(cl, runs[1..], ExpandRun(runs[0], acc), total)
  }

  ghost function RunsBits(cl: seq<nat>, runs: seq<Run>, acc: seq<nat>, total: nat): seq<Bit>
    requires RunsOk(cl, runs, acc, total)
    decreases |runs|
  {
    if |runs| == 0 then [] else RunBits(cl, runs[0]) + RunsBits(cl, runs[1..], ExpandRun(runs[0], acc), total)
  }

  lemma ReadsRun(cl: seq<nat>, bits: seq<Bit>, p: nat, r: Run, acc: seq<nat>, total: nat)
    requires Lengths(cl) && |cl| == 19 && NotOverSubscribed(cl) && RunOk(cl, r, acc) && |ExpandRun(r, acc)| <= total
    requires |acc| < total && At(bits, p, RunBits(cl, r))
    ensures CodeLens(cl, bits, p, total, acc) == CodeLens(cl, bits, p + |RunBits(cl, r)|, total, ExpandRun(r, acc))
  {
    hide At, SymBits, Lsb, SymbolAt, NotOverSubscribed, Value;
    assert Pow2(2) == 4 && Pow2(3) == 8 && Pow2(7) == 128;
    var s := RunSym(r);
    if r.OneLen? {
      ReadsSymbol(cl, bits, p, s);
    } else {
      var n := r.n - RepBase(s);
      var extra := Lsb(n, RepBits(s));
      AtSplit(bits, p, SymBits(cl, s), extra);
      ReadsSymbol(cl, bits, p, s);
      AtInside(bits, p + cl[s], extra);
      ReadsLsb(bits, p + cl[s], n, RepBits(s));
    }
  }

  lemma {:induction false} ReadsRuns(cl: seq<nat>, bits: seq<Bit>, p: nat, runs: seq<Run>, acc: seq<nat>, total: nat)
    requires Lengths(cl) && |cl| == 19 && NotOverSubscribed(cl) && RunsOk(cl, runs, acc, total)
    requires At(bits, p, RunsBits(cl, runs, acc, total))
    ensures |acc| <= total
    ensures CodeLens(cl, bits, p, total, acc)
            == Lens(ExpandRuns(cl, runs, acc, total), p + |RunsBits(cl, runs, acc, total)|)
    decreases |runs|
  {
    hide At, RunBits, SymbolAt, NotOverSubscribed, Value, ExpandRun;
    if |runs| > 0 {
      var acc1 := ExpandRun(runs[0], acc);
      var w, rest := RunBits(cl, runs[0]), RunsBits(cl, runs[1..], acc1, total);
      AtSplit(bits, p, w, rest);
      ReadsRuns(cl, bits, p + |w|, runs[1..], acc1, total);
      ReadsRun(cl, bits, p, runs[0], acc, total);
    }
  }

  /* ---- the header of a dynamic block ---- */

  /** The first n lengths of the code length code, in the order they are sent. */
  function ClBits(cl: seq<nat>, n: nat): (b: seq<Bit>)
    requires |cl| == 19 && n <= 19
    ensures |b| == 3 * n
  {
    if n == 0 then [] else ClOrder(n - 1); ClBits(cl, n - 1) + Lsb(cl[CLORDER[n - 1]], 3)
  }

  lemma ClOrder(j: nat)
    requires j < 19
    ensures CLORDER[j] < 19
  {
  }

  /** Every symbol of the code length code has its turn. */
  lemma ClTurn(k: nat) returns (j: nat)
    requires k < 19
    ensures j < 19 && CLORDER[j] == k
  {
    j := [3, 17, 15, 13, 11, 9, 7, 5, 4, 6, 8, 10, 12, 14, 16, 18, 0, 1, 2][k];
    match k
    case 0 => case 1 => case 2 => case 3 => case 4 => case 5 => case 6 => case 7 => case 8 => case 9 =>
    case 10 => case 11 => case 12 => case 13 => case 14 => case 15 => case 16 => case 17 => case _ =>
  }

  lemma {:induction false} ReadsClLens(bits: seq<Bit>, p: nat, cl: seq<nat>, n: nat)
    requires |cl| == 19 && n <= 19 && At(bits, p, ClBits(cl, n)) && forall k :: 0 <= k < 19 ==> cl[k] < 8
    ensures p + 3 * n <= |bits|
    ensures var r := ClLens(bits, p, n, Times(19, 0));
            && (forall k :: 0 <= k < 19 ==> r[k] == 0 || r[k] == cl[k])
            && (forall j :: 0 <= j < n ==> CLORDER[j] < 19 && r[CLORDER[j]] == cl[CLORDER[j]])
  {
    hide Lsb, Value, At;
    AtInside(bits, p, ClBits(cl, n));
    if n > 0 {
      ClOrder(n - 1);
      var v := cl[CLORDER[n - 1]];
      AtSplit(bits, p, ClBits(cl, n - 1), Lsb(v, 3));
      assert Pow2(3) == 8;
      ReadsLsb(bits, p + 3 * (n - 1), v, 3);
      ReadsClLens(bits, p, cl, n - 1);
    }
  }

  ghost predicate BookOk(b: Codebook) {
    && 257 <= b.nlit <= 286 && 1 <= b.ndist <= 30 && 4 <= b.ncode <= 19
    && |b.cl| == 19 && Lengths(b.cl) && NotOverSubscribed(b.cl) && (forall k :: 0 <= k < 19 ==> b.cl[k] < 8)
    && (forall j :: b.ncode <= j < 19 ==> CLORDER[j] < 19 && b.cl[CLORDER[j]] == 0)
    && RunsOk(b.cl, b.runs, [], b.nlit + b.ndist)
    && CodesOk(LitLens(b), DistLens(b))
  }

  ghost function AllLens(b: Codebook): seq<nat>
    requires RunsOk(b.cl, b.runs, [], b.nlit + b.ndist)
  {
    ExpandRuns(b.cl, b.runs, [], b.nlit + b.ndist)
  }

  ghost function LitLens(b: Codebook): seq<nat>
    requires RunsOk(b.cl, b.runs, [], b.nlit + b.ndist)
  {
    AllLens(b)[..b.nlit]
  }

  ghost function DistLens(b: Codebook): seq<nat>
    requires RunsOk(b.cl, b.runs, [], b.nlit + b.ndist)
  {
    AllLens(b)[b.nlit..]
  }

  ghost function BookBits(b: Codebook): seq<Bit>
    requires BookOk(b)
  {
    Lsb(b.nlit - 257, 5) + (Lsb(b.ndist - 1, 5) + (Lsb(b.ncode - 4, 4)
      + (ClBits(b.cl, b.ncode) + RunsBits(b.cl, b.runs, [], b.nlit + b.ndist))))
  }

  lemma ReadsWholeCl(bits: seq<Bit>, p: nat, b: Codebook)
    requires b.ncode <= 19 && |b.cl| == 19 && (forall k :: 0 <= k < 19 ==> b.cl[k] < 8)
    requires forall j :: b.ncode <= j < 19 ==> CLORDER[j] < 19 && b.cl[CLORDER[j]] == 0
    requires At(bits, p, ClBits(b.cl, b.ncode))
    ensures p + 3 * b.ncode <= |bits| && ClLens(bits, p, b.ncode, Times(19, 0)) == b.cl
  {
    hide Lsb, Value, At, ClLens, ClBits;
    ReadsClLens(bits, p, b.cl, b.ncode);
    var r := ClLens(bits, p, b.ncode, Times(19, 0));
    forall k | 0 <= k < 19 ensures r[k] == b.cl[k] {
      var j := ClTurn(k);
      if j < b.ncode { assert r[CLORDER[j]] == b.cl[CLORDER[j]]; }
    }
  }

  /** What is to be read back from a codebook written at position p. */
  ghost function BookHeader(b: Codebook, p: nat): Header
    requires BookOk(b)
  {
    hide RunsOk, CodesOk, Lengths, NotOverSubscribed, ExpandRuns, RunsBits, ClBits;
    Header(LitLens(b), DistLens(b), p + |BookBits(b)|)
  }

  lemma ReadsBook(bits: seq<Bit>, p: nat, b: Codebook)
    requires BookOk(b) && At(bits, p, BookBits(b))
    ensures ReadHeader(bits, p) == BookHeader(b, p)
  {
    hide Lsb, Value, At, RunsOk, NotOverSubscribed, ClLens, ClBits, CodeLens, RunsBits, ExpandRuns;
    assert Pow2(4) == 16 && Pow2(5) == 32;
    var runs := RunsBits(b.cl, b.runs, [], b.nlit + b.ndist);
    var t3 := ClBits(b.cl, b.ncode) + runs;
    var t2 := Lsb(b.ncode - 4, 4) + t3;
    var t1 := Lsb(b.ndist - 1, 5) + t2;
    AtSplit(bits, p, Lsb(b.nlit - 257, 5), t1);
    AtSplit(bits, p + 5, Lsb(b.ndist - 1, 5), t2);
    AtSplit(bits, p + 10, Lsb(b.ncode - 4, 4), t3);
    AtSplit(bits, p + 14, ClBits(b.cl, b.ncode), runs);
    ReadsLsb(bits, p, b.nlit - 257, 5);
    ReadsLsb(bits, p + 5, b.ndist - 1, 5);
    ReadsLsb(bits, p + 10, b.ncode - 4, 4);
    ReadsWholeCl(bits, p + 14, b);
    ReadsRuns(b.cl, bits, p + 14 + 3 * b.ncode, b.runs, [], b.nlit + b.ndist);
  }

  /* ---- the fixed codes ---- */

  /** How many of the first n fixed lengths are l. */
  lemma {:induction false} FixedCounts(l: nat, n: nat)
    requires n <= 288
    ensures CountLen(FixedLit(), l, n)
            == (if l == 8 then (if n <= 144 then n else 144) + (if n > 280 then n - 280 else 0) else 0)
               + (if l == 9 && n > 144 then (if n <= 256 then n - 144 else 112) else 0)
               + (if l == 7 && n > 256 then (if n <= 280 then n - 256 else 24) else 0)
  {
    if n > 0 { FixedCounts(l, n - 1); }
  }

  lemma {:induction false} FixedDistCounts(l: nat, n: nat)
    requires n <= 30
    ensures CountLen(FixedDist(), l, n) == if l == 5 then n else 0
  {
    if n > 0 { FixedDistCounts(l, n - 1); }
  }

  lemma FixedLitFits()
    ensures NotOverSubscribed(FixedLit())
  {
    hide CountLen, FixedLit;
    var f := FixedLit();
    forall l ensures Count(f, l) == if l == 7 then 24 else if l == 8 then 152 else if l == 9 then 112 else 0 {
      FixedCounts(l, 288);
    }
    KraftFrom(f, 6);
    assert KraftSum(f, 6) == 0;
    assert KraftSum(f, 9) == 512 == Pow2(9);
    KraftRest(f, 9, 15);
  }

  lemma FixedDistFits()
    ensures NotOverSubscribed(FixedDist())
  {
    hide CountLen, FixedDist;
    var f := FixedDist();
    forall l ensures Count(f, l) == if l == 5 then 30 else 0 { FixedDistCounts(l, 30); }
    KraftFrom(f, 4);
    assert KraftSum(f, 5) == 30 <= Pow2(5);
    KraftRest(f, 5, 15);
  }

  /** With no codes of length up to n, the sum is 0 there. */
  lemma {:induction false} KraftFrom(lens: seq<nat>, n: nat)
    requires forall l :: 1 <= l <= n ==> Count(lens, l) == 0
    ensures KraftSum(lens, n) == 0
  {
    hide Count;
    if n > 0 { KraftFrom(lens, n - 1); }
  }

  /** With no codes longer than m, what fits at m fits at n. */
  lemma {:induction false} KraftRest(lens: seq<nat>, m: nat, n: nat)
    requires m <= n && KraftSum(lens, m) <= Pow2(m) && forall l :: m < l <= n ==> Count(lens, l) == 0
    ensures KraftSum(lens, n) <= Pow2(n)
    decreases n
  {
    hide Count;
    if m < n { KraftRest(lens, m, n - 1); }
  }

  lemma FixedOk()
    ensures CodesOk(FixedLit(), FixedDist())
  {
    hide NotOverSubscribed;
    FixedLitFits();
    FixedDistFits();
  }

  /* ---- blocks ---- */

  /** A block that can be written at position p, after `out`. */
  ghost predicate BlockOk(b: BlockOf, p: nat, out: seq<Byte>) {
    match b
    case StoredBlock(pad, data) => |data| <= 0xffff && |pad| == Aligned(p + 3) - (p + 3)
    case FixedBlock(items) => CodesOk(FixedLit(), FixedDist()) && ItemsOk(FixedLit(), FixedDist(), items, out)
    case DynamicBlock(book, items) => BookOk(book) && ItemsOk(LitLens(book), DistLens(book), items, out)
  }

  function Kind(b: BlockOf): nat {
    if b.StoredBlock? then 0 else if b.FixedBlock? then 1 else 2
  }

  ghost function BlockBody(b: BlockOf, p: nat, out: seq<Byte>): seq<Bit>
    requires BlockOk(b, p, out)
  {
    match b
    case StoredBlock(pad, data) => StoredBits(pad, data)
    case FixedBlock(items) => ItemsBits(FixedLit(), FixedDist(), items, out)
    case DynamicBlock(book, items) => BookBits(book) + ItemsBits(LitLens(book), DistLens(book), items, out)
  }

  ghost function BlockOut(b: BlockOf, p: nat, out: seq<Byte>): seq<Byte>
    requires BlockOk(b, p, out)
  {
    match b
    case StoredBlock(pad, data) => out + data
    case FixedBlock(items) => ExpandItems(FixedLit(), FixedDist(), items, out)
    case DynamicBlock(book, items) => ExpandItems(LitLens(book), DistLens(book), items, out)
  }

  ghost function BlockBits(b: BlockOf, last: bool, p: nat, out: seq<Byte>): (w: seq<Bit>)
    requires BlockOk(b, p, out)
    ensures |w| >= 3
  {
    Lsb(if last then 1 else 0, 1) + (Lsb(Kind(b), 2) + BlockBody(b, p, out))
  }

  lemma ReadsDynamic(bits: seq<Bit>, book: Codebook, items: seq<Item>, p: nat, out: seq<Byte>)
    requires BlockOk(DynamicBlock(book, items), p, out) && At(bits, p + 3, BlockBody(DynamicBlock(book, items), p, out))
    ensures var b := DynamicBlock(book, items);
            Block(bits, p + 3, Kind(b), out) == Done(p + 3 + |BlockBody(b, p, out)|, BlockOut(b, p, out))
  {
    hide At, Stored, Codes, StoredBits, ItemsOk, ItemsBits, ExpandItems, BookBits, CodesOk, Aligned, ReadHeader,
         LitLens, DistLens;
    var w := BookBits(book);
    AtSplit(bits, p + 3, w, ItemsBits(LitLens(book), DistLens(book), items, out));
    ReadsBook(bits, p + 3, book);
    ReadsItems(LitLens(book), DistLens(book), bits, p + 3 + |w|, items, out);
  }

  lemma ReadsBody(bits: seq<Bit>, b: BlockOf, p: nat, out: seq<Byte>)
    requires BlockOk(b, p, out) && At(bits, p + 3, BlockBody(b, p, out))
    ensures Block(bits, p + 3, Kind(b), out) == Done(p + 3 + |BlockBody(b, p, out)|, BlockOut(b, p, out))
  {
    hide At, Stored, Codes, StoredBits, ItemsOk, ItemsBits, ExpandItems, BookBits, CodesOk, Aligned, Deflate.Dynamic,
         ReadHeader, LitLens, DistLens;
    match b
    case StoredBlock(pad, data) => ReadsStored(bits, p + 3, pad, data, out);
    case FixedBlock(items) => ReadsItems(FixedLit(), FixedDist(), bits, p + 3, items, out);
    case DynamicBlock(book, items) => ReadsDynamic(bits, book, items, p, out);
  }

  /* ---- streams ---- */

  ghost predicate StreamOk(blocks: seq<BlockOf>, p: nat, out: seq<Byte>)
    decreases |blocks|
  {
    |blocks| > 0 && BlockOk(blocks[0], p, out)
    && (|blocks| == 1
        || StreamOk(blocks[1..], p + |BlockBits(blocks[0], false, p, out)|, BlockOut(blocks[0], p, out)))
  }

  /** The blocks' bits, the last block marked as such. */
  ghost function StreamBits(blocks: seq<BlockOf>, p: nat, out: seq<Byte>): seq<Bit>
    requires StreamOk(blocks, p, out)
    decreases |blocks|
  {
    hide BlockOk, BlockBits, BlockOut;
    if |blocks| == 1 then BlockBits(blocks[0], true, p, out)
    else
      var w := BlockBits(blocks[0], false, p, out);
      w + StreamBits(blocks[1..], p + |w|, BlockOut(blocks[0], p, out))
  }

  /** The bytes the blocks stand for. */
  ghost function StreamOut(blocks: seq<BlockOf>, p: nat, out: seq<Byte>): seq<Byte>
    requires StreamOk(blocks, p, out)
    decreases |blocks|
  {
    hide BlockOk, BlockBits, BlockOut;
    if |blocks| == 1 then BlockOut(blocks[0], p, out)
    else StreamOut(blocks[1..], p + |BlockBits(blocks[0], false, p, out)|, BlockOut(blocks[0], p, out))
  }

  lemma ReadsBlock(bits: seq<Bit>, b: BlockOf, last: bool, p: nat, out: seq<Byte>)
    requires BlockOk(b, p, out) && At(bits, p, BlockBits(b, last, p, out))
    ensures var q, out1 := p + |BlockBits(b, last, p, out)|, BlockOut(b, p, out);
            Blocks(bits, p, out) == if last then Done(q, out1) else Blocks(bits, q, out1)
  {
    hide At, BlockOk, BlockBody, BlockOut, Block, Lsb, Value;
    var bit, body := if last then 1 else 0, BlockBody(b, p, out);
    assert Pow2(1) == 2 && Pow2(2) == 4;
    AtInside(bits, p, BlockBits(b, last, p, out));
    AtSplit(bits, p, Lsb(bit, 1), Lsb(Kind(b), 2) + body);
    AtSplit(bits, p + 1, Lsb(Kind(b), 2), body);
    ReadsLsb(bits, p, bit, 1);
    FirstBit(bits, p);
    ReadsLsb(bits, p + 1, Kind(b), 2);
    ReadsBody(bits, b, p, out);
  }

  lemma FirstBit(bits: seq<Bit>, p: nat)
    requires p < |bits|
    ensures Value(bits, p, 1) == bits[p]
  {
    assert Value(bits, p + 1, 0) == 0;
  }

  /** Reading a stream gives back what it was written for. */
  lemma {:induction false} ReadsStream(bits: seq<Bit>, blocks: seq<BlockOf>, p: nat, out: seq<Byte>)
    requires StreamOk(blocks, p, out) && At(bits, p, StreamBits(blocks, p, out))
    ensures Blocks(bits, p, out) == Done(p + |StreamBits(blocks, p, out)|, StreamOut(blocks, p, out))
    decreases |blocks|
  {
    hide At, BlockOk, BlockBits, BlockOut, Blocks;
    if |blocks| == 1 {
      ReadsBlock(bits, blocks[0], true, p, out);
    } else {
      var w := BlockBits(blocks[0], false, p, out);
      var q, out1 := p + |w|, BlockOut(blocks[0], p, out);
      AtSplit(bits, p, w, StreamBits(blocks[1..], q, out1));
      ReadsBlock(bits, blocks[0], false, p, out);
      ReadsStream(bits, blocks[1..], q, out1);
    }
  }

  /* ---- bytes ---- */

  /** Bits packed into bytes, the last one filled up with zeros. */
  function Pack(w: seq<Bit>): (s: seq<Byte>)
    ensures 8 * |s| >= |w|
    decreases |w|
  {
    if |w| == 0 then []
    else
      var b := if |w| >= 8 then w[..8] else w + seq(8 - |w|, _ => 0);
      ValueBound(b, 0, 8);
      assert Pow2(8) == 256;
      [Value(b, 0, 8)] + Pack(if |w| >= 8 then w[8..] else [])
  }
}
