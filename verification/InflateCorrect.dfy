/** inflate_raw undoes the reference encoder. */
module InflateCorrect {
  import opened Bits
  import opened Huffman
  import opened Deflate
  import opened DeflateEncode
  import opened Inflate
  import opened Utf8

  lemma {:induction false} ShrOfHalf(v: nat, k: nat)
    requires k > 0
    ensures Shr(v, k) == Shr(v / 2, k - 1)
  {
    if k > 1 { ShrOfHalf(v, k - 1); }
  }

  /** A number made of bits has those bits. */
  lemma {:induction false} BitOfValue(b: seq<Bit>, p: nat, n: nat, k: nat)
    requires p + n <= |b| && k < n
    ensures Shr(Value(b, p, n), k) % 2 == b[p + k]
    decreases n
  {
    var v := Value(b, p, n);
    assert v == b[p] + 2 * Value(b, p + 1, n - 1);
    if k == 0 {
      assert Shr(v, 0) == v;
    } else {
      ShrOfHalf(v, k);
      BitOfValue(b, p + 1, n - 1, k - 1);
    }
  }

  lemma {:induction false} PackedBit(w: seq<Bit>, j: nat)
    requires j < |w|
    ensures BitsOf(Pack(w))[j] == w[j]
    decreases |w|
  {
    hide Shr, Value;
    var s := Pack(w);
    var b := if |w| >= 8 then w[..8] else w + seq(8 - |w|, _ => 0);
    if j < 8 {
      BitOfValue(b, 0, 8, j);
      assert j / 8 == 0 && j % 8 == j;
      assert s[0] == Value(b, 0, 8);
    } else {
      PackedBit(w[8..], j - 8);
      assert s[1..] == Pack(w[8..]);
      var i := j - 8;
      assert j / 8 == i / 8 + 1 && j % 8 == i % 8;
      assert s[j / 8] == s[1..][i / 8];
    }
  }

  /** Packed bits stand at the start of the bytes' bits. */
  lemma PackedAt(w: seq<Bit>)
    ensures At(BitsOf(Pack(w)), 0, w)
  {
    hide Pack, BitsOf;
    var bits := BitsOf(Pack(w));
    forall j | 0 <= j < |w| ensures bits[j] == w[j] { PackedBit(w, j); }
    assert bits[0..0 + |w|] == w;
  }

  /** What any valid list of blocks is written as, inflate_raw's meaning takes back to the bytes it stands for. */
  lemma InflateUndoesEncoding(blocks: seq<BlockOf>)
    requires StreamOk(blocks, 0, [])
    ensures var w := StreamBits(blocks, 0, []);
            Blocks(BitsOf(Pack(w)), 0, []) == Done(|w|, StreamOut(blocks, 0, []))
  {
    hide Pack, BitsOf, Blocks, StreamOk, At;
    var w := StreamBits(blocks, 0, []);
    PackedAt(w);
    ReadsStream(BitsOf(Pack(w)), blocks, 0, []);
  }

  /** So inflate_raw itself succeeds and sends exactly those bytes, whatever follows the stream in its input. */
  method InflateEncoded(inp: seq<Byte>, put: nat -> int, ghost blocks: seq<BlockOf>)
    returns (err: int, total: nat, sent: seq<Byte>)
    requires StreamOk(blocks, 0, []) && At(BitsOf(inp), 0, StreamBits(blocks, 0, []))
    requires forall k :: put(k) >= 0
    ensures err == 0 && sent == StreamOut(blocks, 0, []) && total == |sent|
  {
    hide Pack, BitsOf, Blocks, StreamOk, At;
    ReadsStream(BitsOf(inp), blocks, 0, []);
    err, total, sent := InflateRaw(inp, put);
  }
}
