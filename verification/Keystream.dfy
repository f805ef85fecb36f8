/** Which bytes of the keystream each part of an encrypted packet uses, and that none is used twice (mssh/mssh.c). */
module Keystream {
  import opened Bits
  import opened Utf8
  import opened Packets

  /* ---- numbers ---- */

  /** The most significant byte first (section 5 of RFC 4251), in the last four bytes of a nonce. */
  lemma BigEndian()
    ensures U32(0x0102_0304) == [1, 2, 3, 4] && MakeNonce(0x0102_0304) == [0, 0, 0, 0, 1, 2, 3, 4]
    ensures MAX_PKT == 35000 && MAX_SEQ == 4294967295
  {
  }

  /** A packet in the clear, spelt out: its length, its padding's, its payload and its padding. */
  lemma PlainPacket()
    ensures |Zeros(Padding(5 + 1))| < 256
    ensures PlainBytes(Packet([NEWKEYS], Zeros(Padding(5 + 1))))
            == [0, 0, 0, 12, 10, 21, 0, 0, 0, 0, 0, 0, 0, 0, 0, 0]
  {
  }

  lemma {:induction false} ShrHalf(n: nat, k: nat)
    requires k > 0
    ensures Shr(n, k) == Shr(n / 2, k - 1)
  {
    if k > 1 { ShrHalf(n, k - 1); }
  }

  /** A bit of the exclusive or is set if and only if it is set in exactly one of the two. */
  lemma {:induction false} XorBit(a: nat, b: nat, k: nat)
    ensures Shr(Xor(a, b), k) % 2 == 1 <==> (Shr(a, k) % 2 == 1) != (Shr(b, k) % 2 == 1)
    decreases k
  {
    hide Xor;
    XorUnfolds(a, b);
    if k > 0 {
      ShrHalf(a, k);
      ShrHalf(b, k);
      ShrHalf(Xor(a, b), k);
      XorBit(a / 2, b / 2, k - 1);
    }
  }

  lemma {:induction false} XorZero(a: nat)
    ensures Xor(0, a) == a
  {
    if a > 0 { XorZero(a / 2); }
  }

  /* ---- positions ---- */

  /** A byte of the keystream. */
  datatype Position = Position(key: seq<Byte>, nonce: seq<Byte>, block: nat, index: nat)

  /** What a packet needs such a byte for: its MAC key, its length and the rest of it. */
  datatype Use = ForMac(i: nat) | ForLength(i: nat) | ForBody(i: nat)

  predicate UseOk(u: Use) {
    (u.ForMac? ==> u.i < 32) && (u.ForLength? ==> u.i < 4)
  }

  /** The MAC key is the start of block 0 of the main key, the body is encrypted from its block 1 on, and the length
      with block 0 of the header key. */
  function At(key: Key, nonce: seq<Byte>, u: Use): Position {
    match u
    case ForMac(i) => Position(key.main, nonce, 0, i)
    case ForLength(i) => Position(key.header, nonce, 0, i)
    case ForBody(i) => Position(key.main, nonce, 1 + i / 64, i % 64)
  }

  function ByteAt(c: Cipher, p: Position): Byte {
    c.block(p.key, p.nonce, p.block, p.index)
  }

  /** The MAC key is the keystream itself. */
  function MacKey(c: Cipher, key: Key, nonce: seq<Byte>): seq<Byte> {
    seq<Byte>(32, i requires 0 <= i < 32 => ByteAt(c, At(key, nonce, ForMac(i))))
  }

  lemma PolyKeyIs(c: Cipher, key: Key, nonce: seq<Byte>)
    ensures PolyKey(c, nonce, key.main) == MacKey(c, key, nonce)
  {
    hide XorBytes;
    forall i | 0 <= i < 32 ensures PolyKey(c, nonce, key.main)[i] == MacKey(c, key, nonce)[i] {
      XorZero(Stream(c, key.main, nonce, 0, i));
      XorBytesIs(0, Stream(c, key.main, nonce, 0, i));
    }
  }

  /** An encrypted packet, byte by byte: these are the bytes of the keystream it uses, and no others. */
  lemma SealedIs(c: Cipher, key: Key, seqno: nat, p: Packet)
    requires |p.pad| < 256 && PacketLength(p) < SEQ_MODULUS && seqno < SEQ_MODULUS
    ensures var b, n, nonce := SealedBytes(c, key, seqno, p), PacketLength(p), [0, 0, 0, 0] + U32(seqno);
      && |b| == 4 + n + 16
      && (forall i: nat :: i < 4 ==> b[i] == XorBytes(U32(n)[i], ByteAt(c, At(key, nonce, ForLength(i)))))
      && (forall i: nat :: i < n ==>
            b[4 + i] == XorBytes(([|p.pad| as Byte] + p.payload + p.pad)[i], ByteAt(c, At(key, nonce, ForBody(i)))))
      && b[4 + n..] == c.mac(MacKey(c, key, nonce), b[..4 + n])
  {
    hide XorBytes, U32, PolyKey, MacKey;
    var b, n, nonce := SealedBytes(c, key, seqno, p), PacketLength(p), [0, 0, 0, 0] + U32(seqno);
    PolyKeyIs(c, key, nonce);
    assert nonce == MakeNonce(seqno);
    var head, body := Crypt(c, U32(n), nonce, 0, key.header), Crypt(c, Body(p), nonce, 1, key.main);
    assert b[..4 + n] == head + body;
    assert forall i: nat :: i < n ==> b[4 + i] == body[i];
  }

  /** No byte of the keystream has two uses in a packet, unless the two halves of the key are the same: then its length
      is encrypted with the start of the MAC key. */
  lemma OneUse(key: Key, nonce: seq<Byte>, u: Use, v: Use)
    requires UseOk(u) && UseOk(v) && u != v
    ensures At(key, nonce, u) == At(key, nonce, v)
            <==> key.main == key.header && u.i == v.i && (u.ForMac? || u.ForLength?) && (v.ForMac? || v.ForLength?)
  {
    if u.ForBody? && v.ForBody? { assert u.i == u.i / 64 * 64 + u.i % 64 && v.i == v.i / 64 * 64 + v.i % 64; }
  }

  /** In no run does a byte of the keystream of one key epoch serve twice, in one packet or in two. */
  lemma NoByteTwice(c: Cipher, keys: nat -> Key, strict: bool, events: seq<Event>, i: nat, j: nat, u: Use, v: Use)
    requires i < |Run(c, keys, strict, events).nonces| && j < |Run(c, keys, strict, events).nonces|
    requires UseOk(u) && UseOk(v) && (i != j || u != v)
    requires var ns := Run(c, keys, strict, events).nonces;
      ns[i].0 == ns[j].0 && keys(ns[i].0).main != keys(ns[i].0).header
    ensures var ns := Run(c, keys, strict, events).nonces; var key := keys(ns[i].0);
      At(key, ns[i].1, u) != At(key, ns[j].1, v)
  {
    hide Run;
    if i < j {
      NoNonceTwice(c, keys, strict, events, i, j);
    } else if j < i {
      NoNonceTwice(c, keys, strict, events, j, i);
    } else {
      OneUse(keys(Run(c, keys, strict, events).nonces[i].0), Run(c, keys, strict, events).nonces[i].1, u, v);
    }
  }

  /** The nonces of a run are those its packets are encrypted with: each packet sent under a key adds its own. */
  lemma NonceOfEach(c: Cipher, keys: nat -> Key, strict: bool, events: seq<Event>, p: Packet)
    requires var l := Run(c, keys, strict, events); MaySend(l.sender) && PacketOk(l.sender, p) && l.sender.epoch > 0
    ensures var l, r := Run(c, keys, strict, events), Run(c, keys, strict, events + [Send(p)]);
      && r.nonces == l.nonces + [(l.sender.epoch, [0, 0, 0, 0] + U32(l.sender.seqno))]
      && |p.pad| < 256 && r.wire == l.wire + SealedBytes(c, keys(l.sender.epoch), l.sender.seqno, p)
  {
    hide SealedBytes, After, InStep, NoncesFresh, U32;
    assert (events + [Send(p)])[..|events|] == events;
    PaddingAligns(1 + |p.payload|);
  }
}
