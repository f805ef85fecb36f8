/** SSH packets: framing, encryption and sequence numbers of one direction of a connection (mssh/mssh.c). */
module Packets {
  import opened Bits
  import opened Utf8

  const MAX_PKT := 35000
  const MAX_SEQ := 0xFFFF_FFFF
  const SEQ_MODULUS := 0x1_0000_0000
  const NEWKEYS: Byte := 21

  type Tag = t: seq<Byte> | |t| == 16 witness seq(16, _ => 0)

  /** A 64-byte key: its first half is K_main, its second K_header. */
  datatype Key = Key(main: seq<Byte>, header: seq<Byte>)

  /** ChaCha20 (key, nonce, number of a block of 64 bytes, index of a byte in it) and Poly1305 (key, message), of which
      nothing is assumed. */
  datatype Cipher = Cipher(block: (seq<Byte>, seq<Byte>, nat, nat) -> Byte, mac: (seq<Byte>, seq<Byte>) -> Tag)

  /** Byte i of the keystream from block ic on. */
  function Stream(c: Cipher, key: seq<Byte>, nonce: seq<Byte>, ic: nat, i: nat): Byte {
    c.block(key, nonce, ic + i / 64, i % 64)
  }

  /* ---- numbers ---- */

  function U32(n: nat): (b: seq<Byte>)
    requires n < SEQ_MODULUS
    ensures |b| == 4
  {
    [n / 0x100_0000, n / 0x1_0000 % 256, n / 0x100 % 256, n % 256]
  }

  function ReadU32(b: seq<Byte>): (n: nat)
    requires |b| >= 4
    ensures n < SEQ_MODULUS
  {
    var b0: nat, b1: nat, b2: nat, b3: nat := b[0], b[1], b[2], b[3];
    b0 * 0x100_0000 + b1 * 0x1_0000 + b2 * 0x100 + b3
  }

  lemma ReadsU32(n: nat, rest: seq<Byte>)
    requires n < SEQ_MODULUS
    ensures ReadU32(U32(n) + rest) == n
  {
    hide U32, ReadU32;
    var a, b := n / 0x100, n / 0x1_0000;
    assert n == 0x100 * a + n % 0x100 && a == 0x100 * b + a % 0x100 && b == 0x100 * (n / 0x100_0000) + b % 0x100;
    assert n / 0x100 % 256 == a % 0x100 && n / 0x1_0000 % 256 == b % 0x100;
    U32Digits(n, rest);
  }

  lemma U32Digits(n: nat, rest: seq<Byte>)
    requires n < SEQ_MODULUS
    ensures ReadU32(U32(n) + rest) == n / 0x100_0000 * 0x100_0000 + n / 0x1_0000 % 256 * 0x1_0000
            + n / 0x100 % 256 * 0x100 + n % 256
  {
  }

  /** make_nonce. */
  function MakeNonce(n: nat): (b: seq<Byte>)
    requires n < SEQ_MODULUS
    ensures |b| == 8
  {
    [0, 0, 0, 0] + U32(n)
  }

  lemma NonceInjective(m: nat, n: nat)
    requires m < SEQ_MODULUS && n < SEQ_MODULUS && MakeNonce(m) == MakeNonce(n)
    ensures m == n
  {
    assert MakeNonce(m)[4..] == U32(m) && MakeNonce(n)[4..] == U32(n);
    ReadsU32(m, []);
    ReadsU32(n, []);
    assert U32(m) + [] == U32(m) && U32(n) + [] == U32(n);
  }

  /* ---- exclusive or ---- */

  lemma {:induction false} XorBound(a: nat, b: nat, n: nat)
    requires a < Pow2(n) && b < Pow2(n)
    ensures Xor(a, b) < Pow2(n)
    decreases n
  {
    if n > 0 { XorBound(a / 2, b / 2, n - 1); }
  }

  lemma {:induction false} XorTwice(a: nat, b: nat)
    ensures Xor(Xor(a, b), b) == a
    decreases a + b
  {
    if a > 0 || b > 0 {
      var x, y := Xor(a, b), Xor(a / 2, b / 2);
      XorTwice(a / 2, b / 2);
      assert x / 2 == y && x % 2 == (a + b) % 2;
      ParityTwice(a, b, x);
      XorUnfolds(x, b);
    }
  }

  lemma ParityTwice(a: nat, b: nat, x: nat)
    requires x % 2 == (a + b) % 2
    ensures (x + b) % 2 == a % 2
  {
  }

  lemma XorUnfolds(a: nat, b: nat)
    ensures Xor(a, b) == (a + b) % 2 + 2 * Xor(a / 2, b / 2)
  {
    if a == 0 && b == 0 { assert Xor(0, 0) == 0; }
  }

  function XorBytes(a: Byte, b: Byte): (x: Byte) {
    assert Pow2(8) == 256;
    XorBound(a, b, 8);
    Xor(a, b)
  }

  lemma XorBytesIs(a: Byte, b: Byte)
    ensures XorBytes(a, b) == Xor(a, b)
  {
  }

  /** crypto_stream_chacha20_xor_ic. */
  function Crypt(c: Cipher, data: seq<Byte>, nonce: seq<Byte>, ic: nat, key: seq<Byte>): (r: seq<Byte>)
    ensures |r| == |data|
  {
    seq<Byte>(|data|, i requires 0 <= i < |data| => XorBytes(data[i], Stream(c, key, nonce, ic, i)))
  }

  lemma CryptUndone(c: Cipher, data: seq<Byte>, nonce: seq<Byte>, ic: nat, key: seq<Byte>)
    ensures Crypt(c, Crypt(c, data, nonce, ic, key), nonce, ic, key) == data
  {
    hide XorBytes, Stream;
    var e := Crypt(c, data, nonce, ic, key);
    forall i | 0 <= i < |data| ensures Crypt(c, e, nonce, ic, key)[i] == data[i] {
      XorTwice(data[i], Stream(c, key, nonce, ic, i));
      XorBytesIs(e[i], Stream(c, key, nonce, ic, i));
      XorBytesIs(data[i], Stream(c, key, nonce, ic, i));
    }
  }

  function PolyKey(c: Cipher, nonce: seq<Byte>, key: seq<Byte>): seq<Byte> {
    Crypt(c, Zeros(64), nonce, 0, key)[..32]
  }

  /* ---- packets ---- */

  function Zeros(n: nat): (z: seq<Byte>)
    ensures |z| == n
  {
    seq<Byte>(n, _ => 0)
  }

  /** Padding after `used` bytes. */
  function Padding(used: nat): nat {
    var pad := 8 - used % 8;
    if pad < 4 then pad + 8 else pad
  }

  /** Section 6 of RFC 4253: at least four bytes of padding, at most 255, and the whole a multiple of eight. */
  lemma PaddingAligns(used: nat)
    ensures 4 <= Padding(used) <= 11 && (used + Padding(used)) % 8 == 0
  {
  }

  /** A payload as it is framed; the padding bytes of an encrypted packet are random. */
  datatype Packet = Packet(payload: seq<Byte>, pad: seq<Byte>)

  ghost predicate Framed(p: Packet, used: nat) {
    |p.pad| == Padding(used + |p.payload|) && 1 + |p.payload| + |p.pad| < SEQ_MODULUS
  }

  function PacketLength(p: Packet): nat {
    1 + |p.payload| + |p.pad|
  }

  function Body(p: Packet): (b: seq<Byte>)
    requires |p.pad| < 256
    ensures |b| == PacketLength(p)
  {
    var pad: Byte := |p.pad|;
    [pad] + p.payload + p.pad
  }

  function PlainBytes(p: Packet): (b: seq<Byte>)
    requires |p.pad| < 256 && PacketLength(p) < SEQ_MODULUS
  {
    U32(PacketLength(p)) + Body(p)
  }

  function SealedBytes(c: Cipher, key: Key, seqno: nat, p: Packet): (b: seq<Byte>)
    requires |p.pad| < 256 && PacketLength(p) < SEQ_MODULUS && seqno < SEQ_MODULUS
  {
    var nonce := MakeNonce(seqno);
    var front := Crypt(c, U32(PacketLength(p)), nonce, 0, key.header) + Crypt(c, Body(p), nonce, 1, key.main);
    front + c.mac(PolyKey(c, nonce, key.main), front)
  }

  /** What the receiver makes of the bytes that come in; the program ends on what it does not accept. */
  datatype Received = Got(payload: seq<Byte>, rest: seq<Byte>) | Died

  /** The payload in a packet's body. */
  function Unpad(body: seq<Byte>, rest: seq<Byte>): Received
    requires |body| > 0
  {
    if body[0] < 4 || body[0] > |body| - 1 then Died else Got(body[1..|body| - body[0]], rest)
  }

  /** pkt_recv_plain. */
  function ReceivePlain(input: seq<Byte>): Received {
    if |input| < 5 then Died
    else
      var n := ReadU32(input);
      if n == 0 || n > MAX_PKT then Died
      else if input[4] < 4 || input[4] > n - 1 then Died
      else if |input| < 4 + n then Died
      else Unpad(input[4..4 + n], input[4 + n..])
  }

  /** pkt_recv_enc. */
  function ReceiveSealed(c: Cipher, key: Key, seqno: nat, input: seq<Byte>): Received
    requires seqno < SEQ_MODULUS
  {
    if |input| < 4 then Died
    else
      var nonce := MakeNonce(seqno);
      var n := ReadU32(Crypt(c, input[..4], nonce, 0, key.header));
      if n == 0 || n > MAX_PKT || |input| < 4 + n + 16 then Died
      else if c.mac(PolyKey(c, nonce, key.main), input[..4 + n]) != input[4 + n..4 + n + 16] then Died
      else Unpad(Crypt(c, input[4..4 + n], nonce, 1, key.main), input[4 + n + 16..])
  }

  lemma UnpadBody(p: Packet, rest: seq<Byte>)
    requires 4 <= |p.pad| < 256
    ensures Unpad(Body(p), rest) == Got(p.payload, rest)
  {
    assert Body(p)[1..1 + |p.payload|] == p.payload;
  }

  lemma PlainRoundTrip(p: Packet, rest: seq<Byte>)
    requires Framed(p, 5) && PacketLength(p) <= MAX_PKT
    ensures |p.pad| < 256 && ReceivePlain(PlainBytes(p) + rest) == Got(p.payload, rest)
  {
    hide U32, ReadU32;
    PaddingAligns(5 + |p.payload|);
    var n := PacketLength(p);
    var input := PlainBytes(p) + rest;
    assert input == U32(n) + (Body(p) + rest);
    ReadsU32(n, Body(p) + rest);
    assert input[4..4 + n] == Body(p) && input[4 + n..] == rest;
    UnpadBody(p, rest);
  }

  /** Encrypted with the receiver's key and sequence number, a packet is taken in whole, whatever the cipher is. */
  lemma SealedRoundTrip(c: Cipher, key: Key, seqno: nat, p: Packet, rest: seq<Byte>)
    requires Framed(p, 1) && PacketLength(p) <= MAX_PKT && seqno < SEQ_MODULUS
    ensures |p.pad| < 256 && ReceiveSealed(c, key, seqno, SealedBytes(c, key, seqno, p) + rest) == Got(p.payload, rest)
  {
    hide U32, ReadU32, Crypt, PolyKey, MakeNonce, Unpad, Body;
    PaddingAligns(1 + |p.payload|);
    var n, nonce := PacketLength(p), MakeNonce(seqno);
    var head, body := Crypt(c, U32(n), nonce, 0, key.header), Crypt(c, Body(p), nonce, 1, key.main);
    var tag := c.mac(PolyKey(c, nonce, key.main), head + body);
    var input := SealedBytes(c, key, seqno, p) + rest;
    assert input == head + body + tag + rest;
    assert input[..4] == head && input[..4 + n] == head + body;
    assert input[4..4 + n] == body && input[4 + n..4 + n + 16] == tag && input[4 + n + 16..] == rest;
    CryptUndone(c, U32(n), nonce, 0, key.header);
    CryptUndone(c, Body(p), nonce, 1, key.main);
    ReadsU32(n, []);
    assert U32(n) + [] == U32(n);
    UnpadBody(p, rest);
  }

  /* ---- one end of a direction ---- */

  /** A sequence number and the number of key exchanges behind it; nothing is encrypted before the first. */
  datatype End = End(seqno: nat, epoch: nat)

  ghost predicate EndOk(e: End) {
    e.seqno < SEQ_MODULUS
  }

  predicate IsNewKeys(payload: seq<Byte>) {
    |payload| > 0 && payload[0] == NEWKEYS
  }

  /** After a packet: NEWKEYS, itself still under the old keys, brings in the next ones, and strict key exchange starts
      to count anew. */
  function After(strict: bool, e: End, payload: seq<Byte>): (r: End)
    ensures r.seqno < SEQ_MODULUS
  {
    var next := (e.seqno + 1) % SEQ_MODULUS;
    if IsNewKeys(payload) then End(if strict then 0 else next, e.epoch + 1) else End(next, e.epoch)
  }

  ghost predicate PacketOk(e: End, p: Packet) {
    Framed(p, if e.epoch == 0 then 5 else 1)
  }

  /** The packet on the wire. */
  function WireBytes(c: Cipher, keys: nat -> Key, e: End, p: Packet): seq<Byte>
    requires EndOk(e) && PacketOk(e, p)
  {
    PaddingAligns((if e.epoch == 0 then 5 else 1) + |p.payload|);
    if e.epoch == 0 then PlainBytes(p) else SealedBytes(c, keys(e.epoch), e.seqno, p)
  }

  function Receive(c: Cipher, keys: nat -> Key, e: End, input: seq<Byte>): Received
    requires EndOk(e)
  {
    if e.epoch == 0 then ReceivePlain(input) else ReceiveSealed(c, keys(e.epoch), e.seqno, input)
  }

  /** An encrypted packet is refused rather than sent under the last sequence number. */
  predicate MaySend(e: End) {
    e.epoch == 0 || e.seqno < MAX_SEQ
  }

  lemma ReceivesSent(c: Cipher, keys: nat -> Key, e: End, p: Packet, rest: seq<Byte>)
    requires EndOk(e) && PacketOk(e, p) && PacketLength(p) <= MAX_PKT
    ensures Receive(c, keys, e, WireBytes(c, keys, e, p) + rest) == Got(p.payload, rest)
  {
    hide PlainBytes, SealedBytes, ReceivePlain, ReceiveSealed;
    if e.epoch == 0 { PlainRoundTrip(p, rest); } else { SealedRoundTrip(c, keys(e.epoch), e.seqno, p, rest); }
  }

  /* ---- both ends, and the wire between ---- */

  /** `flight` are the packets sent and not yet received, `nonces` all those that were ever used to encrypt, with their
      epoch. */
  datatype Link = Link(sender: End, receiver: End, wire: seq<Byte>, flight: seq<Packet>,
                       sent: seq<seq<Byte>>, received: seq<seq<Byte>>, nonces: seq<(nat, seq<Byte>)>)

  datatype Event = Send(packet: Packet) | Take

  const START := Link(End(0, 0), End(0, 0), [], [], [], [], [])

  /** One step; a step that ends the program changes nothing more. */
  ghost function Next(c: Cipher, keys: nat -> Key, strict: bool, l: Link, ev: Event): Link
    requires EndOk(l.sender) && EndOk(l.receiver)
  {
    match ev
    case Send(p) =>
      if !MaySend(l.sender) || !PacketOk(l.sender, p) then l
      else l.(sender := After(strict, l.sender, p.payload), wire := l.wire + WireBytes(c, keys, l.sender, p),
              flight := l.flight + [p], sent := l.sent + [p.payload],
              nonces := if l.sender.epoch == 0 then l.nonces
                else l.nonces + [(l.sender.epoch, MakeNonce(l.sender.seqno))])
    case Take =>
      match Receive(c, keys, l.receiver, l.wire)
      case Died => l
      case Got(payload, rest) =>
        l.(receiver := After(strict, l.receiver, payload), wire := rest,
           flight := if |l.flight| > 0 then l.flight[1..] else [], received := l.received + [payload])
  }

  function Payloads(flight: seq<Packet>): (r: seq<seq<Byte>>)
    ensures |r| == |flight|
  {
    seq(|flight|, i requires 0 <= i < |flight| => flight[i].payload)
  }

  /** The end after all of these packets. */
  function AfterAll(strict: bool, e: End, flight: seq<Packet>): (r: End)
    ensures e.seqno < SEQ_MODULUS ==> r.seqno < SEQ_MODULUS
    decreases |flight|
  {
    if |flight| == 0 then e else AfterAll(strict, After(strict, e, flight[0].payload), flight[1..])
  }

  ghost predicate FlightOk(strict: bool, e: End, flight: seq<Packet>)
    decreases |flight|
  {
    |flight| == 0 || (PacketOk(e, flight[0]) && FlightOk(strict, After(strict, e, flight[0].payload), flight[1..]))
  }

  function FlightBytes(c: Cipher, keys: nat -> Key, strict: bool, e: End, flight: seq<Packet>): seq<Byte>
    requires EndOk(e) && FlightOk(strict, e, flight)
    decreases |flight|
  {
    if |flight| == 0 then []
    else
      WireBytes(c, keys, e, flight[0])
      + FlightBytes(c, keys, strict, After(strict, e, flight[0].payload), flight[1..])
  }

  lemma {:induction false} FlightSnoc(c: Cipher, keys: nat -> Key, strict: bool, e: End, flight: seq<Packet>, p: Packet)
    requires EndOk(e) && FlightOk(strict, e, flight) && PacketOk(AfterAll(strict, e, flight), p)
    ensures FlightOk(strict, e, flight + [p])
    ensures AfterAll(strict, e, flight + [p]) == After(strict, AfterAll(strict, e, flight), p.payload)
    ensures FlightBytes(c, keys, strict, e, flight + [p])
            == FlightBytes(c, keys, strict, e, flight) + WireBytes(c, keys, AfterAll(strict, e, flight), p)
    decreases |flight|
  {
    hide After, PacketOk, WireBytes;
    if |flight| == 0 {
      assert flight + [p] == [p] && [p][1..] == [];
    } else {
      assert (flight + [p])[1..] == flight[1..] + [p];
      FlightSnoc(c, keys, strict, After(strict, e, flight[0].payload), flight[1..], p);
    }
  }

  /** What holds of both ends and the wire after any run. */
  ghost predicate InStep(c: Cipher, keys: nat -> Key, strict: bool, l: Link) {
    && EndOk(l.sender) && EndOk(l.receiver)
    && FlightOk(strict, l.receiver, l.flight)
    && l.wire == FlightBytes(c, keys, strict, l.receiver, l.flight)
    && l.sender == AfterAll(strict, l.receiver, l.flight)
    && l.sent == l.received + Payloads(l.flight)
  }

  /** No nonce of the current keys has been used that the sequence number has not passed, and none twice. */
  ghost predicate NoncesFresh(l: Link) {
    && EndOk(l.sender)
    && (forall i :: 0 <= i < |l.nonces| ==> NonceBefore(l.nonces[i], l.sender))
    && forall i, j :: 0 <= i < j < |l.nonces| ==> l.nonces[i] != l.nonces[j]
  }

  ghost predicate NonceBefore(n: (nat, seq<Byte>), e: End) {
    n.0 < e.epoch || (n.0 == e.epoch && exists s: nat :: s < e.seqno && s < SEQ_MODULUS && n.1 == MakeNonce(s))
  }

  lemma NextSendKeeps(c: Cipher, keys: nat -> Key, strict: bool, l: Link, p: Packet)
    requires InStep(c, keys, strict, l)
    ensures InStep(c, keys, strict, Next(c, keys, strict, l, Send(p)))
  {
    hide After, PacketOk, WireBytes, AfterAll, FlightOk, FlightBytes;
    if MaySend(l.sender) && PacketOk(l.sender, p) {
      FlightSnoc(c, keys, strict, l.receiver, l.flight, p);
      assert Payloads(l.flight + [p]) == Payloads(l.flight) + [p.payload];
      assert l.received + (Payloads(l.flight) + [p.payload]) == l.received + Payloads(l.flight) + [p.payload];
    }
  }

  lemma FlightHead(c: Cipher, keys: nat -> Key, strict: bool, e: End, flight: seq<Packet>)
    requires EndOk(e) && FlightOk(strict, e, flight) && |flight| > 0
    ensures PacketOk(e, flight[0]) && FlightOk(strict, After(strict, e, flight[0].payload), flight[1..])
    ensures AfterAll(strict, e, flight) == AfterAll(strict, After(strict, e, flight[0].payload), flight[1..])
    ensures FlightBytes(c, keys, strict, e, flight)
            == WireBytes(c, keys, e, flight[0])
              + FlightBytes(c, keys, strict, After(strict, e, flight[0].payload), flight[1..])
  {
    hide After, PacketOk, WireBytes;
  }

  lemma NothingReceived(c: Cipher, keys: nat -> Key, e: End)
    requires EndOk(e)
    ensures Receive(c, keys, e, []) == Died
  {
  }

  /** A packet that is longer than the receiver accepts ends the program there. */
  lemma TooLong(c: Cipher, keys: nat -> Key, e: End, p: Packet, rest: seq<Byte>)
    requires EndOk(e) && PacketOk(e, p) && PacketLength(p) > MAX_PKT
    ensures Receive(c, keys, e, WireBytes(c, keys, e, p) + rest) == Died
  {
    hide U32, ReadU32, Crypt, PolyKey, Body;
    PaddingAligns((if e.epoch == 0 then 5 else 1) + |p.payload|);
    var n := PacketLength(p);
    if e.epoch == 0 {
      assert PlainBytes(p) + rest == U32(n) + (Body(p) + rest);
      ReadsU32(n, Body(p) + rest);
    } else {
      var key, nonce := keys(e.epoch), MakeNonce(e.seqno);
      var head := Crypt(c, U32(n), nonce, 0, key.header);
      assert (WireBytes(c, keys, e, p) + rest)[..4] == head;
      CryptUndone(c, U32(n), nonce, 0, key.header);
      ReadsU32(n, []);
      assert U32(n) + [] == U32(n);
    }
  }

  lemma NextTakeKeeps(c: Cipher, keys: nat -> Key, strict: bool, l: Link)
    requires InStep(c, keys, strict, l)
    ensures InStep(c, keys, strict, Next(c, keys, strict, l, Take))
  {
    hide After, PacketOk, WireBytes, AfterAll, FlightOk, FlightBytes, Receive;
    if |l.flight| == 0 {
      assert l.wire == [] by { EmptyFlight(c, keys, strict, l.receiver, l.flight); }
      NothingReceived(c, keys, l.receiver);
    } else {
      var p, rest := l.flight[0], l.flight[1..];
      FlightHead(c, keys, strict, l.receiver, l.flight);
      var bytes := FlightBytes(c, keys, strict, After(strict, l.receiver, p.payload), rest);
      if PacketLength(p) > MAX_PKT {
        TooLong(c, keys, l.receiver, p, bytes);
      } else {
        ReceivesSent(c, keys, l.receiver, p, bytes);
        assert Payloads(l.flight) == [p.payload] + Payloads(rest);
        assert l.received + ([p.payload] + Payloads(rest)) == l.received + [p.payload] + Payloads(rest);
      }
    }
  }

  lemma EmptyFlight(c: Cipher, keys: nat -> Key, strict: bool, e: End, flight: seq<Packet>)
    requires EndOk(e) && FlightOk(strict, e, flight) && flight == []
    ensures FlightBytes(c, keys, strict, e, flight) == [] && AfterAll(strict, e, flight) == e
  {
  }

  lemma NonceStaysBefore(strict: bool, n: (nat, seq<Byte>), e: End, payload: seq<Byte>)
    requires EndOk(e) && NonceBefore(n, e) && MaySend(e)
    ensures e.epoch > 0 ==> NonceBefore(n, After(strict, e, payload))
  {
    if e.epoch > 0 && n.0 == e.epoch && !IsNewKeys(payload) {
      var s: nat :| s < e.seqno && s < SEQ_MODULUS && n.1 == MakeNonce(s);
      assert s < After(strict, e, payload).seqno;
    }
  }

  /** Before the first key exchange nothing is encrypted. */
  ghost predicate NothingEarly(l: Link) {
    (forall i :: 0 <= i < |l.nonces| ==> l.nonces[i].0 > 0) && (l.sender.epoch == 0 ==> l.nonces == [])
  }

  lemma NextKeepsNonces(c: Cipher, keys: nat -> Key, strict: bool, l: Link, ev: Event)
    requires InStep(c, keys, strict, l) && NoncesFresh(l) && NothingEarly(l)
    ensures NoncesFresh(Next(c, keys, strict, l, ev)) && NothingEarly(Next(c, keys, strict, l, ev))
  {
    hide MakeNonce, PacketOk, WireBytes, AfterAll, FlightOk, FlightBytes, Receive, NonceBefore, After;
    var r := Next(c, keys, strict, l, ev);
    AfterEpoch(strict, l.sender, if ev.Send? then ev.packet.payload else []);
    if ev.Send? && r != l && l.sender.epoch > 0 {
      var e, used := l.sender, (l.sender.epoch, MakeNonce(l.sender.seqno));
      forall i | 0 <= i < |l.nonces| ensures NonceBefore(l.nonces[i], r.sender) && l.nonces[i] != used {
        NonceStaysBefore(strict, l.nonces[i], e, ev.packet.payload);
        NonceIsNew(l.nonces[i], e);
      }
      NewNonceBefore(strict, e, ev.packet.payload);
    }
  }

  lemma AfterEpoch(strict: bool, e: End, payload: seq<Byte>)
    ensures After(strict, e, payload).epoch >= e.epoch && EndOk(After(strict, e, payload))
  {
  }

  lemma NonceIsNew(n: (nat, seq<Byte>), e: End)
    requires EndOk(e) && NonceBefore(n, e)
    ensures n != (e.epoch, MakeNonce(e.seqno))
  {
    hide MakeNonce;
    if n == (e.epoch, MakeNonce(e.seqno)) {
      var s: nat :| s < e.seqno && s < SEQ_MODULUS && n.1 == MakeNonce(s);
      NonceInjective(s, e.seqno);
    }
  }

  lemma NewNonceBefore(strict: bool, e: End, payload: seq<Byte>)
    requires EndOk(e) && MaySend(e) && e.epoch > 0
    ensures NonceBefore((e.epoch, MakeNonce(e.seqno)), After(strict, e, payload))
  {
    hide MakeNonce;
  }

  /* ---- runs ---- */

  ghost function Run(c: Cipher, keys: nat -> Key, strict: bool, events: seq<Event>): (l: Link)
    ensures InStep(c, keys, strict, l) && NoncesFresh(l) && NothingEarly(l)
    decreases |events|
  {
    hide InStep, NoncesFresh, NothingEarly, Next;
    if |events| == 0 then
      Starts(c, keys, strict);
      START
    else
      var l, ev := Run(c, keys, strict, events[..|events| - 1]), events[|events| - 1];
      InStepEnds(c, keys, strict, l);
      NextKeeps(c, keys, strict, l, ev);
      Next(c, keys, strict, l, ev)
  }

  lemma InStepEnds(c: Cipher, keys: nat -> Key, strict: bool, l: Link)
    requires InStep(c, keys, strict, l)
    ensures EndOk(l.sender) && EndOk(l.receiver)
  {
  }

  lemma Starts(c: Cipher, keys: nat -> Key, strict: bool)
    ensures InStep(c, keys, strict, START) && NoncesFresh(START) && NothingEarly(START)
  {
    assert Payloads([]) == [];
  }

  lemma NextKeeps(c: Cipher, keys: nat -> Key, strict: bool, l: Link, ev: Event)
    requires InStep(c, keys, strict, l) && NoncesFresh(l) && NothingEarly(l)
    ensures var r := Next(c, keys, strict, l, ev); InStep(c, keys, strict, r) && NoncesFresh(r) && NothingEarly(r)
  {
    hide InStep, NoncesFresh, NothingEarly, Next;
    InStepEnds(c, keys, strict, l);
    NextKeepsNonces(c, keys, strict, l, ev);
    match ev
    case Send(p) => NextSendKeeps(c, keys, strict, l, p);
    case Take => NextTakeKeeps(c, keys, strict, l);
  }

  /** Whatever is sent and received in whatever order: what arrives is a prefix of what was sent. */
  lemma ReceivedIsPrefix(c: Cipher, keys: nat -> Key, strict: bool, events: seq<Event>)
    ensures var l := Run(c, keys, strict, events);
            |l.received| <= |l.sent| && l.received == l.sent[..|l.received|] && |l.sent| == |l.received| + |l.flight|
  {
    hide Next, AfterAll, FlightOk, FlightBytes;
  }

  /** No two packets are ever encrypted under the same keys with the same nonce. */
  lemma NoNonceTwice(c: Cipher, keys: nat -> Key, strict: bool, events: seq<Event>, i: nat, j: nat)
    requires i < j < |Run(c, keys, strict, events).nonces|
    ensures var ns := Run(c, keys, strict, events).nonces; ns[i] != ns[j]
  {
    hide Next, AfterAll, FlightOk, FlightBytes;
  }

  /** Packets in flight since the last NEWKEYS among them; all of them, if there is none. */
  function Fresh(flight: seq<Packet>): nat
    decreases |flight|
  {
    if |flight| == 0 || IsNewKeys(flight[|flight| - 1].payload) then 0 else Fresh(flight[..|flight| - 1]) + 1
  }

  function KeyChanges(flight: seq<Packet>): nat
    decreases |flight|
  {
    if |flight| == 0 then 0 else KeyChanges(flight[1..]) + if IsNewKeys(flight[0].payload) then 1 else 0
  }

  lemma {:induction false} AfterAllCounts(strict: bool, e: End, flight: seq<Packet>)
    requires EndOk(e)
    ensures var r := AfterAll(strict, e, flight);
            r.epoch == e.epoch + KeyChanges(flight)
            && (KeyChanges(flight) == 0 || !strict ==> r.seqno == (e.seqno + |flight|) % SEQ_MODULUS)
    decreases |flight|
  {
    if |flight| > 0 { AfterAllCounts(strict, After(strict, e, flight[0].payload), flight[1..]); }
  }

  /** The sender's number is the receiver's and the packets in flight, and so is its key epoch: also across NEWKEYS,
      unless strict key exchange has set the numbers back; then the sender's counts what was sent since. */
  lemma NumbersAgree(c: Cipher, keys: nat -> Key, strict: bool, events: seq<Event>)
    ensures var l := Run(c, keys, strict, events);
            && l.sender.epoch == l.receiver.epoch + KeyChanges(l.flight)
            && (KeyChanges(l.flight) == 0 || !strict
                ==> l.sender.seqno == (l.receiver.seqno + |l.flight|) % SEQ_MODULUS)
            && (KeyChanges(l.flight) > 0 && strict ==> l.sender.seqno == Fresh(l.flight) % SEQ_MODULUS)
  {
    hide Next, AfterAll, FlightOk, FlightBytes, KeyChanges, Fresh, After;
    var l := Run(c, keys, strict, events);
    AfterAllCounts(strict, l.receiver, l.flight);
    if strict && KeyChanges(l.flight) > 0 { AfterAllFresh(l.receiver, l.flight); }
  }

  lemma {:induction false} AfterAllSnoc(strict: bool, e: End, flight: seq<Packet>, p: Packet)
    ensures AfterAll(strict, e, flight + [p]) == After(strict, AfterAll(strict, e, flight), p.payload)
    ensures KeyChanges(flight + [p]) == KeyChanges(flight) + if IsNewKeys(p.payload) then 1 else 0
    decreases |flight|
  {
    hide After;
    if |flight| == 0 {
      assert flight + [p] == [p] && [p][1..] == [];
    } else {
      assert (flight + [p])[1..] == flight[1..] + [p];
      AfterAllSnoc(strict, After(strict, e, flight[0].payload), flight[1..], p);
    }
  }

  lemma {:induction false} AfterAllFresh(e: End, flight: seq<Packet>)
    requires EndOk(e) && KeyChanges(flight) > 0
    ensures AfterAll(true, e, flight).seqno == Fresh(flight) % SEQ_MODULUS
    decreases |flight|
  {
    hide AfterAll;
    var n := |flight| - 1;
    assert flight == flight[..n] + [flight[n]];
    AfterAllSnoc(true, e, flight[..n], flight[n]);
    if !IsNewKeys(flight[n].payload) { AfterAllFresh(e, flight[..n]); }
  }

  /** The receiver never gets stuck on what this sender frames: any packet that fits its buffer is taken. */
  lemma TakeDelivers(c: Cipher, keys: nat -> Key, strict: bool, events: seq<Event>)
    requires var l := Run(c, keys, strict, events); |l.flight| > 0 && PacketLength(l.flight[0]) <= MAX_PKT
    ensures var l, r := Run(c, keys, strict, events), Run(c, keys, strict, events + [Take]);
            r.received == l.received + [l.flight[0].payload] && r.flight == l.flight[1..]
  {
    hide AfterAll, FlightOk, FlightBytes, After, PacketOk, WireBytes, Receive;
    var l := Run(c, keys, strict, events);
    assert (events + [Take])[..|events|] == events;
    FlightHead(c, keys, strict, l.receiver, l.flight);
    ReceivesSent(c, keys, l.receiver, l.flight[0],
                 FlightBytes(c, keys, strict, After(strict, l.receiver, l.flight[0].payload), l.flight[1..]));
  }
}
