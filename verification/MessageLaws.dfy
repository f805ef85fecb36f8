/** The messages of section 11 of RFC 4253 and section 4 of RFC 4254, as they are numbered and framed there, and which
    of them pkt_recv of mssh/mssh.c keeps to itself. */
module MessageLaws {
  import opened Utf8
  import opened Packets
  import opened Transport

  /** What a peer may send between two messages of the protocol above: an empty packet, IGNORE, DEBUG, or a request that
      may want an answer. */
  datatype Aside =
    | Empty
    | Ignore(data: seq<Byte>)
    | Debug(data: seq<Byte>)
    | Request(name: seq<Byte>, want: Byte, data: seq<Byte>)

  predicate AsideOk(a: Aside) {
    a.Request? ==> |a.name| < SEQ_MODULUS
  }

  function PayloadOf(a: Aside): seq<Byte>
    requires AsideOk(a)
  {
    match a
    case Empty => []
    case Ignore(data) => [2] + data
    case Debug(data) => [4] + data
    case Request(name, want, data) => [80] + U32(|name|) + name + [want] + data
  }

  predicate Asks(a: Aside) {
    a.Request? && a.want != 0
  }

  function Asking(asides: seq<Aside>): nat
    decreases |asides|
  {
    if |asides| == 0 then 0 else Asking(asides[1..]) + if Asks(asides[0]) then 1 else 0
  }

  /** Packets the receiver takes: framed for it, and not too long. */
  ghost predicate FrameOk(enc: bool, p: Packet) {
    Framed(p, if enc then 1 else 5) && PacketLength(p) <= MAX_PKT
  }

  ghost function Frame(c: Cipher, enc: bool, key: Key, seqno: nat, p: Packet): seq<Byte>
    requires FrameOk(enc, p) && seqno < SEQ_MODULUS
  {
    PaddingAligns((if enc then 1 else 5) + |p.payload|);
    if enc then SealedBytes(c, key, seqno, p) else PlainBytes(p)
  }

  lemma FrameReceived(c: Cipher, enc: bool, key: Key, seqno: nat, p: Packet, rest: seq<Byte>)
    requires FrameOk(enc, p) && seqno < SEQ_MODULUS
    ensures ReceiveWith(c, enc, key, seqno, Frame(c, enc, key, seqno, p) + rest) == Got(p.payload, rest)
  {
    hide SealedBytes, PlainBytes, ReceiveSealed, ReceivePlain;
    PaddingAligns((if enc then 1 else 5) + |p.payload|);
    if enc { SealedRoundTrip(c, key, seqno, p, rest); } else { PlainRoundTrip(p, rest); }
  }

  lemma WishIs(a: Aside)
    requires AsideOk(a) && a.Request?
    ensures WishOf(PayloadOf(a)) == if a.want != 0 then Reply else NoReply
  {
    hide U32, ReadU32;
    var p := PayloadOf(a);
    ReadsU32(|a.name|, a.name + [a.want] + a.data);
    assert p[1..] == U32(|a.name|) + (a.name + [a.want] + a.data);
    assert p[5 + |a.name|] == a.want;
  }

  /** One packet that is kept back. */
  lemma AsidePassed(c: Cipher, enc: bool, strict: bool, key: Key, seqno: nat, a: Aside, p: Packet, rest: seq<Byte>)
    requires AsideOk(a) && p.payload == PayloadOf(a) && FrameOk(enc, p) && seqno < SEQ_MODULUS
    ensures var m := NextMessage(c, enc, strict, key, seqno, Frame(c, enc, key, seqno, p) + rest);
      if strict && !enc then m.NoMessage?
      else
        var q := NextMessage(c, enc, strict, key, (seqno + 1) % SEQ_MODULUS, rest);
        m == if q.Message? then q.(replies := q.replies + if Asks(a) then 1 else 0) else q
  {
    hide Frame, FrameOk, ReceiveWith, WishOf, U32;
    FrameReceived(c, enc, key, seqno, p, rest);
    if a.Request? { WishIs(a); }
  }

  /** Packets framed one after the other, the last one behind the others, and what follows them. */
  ghost function Frames(c: Cipher, enc: bool, key: Key, seqno: nat, ps: seq<Packet>, last: Packet,
                        rest: seq<Byte>): seq<Byte>
    requires seqno < SEQ_MODULUS && FrameOk(enc, last) && forall i :: 0 <= i < |ps| ==> FrameOk(enc, ps[i])
    decreases |ps|
  {
    if |ps| == 0 then Frame(c, enc, key, seqno, last) + rest
    else Frame(c, enc, key, seqno, ps[0]) + Frames(c, enc, key, (seqno + 1) % SEQ_MODULUS, ps[1..], last, rest)
  }

  lemma NumbersGoOn(seqno: nat, n: nat)
    requires seqno < SEQ_MODULUS
    ensures ((seqno + 1) % SEQ_MODULUS + n) % SEQ_MODULUS == (seqno + 1 + n) % SEQ_MODULUS
  {
    if seqno + 1 == SEQ_MODULUS { assert (SEQ_MODULUS + n) % SEQ_MODULUS == n % SEQ_MODULUS; }
  }

  ghost predicate AsidesOk(enc: bool, asides: seq<Aside>, ps: seq<Packet>) {
    && |ps| == |asides|
    && forall i :: 0 <= i < |ps| ==>
         AsideOk(asides[i]) && FrameOk(enc, ps[i]) && ps[i].payload == PayloadOf(asides[i])
  }

  lemma LastComes(c: Cipher, enc: bool, strict: bool, key: Key, seqno: nat, last: Packet, rest: seq<Byte>)
    requires seqno < SEQ_MODULUS && FrameOk(enc, last) && |last.payload| > 0 && last.payload[0] !in {1, 2, 4, 80}
    ensures NextMessage(c, enc, strict, key, seqno, Frame(c, enc, key, seqno, last) + rest)
            == Message(last.payload, rest, (seqno + 1) % SEQ_MODULUS, 0)
  {
    hide Frame, FrameOk, ReceiveWith;
    FrameReceived(c, enc, key, seqno, last, rest);
  }

  /** Behind any number of them the next message comes as it was sent, with one answer due for each request that wanted
      one; the numbers go on with every packet. */
  lemma {:induction false} MessageComes(c: Cipher, enc: bool, strict: bool, key: Key, seqno: nat, asides: seq<Aside>,
                                        ps: seq<Packet>, last: Packet, rest: seq<Byte>)
    requires seqno < SEQ_MODULUS && AsidesOk(enc, asides, ps) && (strict && !enc ==> |asides| == 0)
    requires FrameOk(enc, last) && |last.payload| > 0 && last.payload[0] !in {1, 2, 4, 80}
    ensures NextMessage(c, enc, strict, key, seqno, Frames(c, enc, key, seqno, ps, last, rest))
            == Message(last.payload, rest, (seqno + |ps| + 1) % SEQ_MODULUS, Asking(asides))
    decreases |ps|
  {
    hide Frame, FrameOk, Asks, PayloadOf, NextMessage;
    if |ps| == 0 {
      LastComes(c, enc, strict, key, seqno, last, rest);
    } else {
      var next := (seqno + 1) % SEQ_MODULUS;
      var more := Frames(c, enc, key, next, ps[1..], last, rest);
      AsidePassed(c, enc, strict, key, seqno, asides[0], ps[0], more);
      MessageComes(c, enc, strict, key, next, asides[1..], ps[1..], last, rest);
      NumbersGoOn(seqno, |ps|);
    }
  }

  /** DISCONNECT ends the program. */
  lemma DisconnectEnds(c: Cipher, enc: bool, strict: bool, key: Key, seqno: nat, p: Packet, rest: seq<Byte>)
    requires FrameOk(enc, p) && seqno < SEQ_MODULUS && |p.payload| > 0 && p.payload[0] == 1
    ensures NextMessage(c, enc, strict, key, seqno, Frame(c, enc, key, seqno, p) + rest) == NoMessage
  {
    hide Frame, FrameOk;
    FrameReceived(c, enc, key, seqno, p, rest);
  }

  /** The answer to a request is REQUEST_FAILURE and nothing else. */
  lemma AnswerIs(c: Cipher, enc: bool, key: Key, seqno: nat, random: seq<Byte>)
    requires seqno < SEQ_MODULUS && |random| == Padding(2)
    ensures var p := Packet([82], if enc then random else [0, 0, 0, 0, 0, 0, 0, 0, 0, 0]);
      FrameOk(enc, p) && ReplyBytes(c, enc, key, seqno, random) == Frame(c, enc, key, seqno, p)
  {
    hide SealedBytes, PlainBytes;
    assert Zeros(10) == [0, 0, 0, 0, 0, 0, 0, 0, 0, 0];
  }

  /* ---- what is refused ---- */

  /** A packet in the clear whose length is 0 or more than 35000, or whose padding is under four bytes or does not
      fit. */
  lemma RefusesPlain(n: nat, pad: Byte, rest: seq<Byte>)
    requires n < SEQ_MODULUS && (n == 0 || n > 35000 || pad < 4 || n < pad as int + 1)
    ensures ReceivePlain(U32(n) + [pad] + rest) == Died
  {
    hide U32, ReadU32;
    var input := U32(n) + [pad] + rest;
    assert input == U32(n) + ([pad] + rest) && input[4] == pad;
    ReadsU32(n, [pad] + rest);
  }

  /** An encrypted packet that comes with another MAC, whatever else it holds: nothing of it is used. */
  lemma RefusesForged(c: Cipher, key: Key, seqno: nat, p: Packet, tag: Tag, rest: seq<Byte>)
    requires FrameOk(true, p) && seqno < SEQ_MODULUS
    ensures |p.pad| < 256
    ensures var b := SealedBytes(c, key, seqno, p);
      tag != b[|b| - 16..] ==> ReceiveSealed(c, key, seqno, b[..|b| - 16] + tag + rest) == Died
  {
    hide U32, ReadU32, Crypt, PolyKey, MakeNonce, Unpad, Body;
    PaddingAligns(1 + |p.payload|);
    var n, nonce := PacketLength(p), MakeNonce(seqno);
    var head, body := Crypt(c, U32(n), nonce, 0, key.header), Crypt(c, Body(p), nonce, 1, key.main);
    var b := SealedBytes(c, key, seqno, p);
    var input := b[..|b| - 16] + tag + rest;
    assert b[..|b| - 16] == head + body && b[|b| - 16..] == c.mac(PolyKey(c, nonce, key.main), head + body);
    assert input[..4] == head && input[..4 + n] == head + body && input[4 + n..4 + n + 16] == tag;
    CryptUndone(c, U32(n), nonce, 0, key.header);
    ReadsU32(n, []);
    assert U32(n) + [] == U32(n);
  }
}
