/** The packet layer of the SSH client as it works on its connection's state and byte buffers (mssh/mssh.c). */
module Transport {
  import opened Utf8
  import opened Packets

  const MSG_DISCONNECT: Byte := 1
  const MSG_IGNORE: Byte := 2
  const MSG_DEBUG: Byte := 4
  const MSG_GLOBAL_REQUEST: Byte := 80
  const MSG_REQUEST_FAILURE: Byte := 82

  /* ---- byte buffers ---- */

  lemma Slices(a: seq<Byte>, b: seq<Byte>, c: seq<Byte>)
    ensures var s := a + b + c; s[..|a|] == a && s[|a|..|a| + |b|] == b && s[|a| + |b|..] == c
  {
  }

  /** memcpy into a buffer. */
  method Copy(buf: array<Byte>, at: nat, src: seq<Byte>)
    requires at + |src| <= buf.Length
    modifies buf
    ensures buf[..] == old(buf[..at]) + src + old(buf[at + |src|..])
  {
    var i := 0;
    while i < |src|
      invariant i <= |src|
      invariant buf[..at] == old(buf[..at]) && buf[at..at + i] == src[..i] && buf[at + i..] == old(buf[at + i..])
      modifies buf
    {
      buf[at + i] := src[i];
      i := i + 1;
    }
    assert src[..i] == src;
  }

  method BufferOf(src: seq<Byte>) returns (buf: array<Byte>)
    ensures fresh(buf) && buf[..] == src
  {
    buf := new Byte[|src|](_ => 0);
    Copy(buf, 0, src);
  }

  /** Padding length, payload and padding, one after the other. */
  method CopyBody(buf: array<Byte>, at: nat, p: Packet)
    requires |p.pad| < 256 && at + PacketLength(p) <= buf.Length
    modifies buf
    ensures buf[..] == old(buf[..at]) + Body(p) + old(buf[at + PacketLength(p)..])
  {
    var pad: Byte := |p.pad|;
    Copy(buf, at, [pad] + p.payload + p.pad);
  }

  method CryptWhole(c: Cipher, buf: array<Byte>, nonce: seq<Byte>, ic: nat, key: seq<Byte>)
    modifies buf
    ensures buf[..] == Crypt(c, old(buf[..]), nonce, ic, key)
  {
    hide Crypt;
    ghost var was := buf[..];
    assert buf[..0] == [] && buf[0..buf.Length] == was && buf[buf.Length..] == [];
    CryptInPlace(c, buf, 0, buf.Length, nonce, ic, key);
    assert [] + Crypt(c, was, nonce, ic, key) + [] == Crypt(c, was, nonce, ic, key);
  }

  /** crypto_stream_chacha20_xor_ic in place. */
  method CryptInPlace(c: Cipher, buf: array<Byte>, from: nat, end: nat, nonce: seq<Byte>, ic: nat, key: seq<Byte>)
    requires from <= end <= buf.Length
    modifies buf
    ensures buf[..] == old(buf[..from]) + Crypt(c, old(buf[from..end]), nonce, ic, key) + old(buf[end..])
  {
    hide XorBytes, Stream;
    var i := from;
    ghost var data := buf[from..end];
    ghost var done := Crypt(c, data, nonce, ic, key);
    while i < end
      invariant from <= i <= end
      invariant buf[..from] == old(buf[..from]) && buf[end..] == old(buf[end..])
      invariant forall k :: from <= k < i ==> buf[k] == done[k - from]
      invariant forall k :: i <= k < end ==> buf[k] == data[k - from]
      modifies buf
    {
      buf[i] := XorBytes(buf[i], Stream(c, key, nonce, ic, i - from));
      i := i + 1;
    }
    assert buf[from..end] == done;
    assert buf[..] == buf[..from] + buf[from..end] + buf[end..];
  }

  /** The packet in the clear. */
  method FramePlain(p: Packet) returns (buf: array<Byte>)
    requires |p.pad| < 256 && PacketLength(p) < SEQ_MODULUS
    ensures fresh(buf) && buf[..] == PlainBytes(p)
  {
    hide U32, Body;
    var pl := PacketLength(p);
    buf := BufferOf(Zeros(4 + pl));
    Copy(buf, 0, U32(pl));
    assert buf[..4] == U32(pl);
    CopyBody(buf, 4, p);
    assert buf[4 + pl..] == [];
  }

  /** The packet with its MAC, built in one buffer and encrypted there. */
  method Seal(c: Cipher, key: Key, seqno: nat, p: Packet) returns (buf: array<Byte>)
    requires |p.pad| < 256 && PacketLength(p) < SEQ_MODULUS && seqno < SEQ_MODULUS
    ensures fresh(buf) && buf[..] == SealedBytes(c, key, seqno, p)
  {
    hide Crypt, U32, MakeNonce, PolyKey, Body;
    var pl, nonce := PacketLength(p), MakeNonce(seqno);
    var elen := Crypt(c, U32(pl), nonce, 0, key.header);
    ghost var sealed := Crypt(c, Body(p), nonce, 1, key.main);
    buf := BufferOf(Zeros(4 + pl + 16));
    SealFront(c, buf, elen, nonce, key, p);
    ghost var after := buf[4 + pl..];
    Slices(elen + sealed, after, []);
    assert buf[..] == elen + sealed + after + [];
    var front := buf[..4 + pl];
    var tag := c.mac(PolyKey(c, nonce, key.main), front);
    Copy(buf, 4 + pl, tag);
    assert buf[4 + pl + 16..] == [];
    assert front + tag + [] == front + tag;
  }

  /** The encrypted length and the encrypted body at the front of the buffer. */
  method SealFront(c: Cipher, buf: array<Byte>, elen: seq<Byte>, nonce: seq<Byte>, key: Key, p: Packet)
    requires |p.pad| < 256 && |elen| == 4 && 4 + PacketLength(p) <= buf.Length
    modifies buf
    ensures buf[..] == elen + Crypt(c, Body(p), nonce, 1, key.main) + old(buf[4 + PacketLength(p)..])
  {
    hide Crypt, Body;
    var end := 4 + PacketLength(p);
    ghost var back := buf[end..];
    Copy(buf, 0, elen);
    assert buf[..4] == elen && buf[end..] == back;
    CopyBody(buf, 4, p);
    Slices(elen, Body(p), back);
    CryptInPlace(c, buf, 4, end, nonce, 1, key.main);
  }

  /* ---- messages nobody waits for ---- */

  predicate Skipped(payload: seq<Byte>) {
    |payload| == 0 || payload[0] == MSG_IGNORE || payload[0] == MSG_DEBUG || payload[0] == MSG_GLOBAL_REQUEST
  }

  /** Whether a GLOBAL_REQUEST asks for an answer; it may be too short to say. */
  datatype Wish = NoReply | Reply | Truncated

  function WishOf(payload: seq<Byte>): Wish
    requires |payload| > 0
  {
    if |payload| < 2 then NoReply
    else if |payload| < 5 then Truncated
    else
      var n := ReadU32(payload[1..]);
      if 5 + n >= |payload| then Truncated else if payload[5 + n] != 0 then Reply else NoReply
  }

  datatype Message =
    | Message(payload: seq<Byte>, rest: seq<Byte>, seqno: nat, replies: nat)
    | NoMessage

  function ReceiveWith(c: Cipher, enc: bool, key: Key, seqno: nat, input: seq<Byte>): (r: Received)
    requires seqno < SEQ_MODULUS
    ensures r.Got? ==> |r.rest| < |input|
  {
    if enc then ReceiveSealed(c, key, seqno, input) else ReceivePlain(input)
  }

  /** The next message for the protocol above, behind those skipped. While keys are first exchanged in strict mode, none
      may be. */
  function NextMessage(c: Cipher, enc: bool, strict: bool, key: Key, seqno: nat, input: seq<Byte>): (m: Message)
    requires seqno < SEQ_MODULUS
    ensures m.Message? ==> |m.payload| > 0 && !Skipped(m.payload) && m.seqno < SEQ_MODULUS
    decreases |input|
  {
    match ReceiveWith(c, enc, key, seqno, input)
    case Died => NoMessage
    case Got(p, rest) =>
      var next := (seqno + 1) % SEQ_MODULUS;
      if strict && !enc && Skipped(p) then NoMessage
      else if |p| == 0 || p[0] == MSG_IGNORE || p[0] == MSG_DEBUG then NextMessage(c, enc, strict, key, next, rest)
      else if p[0] == MSG_DISCONNECT then NoMessage
      else if p[0] == MSG_GLOBAL_REQUEST then
        (match WishOf(p)
         case Truncated => NoMessage
         case NoReply => NextMessage(c, enc, strict, key, next, rest)
         case Reply =>
           match NextMessage(c, enc, strict, key, next, rest)
           case NoMessage => NoMessage
           case Message(q, r, s, n) => Message(q, r, s, n + 1))
      else Message(p, rest, next, 0)
  }

  /** In strict mode nothing can be slipped in before the first NEWKEYS: the message taken is the very first packet of
      the input. */
  lemma StrictTakesFirst(c: Cipher, key: Key, seqno: nat, input: seq<Byte>)
    requires seqno < SEQ_MODULUS && NextMessage(c, false, true, key, seqno, input).Message?
    ensures var m := NextMessage(c, false, true, key, seqno, input);
            ReceivePlain(input) == Got(m.payload, m.rest) && m.seqno == (seqno + 1) % SEQ_MODULUS && m.replies == 0
  {
    hide ReceivePlain;
  }

  /** A payload as the packet it is framed in: before the first key exchange the padding is zeros. */
  function PacketFor(e: End, pay: seq<Byte>, random: seq<Byte>): Packet {
    Packet(pay, if e.epoch == 0 then Zeros(Padding(5 + |pay|)) else random)
  }

  /** The answer to a request, sent with this number. */
  function ReplyBytes(c: Cipher, enc: bool, key: Key, seqno: nat, random: seq<Byte>): seq<Byte>
    requires seqno < SEQ_MODULUS && |random| == Padding(2)
  {
    PaddingAligns(2);
    PaddingAligns(6);
    if enc then SealedBytes(c, key, seqno, Packet([MSG_REQUEST_FAILURE], random))
    else PlainBytes(Packet([MSG_REQUEST_FAILURE], Zeros(Padding(6))))
  }

  /** n answers, one after the other. */
  function RepliesBytes(c: Cipher, enc: bool, key: Key, seqno: nat, draw: nat -> seq<Byte>, n: nat): seq<Byte>
    requires seqno < SEQ_MODULUS && forall i :: |draw(i)| == Padding(2)
    decreases n
  {
    if n == 0 then []
    else
      RepliesBytes(c, enc, key, seqno, draw, n - 1)
      + ReplyBytes(c, enc, key, (seqno + n - 1) % SEQ_MODULUS, draw(n - 1))
  }

  /* ---- the connection ---- */

  /** Its keys, numbers and flags; `out` and `input` are what was written to the socket and what can be read from it. */
  class Ssh {
    const c: Cipher
    var sendKey: Key
    var recvKey: Key
    var sendSeq: nat
    var recvSeq: nat
    var strictKex: bool
    var sendEnc: bool
    var recvEnc: bool
    var out: seq<Byte>
    var input: seq<Byte>

    ghost predicate Valid()
      reads this
    {
      sendSeq < SEQ_MODULUS && recvSeq < SEQ_MODULUS
    }

    constructor (cipher: Cipher, bytes: seq<Byte>)
      ensures Valid() && sendSeq == recvSeq == 0 && !strictKex && !sendEnc && !recvEnc && out == [] && input == bytes
              && c == cipher
    {
      c, input, out := cipher, bytes, [];
      sendKey, recvKey := Key([], []), Key([], []);
      sendSeq, recvSeq, strictKex, sendEnc, recvEnc := 0, 0, false, false, false;
    }

    /** The sender's side as an end of epoch 0 or later. */
    ghost predicate SendsAs(e: End, keys: nat -> Key)
      reads this
    {
      e.seqno == sendSeq && (sendEnc <==> e.epoch > 0) && (sendEnc ==> sendKey == keys(e.epoch))
    }

    ghost predicate ReceivesAs(e: End, keys: nat -> Key)
      reads this
    {
      e.seqno == recvSeq && (recvEnc <==> e.epoch > 0) && (recvEnc ==> recvKey == keys(e.epoch))
    }

    method SendPlain(pay: seq<Byte>)
      requires Valid() && |pay| + 12 < SEQ_MODULUS
      modifies this`out, this`sendSeq
      ensures Valid() && sendSeq == (old(sendSeq) + 1) % SEQ_MODULUS
      ensures var p := Packet(pay, Zeros(Padding(5 + |pay|)));
              Framed(p, 5) && |p.pad| < 256 && out == old(out) + PlainBytes(p)
    {
      hide PlainBytes, Zeros;
      PaddingAligns(5 + |pay|);
      var pad := 8 - (5 + |pay|) % 8;
      if pad < 4 { pad := pad + 8; }
      var buf := FramePlain(Packet(pay, Zeros(pad)));
      out := out + buf[..];
      sendSeq := (sendSeq + 1) % SEQ_MODULUS;
    }

    /** `random` are the padding bytes drawn. */
    method SendSealed(pay: seq<Byte>, random: seq<Byte>) returns (ok: bool)
      requires Valid() && |pay| + 12 < SEQ_MODULUS && |random| == Padding(1 + |pay|)
      modifies this`out, this`sendSeq
      ensures Valid() && ok == (old(sendSeq) < MAX_SEQ)
      ensures !ok ==> out == old(out) && sendSeq == old(sendSeq)
      ensures ok ==> Framed(Packet(pay, random), 1) && |random| < 256 && sendSeq == old(sendSeq) + 1
      ensures ok ==> out == old(out) + SealedBytes(c, sendKey, old(sendSeq), Packet(pay, random))
    {
      hide SealedBytes;
      if sendSeq == MAX_SEQ { return false; }
      PaddingAligns(1 + |pay|);
      var buf := Seal(c, sendKey, sendSeq, Packet(pay, random));
      out := out + buf[..];
      sendSeq := sendSeq + 1;
      ok := true;
    }

    method ReceivePlainPacket() returns (r: Received)
      requires Valid()
      modifies this`input, this`recvSeq
      ensures Valid() && r == ReceivePlain(old(input))
      ensures r.Got? ==> input == r.rest && recvSeq == (old(recvSeq) + 1) % SEQ_MODULUS
      ensures r.Died? ==> input == old(input) && recvSeq == old(recvSeq)
    {
      hide ReadU32;
      if |input| < 5 { return Died; }
      var n, pad := ReadU32(input), input[4];
      if n == 0 || n > MAX_PKT || pad < 4 || pad > n - 1 || |input| < 4 + n { return Died; }
      var tmp := input[5..4 + n];
      var rest := input[4 + n..];
      assert input[4..4 + n][1..n - pad] == tmp[..n - 1 - pad];
      r := Got(tmp[..n - 1 - pad], rest);
      input, recvSeq := rest, (recvSeq + 1) % SEQ_MODULUS;
    }

    /** The MAC is checked before anything is decrypted. */
    method ReceiveSealedPacket() returns (r: Received)
      requires Valid()
      modifies this`input, this`recvSeq
      ensures Valid() && r == ReceiveSealed(c, recvKey, old(recvSeq), old(input))
      ensures r.Got? ==> input == r.rest && recvSeq == (old(recvSeq) + 1) % SEQ_MODULUS
      ensures r.Died? ==> input == old(input) && recvSeq == old(recvSeq)
    {
      hide ReadU32, Crypt, PolyKey, MakeNonce;
      if |input| < 4 { return Died; }
      var nonce := MakeNonce(recvSeq);
      var n := ReadU32(Crypt(c, input[..4], nonce, 0, recvKey.header));
      if n == 0 || n > MAX_PKT || |input| < 4 + n + 16 { return Died; }
      var polyKey := PolyKey(c, nonce, recvKey.main);
      if c.mac(polyKey, input[..4 + n]) != input[4 + n..4 + n + 16] { return Died; }
      var plain := BufferOf(input[4..4 + n]);
      CryptWhole(c, plain, nonce, 1, recvKey.main);
      var pad := plain[0];
      if pad < 4 || pad > n - 1 { return Died; }
      assert plain[..][1..n - pad] == plain[1..n - pad];
      r := Got(plain[1..n - pad], input[4 + n + 16..]);
      input, recvSeq := input[4 + n + 16..], (recvSeq + 1) % SEQ_MODULUS;
    }

    /** pkt_send, and what it means for the sender's end; false if the program ends instead. */
    method SendPacket(pay: seq<Byte>, random: seq<Byte>, ghost e: End, ghost keys: nat -> Key) returns (ok: bool)
      requires Valid() && SendsAs(e, keys) && |pay| + 12 < SEQ_MODULUS && |random| == Padding(1 + |pay|)
      modifies this`out, this`sendSeq
      ensures Valid() && ok == MaySend(e)
      ensures !ok ==> out == old(out) && sendSeq == old(sendSeq)
      ensures ok ==> EndOk(e) && PacketOk(e, PacketFor(e, pay, random))
      ensures ok ==> out == old(out) + WireBytes(c, keys, e, PacketFor(e, pay, random))
      ensures ok ==> sendSeq == (e.seqno + 1) % SEQ_MODULUS
    {
      hide PlainBytes, SealedBytes;
      if sendEnc { ok := SendSealed(pay, random); } else { SendPlain(pay); ok := true; }
    }

    /** NEWKEYS goes out under the old keys; from then on the new one counts. */
    method SendNewKeys(key: Key, random: seq<Byte>, ghost e: End, ghost keys: nat -> Key) returns (ok: bool)
      requires Valid() && SendsAs(e, keys) && |random| == Padding(2) && keys(e.epoch + 1) == key
      modifies this`out, this`sendSeq, this`sendKey, this`sendEnc
      ensures Valid() && ok == MaySend(e)
      ensures !ok ==> out == old(out) && sendSeq == old(sendSeq) && sendKey == old(sendKey) && sendEnc == old(sendEnc)
      ensures ok ==> EndOk(e) && PacketOk(e, PacketFor(e, [NEWKEYS], random))
      ensures ok ==> out == old(out) + WireBytes(c, keys, e, PacketFor(e, [NEWKEYS], random))
      ensures ok ==> SendsAs(After(strictKex, e, [NEWKEYS]), keys)
    {
      ok := SendPacket([NEWKEYS], random, e, keys);
      if ok {
        sendKey, sendEnc := key, true;
        if strictKex { sendSeq := 0; }
      }
    }

    method ReceivePacket(ghost e: End, ghost keys: nat -> Key) returns (r: Received)
      requires Valid() && ReceivesAs(e, keys)
      modifies this`input, this`recvSeq
      ensures Valid() && EndOk(e)
              && r == Receive(c, keys, e, old(input)) == ReceiveWith(c, recvEnc, recvKey, e.seqno, old(input))
      ensures r.Got? ==> input == r.rest && recvSeq == (e.seqno + 1) % SEQ_MODULUS
      ensures r.Died? ==> input == old(input) && recvSeq == old(recvSeq)
    {
      if recvEnc { r := ReceiveSealedPacket(); } else { r := ReceivePlainPacket(); }
    }

    /** n requests have been answered since `out` was out0 and the next number seqno0. */
    ghost predicate Answers(seqno0: nat, out0: seq<Byte>, draw: nat -> seq<Byte>, n: nat)
      requires forall i :: |draw(i)| == Padding(2)
      reads this`sendSeq, this`out, this`sendEnc, this`sendKey
    {
      && seqno0 < SEQ_MODULUS && sendSeq == (seqno0 + n) % SEQ_MODULUS
      && out == out0 + RepliesBytes(c, sendEnc, sendKey, seqno0, draw, n)
    }

    lemma AnswersNone(draw: nat -> seq<Byte>)
      requires Valid() && forall i :: |draw(i)| == Padding(2)
      ensures Answers(sendSeq, out, draw, 0)
    {
      assert out + [] == out;
    }

    /** One more answer; false if the numbers are used up. */
    method Answer(draw: nat -> seq<Byte>, n: nat, ghost seqno0: nat, ghost out0: seq<Byte>) returns (ok: bool)
      requires Valid() && (forall i :: |draw(i)| == Padding(2)) && Answers(seqno0, out0, draw, n)
      modifies this`out, this`sendSeq
      ensures Valid() && ok == (!sendEnc || old(sendSeq) < MAX_SEQ)
      ensures !ok ==> sendSeq == old(sendSeq) && out == old(out)
      ensures Answers(seqno0, out0, draw, if ok then n + 1 else n)
    {
      hide PlainBytes, SealedBytes, Padding;
      ghost var sk := sendKey;
      ghost var e, keys := End(sendSeq, if sendEnc then 1 else 0), (k: nat) => sk;
      ok := SendPacket([MSG_REQUEST_FAILURE], draw(n), e, keys);
      NextNumber(seqno0, n);
    }

    lemma NextNumber(seqno0: nat, n: nat)
      ensures ((seqno0 + n) % SEQ_MODULUS + 1) % SEQ_MODULUS == (seqno0 + n + 1) % SEQ_MODULUS
    {
    }

    /** pkt_recv. The answers to the requests skipped are paddings' worth of randomness and may fail to go out. */
    method ReceiveMessage(draw: nat -> seq<Byte>) returns (m: Message, ghost answered: nat)
      requires Valid() && forall i :: |draw(i)| == Padding(2)
      modifies this`input, this`recvSeq, this`out, this`sendSeq
      ensures Valid()
      ensures m.Message? ==> m == NextMessage(c, recvEnc, strictKex, recvKey, old(recvSeq), old(input))
      ensures m.Message? ==> input == m.rest && recvSeq == m.seqno
      ensures m.NoMessage? ==>
                || NextMessage(c, recvEnc, strictKex, recvKey, old(recvSeq), old(input)).NoMessage?
                || (sendEnc && sendSeq == MAX_SEQ)
      ensures Answers(old(sendSeq), old(out), draw, answered) && (m.Message? ==> answered == m.replies)
    {
      hide WireBytes, Receive, ReceiveWith, NextMessage, WishOf, RepliesBytes, Ssh.Answers;
      var replies := 0;
      AnswersNone(draw);
      AnsweredNone(NextMessage(c, recvEnc, strictKex, recvKey, recvSeq, input));
      ghost var whole := NextMessage(c, recvEnc, strictKex, recvKey, recvSeq, input);
      while true
        invariant Valid() && whole == Answered(NextMessage(c, recvEnc, strictKex, recvKey, recvSeq, input), replies)
        invariant Answers(old(sendSeq), old(out), draw, replies)
        modifies this`input, this`recvSeq, this`out, this`sendSeq
        decreases |input|
      {
        ghost var seqno, bytes := recvSeq, input;
        ghost var k := recvKey;
        var r := ReceivePacket(End(recvSeq, if recvEnc then 1 else 0), (n: nat) => k);
        NextMessageStep(c, recvEnc, strictKex, recvKey, seqno, bytes);
        if r.Died? { return NoMessage, replies; }
        var p := r.payload;
        if strictKex && !recvEnc && Skipped(p) { return NoMessage, replies; }
        if |p| == 0 || p[0] == MSG_IGNORE || p[0] == MSG_DEBUG { continue; }
        if p[0] == MSG_DISCONNECT { return NoMessage, replies; }
        if p[0] != MSG_GLOBAL_REQUEST { return Message(p, input, recvSeq, replies), replies; }
        match WishOf(p)
        case Truncated => return NoMessage, replies;
        case NoReply => continue;
        case Reply =>
          var ok := Answer(draw, replies, old(sendSeq), old(out));
          if !ok { return NoMessage, replies; }
          replies := replies + 1;
      }
    }

    /** The peer's NEWKEYS is the last packet under the old keys. */
    method TakeNewKeys(key: Key, draw: nat -> seq<Byte>) returns (ok: bool)
      requires Valid() && forall i :: |draw(i)| == Padding(2)
      modifies this`input, this`recvSeq, this`out, this`sendSeq, this`recvKey, this`recvEnc
      ensures Valid()
      ensures var m := NextMessage(c, old(recvEnc), strictKex, old(recvKey), old(recvSeq), old(input));
              if ok then m.Message? && IsNewKeys(m.payload) && input == m.rest
                  && recvSeq == (if strictKex then 0 else m.seqno)
                         && Answers(old(sendSeq), old(out), draw, m.replies)
              else m.NoMessage? || !IsNewKeys(m.payload) || (sendEnc && sendSeq == MAX_SEQ)
      ensures ok ==> recvEnc && recvKey == key
    {
      hide NextMessage, Ssh.Answers;
      var m, _ := ReceiveMessage(draw);
      ok := m.Message? && m.payload[0] == NEWKEYS;
      if ok { UseRecvKey(key); }
    }

    /** From now on packets are received under a new key, counted anew in strict mode. */
    method UseRecvKey(key: Key)
      requires Valid()
      modifies this`recvKey, this`recvSeq, this`recvEnc
      ensures Valid() && recvEnc && recvKey == key && recvSeq == if strictKex then 0 else old(recvSeq)
    {
      recvKey := key;
      if strictKex { recvSeq := 0; }
      recvEnc := true;
    }
  }

  /** A message with n answers given before it. */
  function Answered(m: Message, n: nat): Message {
    match m
    case NoMessage => NoMessage
    case Message(p, rest, seqno, replies) => Message(p, rest, seqno, replies + n)
  }

  lemma AnsweredNone(m: Message)
    ensures Answered(m, 0) == m
  {
  }

  lemma NextMessageStep(c: Cipher, enc: bool, strict: bool, key: Key, seqno: nat, input: seq<Byte>)
    requires seqno < SEQ_MODULUS
    ensures var m := NextMessage(c, enc, strict, key, seqno, input);
            match ReceiveWith(c, enc, key, seqno, input)
            case Died => m == NoMessage
            case Got(p, rest) =>
              var next := (seqno + 1) % SEQ_MODULUS;
              if strict && !enc && Skipped(p) then m == NoMessage
              else if |p| == 0 || p[0] == MSG_IGNORE
                || p[0] == MSG_DEBUG then m == NextMessage(c, enc, strict, key, next, rest)
              else if p[0] == MSG_DISCONNECT then m == NoMessage
              else if p[0] == MSG_GLOBAL_REQUEST then
                (match WishOf(p)
                 case Truncated => m == NoMessage
                 case NoReply => m == NextMessage(c, enc, strict, key, next, rest)
                 case Reply => m == Answered(NextMessage(c, enc, strict, key, next, rest), 1))
              else m == Message(p, rest, next, 0)
  {
    hide ReceiveWith, WishOf;
  }
}
