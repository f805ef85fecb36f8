/** Flow control of the SSH client's channel, section 5.2 of RFC 4254 (mssh/mssh.c). */
module Channel {
  import opened Utf8
  import opened Packets

  const MAX_U32 := 0xFFFF_FFFF
  const WINDOW_SIZE := 0x10_0000
  const CHAN_MAX_PKT := 32768

  const MSG_WINDOW_ADJUST: Byte := 93
  const MSG_DATA: Byte := 94
  const MSG_EXTENDED_DATA: Byte := 95
  const MSG_EOF: Byte := 96
  const MSG_CLOSE: Byte := 97

  /* ---- messages ---- */

  function DataMsg(chan: nat, data: seq<Byte>): seq<Byte>
    requires chan <= MAX_U32 && |data| <= MAX_U32
  {
    [MSG_DATA] + U32(chan) + U32(|data|) + data
  }

  function EofMsg(chan: nat): seq<Byte>
    requires chan <= MAX_U32
  {
    [MSG_EOF] + U32(chan)
  }

  function AdjustMsg(chan: nat, n: nat): seq<Byte>
    requires chan <= MAX_U32 && n <= MAX_U32
  {
    [MSG_WINDOW_ADJUST] + U32(chan) + U32(n)
  }

  predicate IsData(m: seq<Byte>) { |m| >= 9 && m[0] == MSG_DATA }
  predicate IsEof(m: seq<Byte>) { |m| > 0 && m[0] == MSG_EOF }
  predicate IsAdjust(m: seq<Byte>) { |m| >= 9 && m[0] == MSG_WINDOW_ADJUST }

  /** The data a peer reads from a message, as rdstr does. */
  function DataIn(m: seq<Byte>): seq<Byte> {
    if IsData(m) && 9 + ReadU32(m[5..]) <= |m| then m[9..9 + ReadU32(m[5..])] else []
  }

  /** The window a peer reads from a message. */
  function WindowIn(m: seq<Byte>): nat {
    if IsAdjust(m) then ReadU32(m[5..]) else 0
  }

  lemma DataMsgReads(chan: nat, data: seq<Byte>)
    requires chan <= MAX_U32 && |data| <= MAX_U32
    ensures var m := DataMsg(chan, data);
            IsData(m) && DataIn(m) == data && !IsEof(m) && WindowIn(m) == 0 && |m| == 9 + |data| && ForChannel(m, chan)
            && !IsAdjust(m)
  {
    hide U32, ReadU32;
    var m := DataMsg(chan, data);
    assert m[5..] == U32(|data|) + data && m[1..] == U32(chan) + m[5..];
    ReadsU32(|data|, data);
    ReadsU32(chan, m[5..]);
  }

  lemma AdjustMsgReads(chan: nat, n: nat)
    requires chan <= MAX_U32 && n <= MAX_U32
    ensures var m := AdjustMsg(chan, n);
            WindowIn(m) == n && !IsData(m) && !IsEof(m) && DataIn(m) == [] && ForChannel(m, chan)
  {
    hide U32, ReadU32;
    var m := AdjustMsg(chan, n);
    assert m[5..] == U32(n) + [] && m[1..] == U32(chan) + m[5..];
    ReadsU32(n, []);
    ReadsU32(chan, m[5..]);
  }

  lemma EofMsgReads(chan: nat)
    requires chan <= MAX_U32
    ensures var m := EofMsg(chan);
            IsEof(m) && !IsData(m) && DataIn(m) == [] && WindowIn(m) == 0 && ForChannel(m, chan) && !IsAdjust(m)
  {
    hide U32, ReadU32;
    assert EofMsg(chan)[1..] == U32(chan) + [];
    ReadsU32(chan, []);
  }

  /** Their bytes, spelt out, and the sizes announced. */
  lemma MessageBytes()
    ensures DataMsg(0x0102_0304, [7, 8]) == [94, 1, 2, 3, 4, 0, 0, 0, 2, 7, 8]
    ensures EofMsg(0x0102_0304) == [96, 1, 2, 3, 4]
    ensures AdjustMsg(0x0102_0304, 0x10_0000) == [93, 1, 2, 3, 4, 0, 16, 0, 0]
    ensures Meaning([97, 1, 2, 3, 4]) == Over
    ensures WINDOW_SIZE == 1048576 && CHAN_MAX_PKT == 32768
  {
  }

  /* ---- what a sequence of messages says ---- */

  function AllData(sent: seq<seq<Byte>>): seq<Byte> {
    if |sent| == 0 then [] else AllData(sent[..|sent| - 1]) + DataIn(sent[|sent| - 1])
  }

  function Granted(sent: seq<seq<Byte>>): nat {
    if |sent| == 0 then 0 else Granted(sent[..|sent| - 1]) + WindowIn(sent[|sent| - 1])
  }

  function Eofs(sent: seq<seq<Byte>>): nat {
    if |sent| == 0 then 0 else Eofs(sent[..|sent| - 1]) + if IsEof(sent[|sent| - 1]) then 1 else 0
  }

  /** The recipient a peer reads from a message: the second field of all three (sections 5.2 and 5.3 of RFC 4254). */
  predicate ForChannel(m: seq<Byte>, chan: nat) {
    |m| >= 5 && ReadU32(m[1..]) == chan
  }

  /** Every message is for the channel; data messages carry between one byte and the limit, and none comes after the end
      of the data; none gives back less than half a window. */
  ghost predicate WellSent(sent: seq<seq<Byte>>, limit: nat, chan: nat) {
    && (forall i :: 0 <= i < |sent| ==> ForChannel(sent[i], chan))
    && (forall i :: 0 <= i < |sent| && IsAdjust(sent[i]) ==> WindowIn(sent[i]) >= 524288)
    && (forall i :: 0 <= i < |sent| && IsData(sent[i]) ==>
          0 < |DataIn(sent[i])| <= limit && |sent[i]| == 9 + |DataIn(sent[i])|)
    && forall i, j :: 0 <= i < j < |sent| && IsEof(sent[i]) ==> !IsData(sent[j])
  }

  lemma Sends(sent: seq<seq<Byte>>, m: seq<Byte>, limit: nat, chan: nat)
    ensures AllData(sent + [m]) == AllData(sent) + DataIn(m)
    ensures Granted(sent + [m]) == Granted(sent) + WindowIn(m)
    ensures Eofs(sent + [m]) == Eofs(sent) + if IsEof(m) then 1 else 0
    ensures WellSent(sent, limit, chan) && ForChannel(m, chan) && (IsAdjust(m) ==> WindowIn(m) >= 524288)
            && (IsData(m) ==> Eofs(sent) == 0 && 0 < |DataIn(m)| <= limit && |m| == 9 + |DataIn(m)|)
            ==> WellSent(sent + [m], limit, chan)
  {
    hide DataIn, WindowIn, IsData, IsEof, IsAdjust, ForChannel;
    assert (sent + [m])[..|sent|] == sent;
    if WellSent(sent, limit, chan) && IsData(m) && Eofs(sent) == 0 { NoEof(sent); }
  }

  lemma {:induction false} NoEof(sent: seq<seq<Byte>>)
    requires Eofs(sent) == 0
    ensures forall i :: 0 <= i < |sent| ==> !IsEof(sent[i])
    decreases |sent|
  {
    hide IsEof;
    if |sent| > 0 {
      NoEof(sent[..|sent| - 1]);
      forall i | 0 <= i < |sent| ensures !IsEof(sent[i]) {
        if i < |sent| - 1 { assert sent[..|sent| - 1][i] == sent[i]; }
      }
    }
  }

  /** Every data message fits in a packet the peer accepts. */
  lemma DataFitsPacket(m: seq<Byte>, pad: seq<Byte>)
    requires |m| <= 9 + CHAN_MAX_PKT && |pad| == Padding(1 + |m|)
    ensures PacketLength(Packet(m, pad)) <= MAX_PKT
  {
  }

  /* ---- the channel ---- */

  /** What ssh_pump made of a packet: data shown, an end of the session, or a packet too short, which ends the
      program. */
  datatype Pumped = Shown(data: seq<Byte>, isErr: bool) | Nothing | Over | Truncated

  /** What a message of the server's says to the session. Data of a command's standard error has its type in front of
      it. */
  function Meaning(pkt: seq<Byte>): (r: Pumped) {
    if |pkt| == 0 then Nothing
    else if pkt[0] == MSG_DATA || pkt[0] == MSG_EXTENDED_DATA then
      var at := if pkt[0] == MSG_DATA then 5 else 9;
      if |pkt| < at + 4 || at + 4 + ReadU32(pkt[at..]) > |pkt| then Truncated
      else Shown(pkt[at + 4..at + 4 + ReadU32(pkt[at..])], pkt[0] == MSG_EXTENDED_DATA)
    else if pkt[0] == MSG_WINDOW_ADJUST && |pkt| < 9 then Truncated
    else if pkt[0] == MSG_CLOSE then Over
    else Nothing
  }

  function ShownIn(r: Pumped): seq<Byte> {
    if r.Shown? then r.data else []
  }

  function ExtendedMsg(chan: nat, code: nat, data: seq<Byte>): seq<Byte>
    requires chan <= MAX_U32 && code <= MAX_U32 && |data| <= MAX_U32
  {
    [MSG_EXTENDED_DATA] + U32(chan) + U32(code) + U32(|data|) + data
  }

  /** What a peer means by the messages of section 5.2 of RFC 4254 is what they say. */
  lemma MeaningOfMessages(chan: nat, code: nat, data: seq<Byte>, n: nat)
    requires chan <= MAX_U32 && code <= MAX_U32 && |data| <= MAX_U32 && n <= MAX_U32
    ensures Meaning(DataMsg(chan, data)) == Shown(data, false) && WindowIn(DataMsg(chan, data)) == 0
    ensures Meaning(ExtendedMsg(chan, code, data)) == Shown(data, true) && WindowIn(ExtendedMsg(chan, code, data)) == 0
    ensures Meaning(AdjustMsg(chan, n)) == Nothing && WindowIn(AdjustMsg(chan, n)) == n
    ensures Meaning(EofMsg(chan)) == Nothing && IsEof(EofMsg(chan))
  {
    hide U32, ReadU32;
    DataMsgReads(chan, data);
    AdjustMsgReads(chan, n);
    EofMsgReads(chan);
    var m, x := DataMsg(chan, data), ExtendedMsg(chan, code, data);
    ReadsU32(|data|, data);
    assert m[5..] == U32(|data|) + data && m[9..9 + |data|] == data;
    assert x[9..] == U32(|data|) + data && x[13..13 + |data|] == data;
  }

  /** Messages that end before what they announce end the session. */
  lemma TruncatedMessages(chan: nat, code: nat, n: nat, data: seq<Byte>, m: seq<Byte>)
    requires chan <= MAX_U32 && code <= MAX_U32 && |data| < n <= MAX_U32
    ensures Meaning([94] + U32(chan) + U32(n) + data) == Truncated
    ensures Meaning([95] + U32(chan) + U32(code) + U32(n) + data) == Truncated
    ensures 0 < |m| < 9 && (m[0] == 93 || m[0] == 94) ==> Meaning(m) == Truncated
  {
    hide U32, ReadU32;
    var d, x := [94] + U32(chan) + U32(n) + data, [95] + U32(chan) + U32(code) + U32(n) + data;
    ReadsU32(n, data);
    assert d[5..] == U32(n) + data && x[9..] == U32(n) + data;
  }

  /** `sent` is every message of the channel, in order; `given` all the input there was, `grants` the window the server
      has ever granted, `lost` what of it did not fit in 32 bits, `taken` all data received. */
  class Channel {
    const remoteChan: nat
    const remoteMaxpkt: nat
    var remoteWindow: nat
    var outq: seq<Byte>
    var eofPending: bool
    var clientEof: bool
    var serverEof: bool
    var recvPending: nat
    var sent: seq<seq<Byte>>
    ghost var given: seq<Byte>
    ghost var grants: nat
    ghost var lost: nat
    ghost var taken: nat

    /** Nothing of the input is lost or out of order, no more is sent than granted, EOF goes out once and last,
        and what the server may still send is the window less what has not been given back yet. */
    ghost predicate Valid()
      reads this
    {
      && Sound()
      && (outq != [] ==> remoteWindow == 0)
      && (eofPending ==> clientEof && outq != [])
      && Eofs(sent) == (if clientEof && !eofPending then 1 else 0)
      && (Eofs(sent) > 0 ==> outq == [])
    }

    /** `rest` is what is still to be sent. */
    ghost predicate Sending(rest: seq<Byte>)
      reads this
    {
      && remoteChan <= MAX_U32 && remoteWindow <= MAX_U32 && 1 <= remoteMaxpkt <= CHAN_MAX_PKT
      && AllData(sent) + rest == given
      && |AllData(sent)| + remoteWindow + lost == grants && (lost > 0 ==> grants > MAX_U32)
      && WellSent(sent, remoteMaxpkt, remoteChan)
      && recvPending < WINDOW_SIZE / 2 && taken == Granted(sent) + recvPending
    }

    ghost predicate Sound()
      reads this
    {
      Sending(outq)
    }

    /** What open_session makes of the server's confirmation; a maximum packet size of 0 it does not accept. */
    constructor (chan: nat, window: nat, maxpkt: nat)
      requires chan <= MAX_U32 && window <= MAX_U32 && 0 < maxpkt <= MAX_U32
      ensures Valid() && sent == [] && given == [] && grants == window && lost == taken == 0 && !clientEof
      ensures remoteWindow == window && remoteMaxpkt == Least(maxpkt, CHAN_MAX_PKT)
    {
      hide IsData, IsEof, IsAdjust, DataIn, WindowIn, ForChannel;
      remoteChan, remoteWindow, remoteMaxpkt := chan, window, Least(maxpkt, CHAN_MAX_PKT);
      outq, sent, given := [], [], [];
      eofPending, clientEof, serverEof := false, false, false;
      recvPending, grants, lost, taken := 0, window, 0, 0;
    }

    /** How much can be sent in one message. */
    function ChunkSize(n: nat): (k: nat)
      reads this`remoteWindow
      ensures k <= n && k <= remoteWindow && k <= remoteMaxpkt
      ensures k == n || k == remoteWindow || k == remoteMaxpkt
    {
      Least(Least(n, remoteWindow), remoteMaxpkt)
    }

    function SendRoom(): nat
      reads this
    {
      if |outq| > 0 then 0 else ChunkSize(MAX_U32)
    }

    method SendData(data: seq<Byte>)
      requires remoteChan <= MAX_U32 && |data| <= remoteWindow <= MAX_U32
      modifies this`sent, this`remoteWindow
      ensures sent == old(sent) + [DataMsg(remoteChan, data)] && remoteWindow == old(remoteWindow) - |data|
    {
      sent := sent + [DataMsg(remoteChan, data)];
      remoteWindow := remoteWindow - |data|;
    }

    method SendEofPacket()
      requires remoteChan <= MAX_U32
      modifies this`sent
      ensures sent == old(sent) + [EofMsg(remoteChan)]
    {
      sent := sent + [EofMsg(remoteChan)];
    }

    /** One message of data that is next in line. */
    method SendChunk(data: seq<Byte>, ghost rest: seq<Byte>)
      requires Sending(data + rest) && Eofs(sent) == 0 && 0 < |data| <= remoteWindow && |data| <= remoteMaxpkt
      modifies this`sent, this`remoteWindow
      ensures Sending(rest) && Eofs(sent) == 0 && remoteWindow == old(remoteWindow) - |data|
      ensures AllData(sent) == old(AllData(sent)) + data
    {
      hide WellSent, AllData, Eofs, Granted, DataMsg, IsData, IsEof, IsAdjust, DataIn, WindowIn, ForChannel;
      DataMsgReads(remoteChan, data);
      Sends(sent, DataMsg(remoteChan, data), remoteMaxpkt, remoteChan);
      assert AllData(sent) + (data + rest) == AllData(sent) + data + rest;
      SendData(data);
    }

    /** As much of the queue as the window allows, and the end of the data if it was only waiting for that. */
    method FlushOutq()
      requires Sound() && (Eofs(sent) > 0 ==> outq == [])
      requires (eofPending ==> clientEof) && Eofs(sent) == (if clientEof && !eofPending then 1 else 0)
      modifies this`sent, this`remoteWindow, this`outq, this`eofPending
      ensures Valid()
    {
      hide WellSent, AllData, Eofs, Granted, EofMsg, IsData, IsEof, IsAdjust, DataIn, WindowIn, ForChannel;
      var done := 0;
      assert outq[0..] == outq;
      while done < |outq| && ChunkSize(|outq| - done) > 0
        invariant done <= |outq| && Sending(outq[done..]) && (outq == [] || Eofs(sent) == 0)
        invariant outq == [] ==> sent == old(sent)
        modifies this`sent, this`remoteWindow
      {
        var k := ChunkSize(|outq| - done);
        assert outq[done..] == outq[done..done + k] + outq[done + k..];
        SendChunk(outq[done..done + k], outq[done + k..]);
        done := done + k;
      }
      outq := outq[done..];
      if outq == [] && eofPending {
        eofPending := false;
        EofMsgReads(remoteChan);
        Sends(sent, EofMsg(remoteChan), remoteMaxpkt, remoteChan);
        assert AllData(sent) + [] == AllData(sent);
        SendEofPacket();
      }
    }

    /** With nothing waiting ahead of it, as much of the input as the window allows. */
    method SendDirect(data: seq<Byte>) returns (i: nat)
      requires Sending(data) && Eofs(sent) == 0
      modifies this`sent, this`remoteWindow
      ensures i <= |data| && Sending(data[i..]) && Eofs(sent) == 0 && remoteWindow == old(remoteWindow) - i
      ensures i < |data| ==> remoteWindow == 0
    {
      hide WellSent, AllData, Eofs, Granted;
      i := 0;
      assert data[0..] == data;
      while i < |data| && ChunkSize(|data| - i) > 0
        invariant i <= |data| && Sending(data[i..]) && Eofs(sent) == 0 && remoteWindow == old(remoteWindow) - i
        modifies this`sent, this`remoteWindow
      {
        var k := ChunkSize(|data| - i);
        assert data[i..] == data[i..i + k] + data[i + k..];
        SendChunk(data[i..i + k], data[i + k..]);
        i := i + k;
      }
    }

    /** Input goes out as far as the window allows; the rest waits, behind what waits already. */
    method SendInput(data: seq<Byte>)
      requires Valid() && !clientEof
      modifies this`sent, this`remoteWindow, this`outq, this`given
      ensures Valid() && given == old(given) + data
      ensures old(outq) == [] && |data| <= old(SendRoom()) ==> outq == []
    {
      hide WellSent, AllData, Eofs, Granted;
      given := given + data;
      assert AllData(sent) + outq + data == AllData(sent) + (outq + data);
      var i := 0;
      if |outq| == 0 {
        assert outq + data == data;
        i := SendDirect(data);
      }
      assert outq + data[i..] == if i == |data| then outq else outq + data[i..];
      if i == |data| { return; }
      outq := outq + data[i..];
    }

    method SendEof()
      requires Valid() && !clientEof
      modifies this`sent, this`clientEof, this`eofPending
      ensures Valid() && clientEof
    {
      hide WellSent, AllData, Eofs, Granted, EofMsg, IsData, IsEof, IsAdjust, DataIn, WindowIn, ForChannel;
      clientEof := true;
      if |outq| > 0 {
        eofPending := true;
      } else {
        EofMsgReads(remoteChan);
        Sends(sent, EofMsg(remoteChan), remoteMaxpkt, remoteChan);
        assert AllData(sent) + [] == AllData(sent);
        SendEofPacket();
      }
    }

    /** The window only grows, and stops at 32 bits. */
    method AddWindow(n: nat)
      requires Sound() && n <= MAX_U32
      modifies this`remoteWindow, this`grants, this`lost
      ensures Sound() && grants == old(grants) + n && AllData(sent) == old(AllData(sent))
      ensures remoteWindow == Least(old(remoteWindow) + n, MAX_U32)
      ensures lost == old(lost) + Excess(old(remoteWindow), n)
    {
      hide WellSent, AllData, Granted;
      grants := grants + n;
      if n > MAX_U32 - remoteWindow {
        lost := lost + (remoteWindow + n - MAX_U32);
        remoteWindow := MAX_U32;
      } else {
        remoteWindow := remoteWindow + n;
      }
    }

    /** Data that was shown is given back as window, half a window at a time. */
    method Consumed(n: nat)
      requires Valid() && n <= MAX_PKT
      modifies this`sent, this`recvPending, this`taken
      ensures Valid() && taken == old(taken) + n
      ensures var pending := old(recvPending) + n;
        if pending < 524288 then sent == old(sent) && recvPending == pending
        else sent == old(sent) + [AdjustMsg(remoteChan, pending)] && recvPending == 0
    {
      hide WellSent, AllData, Eofs, Granted, AdjustMsg, IsData, IsEof, IsAdjust, DataIn, WindowIn, ForChannel;
      taken, recvPending := taken + n, recvPending + n;
      if recvPending < WINDOW_SIZE / 2 { return; }
      AdjustMsgReads(remoteChan, recvPending);
      Sends(sent, AdjustMsg(remoteChan, recvPending), remoteMaxpkt, remoteChan);
      assert AllData(sent) + [] == AllData(sent);
      sent := sent + [AdjustMsg(remoteChan, recvPending)];
      recvPending := 0;
    }

    /** ssh_pump's part in the flow: one message of the server's. */
    method Pump(pkt: seq<Byte>) returns (r: Pumped)
      requires Valid() && |pkt| <= MAX_PKT
      modifies this`sent, this`recvPending, this`taken, this`remoteWindow, this`outq, this`eofPending, this`grants,
               this`lost
      modifies this`serverEof
      ensures Valid() && given == old(given) && clientEof == old(clientEof)
      ensures r == Meaning(pkt) && taken == old(taken) + |ShownIn(r)|
      ensures grants == old(grants) + WindowIn(pkt) && lost == old(lost) + Excess(old(remoteWindow), WindowIn(pkt))
      ensures serverEof == (old(serverEof) || IsEof(pkt))
    {
      hide WellSent, AllData, Eofs, Granted, DataIn;
      if |pkt| == 0 { return Nothing; }
      if pkt[0] == MSG_DATA || pkt[0] == MSG_EXTENDED_DATA {
        var at := if pkt[0] == MSG_DATA then 5 else 9;
        if |pkt| < at + 4 { return Truncated; }
        var n := ReadU32(pkt[at..]);
        if at + 4 + n > |pkt| { return Truncated; }
        Consumed(n);
        return Shown(pkt[at + 4..at + 4 + n], pkt[0] == MSG_EXTENDED_DATA);
      }
      if pkt[0] == MSG_WINDOW_ADJUST {
        if |pkt| < 9 { return Truncated; }
        AddWindow(ReadU32(pkt[5..]));
        FlushOutq();
        return Nothing;
      }
      if pkt[0] == MSG_EOF { serverEof := true; }
      return if pkt[0] == MSG_CLOSE then Over else Nothing;
    }
  }

  function Least(a: nat, b: nat): nat { if a < b then a else b }

  /** What of a grant of n does not fit in 32 bits. */
  function Excess(window: nat, n: nat): nat { if window + n > MAX_U32 then window + n - MAX_U32 else 0 }

  /* ---- runs ---- */

  /** What happens to a session: input, its end, and packets of the server's. */
  datatype Event = Input(data: seq<Byte>) | InputEnd | FromServer(pkt: seq<Byte>)

  ghost predicate EventsOk(events: seq<Event>) {
    forall i :: 0 <= i < |events| && events[i].FromServer? ==> |events[i].pkt| <= MAX_PKT
  }

  /** The input of a session up to its end. */
  ghost function InputOf(events: seq<Event>): seq<Byte>
    decreases |events|
  {
    if |events| == 0 then []
    else
      var n := |events| - 1;
      InputOf(events[..n]) + if events[n].Input? && !HasEnd(events[..n]) then events[n].data else []
  }

  ghost predicate HasEnd(events: seq<Event>) {
    exists i :: 0 <= i < |events| && events[i].InputEnd?
  }

  /** The window the server's messages grant, and what they show: with each piece, whether it is standard error. */
  function GrantedBy(events: seq<Event>): nat
    decreases |events|
  {
    if |events| == 0 then 0
    else
      var last := events[|events| - 1];
      GrantedBy(events[..|events| - 1]) + if last.FromServer? then WindowIn(last.pkt) else 0
  }

  function ShownBy(events: seq<Event>): seq<Pumped>
    decreases |events|
  {
    if |events| == 0 then []
    else
      var last := events[|events| - 1];
      ShownBy(events[..|events| - 1]) + if last.FromServer? && Meaning(last.pkt).Shown? then [Meaning(last.pkt)] else []
  }

  function Bytes(shown: seq<Pumped>): nat
    decreases |shown|
  {
    if |shown| == 0 then 0 else Bytes(shown[..|shown| - 1]) + |ShownIn(shown[|shown| - 1])|
  }

  /** An event after which there are no others: the channel is closed, or a message is too short. */
  predicate Ends(e: Event) {
    e.FromServer? && (Meaning(e.pkt).Over? || Meaning(e.pkt).Truncated?)
  }

  /** The first n events are those of the session: all, or those up to the one that ends it. */
  ghost predicate Session(events: seq<Event>, n: nat) {
    && n <= |events| && (n < |events| ==> n > 0 && Ends(events[n - 1]))
    && forall i :: 0 <= i < n - 1 ==> !Ends(events[i])
  }

  ghost predicate EofAmong(events: seq<Event>) {
    exists i :: 0 <= i < |events| && events[i].FromServer? && IsEof(events[i].pkt)
  }

  /* ---- what a run comes to ---- */

  /** The flow in numbers: the window, what waits for it, and what has been sent. */
  datatype Flow = Flow(window: nat, waiting: nat, sent: nat)

  function Drained(f: Flow): Flow {
    var k := Least(f.window, f.waiting);
    Flow(f.window - k, f.waiting - k, f.sent + k)
  }

  /** After each event all that can go out has gone. */
  ghost function Flowed(window: nat, events: seq<Event>): (f: Flow)
    ensures f.window == 0 || f.waiting == 0
    decreases |events|
  {
    if |events| == 0 then Flow(window, 0, 0)
    else
      var before := events[..|events| - 1];
      var f := Flowed(window, before);
      match events[|events| - 1]
      case Input(data) => if HasEnd(before) then f else Drained(f.(waiting := f.waiting + |data|))
      case InputEnd => f
      case FromServer(pkt) => Drained(f.(window := Least(f.window + WindowIn(pkt), MAX_U32)))
  }

  /** Unless more is granted than 32 bits hold, what is sent is all of the input that the grants allow. */
  lemma {:induction false} FlowIsLeast(window: nat, events: seq<Event>)
    requires window <= MAX_U32
    ensures var f, all := Flowed(window, events), window + GrantedBy(events);
      && f.sent + f.waiting == |InputOf(events)| && f.sent + f.window <= all && f.window <= MAX_U32
      && (all <= MAX_U32 ==> f.sent == Least(|InputOf(events)|, all) && f.window == all - f.sent)
    decreases |events|
  {
    hide WindowIn, HasEnd;
    if |events| > 0 { FlowIsLeast(window, events[..|events| - 1]); }
  }

  /** The channel is where the flow is. */
  ghost predicate Matches(ch: Channel, f: Flow)
    reads ch
  {
    ch.remoteWindow == f.window && |ch.outq| == f.waiting && |AllData(ch.sent)| == f.sent
  }

  /** One more event. */
  lemma RunStep(events: seq<Event>, i: nat)
    requires i < |events|
    ensures var a, b, e := events[..i], events[..i + 1], events[i];
      && InputOf(b) == InputOf(a) + (if e.Input? && !HasEnd(a) then e.data else [])
      && GrantedBy(b) == GrantedBy(a) + (if e.FromServer? then WindowIn(e.pkt) else 0)
      && ShownBy(b) == ShownBy(a) + (if e.FromServer? && Meaning(e.pkt).Shown? then [Meaning(e.pkt)] else [])
      && Bytes(ShownBy(b)) == Bytes(ShownBy(a)) + (if e.FromServer? then |ShownIn(Meaning(e.pkt))| else 0)
  {
    hide WindowIn, Meaning, HasEnd, Bytes;
    var a, b, e := events[..i], events[..i + 1], events[i];
    assert b[..i] == a;
    if e.FromServer? && Meaning(e.pkt).Shown? {
      BytesSnoc(ShownBy(a), Meaning(e.pkt));
    } else {
      assert ShownBy(a) + [] == ShownBy(a);
    }
  }

  lemma EndsStep(events: seq<Event>, i: nat)
    requires i < |events|
    ensures HasEnd(events[..i + 1]) == (HasEnd(events[..i]) || events[i].InputEnd?)
    ensures EofAmong(events[..i + 1]) == (EofAmong(events[..i]) || (events[i].FromServer? && IsEof(events[i].pkt)))
  {
    hide IsEof;
    var a, b := events[..i], events[..i + 1];
    assert b == a + [events[i]] && b[i] == events[i];
    if HasEnd(a) {
      var k :| 0 <= k < |a| && a[k].InputEnd?;
      assert b[k] == a[k];
    }
    if EofAmong(a) {
      var k :| 0 <= k < |a| && a[k].FromServer? && IsEof(a[k].pkt);
      assert b[k] == a[k];
    }
  }

  lemma FlowStep(events: seq<Event>, i: nat, window: nat)
    requires i < |events|
    ensures var a, f, e := events[..i], Flowed(window, events[..i]), events[i];
      Flowed(window, events[..i + 1])
      == match e
         case Input(data) => if HasEnd(a) then f else Drained(f.(waiting := f.waiting + |data|))
         case InputEnd => f
         case FromServer(pkt) => Drained(f.(window := Least(f.window + WindowIn(pkt), MAX_U32)))
  {
    hide WindowIn, Drained;
    assert events[..i + 1][..i] == events[..i];
  }

  lemma BytesSnoc(shown: seq<Pumped>, r: Pumped)
    ensures Bytes(shown + [r]) == Bytes(shown) + |ShownIn(r)|
  {
    assert (shown + [r])[..|shown|] == shown;
  }

  lemma NothingYet(window: nat)
    ensures InputOf([]) == [] && GrantedBy([]) == 0 && ShownBy([]) == [] && Bytes([]) == 0
    ensures !HasEnd([]) && !EofAmong([]) && Flowed(window, []) == Flow(window, 0, 0)
  {
  }

  /** One event; what it shows, if anything. */
  method Handle(ch: Channel, e: Event, ghost f: Flow) returns (shown: seq<Pumped>, over: bool)
    requires ch.Valid() && (e.FromServer? ==> |e.pkt| <= MAX_PKT) && Matches(ch, f)
    modifies ch
    ensures ch.Valid() && over == Ends(e)
    ensures ch.given == old(ch.given) + if e.Input? && !old(ch.clientEof) then e.data else []
    ensures ch.clientEof == (old(ch.clientEof) || e.InputEnd?)
    ensures ch.grants == old(ch.grants) + if e.FromServer? then WindowIn(e.pkt) else 0
    ensures shown == if e.FromServer? && Meaning(e.pkt).Shown? then [Meaning(e.pkt)] else []
    ensures ch.taken == old(ch.taken) + if e.FromServer? then |ShownIn(Meaning(e.pkt))| else 0
    ensures ch.serverEof == (old(ch.serverEof) || (e.FromServer? && IsEof(e.pkt)))
    ensures Matches(ch, match e
                        case Input(data) => if old(ch.clientEof) then f else Drained(f.(waiting := f.waiting + |data|))
                        case InputEnd => f
                        case FromServer(pkt) => Drained(f.(window := Least(f.window + WindowIn(pkt), MAX_U32))))
  {
    hide WellSent, AllData, Eofs, Granted, IsData, IsEof, IsAdjust, DataIn, WindowIn, ForChannel, Meaning;
    shown, over := [], false;
    match e {
      case Input(data) => if !ch.clientEof { ch.SendInput(data); }
      case InputEnd => if !ch.clientEof { ch.SendEof(); }
      case FromServer(pkt) =>
        var r := ch.Pump(pkt);
        if r.Shown? { shown := [r]; }
        over := r.Over? || r.Truncated?;
    }
  }

  /** A session: its events are handled until one ends it. What was sent and what waits is the input, in order; as much
      has been sent as the grants allow and no more; EOF goes once, when there is an end and all of the input is out;
      what is shown is the data received; and the window the server has left is more than half of what it had. */
  method RunSession(ch: Channel, events: seq<Event>) returns (n: nat, shown: seq<Pumped>)
    requires ch.Valid() && EventsOk(events) && ch.given == [] && !ch.clientEof && ch.grants == ch.remoteWindow
    modifies ch
    ensures ch.Valid() && Session(events, n) && WellSent(ch.sent, ch.remoteMaxpkt, ch.remoteChan)
    ensures ch.given == AllData(ch.sent) + ch.outq == InputOf(events[..n])
    ensures Matches(ch, Flowed(old(ch.remoteWindow), events[..n]))
    ensures ch.grants == old(ch.remoteWindow) + GrantedBy(events[..n]) && |AllData(ch.sent)| <= ch.grants
    ensures ch.clientEof == HasEnd(events[..n])
            && Eofs(ch.sent) == if HasEnd(events[..n]) && ch.outq == [] then 1 else 0
    ensures shown == ShownBy(events[..n]) && ch.taken == old(ch.taken) + Bytes(shown)
    ensures ch.serverEof == (old(ch.serverEof) || EofAmong(events[..n]))
    ensures Granted(ch.sent) <= ch.taken && WINDOW_SIZE + Granted(ch.sent) - ch.taken > WINDOW_SIZE / 2
  {
    hide WellSent, AllData, Eofs, Granted, IsData, IsEof, IsAdjust, DataIn, WindowIn, ForChannel, Meaning, Drained,
         Ends, Matches,
         Flowed;
    hide InputOf, GrantedBy, ShownBy, Bytes, HasEnd, EofAmong;
    n, shown := 0, [];
    var over := false;
    ghost var window := ch.remoteWindow;
    NothingYet(window);
    MatchesFirst(ch);
    assert events[..0] == [];
    while n < |events| && !over
      invariant n <= |events| && ch.Valid() && (over ==> n > 0 && Ends(events[n - 1]))
      invariant forall k :: 0 <= k < (if over then n - 1 else n) ==> !Ends(events[k])
      invariant ch.given == InputOf(events[..n]) && ch.clientEof == HasEnd(events[..n])
      invariant ch.grants == window + GrantedBy(events[..n])
                && ch.serverEof == (old(ch.serverEof) || EofAmong(events[..n]))
      invariant shown == ShownBy(events[..n]) && ch.taken == old(ch.taken) + Bytes(shown)
      invariant Matches(ch, Flowed(window, events[..n]))
      modifies ch
      decreases |events| - n
    {
      RunStep(events, n);
      EndsStep(events, n);
      FlowStep(events, n, window);
      var more;
      more, over := Handle(ch, events[n], Flowed(window, events[..n]));
      shown, n := shown + more, n + 1;
    }
  }

  lemma MatchesFirst(ch: Channel)
    requires ch.Valid() && ch.given == [] && ch.grants == ch.remoteWindow
    ensures Matches(ch, Flow(ch.remoteWindow, 0, 0))
  {
    hide WellSent, AllData, Eofs, Granted;
  }
}
