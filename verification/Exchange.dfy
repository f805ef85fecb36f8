/** Two connections, what the one writes being what the other reads: one direction of a session (mssh/mssh.c). */
module Exchange {
  import opened Utf8
  import opened Packets
  import opened Transport

  /** What is done at either end: a payload is sent, new keys are taken into use by the sender, a packet is received. */
  datatype Act = Say(pay: seq<Byte>, random: seq<Byte>) | Switch(random: seq<Byte>) | Hear

  /** Padding is drawn to the length that is needed, and NEWKEYS is sent by a switch alone. */
  predicate ActOk(act: Act) {
    match act
    case Say(pay, random) => |pay| + 12 < SEQ_MODULUS && |random| == Padding(1 + |pay|) && !IsNewKeys(pay)
    case Switch(random) => |random| == Padding(2)
    case Hear => true
  }

  /** The sender and the receiver are the ends of a link, and what is on its wire is what the receiver can read. */
  ghost predicate Ends(a: Ssh, b: Ssh, keys: nat -> Key, strict: bool, l: Link)
    reads a, b
  {
    && a.Valid() && b.Valid() && a.c == b.c && a.strictKex == b.strictKex == strict
    && a.SendsAs(l.sender, keys) && b.ReceivesAs(l.receiver, keys) && b.input == l.wire
  }

  /** What the sender has just written comes in at the receiver. */
  method Deliver(a: Ssh, b: Ssh, n: nat)
    requires n <= |a.out|
    modifies b`input
    ensures b.input == old(b.input) + a.out[n..]
  {
    b.input := b.input + a.out[n..];
  }

  method SayTo(a: Ssh, b: Ssh, pay: seq<Byte>, random: seq<Byte>, keys: nat -> Key, ghost l: Link) returns (ok: bool)
    requires a != b && Ends(a, b, keys, a.strictKex, l) && ActOk(Say(pay, random))
    modifies a, b`input
    ensures a.strictKex == old(a.strictKex) && EndOk(l.sender) && EndOk(l.receiver)
    ensures var r := Next(a.c, keys, a.strictKex, l, EventOf(l.sender, Say(pay, random)));
            Ends(a, b, keys, a.strictKex, r) && r.sent == (if ok then l.sent + [pay] else l.sent)
              && r.received == l.received
    ensures ok == MaySend(l.sender)
  {
    hide WireBytes, PacketOk, Padding;
    var n := |a.out|;
    ok := a.SendPacket(pay, random, l.sender, keys);
    Deliver(a, b, n);
  }

  method SwitchTo(a: Ssh, b: Ssh, random: seq<Byte>, keys: nat -> Key, epoch: nat, ghost l: Link) returns (ok: bool)
    requires a != b && Ends(a, b, keys, a.strictKex, l) && ActOk(Switch(random)) && epoch == l.sender.epoch
    modifies a, b`input
    ensures a.strictKex == old(a.strictKex) && EndOk(l.sender) && EndOk(l.receiver)
    ensures var r := Next(a.c, keys, a.strictKex, l, EventOf(l.sender, Switch(random)));
            && Ends(a, b, keys, a.strictKex, r) && r.sent == (if ok then l.sent + [[NEWKEYS]] else l.sent)
            && r.received == l.received && r.sender.epoch == if ok then epoch + 1 else epoch
    ensures ok == MaySend(l.sender)
  {
    hide WireBytes, PacketOk, Padding;
    var n := |a.out|;
    ok := a.SendNewKeys(keys(epoch + 1), random, l.sender, keys);
    Deliver(a, b, n);
  }

  method HearFrom(a: Ssh, b: Ssh, keys: nat -> Key, epoch: nat, ghost l: Link) returns (r: Received, e: nat)
    requires a != b && Ends(a, b, keys, b.strictKex, l) && epoch == l.receiver.epoch
    modifies b
    ensures b.strictKex == old(b.strictKex) && EndOk(l.sender) && EndOk(l.receiver)
    ensures Ends(a, b, keys, b.strictKex, Next(b.c, keys, b.strictKex, l, Take))
    ensures r == Receive(b.c, keys, l.receiver, l.wire)
    ensures Next(b.c, keys, b.strictKex, l, Take).received == if r.Got? then l.received + [r.payload] else l.received
    ensures Next(b.c, keys, b.strictKex, l, Take).sent == l.sent
    ensures e == Next(b.c, keys, b.strictKex, l, Take).receiver.epoch
  {
    hide Receive;
    e := epoch;
    r := b.ReceivePacket(l.receiver, keys);
    if r.Got? && |r.payload| > 0 && r.payload[0] == NEWKEYS {
      e := epoch + 1;
      b.UseRecvKey(keys(e));
    }
  }

  /** Each end's keys are its own, and change with NEWKEYS only. */
  lemma EpochsKept(c: Cipher, keys: nat -> Key, strict: bool, l: Link, ev: Event)
    requires EndOk(l.sender) && EndOk(l.receiver)
    ensures var r := Next(c, keys, strict, l, ev);
            && (ev.Send? ==> r.receiver == l.receiver)
            && (ev.Send? && !IsNewKeys(ev.packet.payload) ==> r.sender.epoch == l.sender.epoch)
            && (ev.Take? ==> r.sender == l.sender)
  {
    hide WireBytes, PacketOk, Receive;
  }

  /** One act, at either end. */
  method Do(a: Ssh, b: Ssh, act: Act, keys: nat -> Key, sendEpoch: nat, recvEpoch: nat, ghost l: Link)
    returns (said: seq<seq<Byte>>, heard: seq<seq<Byte>>, se: nat, re: nat)
    requires a != b && Ends(a, b, keys, a.strictKex, l) && ActOk(act)
    requires sendEpoch == l.sender.epoch && recvEpoch == l.receiver.epoch
    modifies a, b
    ensures a.strictKex == old(a.strictKex) && EndOk(l.sender) && EndOk(l.receiver)
    ensures var r := Next(a.c, keys, a.strictKex, l, EventOf(l.sender, act));
            && Ends(a, b, keys, a.strictKex, r) && r.sent == l.sent + said && r.received == l.received + heard
            && se == r.sender.epoch && re == r.receiver.epoch
  {
    hide Next, Receive;
    said, heard, se, re := [], [], sendEpoch, recvEpoch;
    EndsOk(a, b, keys, a.strictKex, l);
    EpochsKept(a.c, keys, a.strictKex, l, EventOf(l.sender, act));
    match act {
      case Say(pay, random) =>
        var ok := SayTo(a, b, pay, random, keys, l);
        if ok { said := [pay]; }
      case Switch(random) =>
        var ok := SwitchTo(a, b, random, keys, sendEpoch, l);
        if ok {
          said := [[NEWKEYS]];
          se := sendEpoch + 1;
        }
      case Hear =>
        var r;
        r, re := HearFrom(a, b, keys, recvEpoch, l);
        if r.Got? { heard := [r.payload]; }
    }
  }

  lemma EndsOk(a: Ssh, b: Ssh, keys: nat -> Key, strict: bool, l: Link)
    requires Ends(a, b, keys, strict, l)
    ensures EndOk(l.sender) && EndOk(l.receiver)
  {
  }

  /* ---- conversations ---- */

  /** What an act is to the link, its sender being at e. */
  function EventOf(e: End, act: Act): Event {
    match act
    case Say(pay, random) => Send(PacketFor(e, pay, random))
    case Switch(random) => Send(PacketFor(e, [NEWKEYS], random))
    case Hear => Take
  }

  /** The events of the link that acts are, one for each. */
  ghost function EventsOf(c: Cipher, keys: nat -> Key, strict: bool, acts: seq<Act>): (events: seq<Event>)
    ensures |events| == |acts|
    decreases |acts|
  {
    if |acts| == 0 then []
    else
      var n := |acts| - 1;
      var before := EventsOf(c, keys, strict, acts[..n]);
      before + [EventOf(Run(c, keys, strict, before).sender, acts[n])]
  }

  /** The link after some acts. */
  ghost function LinkAfter(c: Cipher, keys: nat -> Key, strict: bool, acts: seq<Act>): Link {
    Run(c, keys, strict, EventsOf(c, keys, strict, acts))
  }

  lemma OneMoreAct(c: Cipher, keys: nat -> Key, strict: bool, acts: seq<Act>, i: nat)
    requires i < |acts|
    ensures var l := LinkAfter(c, keys, strict, acts[..i]);
            && EndOk(l.sender) && EndOk(l.receiver)
            && LinkAfter(c, keys, strict, acts[..i + 1]) == Next(c, keys, strict, l, EventOf(l.sender, acts[i]))
  {
    hide Next, InStep, NoncesFresh, NothingEarly;
    assert acts[..i + 1][..i] == acts[..i];
    var before := EventsOf(c, keys, strict, acts[..i]);
    var l := Run(c, keys, strict, before);
    InStepEnds(c, keys, strict, l);
    assert (before + [EventOf(l.sender, acts[i])])[..|before|] == before;
  }

  lemma NoActs(c: Cipher, keys: nat -> Key, strict: bool)
    ensures LinkAfter(c, keys, strict, []) == START
  {
  }

  /** Whatever is done at the two ends in whatever order: they are the ends of the link that those very acts make,
      numbers, keys and wire in step; what was said and heard is what that link has sent and received, a prefix of
      it. */
  method Converse(a: Ssh, b: Ssh, acts: seq<Act>, keys: nat -> Key)
    returns (said: seq<seq<Byte>>, heard: seq<seq<Byte>>)
    requires a != b && Ends(a, b, keys, a.strictKex, START) && forall i :: 0 <= i < |acts| ==> ActOk(acts[i])
    modifies a, b
    ensures a.strictKex == old(a.strictKex)
    ensures var l := LinkAfter(a.c, keys, a.strictKex, acts);
            Ends(a, b, keys, a.strictKex, l) && said == l.sent && heard == l.received
    ensures heard <= said
  {
    hide Next, LinkAfter, InStep, NoncesFresh, NothingEarly, Ends, ActOk, EventOf;
    said, heard := [], [];
    var sendEpoch, recvEpoch := 0, 0;
    var strict := a.strictKex;
    NoActs(a.c, keys, strict);
    assert acts[..0] == [];
    for i := 0 to |acts|
      invariant a.strictKex == strict && Ends(a, b, keys, strict, LinkAfter(a.c, keys, strict, acts[..i]))
      invariant var l := LinkAfter(a.c, keys, strict, acts[..i]);
                said == l.sent && heard == l.received && sendEpoch == l.sender.epoch && recvEpoch == l.receiver.epoch
    {
      OneMoreAct(a.c, keys, strict, acts, i);
      var s, h;
      s, h, sendEpoch, recvEpoch := Do(a, b, acts[i], keys, sendEpoch, recvEpoch,
                                       LinkAfter(a.c, keys, strict, acts[..i]));
      said, heard := said + s, heard + h;
    }
    assert acts[..|acts|] == acts;
    HeardIsPrefix(a.c, keys, strict, acts);
  }

  lemma HeardIsPrefix(c: Cipher, keys: nat -> Key, strict: bool, acts: seq<Act>)
    ensures var l := LinkAfter(c, keys, strict, acts); l.received <= l.sent
  {
    hide Run;
    ReceivedIsPrefix(c, keys, strict, EventsOf(c, keys, strict, acts));
  }

  /* ---- what a conversation comes to ---- */

  /** The payloads sent, one for each act that sends. */
  function SaidIn(acts: seq<Act>): seq<seq<Byte>>
    decreases |acts|
  {
    if |acts| == 0 then []
    else
      match acts[|acts| - 1]
      case Say(pay, _) => SaidIn(acts[..|acts| - 1]) + [pay]
      case Switch(_) => SaidIn(acts[..|acts| - 1]) + [[NEWKEYS]]
      case Hear => SaidIn(acts[..|acts| - 1])
  }

  /** How many of them are heard: one each time, if there is one more. */
  function HeardIn(acts: seq<Act>): (n: nat)
    ensures n <= |SaidIn(acts)|
    decreases |acts|
  {
    if |acts| == 0 then 0
    else
      var n := HeardIn(acts[..|acts| - 1]);
      if acts[|acts| - 1].Hear? && n < |SaidIn(acts)| then n + 1 else n
  }

  /** Short enough for the receiver. */
  predicate ActFits(act: Act) {
    ActOk(act) && (act.Say? ==> |act.pay| + 12 <= MAX_PKT)
  }

  ghost predicate FlightFits(l: Link, n: nat) {
    l.sender.seqno <= n && forall i :: 0 <= i < |l.flight| ==> PacketLength(l.flight[i]) <= MAX_PKT
  }

  /** While the numbers last, everything is said, and everything said is heard, in order, as often as anybody
      listens. */
  lemma {:induction false} ConversationIs(c: Cipher, keys: nat -> Key, strict: bool, acts: seq<Act>)
    requires |acts| <= MAX_SEQ && forall i :: 0 <= i < |acts| ==> ActFits(acts[i])
    ensures var l := LinkAfter(c, keys, strict, acts);
            l.sent == SaidIn(acts) && l.received == SaidIn(acts)[..HeardIn(acts)] && FlightFits(l, |acts|)
    decreases |acts|
  {
    hide LinkAfter, Next, FlightFits, ActFits, EventOf, SaidIn, HeardIn;
    if |acts| == 0 {
      NoActs(c, keys, strict);
      NothingSaid();
      assert FlightFits(START, 0) by { NothingInFlight(); }
    } else {
      var n := |acts| - 1;
      ConversationIs(c, keys, strict, acts[..n]);
      CountsStep(acts);
      OneMoreAct(c, keys, strict, acts, n);
      assert acts[..n + 1] == acts;
      var l, r := LinkAfter(c, keys, strict, acts[..n]), LinkAfter(c, keys, strict, acts);
      if acts[n].Hear? {
        Hears(c, keys, strict, acts, n);
      } else {
        Says(c, keys, strict, l, acts[n], n);
      }
      HeardIsPrefix(c, keys, strict, acts);
      assert r.received == r.sent[..|r.received|];
    }
  }

  lemma NothingSaid()
    ensures SaidIn([]) == [] && HeardIn([]) == 0
  {
  }

  lemma CountsStep(acts: seq<Act>)
    requires |acts| > 0
    ensures var front, last := acts[..|acts| - 1], acts[|acts| - 1];
      && SaidIn(acts) == SaidIn(front) + (if last.Hear? then [] else SaidIn([last]))
      && HeardIn(acts) == HeardIn(front) + (if last.Hear? && HeardIn(front) < |SaidIn(front)| then 1 else 0)
  {
    var last := acts[|acts| - 1];
    assert [last][..0] == [];
  }

  lemma NothingInFlight()
    ensures FlightFits(START, 0)
  {
  }

  lemma Says(c: Cipher, keys: nat -> Key, strict: bool, l: Link, act: Act, n: nat)
    requires EndOk(l.sender) && EndOk(l.receiver) && FlightFits(l, n) && n < MAX_SEQ && ActFits(act) && !act.Hear?
    ensures var r := Next(c, keys, strict, l, EventOf(l.sender, act));
            && r.sent == l.sent + SaidIn([act]) && r.received == l.received && FlightFits(r, n + 1)
  {
    hide WireBytes;
    assert [act][..0] == [];
    var pay := if act.Say? then act.pay else [NEWKEYS];
    PaddingAligns(5 + |pay|);
    PaddingAligns(1 + |pay|);
  }

  lemma Hears(c: Cipher, keys: nat -> Key, strict: bool, acts: seq<Act>, n: nat)
    requires n < |acts| && acts[n].Hear? && FlightFits(LinkAfter(c, keys, strict, acts[..n]), n)
    ensures var l, r := LinkAfter(c, keys, strict, acts[..n]), LinkAfter(c, keys, strict, acts[..n + 1]);
            && r.sent == l.sent && FlightFits(r, n + 1)
            && |r.received| == |l.received| + if |l.received| < |l.sent| then 1 else 0
  {
    hide Run, Next, InStep, NoncesFresh, NothingEarly;
    OneMoreAct(c, keys, strict, acts, n);
    var events := EventsOf(c, keys, strict, acts[..n]);
    var l := Run(c, keys, strict, events);
    ReceivedIsPrefix(c, keys, strict, events);
    TakeKeepsSent(c, keys, strict, l);
    if |l.flight| > 0 {
      TakeDelivers(c, keys, strict, events);
      OneMoreEvent(c, keys, strict, events, Take);
    } else {
      NothingToTake(c, keys, strict, l);
    }
  }

  lemma OneMoreEvent(c: Cipher, keys: nat -> Key, strict: bool, events: seq<Event>, ev: Event)
    ensures var l := Run(c, keys, strict, events);
            EndOk(l.sender) && EndOk(l.receiver) && Run(c, keys, strict, events + [ev]) == Next(c, keys, strict, l, ev)
  {
    hide Next, InStep, NoncesFresh, NothingEarly;
    InStepEnds(c, keys, strict, Run(c, keys, strict, events));
    assert (events + [ev])[..|events|] == events;
  }

  lemma TakeKeepsSent(c: Cipher, keys: nat -> Key, strict: bool, l: Link)
    requires EndOk(l.sender) && EndOk(l.receiver)
    ensures Next(c, keys, strict, l, Take).sent == l.sent && Next(c, keys, strict, l, Take).sender == l.sender
  {
    hide Receive;
  }

  lemma NothingToTake(c: Cipher, keys: nat -> Key, strict: bool, l: Link)
    requires InStep(c, keys, strict, l) && l.flight == []
    ensures Next(c, keys, strict, l, Take) == l
  {
    EmptyFlight(c, keys, strict, l.receiver, l.flight);
    NothingReceived(c, keys, l.receiver);
  }
}
