/** Where the guards of the run theorem come from: exactly when a put, a flush or an acknowledgement is harmless. */
module FifoLimits {
  import opened Bytes
  import opened Ring
  import opened Bus
  import opened Line
  import opened LineSafety
  import opened EndToEnd
  import opened IrqRuns
  import opened FifoRuns
  import H = HalfDuplex

  /** The bytes accepted and not yet captured by a poll. */
  function Pending(s: State): seq<byte>
    requires WellFormed(s)
  {
    Segment(s.buf, s.read, s.ahead)
  }

  /** The bytes of the frame in transmission that did not go out yet. */
  function Flight(s: State): seq<byte>
    requires WellFormed(s)
  {
    Segment(s.buf, s.parserIndex, s.parserRemaining)
  }

  ghost predicate PutIsFaithful(s: State, m: seq<byte>)
    requires WellFormed(s)
  {
    Pending(Put(s, m).0) == Pending(s) + m && Flight(Put(s, m).0) == Flight(s)
  }

  /** The answer to the application: a message is refused exactly when the node is connected and the ring has no room
      for it; a message is kept exactly when the node is connected and it has. */
  lemma PutAnswers(s: State, m: seq<byte>)
    requires WellFormed(s)
    ensures var (r, ok) := Put(s, m);
      && (!ok <==> s.connect == Connected && s.ahead + |m| > 128)
      && (s.connect == Connected && s.ahead + |m| <= 128 ==> r.ahead == s.ahead + |m|)
      && (s.connect != Connected || s.ahead + |m| > 128 ==> r == s)
  {
  }

  lemma FullTurn(at: nat, k: nat)
    ensures Slot(at, k + RING_SIZE) == Slot(at, k)
  {
  }

  lemma OverrunHitsFlight(s: State, m: seq<byte>)
    requires WellFormed(s) && Synced(s) && Slot(s.parserIndex, s.parserRemaining) == s.read
    requires Accepts(s, m) && m != [] && s.parserRemaining + s.ahead + |m| > RING_SIZE
    requires forall i :: 0 <= i < RING_SIZE ==> s.buf[i] != m[|m| - 1]
    ensures Flight(Put(s, m).0) != Flight(s)
  {
    var n := s.parserRemaining + s.ahead + |m| - 1;
    var k := n - RING_SIZE;
    SlotSlot(s.read, s.ahead, |m| - 1);
    SlotSlot(s.parserIndex, s.parserRemaining, s.ahead + |m| - 1);
    FullTurn(s.parserIndex, k);
    OffsetAhead(s.write, |m| - 1);
    StoreCells(s.buf, s.write, m, Slot(s.parserIndex, k));
    assert Flight(Put(s, m).0)[k] == m[|m| - 1] != Flight(s)[k];
  }

  /** The space check of `bidib_tx_fifo_put` overlooks the frame in transmission: an accepted message leaves both the
      pending bytes and that frame intact, whatever the ring holds, exactly when the frame's rest counts too. */
  lemma PutFaithfulExactly(s: State, m: seq<byte>)
    requires WellFormed(s) && Synced(s) && Slot(s.parserIndex, s.parserRemaining) == s.read
    requires Accepts(s, m) && m != []
    ensures (forall b: seq<byte> :: |b| == RING_SIZE ==> PutIsFaithful(s.(buf := b), m))
       <==> s.parserRemaining + s.ahead + |m| <= RING_SIZE
  {
    if s.parserRemaining + s.ahead + |m| <= RING_SIZE {
      forall b: seq<byte> | |b| == RING_SIZE ensures PutIsFaithful(s.(buf := b), m) {
        PutKeepsRing(s.(buf := b), m);
        PutKeepsInFlight(s.(buf := b), m);
      }
    } else {
      var other := m[|m| - 1] + 1;
      var b: seq<byte> := seq(RING_SIZE, _ => other);
      OverrunHitsFlight(s.(buf := b), m);
      assert !PutIsFaithful(s.(buf := b), m);
    }
  }

  /** A flush rewrites the cells reserved for the logon: it spares a frame in transmission, whatever the ring holds,
      exactly when no byte still to go lies in them. */
  lemma FlushSparesFlightExactly(s: State, image: seq<byte>)
    requires WellFormed(s) && |image| == LOGON_RESERVED
    ensures (forall b: seq<byte> :: |b| == RING_SIZE ==> Flight(Flush(s.(buf := b), image)) == Flight(s.(buf := b)))
       <==> forall k: nat :: k < s.parserRemaining ==> Slot(s.parserIndex, k) >= LOGON_RESERVED
  {
    if forall k: nat :: k < s.parserRemaining ==> Slot(s.parserIndex, k) >= LOGON_RESERVED {
      forall b: seq<byte> | |b| == RING_SIZE ensures Flight(Flush(s.(buf := b), image)) == Flight(s.(buf := b)) {
      }
    } else {
      var k: nat :| k < s.parserRemaining && Slot(s.parserIndex, k) < LOGON_RESERVED;
      var other := image[Slot(s.parserIndex, k)] + 1;
      var b: seq<byte> := seq(RING_SIZE, _ => other);
      assert Flight(s.(buf := b))[k] == other;
      assert Flight(Flush(s.(buf := b), image))[k] == image[Slot(s.parserIndex, k)];
    }
  }

  // ---- Acknowledgements ----

  function WithRing(l: Line, buf: seq<byte>): (r: Line)
    requires Usable(l) && |buf| == RING_SIZE
    ensures Usable(r)
  {
    l.(bus := l.bus.(buf := buf))
  }

  /** The line when, after an acknowledgement, a message is put and the node is polled at the address it has then. */
  function AckSendPoll(l: Line, granted: byte, msgType: byte, data: seq<byte>): (r: Line)
    requires Usable(l) && |data| <= 251
    ensures Usable(r)
  {
    var s := Next(Next(l, Ack(granted)), Send(msgType, data));
    Next(s, Hear(Word(s.bus.addr, true), true))
  }

  /** The interrupts that follow send exactly that message, as one frame. */
  ghost predicate NextArrives(l: Line, granted: byte, msgType: byte, data: seq<byte>)
    requires Usable(l) && |data| <= 124
  {
    var m := Message(0, msgType, data);
    Run(AckSendPoll(l, granted, msgType, data), IrqRun(|m| + 1)).done == l.done + [Transmission(Data, Frame(m), [m])]
  }

  /** Nothing waits and nothing is on the wire, and the address granted can be polled. */
  ghost predicate Idle(l: Line, granted: byte) {
    && Usable(l) && Inv(l) && H.Settled(l.bus) && !l.bus.de && l.queued == []
    && Acknowledge(l.bus, granted).addr & SYSTEM_TOKEN == 0
  }

  lemma EmptyQueue(l: Line)
    requires Usable(l) && QueueInv(l) && l.queued == []
    ensures l.bus.ahead == 0
  {
    assert |Segment(l.bus.buf, l.bus.read, l.bus.ahead)| == 0;
  }

  lemma AnyRing(l: Line, granted: byte, buf: seq<byte>)
    requires Idle(l, granted) && |buf| == RING_SIZE
    ensures Idle(WithRing(l, buf), granted)
  {
    EmptyQueue(l);
    assert Segment(buf, l.bus.read, 0) == [];
  }

  lemma SystemTokenIsNoPoll(addr: byte)
    requires addr & SYSTEM_TOKEN == 0
    ensures IsPoll(Word(addr, true), addr) && !IsPrompt(Word(addr, true))
  {
    assert LOGON_PROMPT & SYSTEM_TOKEN != 0;
  }

  /** What the acknowledgement of an idle node leads to when the ring indices agree. */
  lemma AckKeepsIdle(l: Line, granted: byte)
    requires Idle(l, granted) && (l.bus.connect == Connected || (!l.bus.logonMode && Synced(l.bus)))
    ensures var a := Next(l, Ack(granted));
      && Inv(a) && H.Settled(a.bus) && !a.bus.de && a.queued == [] && a.done == l.done
      && a.bus.connect == Connected && a.bus.msgNum == 0 && a.bus.parserRemaining == 0 && a.bus.ahead == 0
  {
    EmptyQueue(l);
    AckKeepsInv(l, granted);
    H.MoveSettled(l.bus, Ack(granted));
  }

  lemma SendWhenIdle(a: Line, msgType: byte, data: seq<byte>)
    requires Usable(a) && Inv(a) && H.Settled(a.bus) && !a.bus.de && a.queued == [] && |data| <= 124
    requires a.bus.connect == Connected && a.bus.msgNum == 0 && a.bus.parserRemaining == 0 && a.bus.ahead == 0
    ensures var s := Next(a, Send(msgType, data));
      && Inv(s) && H.Settled(s.bus) && !s.bus.de && s.queued == [Message(0, msgType, data)] && s.done == a.done
      && s.bus.addr == a.bus.addr
  {
    SendKeepsInv(a, msgType, data);
    H.MoveSettled(a.bus, Send(msgType, data));
    NextMovesBus(a, Send(msgType, data));
    assert [] + [Message(0, msgType, data)] == [Message(0, msgType, data)];
  }

  lemma {:induction false} IrqsAreGuarded(l: Line, n: nat)
    requires Usable(l)
    ensures Guarded(l, IrqRun(n))
  {
    if n > 0 {
      IrqsAreGuarded(l, n - 1);
      assert IrqRun(n)[..n - 1] == IrqRun(n - 1);
    }
  }

  lemma PollIsHear(s: Line, w: Word)
    requires Usable(s)
    ensures Next(s, Hear(w, true)) == DoHear(s, w, true)
  {
  }

  lemma PolledMessageArrives(s: Line, m: seq<byte>)
    requires Usable(s) && Inv(s) && H.Settled(s.bus) && !s.bus.de && s.queued == [m] && |m| < 256
    requires s.bus.addr & SYSTEM_TOKEN == 0
    ensures var p := Next(s, Hear(Word(s.bus.addr, true), true));
      Run(p, IrqRun(|m| + 1)).done == s.done + [Transmission(Data, Frame(m), [m])]
  {
    var w := Word(s.bus.addr, true);
    SystemTokenIsNoPoll(s.bus.addr);
    PollIsHear(s, w);
    PollThenIrqs(s, w, m);
    OneMoreIrq(DoHear(s, w, true), |m|);
  }

  lemma PollThenIrqs(s: Line, w: Word, m: seq<byte>)
    requires Usable(s) && Inv(s) && H.Settled(s.bus) && !s.bus.de && s.queued == [m] && |m| < 256
    requires IsPoll(w, s.bus.addr) && !IsPrompt(w)
    ensures DoIrq(Run(DoHear(s, w, true), IrqRun(|m|))).done == s.done + [Transmission(Data, Frame(m), [m])]
  {
    FlattenOne(m);
    IrqsAreGuarded(DoHear(s, w, true), |m|);
    IrqRunCount(|m|);
    PollDelivers(s, w, true, IrqRun(|m|));
  }

  lemma FlattenOne(m: seq<byte>)
    ensures Flatten([m]) == m
  {
    FlattenSnoc([], m);
    assert [] + [m] == [m];
  }

  lemma ServedInStep(l: Line, granted: byte, msgType: byte, data: seq<byte>)
    requires Idle(l, granted) && |data| <= 124
    requires l.bus.connect == Connected || (!l.bus.logonMode && Synced(l.bus))
    ensures NextArrives(l, granted, msgType, data)
  {
    AckKeepsIdle(l, granted);
    var a := Next(l, Ack(granted));
    SendWhenIdle(a, msgType, data);
    PolledMessageArrives(Next(a, Send(msgType, data)), Message(0, msgType, data));
  }

  // What an acknowledgement out of turn leads to.

  /** An acknowledged message waits, wherever the indices stand. */
  lemma AckThenSend(l: Line, granted: byte, msgType: byte, data: seq<byte>)
    requires Usable(l) && l.bus.connect != Connected && l.bus.ahead == 0 && |data| <= 124
    ensures var m := Message(0, msgType, data);
            var addr := granted | ParityBit(granted);
            var a := l.(bus := l.bus.(connect := Connected, addr := addr, msgNum := 0));
      Next(Next(l, Ack(granted)), Send(msgType, data)) == Sent(a, m)
  {
    SendStores(Next(l, Ack(granted)), msgType, data);
  }

  /** In logon mode the poll is answered with a NAK. */
  lemma LogonModeNaks(l: Line, granted: byte, msgType: byte, data: seq<byte>)
    requires Idle(l, granted) && l.bus.connect != Connected && l.bus.logonMode && |data| <= 124
    ensures var p := AckSendPoll(l, granted, msgType, data); p.kind == Nak && p.done == l.done
  {
    EmptyQueue(l);
    AckThenSend(l, granted, msgType, data);
    SystemTokenIsNoPoll(Acknowledge(l.bus, granted).addr);
    PollNaks(Next(Next(l, Ack(granted)), Send(msgType, data)), Word(granted | ParityBit(granted), true));
  }

  lemma PollNaks(s: Line, w: Word)
    requires Usable(s) && !s.bus.de && s.bus.logonMode && IsPoll(w, s.bus.addr) && !IsPrompt(w)
    ensures var p := Next(s, Hear(w, true)); p.kind == Nak && p.done == s.done
  {
  }

  lemma NotServedInLogonMode(l: Line, granted: byte, msgType: byte, data: seq<byte>)
    requires Idle(l, granted) && l.bus.connect != Connected && l.bus.logonMode && |data| <= 124
    ensures !NextArrives(l, granted, msgType, data)
  {
    var m := Message(0, msgType, data);
    var p := AckSendPoll(l, granted, msgType, data);
    LogonModeNaks(l, granted, msgType, data);
    IrqsKeepKind(p, |m| + 1);
    OtherKind(l.done, Run(p, IrqRun(|m| + 1)).done, Transmission(Data, Frame(m), [m]));
  }

  lemma OtherKind(done: seq<Transmission>, r: seq<Transmission>, t: Transmission)
    requires forall i :: |done| <= i < |r| ==> r[i].kind != t.kind
    ensures r != done + [t]
  {
    assert (done + [t])[|done|] == t;
  }

  /** With the indices apart the frame starts at the read index, where the message is not. */
  lemma SendsFromReadIndex(l: Line, granted: byte, msgType: byte, data: seq<byte>)
    requires Idle(l, granted) && l.bus.connect != Connected && !l.bus.logonMode && |data| <= 124
    ensures var m := Message(0, msgType, data);
            var p := AckSendPoll(l, granted, msgType, data);
      && p.bus.parserRemaining == |m| && p.bus.parserIndex == l.bus.read
      && p.bus.buf == Store(l.bus.buf, l.bus.write, m)
      && p.sent == [ToByte(|m|)] && p.done == l.done && SendingPayload(p)
  {
    var s := Next(Next(l, Ack(granted)), Send(msgType, data));
    EmptyQueue(l);
    AckThenSend(l, granted, msgType, data);
    SystemTokenIsNoPoll(s.bus.addr);
    PollCaptures(s, Word(s.bus.addr, true));
  }

  lemma ReadIndexMissesMessage(buf: seq<byte>, read: nat, m: seq<byte>)
    requires |buf| == RING_SIZE && read < RING_SIZE && read != LOGON_RESERVED && buf[read] == 7 && m == [3, 0, 0, 0]
    ensures Segment(Store(buf, LOGON_RESERVED, m), read, 4)[0] != 3
  {
    StoreCells(buf, LOGON_RESERVED, m, read);
    Wraps(read);
  }

  lemma NotServedApart(l: Line, granted: byte)
    requires Idle(l, granted) && l.bus.connect != Connected && !l.bus.logonMode && !Synced(l.bus)
    requires l.bus.buf[l.bus.read] == 7
    ensures !NextArrives(l, granted, 0, [])
  {
    var m := Message(0, 0, []);
    assert m == [3, 0, 0, 0];
    EmptyQueue(l);
    var p := AckSendPoll(l, granted, 0, []);
    SendsFromReadIndex(l, granted, 0, []);
    ReadIndexMissesMessage(l.bus.buf, l.bus.read, m);
    SendsFrame(p);
    SendsOther(p, m);
  }

  lemma SendsOther(p: Line, m: seq<byte>)
    requires 1 <= |m| < 256 && Usable(p) && p.sent == [ToByte(|m|)] && p.bus.parserRemaining == |m|
    requires Segment(p.bus.buf, p.bus.parserIndex, |m|)[0] != m[0]
    ensures FrameSent(p).done != p.done + [Transmission(Data, Frame(m), [m])]
  {
    FrameSentIsRingFrame(p);
    FrameTells(Segment(p.bus.buf, p.bus.parserIndex, |m|), m, 0);
    assert FrameSent(p).done[|p.done|].bytes != Frame(m);
  }

  /** An acknowledgement that finds the node idle leaves it able to send: whatever the ring holds, the next message
      put arrives with the next poll exactly when the node is connected already, or a logon has ended since the last
      flush and none is under way. The code asks for neither. */
  lemma AckServesExactly(l: Line, granted: byte)
    requires Idle(l, granted)
    ensures (forall buf: seq<byte>, msgType: byte, data: seq<byte> :: |buf| == RING_SIZE && |data| <= 124 ==>
               NextArrives(WithRing(l, buf), granted, msgType, data))
       <==> l.bus.connect == Connected || (!l.bus.logonMode && Synced(l.bus))
  {
    if l.bus.connect == Connected || (!l.bus.logonMode && Synced(l.bus)) {
      forall buf: seq<byte>, msgType: byte, data: seq<byte> | |buf| == RING_SIZE && |data| <= 124
        ensures NextArrives(WithRing(l, buf), granted, msgType, data)
      {
        AnyRing(l, granted, buf);
        ServedInStep(WithRing(l, buf), granted, msgType, data);
      }
    } else {
      var sevens: seq<byte> := seq(RING_SIZE, _ => 7);
      AnyRing(l, granted, sevens);
      if l.bus.logonMode {
        NotServedInLogonMode(WithRing(l, sevens), granted, 0, []);
      } else {
        NotServedApart(WithRing(l, sevens), granted);
      }
    }
  }

  /** An acknowledgement while the logon still goes out: the next message is accepted, and the end of the logon
      drops it from the FIFO unsent, so that the poll is answered with a NAK. */
  lemma AckDuringLogonLosesMessage(l: Line, granted: byte, msgType: byte, data: seq<byte>)
    requires Usable(l) && Inv(l) && l.bus.de && l.bus.logonMode && |data| <= 124
    ensures var m := Message(0, msgType, data);
            var r := Run(Next(Next(l, Ack(granted)), Send(msgType, data)), IrqRun(l.bus.txRemaining + 1));
      && r.kept == l.kept + [m] && r.done == l.done + [Transmission(Logon, l.bus.logonBuf, [])]
      && !r.bus.de && r.bus.ahead == 0 && HearPoll(r.bus).0.nakMode
  {
    var s := Next(Next(l, Ack(granted)), Send(msgType, data));
    AckThenSend(l, granted, msgType, data);
    SendsLogon(s);
    WordsJoin(l.bus.logonBuf, l.bus.txIndex, l.bus.txRemaining);
  }

  lemma WordsJoin(words: seq<byte>, i: nat, n: nat)
    requires i + n == |words|
    ensures words[..i] + words[i..i + n] == words
  {
  }

  lemma EarlySend(l: Line, msgType: byte, data: seq<byte>)
    requires Usable(l) && l.bus.connect == Connected && l.bus.ahead == 0 && |data| <= 100
    ensures var m := Message(l.bus.msgNum, msgType, data);
      var r := Next(l, Send(msgType, data));
      && r.kept == l.kept + [m] && r.done == l.done
      && r.bus.de == l.bus.de && r.bus.logonMode == l.bus.logonMode && r.bus.txRemaining == l.bus.txRemaining
      && r.bus.connect == Connected && r.bus.addr == l.bus.addr
  {
  }

  lemma NakInLogonMode(l: Line)
    requires Usable(l) && l.bus.connect == Connected && l.bus.addr == 0x81
    requires !l.bus.de && l.bus.logonMode && l.bus.txRemaining == 0
    ensures var r := Next(Next(l, Hear(Word(0x81, true), true)), Irq);
      && r.kept == l.kept && r.done == l.done + [Transmission(Nak, [0], [])] && !r.bus.de && r.bus.ahead == 0
  {
    var w := Word(0x81, true);
    assert !IsPrompt(w) && IsPoll(w, 0x81);
    var m := Next(l, Hear(w, true));
    assert [0 as byte] + [] == [0];
    assert m.bus.de && m.bus.txIrq && m.kind == Nak && m.sent == [0] && m.bus.logonMode && m.bus.txRemaining == 0;
  }

  /** An acknowledgement before the first logon: the next message is accepted, the poll is answered with a NAK, and
      the end of that NAK discards the message unsent. */
  lemma EarlyAckLosesMessage(logonBuf: seq<byte>, image: seq<byte>, ram: seq<byte>, msgType: byte, data: seq<byte>)
    requires |logonBuf| == LOGON_WORDS && |image| == LOGON_RESERVED && |ram| == RING_SIZE && |data| <= 100
    ensures var l0 := Start(logonBuf, image, ram);
      var l1 := Next(l0, Ack(1));
      var l2 := Next(l1, Send(msgType, data));
      var l3 := Next(l2, Hear(Word(0x81, true), true));
      var l4 := Next(l3, Irq);
      && l2.kept == [Message(0, msgType, data)] && l4.kept == l2.kept
      && Delivered(l4.done) == [] && !l4.bus.de && l4.bus.ahead == 0
  {
    var l0 := Start(logonBuf, image, ram);
    var l1 := Next(l0, Ack(1));
    assert l1.bus.connect == Connected && l1.bus.addr == 0x81 && l1.bus.msgNum == 0 && l1.bus.ahead == 0;
    EarlySend(l1, msgType, data);
    var l2 := Next(l1, Send(msgType, data));
    NakInLogonMode(l2);
    DeliveredSnoc([], Transmission(Nak, [0], []));
  }
}
