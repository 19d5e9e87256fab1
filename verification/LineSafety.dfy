/** What every guarded run of the sender keeps: the ring holds exactly the unsent bytes, and the wire carries exactly
    the accepted messages. */
module LineSafety {
  import opened Bytes
  import opened Crc8
  import opened Ring
  import opened Bus
  import opened Line

  // ---- The invariant ----

  /** The pending bytes lie between the read and the write index. */
  ghost predicate Synced(s: State)
    requires WellFormed(s)
  {
    s.write == Slot(s.read, s.ahead)
  }

  /** Nothing pending, and the write index where the end of a logon will put the read index. */
  ghost predicate Parked(s: State) {
    s.write == LOGON_RESERVED && s.ahead == 0
  }

  ghost predicate BusInv(s: State) {
    && WellFormed(s)
    && s.de == s.txIrq
    && (s.connect != Connected ==> s.addr == NO_ADDRESS)
    && (s.connect in {Disconnected, Applied} || s.logonMode ==> Parked(s) && s.connect != Connected)
    && (Synced(s) || (Parked(s) && s.connect != Connected))
  }

  ghost predicate AllMessages(ms: seq<seq<byte>>) {
    forall m :: m in ms ==> IsMessage(m)
  }

  /** The FIFO holds exactly the queued messages. */
  ghost predicate QueueInv(l: Line) {
    && WellFormed(l.bus) && AllMessages(l.queued)
    && Segment(l.bus.buf, l.bus.read, l.bus.ahead) == Flatten(l.queued)
  }

  /** The messages of the finished data frames, in order. */
  function Delivered(done: seq<Transmission>): seq<seq<byte>> {
    if done == [] then []
    else
      var t := done[|done| - 1];
      Delivered(done[..|done| - 1]) + if t.kind == Data then t.msgs else []
  }

  /** What a finished DE-high period looked like from outside. */
  ghost predicate Proper(t: Transmission, logonBuf: seq<byte>) {
    match t.kind
    case Logon => t.bytes == logonBuf && t.msgs == []
    case Nak => t.bytes == [0] && t.msgs == []
    case Data =>
      && t.msgs != [] && AllMessages(t.msgs) && |Flatten(t.msgs)| <= RING_SIZE
      && t.bytes == Frame(Flatten(t.msgs))
  }

  ghost predicate AllProper(done: seq<Transmission>, logonBuf: seq<byte>) {
    forall t :: t in done ==> Proper(t, logonBuf)
  }

  ghost predicate RecordInv(l: Line) {
    && l.kept == Delivered(l.done) + l.carried + l.queued
    && AllProper(l.done, l.bus.logonBuf)
  }

  ghost predicate Quiet(l: Line) {
    !l.bus.nakMode && l.bus.parserRemaining == 0 && l.sent == [] && l.carried == []
  }

  ghost predicate SendingLogon(l: Line)
    requires WellFormed(l.bus)
  {
    && !l.bus.nakMode && l.bus.parserRemaining == 0 && l.kind == Logon && l.carried == []
    && l.bus.txIndex + l.bus.txRemaining == LOGON_WORDS && l.sent == l.bus.logonBuf[..l.bus.txIndex]
  }

  ghost predicate SendingNak(l: Line) {
    l.bus.parserRemaining == 0 && l.kind == Nak && l.sent == [0] && l.carried == []
  }

  /** The part of payload `p` still to go is the ring segment that ends at the read index. */
  ghost predicate InFlight(s: State, p: seq<byte>)
    requires WellFormed(s)
  {
    && s.parserRemaining <= |p| && s.parserRemaining + s.ahead <= RING_SIZE
    && Synced(s) && Slot(s.parserIndex, s.parserRemaining) == s.read
    && Segment(s.buf, s.parserIndex, s.parserRemaining) == p[|p| - s.parserRemaining..]
  }

  /** The rest of payload `p` went over the wire behind its length, and the running CRC covers what went. */
  ghost predicate OnWire(l: Line, p: seq<byte>) {
    && l.bus.parserRemaining <= |p| <= RING_SIZE
    && l.sent == [ToByte(|p|)] + p[..|p| - l.bus.parserRemaining]
    && l.bus.parserCrc == Fold(0, l.sent)
  }

  ghost predicate SendingFrame(l: Line)
    requires WellFormed(l.bus)
  {
    && l.kind == Data && l.carried != [] && AllMessages(l.carried)
    && InFlight(l.bus, Flatten(l.carried)) && OnWire(l, Flatten(l.carried))
  }

  ghost predicate PhaseInv(l: Line) {
    && WellFormed(l.bus)
    && (if !l.bus.de then Quiet(l)
        else if l.bus.logonMode then SendingLogon(l)
        else if l.bus.nakMode then SendingNak(l)
        else SendingFrame(l))
  }

  ghost predicate Inv(l: Line) {
    BusInv(l.bus) && QueueInv(l) && RecordInv(l) && PhaseInv(l)
  }

  /** What the environment has to respect for the transmit ring to stay faithful. */
  ghost predicate Guard(l: Line, e: Event)
    requires Usable(l)
  {
    match e
    case Send(_, data) =>
      l.bus.connect == Connected && l.bus.ahead + 4 + |data| <= RING_SIZE
      ==> l.bus.parserRemaining + l.bus.ahead + 4 + |data| <= RING_SIZE
    case Ack(_) => l.bus.connect == Connected || (!l.bus.logonMode && Synced(l.bus))
    case Timeout(_) => l.bus.connect == Connected ==> !l.bus.de
    case _ => true
  }

  ghost predicate Guarded(l: Line, es: seq<Event>)
    requires Usable(l)
  {
    es != [] ==> Guarded(l, es[..|es| - 1]) && Guard(Run(l, es[..|es| - 1]), es[|es| - 1])
  }

  // ---- Flattened messages ----

  lemma {:induction false} FlattenLength(ms: seq<seq<byte>>)
    requires AllMessages(ms)
    ensures |Flatten(ms)| >= 4 * |ms|
  {
    if ms != [] {
      FlattenLength(ms[..|ms| - 1]);
      assert ms[|ms| - 1] in ms;
    }
  }

  lemma NothingQueued(l: Line)
    requires QueueInv(l) && l.bus.ahead == 0
    ensures l.queued == []
  {
    FlattenLength(l.queued);
  }

  // ---- Send ----

  lemma PutKeepsRing(s: State, m: seq<byte>)
    requires WellFormed(s) && Synced(s) && s.ahead + |m| <= RING_SIZE
    ensures Slot(s.write, |m|) == Slot(s.read, s.ahead + |m|)
    ensures Segment(Store(s.buf, s.write, m), s.read, s.ahead + |m|) == Segment(s.buf, s.read, s.ahead) + m
  {
    SlotSlot(s.read, s.ahead, |m|);
    StoreAppends(s.buf, s.read, s.ahead, m);
  }

  lemma PutKeepsInFlight(s: State, m: seq<byte>)
    requires WellFormed(s) && Synced(s) && Slot(s.parserIndex, s.parserRemaining) == s.read
    requires s.parserRemaining + s.ahead + |m| <= RING_SIZE
    ensures Segment(Store(s.buf, s.write, m), s.parserIndex, s.parserRemaining)
         == Segment(s.buf, s.parserIndex, s.parserRemaining)
  {
    var n := s.parserRemaining + s.ahead;
    SlotSlot(s.parserIndex, s.parserRemaining, s.ahead);
    StoreKeeps(s.buf, s.parserIndex, n, m);
    var b := Store(s.buf, s.write, m);
    SegmentPrefix(s.buf, s.parserIndex, s.parserRemaining, n);
    SegmentPrefix(Store(s.buf, s.write, m), s.parserIndex, s.parserRemaining, n);
  }

  predicate Accepts(s: State, m: seq<byte>) {
    s.connect == Connected && s.ahead + |m| <= RING_SIZE
  }

  lemma OfferKeepsBus(l: Line, m: seq<byte>)
    requires Usable(l) && BusInv(l.bus)
    ensures BusInv(Offer(l, m).bus)
  {
    if Accepts(l.bus, m) {
      SlotSlot(l.bus.read, l.bus.ahead, |m|);
    }
  }

  lemma OfferKeepsQueue(l: Line, m: seq<byte>)
    requires Usable(l) && BusInv(l.bus) && QueueInv(l) && IsMessage(m)
    ensures QueueInv(Offer(l, m))
  {
    if Accepts(l.bus, m) {
      PutKeepsRing(l.bus, m);
      FlattenSnoc(l.queued, m);
    }
  }

  lemma OfferKeepsRecord(l: Line, m: seq<byte>)
    requires Usable(l) && RecordInv(l)
    ensures RecordInv(Offer(l, m))
  {
  }

  lemma PutKeepsFlight(s: State, m: seq<byte>, p: seq<byte>)
    requires WellFormed(s) && InFlight(s, p) && Accepts(s, m)
    requires s.parserRemaining + s.ahead + |m| <= RING_SIZE
    ensures InFlight(Put(s, m).0, p)
  {
    PutKeepsInFlight(s, m);
    PutKeepsRing(s, m);
  }

  lemma OfferKeepsFrame(l: Line, m: seq<byte>)
    requires Usable(l) && SendingFrame(l)
    requires Accepts(l.bus, m) ==> l.bus.parserRemaining + l.bus.ahead + |m| <= RING_SIZE
    ensures SendingFrame(Offer(l, m))
  {
    if Accepts(l.bus, m) {
      PutKeepsFlight(l.bus, m, Flatten(l.carried));
    }
  }

  lemma OfferKeepsInv(l: Line, m: seq<byte>)
    requires Usable(l) && Inv(l) && IsMessage(m)
    requires Accepts(l.bus, m) ==> l.bus.parserRemaining + l.bus.ahead + |m| <= RING_SIZE
    ensures Inv(Offer(l, m))
  {
    OfferKeepsBus(l, m);
    OfferKeepsQueue(l, m);
    OfferKeepsRecord(l, m);
    if l.bus.de && !l.bus.logonMode && !l.bus.nakMode {
      OfferKeepsFrame(l, m);
    }
  }

  lemma SendKeepsInv(l: Line, msgType: byte, data: seq<byte>)
    requires Usable(l) && Inv(l) && |data| <= 251 && Guard(l, Send(msgType, data))
    ensures Inv(DoSend(l, msgType, data))
  {
    OfferKeepsInv(l.(bus := l.bus.(msgNum := NextNumber(l.bus.msgNum))), Message(l.bus.msgNum, msgType, data));
  }

  // ---- Hear ----

  /** A poll is only answered with an address, and only a connected node has one. */
  lemma PolledIsConnected(s: State, w: Word)
    requires BusInv(s) && IsPoll(w, s.addr)
    ensures s.connect == Connected && Synced(s) && !s.logonMode
  {
    assert NO_ADDRESS & SYSTEM_TOKEN != 0;
  }

  lemma PromptKeepsBus(s: State, busFree: bool)
    requires BusInv(s) && !s.de
    ensures BusInv(HearPrompt(s, busFree).0)
  {
  }

  lemma PollKeepsBus(s: State)
    requires BusInv(s) && !s.de && s.connect == Connected
    ensures BusInv(HearPoll(s).0)
  {
    SlotSlot(s.read, s.ahead, 0);
  }

  lemma HearKeepsBus(s: State, w: Word, busFree: bool)
    requires BusInv(s)
    ensures BusInv(HearWord(s, w, busFree).0)
  {
    if s.de {
    } else if IsPrompt(w) {
      PromptKeepsBus(s, busFree);
    } else if IsPoll(w, s.addr) {
      PolledIsConnected(s, w);
      PollKeepsBus(s);
    }
  }

  /** Capturing the queue: the whole FIFO content becomes the payload in flight. */
  lemma CaptureStartsFrame(l: Line, w: Word, busFree: bool)
    requires Usable(l) && BusInv(l.bus) && QueueInv(l) && PhaseInv(l)
    requires !l.bus.de && !IsPrompt(w) && IsPoll(w, l.bus.addr) && l.bus.ahead > 0
    ensures SendingFrame(DoHear(l, w, busFree))
  {
    PolledIsConnected(l.bus, w);
    var p := Flatten(l.queued);
    assert p[|p| - l.bus.ahead..] == p;
    FoldSnoc(0, [], ToByte(|p|));
  }

  lemma PromptKeepsPhase(l: Line, w: Word, busFree: bool)
    requires Usable(l) && BusInv(l.bus) && QueueInv(l) && PhaseInv(l) && !l.bus.de && IsPrompt(w)
    ensures PhaseInv(DoHear(l, w, busFree))
  {
  }

  lemma NakKeepsPhase(l: Line, w: Word, busFree: bool)
    requires Usable(l) && BusInv(l.bus) && QueueInv(l) && PhaseInv(l)
    requires !l.bus.de && !IsPrompt(w) && IsPoll(w, l.bus.addr) && l.bus.ahead == 0
    ensures PhaseInv(DoHear(l, w, busFree))
  {
    PolledIsConnected(l.bus, w);
  }

  lemma HearKeepsPhase(l: Line, w: Word, busFree: bool)
    requires Usable(l) && BusInv(l.bus) && QueueInv(l) && PhaseInv(l)
    ensures PhaseInv(DoHear(l, w, busFree))
  {
    if !l.bus.de {
      if IsPrompt(w) {
        PromptKeepsPhase(l, w, busFree);
      } else if IsPoll(w, l.bus.addr) {
        if l.bus.ahead > 0 {
          PolledIsConnected(l.bus, w);
          CaptureStartsFrame(l, w, busFree);
        } else {
          NakKeepsPhase(l, w, busFree);
        }
      }
    }
  }

  lemma PromptKeepsQueue(l: Line, w: Word, busFree: bool)
    requires Usable(l) && QueueInv(l) && !l.bus.de && IsPrompt(w)
    ensures QueueInv(DoHear(l, w, busFree))
  {
  }

  lemma PollKeepsQueue(l: Line, w: Word, busFree: bool)
    requires Usable(l) && BusInv(l.bus) && QueueInv(l) && !l.bus.de && !l.bus.nakMode
    requires !IsPrompt(w) && IsPoll(w, l.bus.addr)
    ensures QueueInv(DoHear(l, w, busFree))
  {
    PolledIsConnected(l.bus, w);
  }

  lemma HearKeepsQueue(l: Line, w: Word, busFree: bool)
    requires Usable(l) && BusInv(l.bus) && QueueInv(l) && (!l.bus.de ==> !l.bus.nakMode)
    ensures QueueInv(DoHear(l, w, busFree))
  {
    if !l.bus.de {
      if IsPrompt(w) {
        PromptKeepsQueue(l, w, busFree);
      } else if IsPoll(w, l.bus.addr) {
        PollKeepsQueue(l, w, busFree);
      }
    }
  }

  lemma HearMovesQueue(l: Line, w: Word, busFree: bool)
    requires Usable(l) && (!l.bus.de ==> l.carried == [])
    ensures var r := DoHear(l, w, busFree);
      r.done == l.done && r.kept == l.kept && r.carried + r.queued == l.carried + l.queued
  {
    assert [] + l.queued == l.queued + [];
  }

  lemma HearKeepsRecord(l: Line, w: Word, busFree: bool)
    requires Usable(l) && RecordInv(l) && (!l.bus.de ==> l.carried == [])
    ensures RecordInv(DoHear(l, w, busFree))
  {
    HearMovesQueue(l, w, busFree);
    HearLeaves(l.bus, w, busFree);
    var r := DoHear(l, w, busFree);
    Regrouped(Delivered(r.done), r.carried, r.queued);
    Regrouped(Delivered(l.done), l.carried, l.queued);
  }

  // ---- Irq ----

  lemma IrqKeepsBus(s: State)
    requires BusInv(s)
    ensures BusInv(TransmitInterrupt(s).0)
  {
  }

  /** The ring bytes are not touched; the indices move only at the end of a logon. */
  lemma IrqKeepsQueue(l: Line)
    requires Usable(l) && BusInv(l.bus) && QueueInv(l)
    ensures QueueInv(DoIrq(l))
  {
    if l.bus.txIrq && l.bus.logonMode && l.bus.txRemaining == 0 {
      NothingQueued(l);
    }
  }

  /** Emitting one byte moves it from the ring segment to the wire. */
  lemma EmitKeepsFlight(s: State, p: seq<byte>)
    requires WellFormed(s) && InFlight(s, p)
    requires s.txIrq && !s.logonMode && !s.nakMode && s.parserRemaining > 0
    ensures InFlight(TransmitInterrupt(s).0, p)
    ensures TransmitInterrupt(s).1 == [p[|p| - s.parserRemaining]]
  {
    var n := s.parserRemaining;
    SegmentSplit(s.buf, s.parserIndex, 1, n);
    SlotSlot(s.parserIndex, 1, n - 1);
    assert Segment(s.buf, s.parserIndex, n)[0] == s.buf[Slot(s.parserIndex, 0)];
    assert Segment(s.buf, s.parserIndex, n)[1..] == p[|p| - n..][1..] == p[|p| - (n - 1)..];
    assert Segment(s.buf, s.parserIndex, n)[1..] == Segment(s.buf, Slot(s.parserIndex, 1), n - 1);
  }

  lemma EmitKeepsWire(l: Line, p: seq<byte>)
    requires Usable(l) && InFlight(l.bus, p) && OnWire(l, p)
    requires l.bus.de && l.bus.txIrq && !l.bus.logonMode && !l.bus.nakMode && l.bus.parserRemaining > 0
    ensures OnWire(DoIrq(l), p)
  {
    EmitKeepsFlight(l.bus, p);
    var i := |p| - l.bus.parserRemaining;
    FoldSnoc(0, l.sent, p[i]);
    assert p[..i + 1] == p[..i] + [p[i]];
  }

  lemma IrqKeepsFrame(l: Line)
    requires Usable(l) && BusInv(l.bus) && SendingFrame(l)
    requires l.bus.de && !l.bus.logonMode && !l.bus.nakMode && l.bus.parserRemaining > 0
    ensures SendingFrame(DoIrq(l))
  {
    EmitKeepsFlight(l.bus, Flatten(l.carried));
    EmitKeepsWire(l, Flatten(l.carried));
  }

  lemma IrqKeepsLogon(l: Line)
    requires Usable(l) && BusInv(l.bus) && SendingLogon(l) && l.bus.de && l.bus.logonMode && l.bus.txRemaining > 0
    ensures SendingLogon(DoIrq(l))
  {
  }

  lemma IrqKeepsPhase(l: Line)
    requires Usable(l) && BusInv(l.bus) && PhaseInv(l)
    ensures PhaseInv(DoIrq(l))
  {
    if l.bus.de && l.bus.logonMode && l.bus.txRemaining > 0 {
      IrqKeepsLogon(l);
    } else if l.bus.de && !l.bus.logonMode && !l.bus.nakMode && l.bus.parserRemaining > 0 {
      IrqKeepsFrame(l);
    }
  }

  lemma DeliveredSnoc(done: seq<Transmission>, t: Transmission)
    ensures Delivered(done + [t]) == Delivered(done) + if t.kind == Data then t.msgs else []
  {
    assert (done + [t])[..|done|] == done;
  }

  lemma EndedLogon(l: Line)
    requires Usable(l) && SendingLogon(l) && l.bus.txIrq && l.bus.logonMode && l.bus.txRemaining == 0
    ensures Proper(Transmission(l.kind, l.sent + TransmitInterrupt(l.bus).1, l.carried), l.bus.logonBuf)
  {
    assert l.bus.logonBuf[..LOGON_WORDS] + [] == l.bus.logonBuf;
  }

  lemma EndedNak(l: Line)
    requires Usable(l) && SendingNak(l) && l.bus.txIrq && !l.bus.logonMode && l.bus.nakMode
    ensures Proper(Transmission(l.kind, l.sent + TransmitInterrupt(l.bus).1, l.carried), l.bus.logonBuf)
  {
    assert [0 as byte] + [] == [0];
  }

  lemma EndedFrame(l: Line)
    requires Usable(l) && SendingFrame(l) && l.bus.txIrq && !l.bus.logonMode && !l.bus.nakMode
    requires l.bus.parserRemaining == 0
    ensures Proper(Transmission(l.kind, l.sent + TransmitInterrupt(l.bus).1, l.carried), l.bus.logonBuf)
  {
    var p := Flatten(l.carried);
    assert p[..|p|] == p;
  }

  /** A DE-high period that ends was a whole logon, a NAK, or a closed frame. */
  lemma EndedTransmission(l: Line)
    requires Usable(l) && BusInv(l.bus) && PhaseInv(l) && l.bus.de && !TransmitInterrupt(l.bus).0.de
    ensures Proper(Transmission(l.kind, l.sent + TransmitInterrupt(l.bus).1, l.carried), l.bus.logonBuf)
    ensures l.kind != Data ==> l.carried == []
  {
    if l.bus.logonMode {
      EndedLogon(l);
    } else if l.bus.nakMode {
      EndedNak(l);
    } else {
      EndedFrame(l);
    }
  }

  lemma ClosingKeepsRecord(done: seq<Transmission>, t: Transmission, queued: seq<seq<byte>>)
    requires t.kind != Data ==> t.msgs == []
    ensures Delivered(done) + t.msgs + queued == Delivered(done + [t]) + [] + queued
  {
    DeliveredSnoc(done, t);
  }

  lemma ClosingIrqMoves(l: Line, t: Transmission)
    requires Usable(l) && l.bus.de && !DoIrq(l).bus.de
    requires t == Transmission(l.kind, l.sent + TransmitInterrupt(l.bus).1, l.carried)
    ensures var r := DoIrq(l);
      && r.done == l.done + [t] && r.carried == []
      && r.queued == l.queued && r.kept == l.kept && r.bus.logonBuf == l.bus.logonBuf
  {
  }

  lemma ProperSnoc(done: seq<Transmission>, t: Transmission, logonBuf: seq<byte>)
    requires AllProper(done, logonBuf) && Proper(t, logonBuf)
    ensures AllProper(done + [t], logonBuf)
  {
  }

  lemma ClosingIrqKeepsRecord(l: Line, t: Transmission)
    requires Usable(l) && RecordInv(l) && l.bus.de && !DoIrq(l).bus.de
    requires t == Transmission(l.kind, l.sent + TransmitInterrupt(l.bus).1, l.carried)
    requires Proper(t, l.bus.logonBuf) && (t.kind != Data ==> t.msgs == [])
    ensures RecordInv(DoIrq(l))
  {
    ClosingIrqMoves(l, t);
    ProperSnoc(l.done, t, l.bus.logonBuf);
    ClosingKeepsRecord(l.done, t, l.queued);
  }

  lemma IrqKeepsRecord(l: Line)
    requires Usable(l) && BusInv(l.bus) && RecordInv(l) && PhaseInv(l)
    ensures RecordInv(DoIrq(l))
  {
    if l.bus.de && !DoIrq(l).bus.de {
      EndedTransmission(l);
      ClosingIrqKeepsRecord(l, Transmission(l.kind, l.sent + TransmitInterrupt(l.bus).1, l.carried));
    }
  }

  // ---- Ack, Refuse, Timeout ----

  lemma AckKeepsInv(l: Line, granted: byte)
    requires Usable(l) && Inv(l) && Guard(l, Ack(granted))
    ensures Inv(l.(bus := Acknowledge(l.bus, granted)))
  {
  }

  lemma RefuseKeepsInv(l: Line)
    requires Usable(l) && Inv(l)
    ensures Inv(l.(bus := Reject(l.bus)))
  {
  }

  lemma TimeoutKeepsInv(l: Line, image: seq<byte>)
    requires Usable(l) && Inv(l) && |image| == LOGON_RESERVED && Guard(l, Timeout(image))
    ensures Inv(DoTimeout(l, image))
  {
    if l.bus.connect == Connected {
      var d := Delivered(l.done);
      assert l.kept == d + l.queued && l.kept[..|l.kept| - |l.queued|] == d == d + [] + [];
    }
  }

  // ---- Runs ----

  lemma HearKeepsInv(l: Line, w: Word, busFree: bool)
    requires Usable(l) && Inv(l)
    ensures Inv(DoHear(l, w, busFree))
  {
    HearKeepsBus(l.bus, w, busFree);
    HearKeepsQueue(l, w, busFree);
    HearKeepsRecord(l, w, busFree);
    HearKeepsPhase(l, w, busFree);
  }

  lemma IrqKeepsInv(l: Line)
    requires Usable(l) && Inv(l)
    ensures Inv(DoIrq(l))
  {
    IrqKeepsBus(l.bus);
    IrqKeepsQueue(l);
    IrqKeepsRecord(l);
    IrqKeepsPhase(l);
  }

  lemma NextKeepsInv(l: Line, e: Event)
    requires Usable(l) && Inv(l) && Guard(l, e)
    ensures Inv(Next(l, e))
  {
    match e
    case Send(msgType, data) => SendKeepsInv(l, msgType, data);
    case Hear(w, busFree) => HearKeepsInv(l, w, busFree);
    case Irq => IrqKeepsInv(l);
    case Ack(granted) => AckKeepsInv(l, granted);
    case Refuse => RefuseKeepsInv(l);
    case Timeout(image) => TimeoutKeepsInv(l, image);
  }

  lemma {:induction false} RunKeepsInv(l: Line, es: seq<Event>)
    requires Usable(l) && Inv(l) && Guarded(l, es)
    ensures Inv(Run(l, es))
  {
    if es != [] {
      var n := |es| - 1;
      RunKeepsInv(l, es[..n]);
      NextKeepsInv(Run(l, es[..n]), es[n]);
    }
  }

  lemma RunKeepsRecord(l: Line, es: seq<Event>)
    requires Usable(l) && Inv(l) && Guarded(l, es)
    ensures var r := Run(l, es); r.kept == Delivered(r.done) + r.carried + r.queued
  {
    RunKeepsInv(l, es);
  }

  lemma StartHasInv(logonBuf: seq<byte>, image: seq<byte>, ram: seq<byte>)
    requires |logonBuf| == LOGON_WORDS && |image| == LOGON_RESERVED && |ram| == RING_SIZE
    ensures Inv(Start(logonBuf, image, ram))
  {
  }

  // ---- An interface that only answers applications ----

  /** A node that waits for the answer to a logon has one behind it since the last flush, or under way. */
  ghost predicate Answerable(s: State)
    requires WellFormed(s)
  {
    s.connect == Applied ==> if s.de then s.logonMode else !s.logonMode && Synced(s)
  }

  lemma HearKeepsAnswerable(s: State, w: Word, busFree: bool)
    requires BusInv(s) && Answerable(s)
    ensures Answerable(HearWord(s, w, busFree).0)
  {
    if !s.de && !IsPrompt(w) && IsPoll(w, s.addr) {
      PolledIsConnected(s, w);
    }
  }

  lemma IrqKeepsAnswerable(s: State)
    requires BusInv(s) && Answerable(s)
    ensures Answerable(TransmitInterrupt(s).0)
  {
  }

  lemma MoveKeepsAnswerable(s: State, e: Event)
    requires BusInv(s) && Answerable(s)
    ensures Answerable(Move(s, e))
  {
    match e
    case Send(msgType, data) =>
    case Hear(w, busFree) => HearKeepsAnswerable(s, w, busFree);
    case Irq => IrqKeepsAnswerable(s);
    case Ack(granted) =>
    case Refuse =>
    case Timeout(image) =>
  }

  /** The guard with a condition on acknowledgements that the interface can meet: it answers only a node that applied,
      when the logon is over, or repeats its answer. */
  ghost predicate Courteous(l: Line, e: Event)
    requires Usable(l)
  {
    if e.Ack? then l.bus.connect == Connected || (l.bus.connect == Applied && !l.bus.de) else Guard(l, e)
  }

  ghost predicate CourteousRun(l: Line, es: seq<Event>)
    requires Usable(l)
  {
    es != [] ==> CourteousRun(l, es[..|es| - 1]) && Courteous(Run(l, es[..|es| - 1]), es[|es| - 1])
  }

  lemma CourteousIsGuard(l: Line, e: Event)
    requires Usable(l) && Answerable(l.bus) && Courteous(l, e)
    ensures Guard(l, e)
  {
  }

  /** Acknowledgements that answer applications meet the guard: every run theorem holds of an interface that sends no
      others. */
  lemma {:induction false} CourteousIsGuarded(l: Line, es: seq<Event>)
    requires Usable(l) && Inv(l) && Answerable(l.bus) && CourteousRun(l, es)
    ensures Guarded(l, es) && Answerable(Run(l, es).bus)
  {
    if es != [] {
      var p, e := es[..|es| - 1], es[|es| - 1];
      CourteousIsGuarded(l, p);
      RunKeepsInv(l, p);
      OneMoreCourteous(Run(l, p), e);
    }
  }

  lemma OneMoreCourteous(m: Line, e: Event)
    requires Usable(m) && Inv(m) && Answerable(m.bus) && Courteous(m, e)
    ensures Guard(m, e) && Answerable(Next(m, e).bus)
  {
    CourteousIsGuard(m, e);
    MoveKeepsAnswerable(m.bus, e);
    NextMovesBus(m, e);
  }

  lemma StartIsAnswerable(logonBuf: seq<byte>, image: seq<byte>, ram: seq<byte>)
    requires |logonBuf| == LOGON_WORDS && |image| == LOGON_RESERVED && |ram| == RING_SIZE
    ensures Answerable(Start(logonBuf, image, ram).bus)
  {
  }
}
