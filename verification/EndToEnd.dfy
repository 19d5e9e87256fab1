/** Sender and receiver together: the frames of every guarded run, each put where a parser expects a packet, are turned
    back into the accepted messages. */
module EndToEnd {
  import opened Bytes
  import opened Crc8
  import Ring
  import opened Bus
  import opened Line
  import opened LineSafety
  import opened Reception
  import Rx = Assembler
  import H = HalfDuplex

  /** All finished transmissions as a parser takes them: each behind word 0x100, where a packet starts. */
  function WireWords(done: seq<Transmission>): seq<Word> {
    if done == [] then [] else WireWords(done[..|done| - 1]) + Behind(done[|done| - 1].bytes)
  }

  /** The messages a receiver must see: our logon messages and the messages of the data frames. */
  function Announced(done: seq<Transmission>): seq<seq<byte>> {
    if done == [] then []
    else
      var t := done[|done| - 1];
      Announced(done[..|done| - 1]) + match t.kind
        case Logon => [LOGON_MSG]
        case Nak => []
        case Data => t.msgs
  }

  /** No frame is longer than the receiver's packet array can hold: P_LENGTH is at most 63. */
  ghost predicate FitReceiver(done: seq<Transmission>) {
    forall t :: t in done && t.kind == Data ==> |Flatten(t.msgs)| < Rx.PAKET_SIZE
  }

  lemma LogonIsSized()
    ensures Sized(LOGON_MSG) && Flatten([LOGON_MSG]) == LOGON_MSG && |LOGON_MSG| == 11
  {
    FlattenSnoc([], LOGON_MSG);
    assert [] + [LOGON_MSG] == [LOGON_MSG];
  }

  /** A logon on the wire, byte by byte: length, size, address 0, number 0, type and unique id, and the byte that makes
      the CRC vanish. */
  lemma LogonOnTheWire()
    ensures |LOGON_FRAME| == 13 && Fold(0, LOGON_FRAME) == 0
    ensures LOGON_FRAME[..12] == [0x0B, 0x0A, 0x00, 0x00, 0xF0, 0x00, 0x01, 0x0D, 0xBA, 0xF1, 0xB6, 0xBC]
  {
    LogonIsSized();
    FrameIsShaped(LOGON_MSG);
    assert LOGON_FRAME[..12] == [LOGON_FRAME[0]] + LOGON_FRAME[1..12];
  }

  lemma DeliversLogon(a: Rx.State)
    requires Rx.WellFormed(a) && a.phase == Rx.Idle
    ensures Rx.Feed(a, Behind(LOGON_FRAME)).asm.phase == Rx.Idle
    ensures Rx.Feed(a, Behind(LOGON_FRAME)).msgs == [LOGON_MSG]
  {
    LogonIsSized();
    DeliversFrame(a, [LOGON_MSG]);
  }

  lemma IgnoresNak(a: Rx.State)
    requires Rx.WellFormed(a) && a.phase == Rx.Idle
    ensures Rx.Feed(a, Behind([0])).asm.phase == Rx.Idle
    ensures Rx.Feed(a, Behind([0])).msgs == []
  {
    FirstTwo(a, 0);
  }

  lemma MembersAreSized(ms: seq<seq<byte>>)
    requires AllMessages(ms) && |Flatten(ms)| < Rx.PAKET_SIZE
    ensures AllSized(ms)
  {
    forall m | m in ms ensures Sized(m) {
      assert IsMessage(m);
      var k :| 0 <= k < |ms| && ms[k] == m;
      MessageInFlat(ms, k);
    }
  }

  lemma DeliversData(a: Rx.State, t: Transmission, logonBuf: seq<byte>)
    requires Rx.WellFormed(a) && a.phase == Rx.Idle
    requires t.kind == Data && Proper(t, logonBuf) && |Flatten(t.msgs)| < Rx.PAKET_SIZE
    ensures Rx.Feed(a, Behind(t.bytes)).asm.phase == Rx.Idle
    ensures Rx.Feed(a, Behind(t.bytes)).msgs == t.msgs
  {
    FlattenLength(t.msgs);
    MembersAreSized(t.msgs);
    DeliversFrame(a, t.msgs);
  }

  /** The receiver follows the wire, transmission by transmission. */
  lemma {:induction false} ReceiverFollows(a: Rx.State, done: seq<Transmission>)
    requires Rx.WellFormed(a) && a.phase == Rx.Idle
    requires AllProper(done, LOGON_FRAME) && FitReceiver(done)
    ensures Rx.Feed(a, WireWords(done)).asm.phase == Rx.Idle
    ensures Rx.Feed(a, WireWords(done)).msgs == Announced(done)
  {
    if done != [] {
      var n := |done| - 1;
      var t := done[n];
      ReceiverFollows(a, done[..n]);
      Rx.FeedConcat(a, WireWords(done[..n]), Behind(t.bytes));
      var b := Rx.Feed(a, WireWords(done[..n])).asm;
      assert t in done && Proper(t, LOGON_FRAME);
      match t.kind
      case Logon => DeliversLogon(b);
      case Nak => IgnoresNak(b);
      case Data => DeliversData(b, t, LOGON_FRAME);
    }
  }

  /** Every DE-high period of a guarded run is a logon of 13 words, a NAK of one, or a frame of P_LENGTH + 2. */
  lemma TransmissionLengths(l: Line, es: seq<Event>, t: Transmission)
    requires Usable(l) && Inv(l) && Guarded(l, es) && t in Run(l, es).done
    ensures match t.kind
      case Logon => |t.bytes| == LOGON_WORDS
      case Nak => t.bytes == [0]
      case Data => |t.bytes| >= 2 && |t.bytes| == t.bytes[0] as nat + 2
  {
    RunKeepsInv(l, es);
    assert Proper(t, Run(l, es).bus.logonBuf);
  }

  lemma {:induction false} LogonBufStays(s: State, es: seq<Event>)
    requires WellFormed(s)
    ensures After(s, es).logonBuf == s.logonBuf
  {
    if es != [] {
      LogonBufStays(s, es[..|es| - 1]);
      MoveKeepsLogonBuf(After(s, es[..|es| - 1]), es[|es| - 1]);
    }
  }

  lemma MoveKeepsLogonBuf(s: State, e: Event)
    requires WellFormed(s)
    ensures Move(s, e).logonBuf == s.logonBuf
  {
    match e
    case Send(msgType, data) =>
    case Hear(w, busFree) => HearLeaves(s, w, busFree);
    case Irq =>
    case Ack(granted) =>
    case Refuse =>
    case Timeout(image) =>
  }

  /** Conservation: every accepted message that no flush discarded was delivered in a finished frame, is carried by
      the frame in transmission, or waits in the FIFO; each once, in order, and never split between frames. */
  lemma MessagesConserved(image: seq<byte>, ram: seq<byte>, es: seq<Event>)
    requires |image| == LOGON_RESERVED && |ram| == Ring.RING_SIZE
    requires Guarded(Start(LOGON_FRAME, image, ram), es)
    ensures var l := Run(Start(LOGON_FRAME, image, ram), es);
      l.kept == Delivered(l.done) + l.carried + l.queued && AllProper(l.done, LOGON_FRAME)
  {
    var l := Start(LOGON_FRAME, image, ram);
    StartHasInv(LOGON_FRAME, image, ram);
    RunKeepsInv(l, es);
    RunMovesBus(l, es);
    LogonBufStays(l.bus, es);
  }

  // ---- The record and the wire ----

  /** A word raises the driver. */
  predicate Raises(s: State, e: Event)
    requires WellFormed(s)
  {
    e.Hear? && !s.de && Move(s, e).de
  }

  /** The words of a run that made the node drive the bus: prompts and polls. */
  function Askers(s: State, es: seq<Event>): seq<Word>
    requires WellFormed(s)
  {
    if es == [] then [] else Askers(s, es[..|es| - 1]) + Asker(After(s, es[..|es| - 1]), es[|es| - 1])
  }

  function Asker(s: State, e: Event): seq<Word>
    requires WellFormed(s)
  {
    if Raises(s, e) then [e.w] else []
  }

  /** What other nodes hear around the node's transmissions: the word that asked for each, then the words sent. */
  function OnBus(s: State, es: seq<Event>): seq<Word>
    requires WellFormed(s)
  {
    if es == [] then [] else OnBus(s, es[..|es| - 1]) + Seen(After(s, es[..|es| - 1]), es[|es| - 1])
  }

  function Seen(s: State, e: Event): seq<Word>
    requires WellFormed(s)
  {
    Asker(s, e) + DataWords(Emit(s, e))
  }

  /** All bytes a line has recorded as sent. */
  function Recorded(l: Line): seq<byte> {
    AllBytes(l.done) + l.sent
  }

  function AllBytes(done: seq<Transmission>): seq<byte> {
    if done == [] then [] else AllBytes(done[..|done| - 1]) + done[|done| - 1].bytes
  }

  /** Finished transmissions, each behind the word that asked for it. */
  function AskedWords(askers: seq<Word>, done: seq<Transmission>): seq<Word>
    requires |askers| == |done|
  {
    if done == [] then []
    else
      var n := |done| - 1;
      AskedWords(askers[..n], done[..n]) + ([askers[n]] + DataWords(done[n].bytes))
  }

  /** One asker for each transmission, the one in progress included. */
  ghost predicate OneEach(askers: seq<Word>, l: Line) {
    |askers| == |l.done| + if l.bus.de then 1 else 0
  }

  /** A line's record as words, behind the words that asked for them. */
  function RecordedWords(askers: seq<Word>, l: Line): seq<Word>
    requires OneEach(askers, l)
  {
    AskedWords(askers[..|l.done|], l.done) + if l.bus.de then [askers[|l.done|]] + DataWords(l.sent) else []
  }

  ghost predicate Tidy(l: Line) {
    Usable(l) && l.bus.de == l.bus.txIrq && (!l.bus.de ==> l.sent == [])
  }

  lemma AllBytesSnoc(done: seq<Transmission>, t: Transmission)
    ensures AllBytes(done + [t]) == AllBytes(done) + t.bytes
  {
    assert (done + [t])[..|done|] == done;
  }

  lemma AskedSnoc(askers: seq<Word>, w: Word, done: seq<Transmission>, t: Transmission)
    requires |askers| == |done|
    ensures AskedWords(askers + [w], done + [t]) == AskedWords(askers, done) + ([w] + DataWords(t.bytes))
  {
    assert (done + [t])[..|done|] == done && (askers + [w])[..|askers|] == askers;
  }

  lemma {:induction false} DataWordsConcat(a: seq<byte>, b: seq<byte>)
    ensures DataWords(a + b) == DataWords(a) + DataWords(b)
  {
    if b == [] {
      assert a + b == a;
    } else {
      var c, x := b[..|b| - 1], b[|b| - 1];
      DataWordsConcat(a, c);
      SnocConcat(a, b);
      DataWordsSnoc(a + c, x);
      Regrouped(DataWords(a), DataWords(c), [Word(x, false)]);
    }
  }

  /** What one step must do to the record: the bytes sent are appended, and the word that asked for them. */
  ghost predicate Appends(askers: seq<Word>, l: Line, r: Line, asker: seq<Word>, out: seq<byte>) {
    && OneEach(askers, l) && OneEach(askers + asker, r)
    && Recorded(r) == Recorded(l) + out
    && RecordedWords(askers + asker, r) == RecordedWords(askers, l) + (asker + DataWords(out))
  }

  lemma SilentStep(askers: seq<Word>, l: Line, r: Line)
    requires OneEach(askers, l) && r.bus.de == l.bus.de && r.done == l.done && r.sent == l.sent
    ensures Appends(askers, l, r, [], [])
  {
    assert askers + [] == askers;
    assert Recorded(l) + [] == Recorded(l);
    assert RecordedWords(askers, l) + ([] + []) == RecordedWords(askers, l);
  }

  /** The words of the transmission in progress grow. */
  lemma WordsGrow(x: seq<Word>, w: Word, a: seq<byte>, b: seq<byte>)
    ensures x + ([w] + DataWords(a + b)) == (x + ([w] + DataWords(a))) + ([] + DataWords(b))
  {
    DataWordsConcat(a, b);
    assert [] + DataWords(b) == DataWords(b);
    Regrouped([w], DataWords(a), DataWords(b));
    Regrouped(x, [w] + DataWords(a), DataWords(b));
  }

  lemma SendingStep(askers: seq<Word>, l: Line, r: Line, out: seq<byte>)
    requires OneEach(askers, l) && l.bus.de && r.bus.de && r.done == l.done && r.sent == l.sent + out
    ensures Appends(askers, l, r, [], out)
  {
    assert askers + [] == askers;
    Regrouped(AllBytes(l.done), l.sent, out);
    WordsGrow(AskedWords(askers[..|l.done|], l.done), askers[|l.done|], l.sent, out);
  }

  lemma StartingStep(askers: seq<Word>, l: Line, r: Line, w: Word, out: seq<byte>)
    requires OneEach(askers, l) && !l.bus.de && r.bus.de && r.done == l.done && l.sent == [] && r.sent == out
    ensures Appends(askers, l, r, [w], out)
  {
    assert AllBytes(l.done) + [] == AllBytes(l.done);
    assert (askers + [w])[..|l.done|] == askers == askers[..|l.done|];
    assert AskedWords(askers, l.done) + [] == AskedWords(askers, l.done);
  }

  lemma ClosingStep(askers: seq<Word>, l: Line, r: Line, t: Transmission, out: seq<byte>)
    requires OneEach(askers, l) && l.bus.de && !r.bus.de
    requires r.done == l.done + [t] && t.bytes == l.sent + out && r.sent == []
    ensures Appends(askers, l, r, [], out)
  {
    AllBytesSnoc(l.done, t);
    Regrouped(AllBytes(l.done), l.sent, out);
    assert AllBytes(r.done) + [] == AllBytes(r.done);
    var front, w := askers[..|l.done|], askers[|l.done|];
    assert askers + [] == askers == front + [w];
    AskedSnoc(front, w, l.done, t);
    WordsGrow(AskedWords(front, l.done), w, l.sent, out);
    ClosedWords(askers, r);
  }

  lemma ClosedWords(askers: seq<Word>, r: Line)
    requires OneEach(askers, r) && !r.bus.de
    ensures RecordedWords(askers, r) == AskedWords(askers, r.done)
  {
    assert askers[..|r.done|] == askers;
    assert AskedWords(askers, r.done) + [] == AskedWords(askers, r.done);
  }

  lemma HearStaysTidy(l: Line, w: Word, busFree: bool)
    requires Tidy(l)
    ensures Tidy(DoHear(l, w, busFree))
  {
    HearKeepsDriver(l.bus, w, busFree);
  }

  lemma HearKeepsDriver(s: State, w: Word, busFree: bool)
    requires WellFormed(s) && s.de == s.txIrq
    ensures var r := HearWord(s, w, busFree).0; r.de == r.txIrq && (s.de ==> r.de)
  {
    if !s.de {
      if IsPrompt(w) {
        PromptKeepsDriver(s, busFree);
      } else if IsPoll(w, s.addr) {
        PollRaisesDriver(s);
      }
    }
  }

  lemma PromptKeepsDriver(s: State, busFree: bool)
    requires WellFormed(s) && s.de == s.txIrq
    ensures HearPrompt(s, busFree).0.de == HearPrompt(s, busFree).0.txIrq
  {
  }

  lemma PollRaisesDriver(s: State)
    requires WellFormed(s)
    ensures HearPoll(s).0.de && HearPoll(s).0.txIrq
  {
    if s.ahead > 0 && !s.logonMode {
      var r := HearPoll(s).0;
      assert r.de;
    } else {
      var r := HearPoll(s).0;
      assert r.de;
    }
  }

  lemma HearStarts(l: Line, w: Word, busFree: bool)
    requires Usable(l) && !l.bus.de && DoHear(l, w, busFree).bus.de
    ensures var r := DoHear(l, w, busFree); r.done == l.done && r.sent == HearWord(l.bus, w, busFree).1
  {
  }

  lemma HearAppends(askers: seq<Word>, l: Line, w: Word, busFree: bool)
    requires Tidy(l) && OneEach(askers, l)
    ensures var r := DoHear(l, w, busFree);
      Appends(askers, l, r, if !l.bus.de && r.bus.de then [w] else [], HearWord(l.bus, w, busFree).1)
  {
    var r, out := DoHear(l, w, busFree), HearWord(l.bus, w, busFree).1;
    if !l.bus.de && r.bus.de {
      HearStarts(l, w, busFree);
      StartingStep(askers, l, r, w, out);
    } else {
      HearIsSilent(l.bus, w, busFree);
      SilentStep(askers, l, r);
    }
  }

  lemma HearIsSilent(s: State, w: Word, busFree: bool)
    requires WellFormed(s) && (s.de || !HearWord(s, w, busFree).0.de)
    ensures HearWord(s, w, busFree).1 == [] && HearWord(s, w, busFree).0.de == s.de
  {
  }

  lemma IrqStaysTidy(l: Line)
    requires Tidy(l)
    ensures Tidy(DoIrq(l))
  {
  }

  lemma IrqRecords(l: Line)
    requires Tidy(l)
    ensures var r, out := DoIrq(l), TransmitInterrupt(l.bus).1;
      && (!l.bus.de ==> !r.bus.de && out == [] && r.done == l.done && r.sent == l.sent)
      && (l.bus.de && r.bus.de ==> r.done == l.done && r.sent == l.sent + out)
      && (l.bus.de && !r.bus.de ==> r.done == l.done + [Transmission(l.kind, l.sent + out, l.carried)] && r.sent == [])
  {
  }

  lemma IrqAppends(askers: seq<Word>, l: Line)
    requires Tidy(l) && OneEach(askers, l)
    ensures Appends(askers, l, DoIrq(l), [], TransmitInterrupt(l.bus).1)
  {
    var r, out := DoIrq(l), TransmitInterrupt(l.bus).1;
    IrqRecords(l);
    if !l.bus.de {
      SilentStep(askers, l, r);
    } else if r.bus.de {
      SendingStep(askers, l, r, out);
    } else {
      ClosingStep(askers, l, r, Transmission(l.kind, l.sent + out, l.carried), out);
    }
  }

  lemma OthersAreSilent(l: Line, e: Event)
    requires Tidy(l) && !e.Hear? && !e.Irq?
    ensures var r := Next(l, e); r.bus.de == l.bus.de && r.done == l.done && r.sent == l.sent
  {
    match e
    case Send(msgType, data) =>
    case Ack(granted) =>
    case Refuse =>
    case Timeout(image) =>
  }

  lemma NextAppends(askers: seq<Word>, l: Line, e: Event)
    requires Tidy(l) && OneEach(askers, l)
    ensures Appends(askers, l, Next(l, e), Asker(l.bus, e), Emit(l.bus, e))
  {
    NextMovesBus(l, e);
    if e.Hear? {
      HearAppends(askers, l, e.w, e.busFree);
    } else if e.Irq? {
      IrqAppends(askers, l);
    } else {
      OthersAreSilent(l, e);
      SilentStep(askers, l, Next(l, e));
    }
  }

  lemma NextStaysTidy(l: Line, e: Event)
    requires Tidy(l)
    ensures Tidy(Next(l, e))
  {
    match e
    case Hear(w, busFree) => HearStaysTidy(l, w, busFree);
    case Irq => IrqStaysTidy(l);
    case Send(msgType, data) =>
    case Ack(granted) =>
    case Refuse =>
    case Timeout(image) =>
  }

  /** The record is what the bus carries: over every run, guarded or not, the bytes recorded are those the interrupt
      routines emitted, and what other nodes hear is each recorded transmission behind the prompt or poll that asked
      for it. */
  lemma {:induction false} RecordIsWire(askers: seq<Word>, l: Line, es: seq<Event>)
    requires Tidy(l) && OneEach(askers, l)
    ensures var r, all := Run(l, es), askers + Askers(l.bus, es);
      && Tidy(r) && OneEach(all, r)
      && Recorded(r) == Recorded(l) + Emitted(l.bus, es)
      && RecordedWords(all, r) == RecordedWords(askers, l) + OnBus(l.bus, es)
  {
    if es == [] {
      SilentStep(askers, l, l);
    } else {
      var p, e := es[..|es| - 1], es[|es| - 1];
      var m := Run(l, p);
      RecordIsWire(askers, l, p);
      RunMovesBus(l, p);
      NextAppends(askers + Askers(l.bus, p), m, e);
      NextStaysTidy(m, e);
      Regrouped(askers, Askers(l.bus, p), Asker(m.bus, e));
      Regrouped(Recorded(l), Emitted(l.bus, p), Emit(m.bus, e));
      Regrouped(RecordedWords(askers, l), OnBus(l.bus, p), Seen(m.bus, e));
    }
  }

  lemma StartIsTidy(image: seq<byte>, ram: seq<byte>)
    requires |image| == LOGON_RESERVED && |ram| == Ring.RING_SIZE
    ensures var l := Start(LOGON_FRAME, image, ram);
      Tidy(l) && Recorded(l) == [] && OneEach([], l) && RecordedWords([], l) == []
  {
  }

  /** From power-on: the bytes recorded are those emitted, and while the driver is off the finished transmissions
      behind the words that asked for them are all that other nodes heard of the node. */
  lemma StartsOnBus(image: seq<byte>, ram: seq<byte>, es: seq<Event>)
    requires |image| == LOGON_RESERVED && |ram| == Ring.RING_SIZE
    ensures var start := Start(LOGON_FRAME, image, ram);
            var l := Run(start, es);
            var askers := Askers(start.bus, es);
      && Recorded(l) == Emitted(start.bus, es)
      && (!l.bus.de ==> |askers| == |l.done| && OnBus(start.bus, es) == AskedWords(askers, l.done))
  {
    var start := Start(LOGON_FRAME, image, ram);
    StartIsTidy(image, ram);
    RecordIsWire([], start, es);
    var l, askers := Run(start, es), Askers(start.bus, es);
    assert [] + askers == askers;
    FromNothing(Recorded(start), Recorded(l), Emitted(start.bus, es));
    FromNothing(RecordedWords([], start), RecordedWords(askers, l), OnBus(start.bus, es));
    if !l.bus.de {
      ClosedWords(askers, l);
    }
  }

  lemma FromNothing<T>(n: seq<T>, a: seq<T>, b: seq<T>)
    requires n == [] && a == n + b
    ensures a == b
  {
  }

  /** The round trip: over every guarded run, in any interleaving, whose frames fit the receiver, the bytes emitted are
      those of the finished transmissions and of the one in progress, and an idle receiver that is fed each finished one
      behind word 0x100, where it expects a packet to start, dispatches exactly our logons and the delivered messages
      and is idle again. */
  lemma RoundTrip(image: seq<byte>, ram: seq<byte>, es: seq<Event>, a: Rx.State)
    requires |image| == LOGON_RESERVED && |ram| == Ring.RING_SIZE
    requires Guarded(Start(LOGON_FRAME, image, ram), es)
    requires FitReceiver(Run(Start(LOGON_FRAME, image, ram), es).done)
    requires Rx.WellFormed(a) && a.phase == Rx.Idle
    ensures var start := Start(LOGON_FRAME, image, ram);
            var l := Run(start, es);
      && Emitted(start.bus, es) == AllBytes(l.done) + l.sent
      && Rx.Feed(a, WireWords(l.done)).msgs == Announced(l.done)
      && Rx.Feed(a, WireWords(l.done)).asm.phase == Rx.Idle
  {
    MessagesConserved(image, ram, es);
    ReceiverFollows(a, Run(Start(LOGON_FRAME, image, ram), es).done);
    StartsOnBus(image, ram, es);
  }

  // ---- What a peer makes of the real words ----

  /** No acknowledgement of a run grants address 0. */
  ghost predicate NonzeroGrants(es: seq<Event>) {
    forall e :: e in es && e.Ack? ==> e.granted != 0
  }

  lemma StoredNonzero(granted: byte)
    requires granted != 0
    ensures granted | ParityBit(granted) != 0
  {
  }

  lemma AddressStaysNonzero(s: State, e: Event)
    requires WellFormed(s) && s.addr != 0 && (e.Ack? ==> e.granted != 0)
    ensures Move(s, e).addr != 0
  {
    match e
    case Send(msgType, data) =>
    case Hear(w, busFree) => HearKeepsAddress(s, w, busFree);
    case Irq =>
    case Ack(granted) => AcknowledgedNonzero(s, granted);
    case Refuse =>
    case Timeout(image) =>
  }

  lemma AcknowledgedNonzero(s: State, granted: byte)
    requires WellFormed(s) && s.addr != 0 && granted != 0
    ensures Acknowledge(s, granted).addr != 0
  {
    StoredNonzero(granted);
  }

  lemma HearKeepsAddress(s: State, w: Word, busFree: bool)
    requires WellFormed(s)
    ensures HearWord(s, w, busFree).0.addr == s.addr
  {
  }

  /** The word that raises the driver starts a packet for this parser only if the node is polled at address 0. */
  lemma AskerIsNoStart(s: State, e: Event)
    requires WellFormed(s) && Raises(s, e) && s.addr != 0
    ensures e.w != START_WORD
  {
  }

  /** An idle parser takes a frame exactly if it stands behind word 0x100. */
  lemma TakenBehindStartExactly(a: Rx.State, w: Word, ms: seq<seq<byte>>)
    requires Rx.WellFormed(a) && a.phase == Rx.Idle && AllSized(ms) && 1 <= |Flatten(ms)| < Rx.PAKET_SIZE
    ensures Rx.Feed(a, [w] + DataWords(Frame(Flatten(ms)))).msgs == (if w == START_WORD then ms else [])
  {
    if w == START_WORD {
      DeliversFrame(a, ms);
    } else {
      PassedOver(a, w, Frame(Flatten(ms)));
    }
  }

  lemma PassedOver(a: Rx.State, w: Word, bytes: seq<byte>)
    requires Rx.WellFormed(a) && a.phase == Rx.Idle && w != START_WORD
    ensures Rx.Feed(a, [w] + DataWords(bytes)) == Rx.Fed(a, [])
  {
    FeedFirst(a, w, DataWords(bytes));
    IdleIgnoresData(a, bytes);
  }

  lemma SeenPassesOver(a: Rx.State, s: State, e: Event)
    requires Rx.WellFormed(a) && a.phase == Rx.Idle && WellFormed(s) && s.addr != 0
    ensures Rx.Feed(a, Seen(s, e)) == Rx.Fed(a, [])
  {
    if Raises(s, e) {
      AskerIsNoStart(s, e);
      PassedOver(a, e.w, Emit(s, e));
    } else {
      assert [] + DataWords(Emit(s, e)) == DataWords(Emit(s, e));
      IdleIgnoresData(a, Emit(s, e));
    }
  }

  lemma {:induction false} RunKeepsAddress(s: State, es: seq<Event>)
    requires WellFormed(s) && s.addr != 0 && NonzeroGrants(es)
    ensures After(s, es).addr != 0
  {
    if es != [] {
      RunKeepsAddress(s, es[..|es| - 1]);
      assert es[|es| - 1] in es;
      AddressStaysNonzero(After(s, es[..|es| - 1]), es[|es| - 1]);
    }
  }

  /** Over every run, as long as the node is never granted address 0, an idle peer with the same parser passes over
      everything it really hears of the node: transmissions stand behind prompts and polls there, and only the
      interface that polled can know them for packets. */
  lemma {:induction false} PeersPassOver(a: Rx.State, s: State, es: seq<Event>)
    requires Rx.WellFormed(a) && a.phase == Rx.Idle && WellFormed(s) && s.addr != 0 && NonzeroGrants(es)
    ensures Rx.Feed(a, OnBus(s, es)) == Rx.Fed(a, [])
  {
    if es != [] {
      var p, e := es[..|es| - 1], es[|es| - 1];
      assert forall x :: x in p ==> x in es;
      PeersPassOver(a, s, p);
      RunKeepsAddress(s, p);
      SeenPassesOver(a, After(s, p), e);
      Rx.FeedConcat(a, OnBus(s, p), Seen(After(s, p), e));
    }
  }

  function DataOnly(done: seq<Transmission>): seq<Transmission> {
    if done == [] then []
    else DataOnly(done[..|done| - 1]) + if done[|done| - 1].kind == Data then [done[|done| - 1]] else []
  }

  lemma AnnouncedSnoc(done: seq<Transmission>, t: Transmission)
    requires t.kind == Data
    ensures Announced(done + [t]) == Announced(done) + t.msgs
  {
    assert (done + [t])[..|done|] == done;
  }

  lemma {:induction false} DataAnnouncesDelivered(done: seq<Transmission>)
    ensures Announced(DataOnly(done)) == Delivered(done)
    ensures forall t :: t in DataOnly(done) ==> t in done && t.kind == Data
  {
    if done != [] {
      var n := |done| - 1;
      DataAnnouncesDelivered(done[..n]);
      assert DataOnly(done[..n]) + [] == DataOnly(done[..n]);
      if done[n].kind == Data {
        AnnouncedSnoc(DataOnly(done[..n]), done[n]);
      }
    }
  }

  /** The same for the data frames alone: together with what is on its way and what waits, the receiver's messages are
      exactly the accepted ones. */
  lemma AcceptedMessagesArrive(image: seq<byte>, ram: seq<byte>, es: seq<Event>, a: Rx.State)
    requires |image| == LOGON_RESERVED && |ram| == Ring.RING_SIZE
    requires Guarded(Start(LOGON_FRAME, image, ram), es)
    requires FitReceiver(Run(Start(LOGON_FRAME, image, ram), es).done)
    requires Rx.WellFormed(a) && a.phase == Rx.Idle
    ensures var l := Run(Start(LOGON_FRAME, image, ram), es);
      Rx.Feed(a, WireWords(DataOnly(l.done))).msgs + l.carried + l.queued == l.kept
  {
    MessagesConserved(image, ram, es);
    var done := Run(Start(LOGON_FRAME, image, ram), es).done;
    DataAnnouncesDelivered(done);
    ReceiverFollows(a, DataOnly(done));
  }

  // ---- Progress ----

  /** An event in the middle of a transmission leaves the record of it alone. */
  lemma NextKeepsCarried(l: Line, e: Event)
    requires Usable(l) && l.bus.de && Guard(l, e) && Next(l, e).bus.de
    ensures Next(l, e).done == l.done && Next(l, e).carried == l.carried && Next(l, e).kind == l.kind
  {
    match e
    case Send(msgType, data) =>
    case Hear(w, busFree) =>
    case Irq =>
    case Ack(granted) =>
    case Refuse =>
    case Timeout(image) =>
  }

  lemma {:induction false} CarriedStays(l: Line, es: seq<Event>)
    requires Usable(l) && H.Settled(l.bus) && l.bus.de && Guarded(l, es) && H.Irqs(es) < H.IrqsLeft(l.bus)
    ensures var r := Run(l, es); r.bus.de && r.done == l.done && r.carried == l.carried && r.kind == l.kind
  {
    RunMovesBus(l, es);
    H.StillDriving(l.bus, es);
    if es != [] {
      CarriedStays(l, es[..|es| - 1]);
      NextKeepsCarried(Run(l, es[..|es| - 1]), es[|es| - 1]);
    }
  }

  lemma PollStartsFrame(l: Line, w: Word, busFree: bool)
    requires Usable(l) && Inv(l) && !l.bus.de && IsPoll(w, l.bus.addr) && !IsPrompt(w) && l.queued != []
    ensures var m := DoHear(l, w, busFree);
      && m.bus.de && m.kind == Data && m.carried == l.queued && m.queued == [] && m.done == l.done
      && H.IrqsLeft(m.bus) == |Flatten(l.queued)| + 1
  {
    FlattenLength(l.queued);
    PolledIsConnected(l.bus, w);
  }

  /** Progress, whatever else happens meanwhile: a poll of a node with messages waiting starts a frame, and after
      one transmit interrupt for each of its bytes and one for the CRC exactly these messages, and none put later,
      have gone out as one frame. */
  lemma PollDelivers(l: Line, w: Word, busFree: bool, es: seq<Event>)
    requires Usable(l) && Inv(l) && H.Settled(l.bus) && !l.bus.de
    requires IsPoll(w, l.bus.addr) && !IsPrompt(w) && l.queued != []
    requires Guarded(DoHear(l, w, busFree), es) && H.Irqs(es) == |Flatten(l.queued)|
    ensures var r := DoIrq(Run(DoHear(l, w, busFree), es));
      && !r.bus.de
      && r.done == l.done + [Transmission(Data, Frame(Flatten(l.queued)), l.queued)]
  {
    PollStartsFrame(l, w, busFree);
    PolledIsSound(l, w, busFree);
    FrameFinishes(DoHear(l, w, busFree), es);
  }

  lemma PolledIsSound(l: Line, w: Word, busFree: bool)
    requires Usable(l) && Inv(l) && H.Settled(l.bus)
    ensures Inv(DoHear(l, w, busFree)) && H.Settled(DoHear(l, w, busFree).bus)
  {
    HearKeepsInv(l, w, busFree);
    H.HearSettled(l.bus, w, busFree);
  }

  lemma FrameFinishes(m: Line, es: seq<Event>)
    requires Usable(m) && Inv(m) && H.Settled(m.bus) && m.bus.de && m.kind == Data
    requires Guarded(m, es) && H.Irqs(es) + 1 == H.IrqsLeft(m.bus)
    ensures var r := DoIrq(Run(m, es));
      !r.bus.de && r.done == m.done + [Transmission(Data, Frame(Flatten(m.carried)), m.carried)]
  {
    CarriedStays(m, es);
    RunMovesBus(m, es);
    H.DriverReleased(m.bus, es);
    RunKeepsInv(m, es);
    IrqKeepsInv(Run(m, es));
    LastIsProper(Run(m, es));
  }

  lemma LastIsProper(l: Line)
    requires Usable(l) && Inv(DoIrq(l)) && l.bus.de && !DoIrq(l).bus.de
    ensures |DoIrq(l).done| == |l.done| + 1
    ensures var t := DoIrq(l).done[|l.done|];
      DoIrq(l).done == l.done + [t] && t.kind == l.kind && t.msgs == l.carried && Proper(t, DoIrq(l).bus.logonBuf)
  {
    var t := DoIrq(l).done[|l.done|];
    assert t in DoIrq(l).done;
  }
}
