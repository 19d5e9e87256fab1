/** Runs from power-on in which the transmit FIFO sends what was never accepted: the guards of the run theorem do
    not hold of themselves. */
module FifoRuns {
  import opened Bytes
  import opened Crc8
  import opened Ring
  import opened Bus
  import opened Line
  import opened IrqRuns
  import Rx = Assembler
  import R = Reception

  const PROMPT: Step := Hear(Word(LOGON_PROMPT, true), true)
  /** A poll of address 1 with its parity bit. */
  const POLL: Step := Hear(Word(0x81, true), true)

  // ---- Logging on ----

  /** The line after logging on from power-on. */
  function LoggedOn(logonBuf: seq<byte>, image: seq<byte>, ram: seq<byte>): Line
    requires |logonBuf| == LOGON_WORDS && |image| == LOGON_RESERVED && |ram| == RING_SIZE
  {
    Line(State(Connected, 0, 0x81, false, false, false, false, logonBuf, LOGON_WORDS, 0, 0, 0, 0,
               image + ram[LOGON_RESERVED..], LOGON_RESERVED, LOGON_RESERVED, 0, 0),
         [Transmission(Logon, logonBuf, [])], Logon, [], [], [], [])
  }

  /** The line after the prompt. */
  function Prompted(logonBuf: seq<byte>, image: seq<byte>, ram: seq<byte>): Line
    requires |logonBuf| == LOGON_WORDS && |image| == LOGON_RESERVED && |ram| == RING_SIZE
  {
    Line(State(Applied, 0, NO_ADDRESS, true, true, false, true, logonBuf, 1, LOGON_WORDS - 1, 0, 0, 0,
               image + ram[LOGON_RESERVED..], 0, LOGON_RESERVED, 0, 1),
         [], Logon, [logonBuf[0]], [], [], [])
  }

  lemma PromptStartsLogon(logonBuf: seq<byte>, image: seq<byte>, ram: seq<byte>)
    requires |logonBuf| == LOGON_WORDS && |image| == LOGON_RESERVED && |ram| == RING_SIZE
    ensures Next(Start(logonBuf, image, ram), PROMPT) == Prompted(logonBuf, image, ram)
  {
  }

  lemma AckAfterLogon(l: Line)
    requires Usable(l) && l.bus.connect == Applied
    ensures Next(l, Ack(1)) == l.(bus := l.bus.(connect := Connected, addr := 0x81, msgNum := 0))
  {
    assert ParityBit(1) == 0x80;
  }

  /** The line after the logon, before its acknowledgement. */
  function Applying(logonBuf: seq<byte>, image: seq<byte>, ram: seq<byte>): Line
    requires |logonBuf| == LOGON_WORDS && |image| == LOGON_RESERVED && |ram| == RING_SIZE
  {
    Line(State(Applied, 0, NO_ADDRESS, false, false, false, false, logonBuf, LOGON_WORDS, 0, 0, 0, 0,
               image + ram[LOGON_RESERVED..], LOGON_RESERVED, LOGON_RESERVED, 0, 1),
         [Transmission(Logon, logonBuf, [])], Logon, [], [], [], [])
  }

  lemma LogonGoesOut(logonBuf: seq<byte>, image: seq<byte>, ram: seq<byte>)
    requires |logonBuf| == LOGON_WORDS && |image| == LOGON_RESERVED && |ram| == RING_SIZE
    ensures Run(Prompted(logonBuf, image, ram), IrqRun(|logonBuf|)) == Applying(logonBuf, image, ram)
  {
    var p := Prompted(logonBuf, image, ram);
    SendsLogon(p);
    WholeLogon(logonBuf);
    assert p.bus.txRemaining + 1 == |logonBuf|;
    LogonEndsAs(logonBuf, image, ram);
  }

  lemma LogonEndsAs(logonBuf: seq<byte>, image: seq<byte>, ram: seq<byte>)
    requires |logonBuf| == LOGON_WORDS && |image| == LOGON_RESERVED && |ram| == RING_SIZE
    ensures LogonEnded(Prompted(logonBuf, image, ram)) == Applying(logonBuf, image, ram)
  {
    WholeLogon(logonBuf);
  }

  lemma WholeLogon(logonBuf: seq<byte>)
    requires |logonBuf| == LOGON_WORDS
    ensures [logonBuf[0]] + logonBuf[1..1 + (LOGON_WORDS - 1)] == logonBuf
  {
  }

  /** Two pieces of a run whose ends are known. */
  lemma RunVia(l: Line, a: seq<Event>, m: Line, b: seq<Event>, r: Line)
    requires Usable(l) && Run(l, a) == m && Run(m, b) == r
    ensures Run(l, a + b) == r
  {
    RunConcat(l, a, b);
  }

  lemma PromptRun(logonBuf: seq<byte>, image: seq<byte>, ram: seq<byte>)
    requires |logonBuf| == LOGON_WORDS && |image| == LOGON_RESERVED && |ram| == RING_SIZE
    ensures Run(Start(logonBuf, image, ram), [PROMPT]) == Prompted(logonBuf, image, ram)
  {
    RunOne(Start(logonBuf, image, ram), PROMPT);
    PromptStartsLogon(logonBuf, image, ram);
  }

  lemma LogonRun(logonBuf: seq<byte>, image: seq<byte>, ram: seq<byte>) returns (es: seq<Event>)
    requires |logonBuf| == LOGON_WORDS && |image| == LOGON_RESERVED && |ram| == RING_SIZE
    ensures Run(Start(logonBuf, image, ram), es) == Applying(logonBuf, image, ram)
  {
    PromptRun(logonBuf, image, ram);
    LogonGoesOut(logonBuf, image, ram);
    RunVia(Start(logonBuf, image, ram), [PROMPT], Prompted(logonBuf, image, ram), IrqRun(|logonBuf|),
           Applying(logonBuf, image, ram));
    es := [PROMPT] + IrqRun(|logonBuf|);
  }

  lemma AckConnects(logonBuf: seq<byte>, image: seq<byte>, ram: seq<byte>)
    requires |logonBuf| == LOGON_WORDS && |image| == LOGON_RESERVED && |ram| == RING_SIZE
    ensures Next(Applying(logonBuf, image, ram), Ack(1)) == LoggedOn(logonBuf, image, ram)
  {
    AckAfterLogon(Applying(logonBuf, image, ram));
  }

  lemma Extend(l: Line, a: seq<Event>, m: Line, e: Event, r: Line) returns (es: seq<Event>)
    requires Usable(l) && Run(l, a) == m && Next(m, e) == r
    ensures Run(l, es) == r
  {
    RunLast(l, a, e);
    es := a + [e];
  }

  lemma ExtendThree(l: Line, a: seq<Event>, m: Line, e: Event, f: Event, g: Event) returns (es: seq<Event>)
    requires Usable(l) && Run(l, a) == m
    ensures Run(l, es) == Next(Next(Next(m, e), f), g)
  {
    RunLast(l, a, e);
    RunLast(l, a + [e], f);
    RunLast(l, a + [e] + [f], g);
    es := a + [e] + [f] + [g];
  }

  lemma ExtendIrqs(l: Line, a: seq<Event>, m: Line, n: nat) returns (es: seq<Event>)
    requires Usable(l) && Run(l, a) == m
    ensures Run(l, es) == Run(m, IrqRun(n))
  {
    RunConcat(l, a, IrqRun(n));
    es := a + IrqRun(n);
  }

  lemma LogOnReaches(logonBuf: seq<byte>, image: seq<byte>, ram: seq<byte>) returns (es: seq<Event>)
    requires |logonBuf| == LOGON_WORDS && |image| == LOGON_RESERVED && |ram| == RING_SIZE
    ensures Run(Start(logonBuf, image, ram), es) == LoggedOn(logonBuf, image, ram)
  {
    var a := LogonRun(logonBuf, image, ram);
    AckConnects(logonBuf, image, ram);
    es := Extend(Start(logonBuf, image, ram), a, Applying(logonBuf, image, ram), Ack(1),
                 LoggedOn(logonBuf, image, ram));
  }

  // ---- A message, a poll ----

  /** A connected node with an empty FIFO and nothing on the wire, polled at address 1. */
  ghost predicate Ready(l: Line) {
    && Usable(l) && l.bus.connect == Connected && l.bus.addr == 0x81 && !l.bus.de && !l.bus.nakMode && !l.bus.logonMode
    && l.bus.ahead == 0 && l.queued == [] && l.bus.write == l.bus.read
  }

  function Sent(l: Line, m: seq<byte>): (r: Line)
    requires Usable(l) && l.bus.ahead + |m| <= RING_SIZE
    ensures Usable(r)
  {
    l.(bus := l.bus.(buf := Store(l.bus.buf, l.bus.write, m), write := Slot(l.bus.write, |m|),
                     ahead := l.bus.ahead + |m|, msgNum := NextNumber(l.bus.msgNum)),
       queued := l.queued + [m], kept := l.kept + [m])
  }

  lemma SendStores(l: Line, msgType: byte, data: seq<byte>)
    requires Usable(l) && l.bus.connect == Connected && l.bus.ahead + 4 + |data| <= RING_SIZE && |data| <= 251
    ensures Next(l, Send(msgType, data)) == Sent(l, Message(l.bus.msgNum, msgType, data))
  {
  }

  /** The queue becomes the frame in transmission. */
  function Captured(l: Line): (r: Line)
    requires Usable(l)
    ensures Usable(r)
  {
    l.(bus := l.bus.(de := true, txIrq := true, parserIndex := l.bus.read, parserRemaining := l.bus.ahead,
                     parserCrc := Fold(0, [ToByte(l.bus.ahead)]), read := Slot(l.bus.read, l.bus.ahead), ahead := 0),
       kind := Data, sent := [ToByte(l.bus.ahead)], carried := l.queued, queued := [])
  }

  lemma PollCaptures(l: Line, w: Word)
    requires Usable(l) && !l.bus.de && !l.bus.nakMode && !l.bus.logonMode && l.bus.ahead > 0
    requires IsPoll(w, l.bus.addr) && !IsPrompt(w)
    ensures Next(l, Hear(w, true)) == Captured(l) && SendingPayload(Captured(l))
  {
    FoldSnoc(0, [], ToByte(l.bus.ahead));
    assert [] + [ToByte(l.bus.ahead)] == [ToByte(l.bus.ahead)];
  }

  /** The bytes of the frame that carries the `n` bytes of the ring from index `at` on. */
  function RingFrame(buf: seq<byte>, at: nat, n: nat): seq<byte>
    requires |buf| == RING_SIZE && n < 256
  {
    Frame(Segment(buf, at, n))
  }

  lemma FrameSentIsRingFrame(l: Line)
    requires Usable(l) && l.sent == [ToByte(l.bus.parserRemaining)]
    ensures FrameSent(l).done
         == l.done + [Transmission(l.kind, RingFrame(l.bus.buf, l.bus.parserIndex, l.bus.parserRemaining), l.carried)]
  {
  }

  lemma FrameTells(payload: seq<byte>, other: seq<byte>, k: nat)
    requires |payload| < 256 && |other| < 256 && k < |payload| && k < |other| && payload[k] != other[k]
    ensures Frame(payload) != Frame(other)
  {
    assert Frame(payload)[1 + k] == payload[k] && Frame(other)[1 + k] == other[k];
  }

  // ---- A put over the frame in transmission ----

  /** The run: a first message is polled, and while its frame goes out a second one is put. */
  function PutWhileSending(l: Line, m1: seq<byte>, m2: seq<byte>): (r: Line)
    requires Ready(l) && |m1| <= RING_SIZE && |m2| <= RING_SIZE
    ensures Usable(r)
  {
    Sent(Captured(Sent(l, m1)), m2)
  }

  lemma SecondPutHits(buf: seq<byte>, at: nat, m1: seq<byte>, m2: seq<byte>)
    requires |buf| == RING_SIZE && at < RING_SIZE && |m1| == 60 && |m2| == 100
    ensures Segment(Store(Store(buf, at, m1), Slot(at, 60), m2), at, 60)[0] == m2[68]
  {
    var b := Store(buf, at, m1);
    OffsetBehind(at, 60, 0);
    StoreCells(b, Slot(at, 60), m2, Slot(at, 0));
  }

  /** Both messages are accepted, and the frame that should carry the first goes out with the end of the second in
      front: its CRC covers the damage, so that no receiver can notice, and none gets the message. */
  lemma PutDamagesFrame(l: Line, m1: seq<byte>, m2: seq<byte>)
    requires Ready(l) && |m1| == 60 && |m2| == 100 && m1[0] != m2[68]
    ensures var r := Run(PutWhileSending(l, m1, m2), IrqRun(|m1| + 1));
      && r.kept == l.kept + [m1] + [m2] && |r.done| == |l.done| + 1
      && var t := r.done[|l.done|];
      && t.kind == Data && t.msgs == [m1] && |t.bytes| == 62 && t.bytes[0] == 60 && t.bytes[1] == m2[68]
      && t.bytes != Frame(m1) && Fold(0, t.bytes) == 0
  {
    var s := PutWhileSending(l, m1, m2);
    PollCaptures(Sent(l, m1), Word(0x81, true));
    SendsFrame(s);
    FrameSentIsRingFrame(s);
    SecondPutHits(l.bus.buf, l.bus.read, m1, m2);
    FrameTells(Segment(s.bus.buf, l.bus.read, 60), m1, 0);
    assert ToByte(60) == 60;
  }

  lemma ParsesFirstByte(paket: seq<byte>)
    requires |paket| == Rx.PAKET_SIZE && Rx.Parse(paket).msgs != []
    ensures Rx.Parse(paket).msgs[0] != [] && Rx.Parse(paket).msgs[0][0] == paket[1]
  {
  }

  /** The receiver parses the damaged frame, and does not get the message it should have carried. */
  lemma PutMisleadsReceiver(l: Line, m1: seq<byte>, m2: seq<byte>, a: Rx.State)
    requires Ready(l) && |m1| == 60 && |m2| == 100 && m1[0] != m2[68] && Rx.WellFormed(a) && a.phase == Rx.Idle
    ensures var r := Run(PutWhileSending(l, m1, m2), IrqRun(|m1| + 1));
      && r.done != []
      && var f := Rx.Feed(a, R.Behind(r.done[|r.done| - 1].bytes));
      f.msgs == Rx.Parse(f.asm.paket).msgs != [m1]
  {
    PutDamagesFrame(l, m1, m2);
    var r := Run(PutWhileSending(l, m1, m2), IrqRun(|m1| + 1));
    var bytes := r.done[|r.done| - 1].bytes;
    Misled(bytes, m1, a);
  }

  lemma Misled(bytes: seq<byte>, m: seq<byte>, a: Rx.State)
    requires R.FrameShaped(bytes) && Fold(0, bytes) == 0 && |bytes| > 2 && m != [] && bytes[1] != m[0]
    requires Rx.WellFormed(a) && a.phase == Rx.Idle
    ensures var f := Rx.Feed(a, R.Behind(bytes)); f.msgs == Rx.Parse(f.asm.paket).msgs != [m]
  {
    R.FrameChecked(a, bytes);
    var paket := Rx.Feed(a, R.Behind(bytes)).asm.paket;
    NotFirst(paket, m);
  }

  lemma NotFirst(paket: seq<byte>, m: seq<byte>)
    requires |paket| == Rx.PAKET_SIZE && m != [] && paket[1] != m[0]
    ensures Rx.Parse(paket).msgs != [m]
  {
    if Rx.Parse(paket).msgs != [] {
      ParsesFirstByte(paket);
    }
  }

  lemma PutWhileSendingIsRun(l: Line, type1: byte, data1: seq<byte>, type2: byte, data2: seq<byte>)
    requires Ready(l) && |data1| <= 124 && |data2| <= 124
    ensures Next(Next(Next(l, Send(type1, data1)), POLL), Send(type2, data2))
         == PutWhileSending(l, Message(l.bus.msgNum, type1, data1), Message(NextNumber(l.bus.msgNum), type2, data2))
  {
    var m1 := Message(l.bus.msgNum, type1, data1);
    SendStores(l, type1, data1);
    PollCaptures(Sent(l, m1), Word(0x81, true));
    SendStores(Captured(Sent(l, m1)), type2, data2);
  }

  lemma MessageBytes(number: byte, msgType: byte, data: seq<byte>)
    requires |data| <= 251
    ensures var m := Message(number, msgType, data);
      && |m| == 4 + |data| && m[0] as nat == 3 + |data| && m[1] == 0 && m[2] == number && m[3] == msgType
      && m[4..] == data && forall k :: 4 <= k < |m| ==> m[k] == data[k - 4]
  {
  }

  /** The run on messages as they are sent. */
  ghost predicate Damaged(before: Line, r: Line, m: seq<byte>, others: seq<seq<byte>>) {
    && r.kept == before.kept + [m] + others && |r.done| == |before.done| + 1
    && var t := r.done[|before.done|];
    && t.kind == Data && t.msgs == [m] && |m| < 256 && t.bytes != Frame(m) && Fold(0, t.bytes) == 0
  }

  lemma PutDamages(l: Line, type1: byte, data1: seq<byte>, type2: byte, data2: seq<byte>)
    requires Ready(l) && |data1| == 56 && |data2| == 96 && data2[64] != 59
    ensures var m1 := Message(l.bus.msgNum, type1, data1);
            var m2 := Message(NextNumber(l.bus.msgNum), type2, data2);
            var s := Next(Next(Next(l, Send(type1, data1)), POLL), Send(type2, data2));
      Damaged(l, Run(s, IrqRun(|m1| + 1)), m1, [m2])
  {
    var m1, m2 := Message(l.bus.msgNum, type1, data1), Message(NextNumber(l.bus.msgNum), type2, data2);
    PutWhileSendingIsRun(l, type1, data1, type2, data2);
    MessageBytes(l.bus.msgNum, type1, data1);
    MessageBytes(NextNumber(l.bus.msgNum), type2, data2);
    PutDamagesFrame(l, m1, m2);
  }

  /** The run exists: from power-on, for any two messages of 60 and 100 bytes. */
  lemma PutDamageIsReached(logonBuf: seq<byte>, image: seq<byte>, ram: seq<byte>,
                           type1: byte, data1: seq<byte>, type2: byte, data2: seq<byte>) returns (es: seq<Event>)
    requires |logonBuf| == LOGON_WORDS && |image| == LOGON_RESERVED && |ram| == RING_SIZE
    requires |data1| == 56 && |data2| == 96 && data2[64] != 59
    ensures Damaged(LoggedOn(logonBuf, image, ram), Run(Start(logonBuf, image, ram), es),
                    Message(0, type1, data1), [Message(1, type2, data2)])
  {
    var start, l := Start(logonBuf, image, ram), LoggedOn(logonBuf, image, ram);
    var log := LogOnReaches(logonBuf, image, ram);
    var sent := ExtendThree(start, log, l, Send(type1, data1), POLL, Send(type2, data2));
    es := ExtendIrqs(start, sent, Run(start, sent), |Message(0, type1, data1)| + 1);
    PutDamages(l, type1, data1, type2, data2);
  }

  // ---- A flush under the frame in transmission ----

  function FlushedWhileSending(l: Line, m: seq<byte>, image: seq<byte>): (r: Line)
    requires Ready(l) && |m| <= RING_SIZE && |image| == LOGON_RESERVED
    ensures Usable(r)
  {
    DoTimeout(Captured(Sent(l, m)), image)
  }

  lemma FlushHits(buf: seq<byte>, m: seq<byte>, image: seq<byte>)
    requires |buf| == RING_SIZE && |m| == 60 && |image| == LOGON_RESERVED
    ensures Segment(image + Store(buf, 116, m)[LOGON_RESERVED..], 116, 60)[12] == image[0]
  {
    Wraps(128);
    assert Slot(116, 12) == 0;
  }

  /** A poll timeout while the frame goes out puts the logon image into it; again the CRC covers the damage. */
  lemma FlushDamagesFrame(l: Line, m: seq<byte>, image: seq<byte>)
    requires Ready(l) && l.bus.read == 116 && |m| == 60 && |image| == LOGON_RESERVED && m[12] != image[0]
    ensures Damaged(l, Run(FlushedWhileSending(l, m, image), IrqRun(|m| + 1)), m, [])
  {
    var s := FlushedWhileSending(l, m, image);
    FlushLeavesSending(l, m, image);
    assert s.bus.parserRemaining == |m|;
    SendsFrame(s);
    FlushedFrame(l, m, image);
  }

  lemma FlushLeavesSending(l: Line, m: seq<byte>, image: seq<byte>)
    requires Ready(l) && 1 <= |m| <= RING_SIZE && |image| == LOGON_RESERVED
    ensures SendingPayload(FlushedWhileSending(l, m, image)) && FlushedWhileSending(l, m, image).kept == l.kept + [m]
  {
    PollCaptures(Sent(l, m), Word(0x81, true));
    assert (l.kept + [m])[..|l.kept| + 1] == l.kept + [m];
  }

  lemma FlushedFrame(l: Line, m: seq<byte>, image: seq<byte>)
    requires Ready(l) && l.bus.read == 116 && |m| == 60 && |image| == LOGON_RESERVED && m[12] != image[0]
    ensures Damaged(l, FrameSent(FlushedWhileSending(l, m, image)), m, [])
  {
    var s := FlushedWhileSending(l, m, image);
    FlushLeavesSending(l, m, image);
    FrameSentIsRingFrame(s);
    FlushHits(l.bus.buf, m, image);
    FrameTells(Segment(s.bus.buf, 116, 60), m, 12);
    assert l.kept + [m] + [] == l.kept + [m];
  }

  /** Without such accidents a message goes out as its frame and leaves the node ready, the ring turned by its
      length. */
  lemma CleanFrame(l: Line, m: seq<byte>)
    requires Ready(l) && 1 <= |m| <= RING_SIZE
    ensures var r := Run(Captured(Sent(l, m)), IrqRun(|m| + 1));
      && Ready(r) && r.bus.read == Slot(l.bus.read, |m|) && r.bus.msgNum == NextNumber(l.bus.msgNum)
      && r.kept == l.kept + [m] && r.done == l.done + [Transmission(Data, Frame(m), [m])]
  {
    var s := Captured(Sent(l, m));
    PollCaptures(Sent(l, m), Word(0x81, true));
    assert s.bus.parserRemaining == |m|;
    SendsFrame(s);
    CleanlySent(l, m);
    CleanlyReady(l, m);
  }

  lemma CleanlySent(l: Line, m: seq<byte>)
    requires Ready(l) && 1 <= |m| <= RING_SIZE
    ensures FrameSent(Captured(Sent(l, m))).done == l.done + [Transmission(Data, Frame(m), [m])]
  {
    FrameSentIsRingFrame(Captured(Sent(l, m)));
    StoreHolds(l.bus.buf, l.bus.read, m);
    assert [] + [m] == [m];
  }

  lemma CleanlyReady(l: Line, m: seq<byte>)
    requires Ready(l) && 1 <= |m| <= RING_SIZE
    ensures var r := FrameSent(Captured(Sent(l, m)));
      && Ready(r) && r.bus.read == Slot(l.bus.read, |m|) && r.bus.msgNum == NextNumber(l.bus.msgNum)
      && r.kept == l.kept + [m]
  {
  }

  lemma SendAndPoll(l: Line, msgType: byte, data: seq<byte>)
    requires Ready(l) && |data| <= 124
    ensures Next(Next(l, Send(msgType, data)), POLL) == Captured(Sent(l, Message(l.bus.msgNum, msgType, data)))
  {
    SendStores(l, msgType, data);
    PollCaptures(Sent(l, Message(l.bus.msgNum, msgType, data)), Word(0x81, true));
  }

  lemma FlushDamages(l: Line, msgType: byte, data: seq<byte>, image: seq<byte>)
    requires Ready(l) && l.bus.read == 116 && |data| == 56 && |image| == LOGON_RESERVED && data[8] != image[0]
    ensures var m := Message(l.bus.msgNum, msgType, data);
            var s := Next(Next(Next(l, Send(msgType, data)), POLL), Timeout(image));
      Damaged(l, Run(s, IrqRun(|m| + 1)), m, [])
  {
    FlushIsRun(l, msgType, data, image);
    MessageBytes(l.bus.msgNum, msgType, data);
    FlushDamagesFrame(l, Message(l.bus.msgNum, msgType, data), image);
  }

  lemma FlushIsRun(l: Line, msgType: byte, data: seq<byte>, image: seq<byte>)
    requires Ready(l) && |data| <= 124 && |image| == LOGON_RESERVED
    ensures Next(Next(Next(l, Send(msgType, data)), POLL), Timeout(image))
         == FlushedWhileSending(l, Message(l.bus.msgNum, msgType, data), image)
  {
    SendAndPoll(l, msgType, data);
  }

  /** A first frame goes out cleanly and leaves the ring such that the second one wraps. */
  lemma WrapIsReached(logonBuf: seq<byte>, image: seq<byte>, ram: seq<byte>, msgType: byte, data: seq<byte>)
    returns (es: seq<Event>)
    requires |logonBuf| == LOGON_WORDS && |image| == LOGON_RESERVED && |ram| == RING_SIZE && |data| == 100
    ensures var l := Run(Start(logonBuf, image, ram), es); Ready(l) && l.bus.read == 116 && l.bus.msgNum == 1
  {
    var start, l := Start(logonBuf, image, ram), LoggedOn(logonBuf, image, ram);
    var m := Message(0, msgType, data);
    var log := LogOnReaches(logonBuf, image, ram);
    var polled := ExtendTwo(start, log, l, Send(msgType, data), POLL);
    SendAndPoll(l, msgType, data);
    es := ExtendIrqs(start, polled, Captured(Sent(l, m)), |m| + 1);
    CleanFrame(l, m);
    assert Slot(12, 104) == 116;
  }

  lemma ExtendTwo(l: Line, a: seq<Event>, m: Line, e: Event, f: Event) returns (es: seq<Event>)
    requires Usable(l) && Run(l, a) == m
    ensures Run(l, es) == Next(Next(m, e), f)
  {
    RunLast(l, a, e);
    RunLast(l, a + [e], f);
    es := a + [e] + [f];
  }

  /** From power-on: a clean frame, then one that a flush damages. */
  lemma FlushDamageIsReached(logonBuf: seq<byte>, image: seq<byte>, ram: seq<byte>, type1: byte, data1: seq<byte>,
                             type2: byte, data2: seq<byte>, flushed: seq<byte>)
    returns (first: seq<Event>, es: seq<Event>)
    requires |logonBuf| == LOGON_WORDS && |image| == LOGON_RESERVED && |ram| == RING_SIZE && |flushed| == LOGON_RESERVED
    requires |data1| == 100 && |data2| == 56 && data2[8] != flushed[0]
    ensures var start := Start(logonBuf, image, ram);
      Damaged(Run(start, first), Run(start, es), Message(1, type2, data2), [])
  {
    var start := Start(logonBuf, image, ram);
    first := WrapIsReached(logonBuf, image, ram, type1, data1);
    var l := Run(start, first);
    var sent := ExtendThree(start, first, l, Send(type2, data2), POLL, Timeout(flushed));
    es := ExtendIrqs(start, sent, Run(start, sent), |Message(1, type2, data2)| + 1);
    FlushDamages(l, type2, data2, flushed);
  }

  // ---- An acknowledgement without a logon since the flush ----

  /** The line after a poll timeout and a stale acknowledgement: the read index stands at the reserved cells, the
      write index behind them. */
  function Stale(l: Line, image: seq<byte>): (r: Line)
    requires Ready(l) && |image| == LOGON_RESERVED && |l.queued| <= |l.kept|
    ensures Usable(r)
  {
    l.(bus := Flush(l.bus, image).(msgNum := 0))
  }

  lemma StaleAck(l: Line, image: seq<byte>)
    requires Ready(l) && |image| == LOGON_RESERVED
    ensures Next(Next(l, Timeout(image)), Ack(1)) == Stale(l, image)
  {
    assert ParityBit(1) == 0x80;
    assert l.kept[..|l.kept|] == l.kept;
  }

  lemma ImageInFront(buf: seq<byte>, m: seq<byte>, image: seq<byte>)
    requires |buf| == RING_SIZE && |image| == LOGON_RESERVED && |m| <= LOGON_RESERVED
    ensures Segment(Store(image + buf[LOGON_RESERVED..], LOGON_RESERVED, m), 0, |m|) == image[..|m|]
  {
    var b := image + buf[LOGON_RESERVED..];
    forall k: nat | k < |m| ensures Store(b, LOGON_RESERVED, m)[Slot(0, k)] == image[k] {
      Wraps(k);
      StoreCells(b, LOGON_RESERVED, m, k);
    }
  }

  lemma StaleSends(l: Line, msgType: byte, data: seq<byte>, image: seq<byte>)
    requires Ready(l) && |image| == LOGON_RESERVED && |data| <= 8
    ensures var m := Message(0, msgType, data);
            var s := Next(Next(Stale(l, image), Send(msgType, data)), POLL);
            var r := Run(s, IrqRun(|m| + 1));
      r.kept == l.kept + [m] && r.done == l.done + [Transmission(Data, Frame(image[..|m|]), [m])]
  {
    var m := Message(0, msgType, data);
    var p := Stale(l, image);
    SendStores(p, msgType, data);
    PollCaptures(Sent(p, m), Word(0x81, true));
    var s := Captured(Sent(p, m));
    assert s.bus.parserRemaining == |m|;
    SendsFrame(s);
    FrameSentIsRingFrame(s);
    ImageInFront(l.bus.buf, m, image);
    assert [] + [m] == [m];
  }

  /** After a poll timeout and an acknowledgement without a logon between, the next message is accepted, but the poll
      sends as many bytes of the logon image instead. */
  lemma StaleAckSendsImage(l: Line, msgType: byte, data: seq<byte>, image: seq<byte>)
    requires Ready(l) && |image| == LOGON_RESERVED && |data| <= 8
    ensures var m := Message(0, msgType, data);
            var acked := Next(Next(l, Timeout(image)), Ack(1));
            var r := Run(Next(Next(acked, Send(msgType, data)), POLL), IrqRun(|m| + 1));
      r.kept == l.kept + [m] && r.done == l.done + [Transmission(Data, Frame(image[..|m|]), [m])]
  {
    StaleAck(l, image);
    StaleSends(l, msgType, data, image);
  }

  /** From the call to the dispatcher: what a connected node sends, with the number it drew, goes out with the next poll
      and is dispatched as size, address 0, number, type and data by a receiver fed the frame. */
  lemma SentMessageIsDispatched(l: Line, msgType: byte, data: seq<byte>, a: Rx.State)
    requires Ready(l) && |data| <= 59 && Rx.WellFormed(a) && a.phase == Rx.Idle
    ensures var r := Run(Next(Next(l, Send(msgType, data)), POLL), IrqRun(|data| + 5));
      && |r.done| == |l.done| + 1
      && var f := Rx.Feed(a, R.Behind(r.done[|l.done|].bytes));
         var m := Message(l.bus.msgNum, msgType, data);
      && f.msgs == [m] && f.asm.phase == Rx.Idle
      && m[0] as nat == 3 + |data| && m[1] == 0 && m[2] == l.bus.msgNum && m[3] == msgType && m[4..] == data
  {
    SentIsClean(l, msgType, data);
    MessageBytes(l.bus.msgNum, msgType, data);
    OneDelivered(a, Message(l.bus.msgNum, msgType, data));
  }

  lemma SentIsClean(l: Line, msgType: byte, data: seq<byte>)
    requires Ready(l) && |data| <= 59
    ensures var m := Message(l.bus.msgNum, msgType, data);
      Run(Next(Next(l, Send(msgType, data)), POLL), IrqRun(|data| + 5)).done
      == l.done + [Transmission(Data, Frame(m), [m])]
  {
    var m := Message(l.bus.msgNum, msgType, data);
    SendAndPoll(l, msgType, data);
    CleanFrame(l, m);
  }

  lemma OneDelivered(a: Rx.State, m: seq<byte>)
    requires Rx.WellFormed(a) && a.phase == Rx.Idle && R.Sized(m) && |m| <= 63
    ensures var f := Rx.Feed(a, R.Behind(Frame(m))); f.msgs == [m] && f.asm.phase == Rx.Idle
  {
    FlattenSnoc([], m);
    assert [] + [m] == [m] && Flatten([m]) == m;
    R.DeliversFrame(a, [m]);
  }
}
