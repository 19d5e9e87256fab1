/** Who drives the bus, and for how long: facts about every run, guarded or not. */
module HalfDuplex {
  import opened Bytes
  import opened Ring
  import opened Bus

  /** What every reachable state satisfies without any assumption on the environment. */
  ghost predicate Settled(s: State) {
    && WellFormed(s) && s.de == s.txIrq
    && (s.connect != Connected ==> s.addr == NO_ADDRESS)
    && s.backoff <= 1 && (s.connect == Applied ==> s.backoff == 0)
  }

  lemma HearSettled(s: State, w: Word, busFree: bool)
    requires Settled(s)
    ensures Settled(HearWord(s, w, busFree).0)
  {
    assert NO_ADDRESS & SYSTEM_TOKEN != 0;
  }

  lemma MoveSettled(s: State, e: Event)
    requires Settled(s)
    ensures Settled(Move(s, e))
  {
    match e
    case Send(msgType, data) =>
    case Hear(w, busFree) => HearSettled(s, w, busFree);
    case Irq =>
    case Ack(granted) =>
    case Refuse =>
    case Timeout(image) =>
  }

  /** In every run an unconnected node has no address, the back-off is at most one prompt, and it is spent when a
      logon is under way. */
  lemma {:induction false} AlwaysSettled(s: State, es: seq<Event>)
    requires Settled(s)
    ensures Settled(After(s, es))
  {
    if es != [] {
      AlwaysSettled(s, es[..|es| - 1]);
      MoveSettled(After(s, es[..|es| - 1]), es[|es| - 1]);
    }
  }

  /** Every run starts settled. */
  lemma BootIsSettled(logonBuf: seq<byte>, image: seq<byte>, ram: seq<byte>)
    requires |logonBuf| == LOGON_WORDS && |image| == LOGON_RESERVED && |ram| == RING_SIZE
    ensures Settled(Boot(logonBuf, image, ram))
  {
  }

  // ---- Driving the bus ----

  /** What the two kinds of words that matter look like on the bus. */
  lemma WordsThatMatter(w: Word, addr: byte)
    ensures IsPrompt(w) <==> w.idBit && w.data == 0x7E
    ensures IsPoll(w, addr) <==> w.idBit && w.data == addr && addr & 0x40 == 0
  {
  }

  /** The driver is switched on exactly by word 0x17E on a free bus, when the node is disconnected and owes no back-off,
      or, when it is connected, by the word of the node's own address, unless that address has bit 6 set. */
  lemma DriverRaisedExactly(s: State, e: Event)
    requires Settled(s) && !s.de
    ensures Move(s, e).de <==>
      && e.Hear? && e.w.idBit
      && (|| (e.w.data == 0x7E && s.connect == Disconnected && s.backoff == 0 && e.busFree)
          || (e.w.data == s.addr && s.addr & 0x40 == 0 && s.connect == Connected))
  {
    if e.Hear? {
      WordsThatMatter(e.w, s.addr);
      assert NO_ADDRESS & 0x40 != 0 && 0x7E as byte & 0x40 != 0;
    }
  }

  /** Every word but a prompt and the node's own address leaves the node as it is, and so does every word while it
      drives the bus. */
  lemma OtherWordsIgnored(s: State, w: Word, busFree: bool)
    requires WellFormed(s)
    requires s.de || !w.idBit || (w.data != 0x7E && (w.data != s.addr || s.addr & 0x40 != 0))
    ensures HearWord(s, w, busFree) == (s, [])
  {
    WordsThatMatter(w, s.addr);
  }

  /** What a prompt does, case by case. */
  lemma PromptExactly(s: State, busFree: bool)
    requires Settled(s) && !s.de
    ensures var (r, out) := HearWord(s, Word(0x7E, true), busFree);
      if s.connect == Connected || s.connect == Rejected then r == s && out == []
      else if s.connect == Applied then r == s.(connect := Disconnected, backoff := 1) && out == []
      else if s.backoff == 1 then r == s.(backoff := 0) && out == []
      else if !busFree then r == s && out == []
      else r.connect == Applied && r.de && r.txIrq && out == [s.logonBuf[0]]
  {
    WordsThatMatter(Word(0x7E, true), s.addr);
  }

  /** A poll of a connected node raises the driver, for the frame of what waits or for a NAK. */
  lemma PollExactly(s: State, busFree: bool)
    requires Settled(s) && !s.de && s.connect == Connected && s.addr & 0x40 == 0
    ensures var (r, out) := HearWord(s, Word(s.addr, true), busFree);
      && r.de && r.txIrq && r.connect == Connected && r.addr == s.addr && r.buf == s.buf
      && (if s.ahead > 0 && !s.logonMode
          then out == [ToByte(s.ahead)] && r.ahead == 0 && r.parserRemaining == s.ahead && r.nakMode == s.nakMode
          else out == [0] && r.nakMode && r.ahead == s.ahead)
  {
    WordsThatMatter(Word(s.addr, true), s.addr);
    assert 0x7E as byte & 0x40 != 0;
  }

  /** Transmit interrupts until the driver is switched off again. */
  function IrqsLeft(s: State): nat {
    if s.logonMode then s.txRemaining + 1 else if s.nakMode then 1 else s.parserRemaining + 1
  }

  function Irqs(es: seq<Event>): nat {
    if es == [] then 0 else Irqs(es[..|es| - 1]) + if es[|es| - 1] == Irq then 1 else 0
  }

  lemma OtherEventsWait(s: State, e: Event)
    requires Settled(s) && s.de && e != Irq
    ensures Move(s, e).de && IrqsLeft(Move(s, e)) == IrqsLeft(s)
  {
    match e
    case Send(msgType, data) =>
    case Hear(w, busFree) =>
    case Ack(granted) =>
    case Refuse =>
    case Timeout(image) =>
  }

  lemma IrqCountsDown(s: State)
    requires Settled(s) && s.de
    ensures IrqsLeft(s) > 1 ==> Move(s, Irq).de && IrqsLeft(Move(s, Irq)) == IrqsLeft(s) - 1
    ensures IrqsLeft(s) == 1 ==> !Move(s, Irq).de
  {
  }

  /** While the driver is on, words, messages and state changes neither stop nor prolong the transmission. */
  lemma {:induction false} StillDriving(s: State, es: seq<Event>)
    requires Settled(s) && s.de && Irqs(es) < IrqsLeft(s)
    ensures After(s, es).de && IrqsLeft(After(s, es)) == IrqsLeft(s) - Irqs(es)
  {
    if es != [] {
      var n := |es| - 1;
      StillDriving(s, es[..n]);
      AlwaysSettled(s, es[..n]);
      if es[n] == Irq {
        IrqCountsDown(After(s, es[..n]));
      } else {
        OtherEventsWait(After(s, es[..n]), es[n]);
      }
    }
  }

  /** The driver is switched off by exactly the announced number of transmit interrupts, whatever else happens between
      them. */
  lemma DriverReleased(s: State, es: seq<Event>)
    requires Settled(s) && s.de && Irqs(es) + 1 == IrqsLeft(s)
    ensures After(s, es).de && !Move(After(s, es), Irq).de
  {
    StillDriving(s, es);
    AlwaysSettled(s, es);
    IrqCountsDown(After(s, es));
  }

  // ---- The logon rhythm ----

  /** Where in the cycle of three LOGON prompts the node stands. */
  function Beat(s: State): nat {
    if s.connect == Applied then 1 else if s.backoff == 0 then 0 else 2
  }

  ghost predicate LoggingOn(s: State) {
    Settled(s) && s.connect in {Disconnected, Applied}
  }

  /** No answer from the interface, and the bus free. */
  predicate Unanswered(e: Event) {
    e.Send? || e.Irq? || e.Timeout? || (e.Hear? && e.busFree)
  }

  /** A LOGON prompt reaches the node while its driver is off. */
  predicate Prompted(s: State, e: Event) {
    e.Hear? && IsPrompt(e.w) && !s.de
  }

  /** The node answers a prompt with a logon. */
  predicate LogsOn(s: State, e: Event)
    requires WellFormed(s)
  {
    Prompted(s, e) && Move(s, e).de
  }

  function Prompts(s: State, es: seq<Event>): nat
    requires WellFormed(s)
  {
    if es == [] then 0
    else Prompts(s, es[..|es| - 1]) + if Prompted(After(s, es[..|es| - 1]), es[|es| - 1]) then 1 else 0
  }

  function Logons(s: State, es: seq<Event>): nat
    requires WellFormed(s)
  {
    if es == [] then 0
    else Logons(s, es[..|es| - 1]) + if LogsOn(After(s, es[..|es| - 1]), es[|es| - 1]) then 1 else 0
  }

  function NextBeat(b: nat): nat {
    if b == 2 then 0 else b + 1
  }

  lemma PromptBeats(s: State, w: Word)
    requires LoggingOn(s)
    ensures var r := HearWord(s, w, true).0;
      && r.connect in {Disconnected, Applied}
      && Beat(r) == (if IsPrompt(w) && !s.de then NextBeat(Beat(s)) else Beat(s))
      && (!s.de && IsPrompt(w) ==> (r.de <==> Beat(s) == 0))
  {
    assert NO_ADDRESS & SYSTEM_TOKEN != 0;
  }

  lemma BeatAdvances(s: State, e: Event)
    requires LoggingOn(s) && Unanswered(e)
    ensures LoggingOn(Move(s, e))
    ensures Beat(Move(s, e)) == if Prompted(s, e) then NextBeat(Beat(s)) else Beat(s)
    ensures LogsOn(s, e) <==> Prompted(s, e) && Beat(s) == 0
  {
    MoveSettled(s, e);
    match e
    case Send(msgType, data) =>
    case Hear(w, busFree) => PromptBeats(s, w);
    case Irq =>
    case Timeout(image) =>
  }

  /** Beat and number of logons `p` prompts after beat `b`. */
  function BeatAfter(b: nat, p: nat): nat {
    if p == 0 then b else NextBeat(BeatAfter(b, p - 1))
  }

  function LogonsAfter(b: nat, p: nat): nat {
    if p == 0 then 0 else LogonsAfter(b, p - 1) + if BeatAfter(b, p - 1) == 0 then 1 else 0
  }

  lemma OneMoreThird(p: nat)
    ensures (p + 1) % 3 == NextBeat(p % 3)
    ensures (p + 3) / 3 == (p + 2) / 3 + if p % 3 == 0 then 1 else 0
  {
  }

  lemma {:induction false} EveryThird(p: nat)
    ensures BeatAfter(0, p) == p % 3 && LogonsAfter(0, p) == (p + 2) / 3
  {
    if p > 0 {
      EveryThird(p - 1);
      OneMoreThird(p - 1);
    }
  }

  /** Beat `b` is where `b` prompts after beat 0 lead. */
  lemma {:induction false} LaterStart(b: nat, p: nat)
    requires BeatAfter(0, b) == b
    ensures BeatAfter(b, p) == BeatAfter(0, b + p)
    ensures LogonsAfter(0, b) + LogonsAfter(b, p) == LogonsAfter(0, b + p)
  {
    if p > 0 {
      LaterStart(b, p - 1);
    }
  }

  /** The same from the other places of the cycle. */
  lemma EveryThirdFrom(b: nat, p: nat)
    requires b <= 2
    ensures LogonsAfter(b, p) == (p + (if b == 0 then 2 else if b == 1 then 0 else 1)) / 3
  {
    EveryThird(b);
    LaterStart(b, p);
    EveryThird(b + p);
  }

  lemma CountsSnoc(s: State, es: seq<Event>, e: Event)
    requires WellFormed(s) && LoggingOn(After(s, es)) && Unanswered(e)
    ensures LoggingOn(After(s, es + [e]))
    ensures var heard := Prompted(After(s, es), e);
      && Beat(After(s, es + [e])) == (if heard then NextBeat(Beat(After(s, es))) else Beat(After(s, es)))
      && Prompts(s, es + [e]) == Prompts(s, es) + (if heard then 1 else 0)
      && Logons(s, es + [e]) == Logons(s, es) + if heard && Beat(After(s, es)) == 0 then 1 else 0
  {
    assert (es + [e])[..|es|] == es;
    BeatAdvances(After(s, es), e);
  }

  ghost predicate PromptsDecide(s: State, es: seq<Event>)
    requires WellFormed(s)
  {
    && LoggingOn(After(s, es))
    && Beat(After(s, es)) == BeatAfter(Beat(s), Prompts(s, es))
    && Logons(s, es) == LogonsAfter(Beat(s), Prompts(s, es))
  }

  lemma OneMoreNumbers(b: nat, p: nat, beat: nat, logons: nat, heard: bool, p': nat, beat': nat, logons': nat)
    requires beat == BeatAfter(b, p) && logons == LogonsAfter(b, p)
    requires p' == p + if heard then 1 else 0
    requires beat' == if heard then NextBeat(beat) else beat
    requires logons' == logons + if heard && beat == 0 then 1 else 0
    ensures beat' == BeatAfter(b, p') && logons' == LogonsAfter(b, p')
  {
  }

  lemma OneMore(s: State, es: seq<Event>, e: Event)
    requires WellFormed(s) && PromptsDecide(s, es) && Unanswered(e)
    ensures PromptsDecide(s, es + [e])
  {
    CountsSnoc(s, es, e);
    OneMoreNumbers(Beat(s), Prompts(s, es), Beat(After(s, es)), Logons(s, es), Prompted(After(s, es), e),
                   Prompts(s, es + [e]), Beat(After(s, es + [e])), Logons(s, es + [e]));
  }

  lemma NothingHeard(s: State)
    requires LoggingOn(s)
    ensures PromptsDecide(s, [])
  {
  }

  /** Without an answer, on a free bus, the prompts heard decide alone when a logon goes out. */
  lemma {:induction false} PromptsAlwaysDecide(s: State, es: seq<Event>)
    requires LoggingOn(s) && forall e :: e in es ==> Unanswered(e)
    ensures PromptsDecide(s, es)
  {
    if es != [] {
      var p, e := es[..|es| - 1], es[|es| - 1];
      assert es == p + [e] && e in es;
      PromptsAlwaysDecide(s, p);
      OneMore(s, p, e);
    } else {
      NothingHeard(s);
    }
  }

  /** From power-on: a logon on the first prompt and on every third after it. */
  lemma FirstAndEveryThird(logonBuf: seq<byte>, image: seq<byte>, ram: seq<byte>, es: seq<Event>)
    requires |logonBuf| == LOGON_WORDS && |image| == LOGON_RESERVED && |ram| == RING_SIZE
    requires forall e :: e in es ==> Unanswered(e)
    ensures var s := Boot(logonBuf, image, ram); Logons(s, es) == (Prompts(s, es) + 2) / 3
  {
    var s := Boot(logonBuf, image, ram);
    BootIsSettled(logonBuf, image, ram);
    assert Beat(s) == 0;
    PromptsAlwaysDecide(s, es);
    EveryThird(Prompts(s, es));
  }

  // ---- Losing the connection ----

  /** Losing the connection, from whatever state: no address, no messages, and the logon back in the reserved cells. */
  lemma DisconnectExactly(s: State, image: seq<byte>)
    requires WellFormed(s) && |image| == LOGON_RESERVED
    ensures Disconnect(s, image) ==
      if s.connect == Disconnected then s
      else s.(connect := Disconnected, addr := 0xFF, read := 0, write := 12, ahead := 0, buf := image + s.buf[12..])
  {
  }

  /** A missed poll makes a connected node a disconnected one without an address or messages. */
  lemma TimeoutDisconnects(s: State, image: seq<byte>)
    requires Settled(s) && |image| == LOGON_RESERVED
    ensures var r := Move(s, Timeout(image));
      if s.connect == Connected
      then && r.connect == Disconnected && r.addr == 0xFF && r.ahead == 0 && r.read == 0 && r.write == 12
           && r.buf == image + s.buf[12..] && r.backoff == s.backoff && r.de == s.de
      else r == s
  {
    DisconnectExactly(s, image);
  }

  /** Recovery: after a missed poll, unanswered on a free bus, p prompts cause exactly (p + 2) / 3 logons, or
      (p + 1) / 3 if the node still owed a back-off when it was connected. */
  lemma LogsOnAgain(s: State, image: seq<byte>, es: seq<Event>)
    requires Settled(s) && s.connect == Connected && !s.de && |image| == LOGON_RESERVED
    requires forall e :: e in es ==> Unanswered(e)
    ensures var r := Move(s, Timeout(image));
      && r.connect == Disconnected && r.addr == 0xFF
      && Logons(r, es) == (Prompts(r, es) + if s.backoff == 0 then 2 else 1) / 3
  {
    var r := Move(s, Timeout(image));
    TimeoutDisconnects(s, image);
    MoveSettled(s, Timeout(image));
    PromptsAlwaysDecide(r, es);
    EveryThirdFrom(Beat(r), Prompts(r, es));
  }

  /** A refused node keeps its ring and its counters, and has no address. */
  lemma RefusalRejects(s: State)
    requires Settled(s)
    ensures Move(s, Refuse) == s.(connect := Rejected, addr := 0xFF)
  {
  }

  lemma RejectedIsSilent(s: State, e: Event)
    requires Settled(s) && s.connect == Rejected && !s.de && !e.Ack?
    ensures Move(s, e).connect == Rejected && !Move(s, e).de && Emit(s, e) == []
  {
    match e
    case Send(msgType, data) =>
    case Hear(w, busFree) =>
      if w.idBit && w.data == 0x7E {
        PromptExactly(s, busFree);
        assert w == Word(0x7E, true);
      } else {
        assert NO_ADDRESS & 0x40 != 0;
        OtherWordsIgnored(s, w, busFree);
      }
    case Irq =>
    case Refuse =>
    case Timeout(image) =>
  }

  /** And it stays off the bus over every run until it is acknowledged. */
  lemma {:induction false} RefusedStaysSilent(s: State, es: seq<Event>)
    requires Settled(s) && s.connect == Rejected && !s.de && forall e :: e in es ==> !e.Ack?
    ensures After(s, es).connect == Rejected && !After(s, es).de && Emitted(s, es) == []
  {
    if es != [] {
      var p, e := es[..|es| - 1], es[|es| - 1];
      assert e in es && forall x :: x in p ==> x in es;
      RefusedStaysSilent(s, p);
      AlwaysSettled(s, p);
      RejectedIsSilent(After(s, p), e);
    }
  }

  // ---- The assigned address ----

  /** The seven bits granted and, in bit 7, their parity or what was granted there. */
  predicate HoldsGranted(addr: byte, granted: byte) {
    addr & 0x7F == granted & 0x7F && (addr & 0x80 != 0 <==> granted & 0x80 != 0 || OddParity(granted))
  }

  /** What an acknowledgement stores: the seven bits granted and, in bit 7, their parity or what was granted there. */
  lemma AcknowledgedExactly(s: State, granted: byte)
    requires WellFormed(s)
    ensures var r := Move(s, Ack(granted));
      && r.connect == Connected && r.msgNum == 0
      && (if s.connect == Connected then r == s.(msgNum := 0)
          else && r == s.(connect := Connected, addr := r.addr, msgNum := 0)
               && HoldsGranted(r.addr, granted))
  {
    ParityBitIs(granted);
  }

  lemma ParityBitIs(granted: byte)
    ensures HoldsGranted(granted | ParityBit(granted), granted)
  {
  }

  function StoredAddress(granted: byte): byte {
    granted | ParityBit(granted)
  }

  /** The parity bit only ever goes into bit 7; the stored address has even parity exactly when that bit was free to
      take it or not needed. */
  lemma StoredAddressParity(granted: byte)
    ensures StoredAddress(granted) & 0x7F == granted & 0x7F
    ensures !OddParity(StoredAddress(granted)) <==> !(OddParity(granted) && granted & 0x80 != 0)
  {
  }

  lemma BitSixKept(granted: byte)
    ensures StoredAddress(granted) & SYSTEM_TOKEN == granted & SYSTEM_TOKEN
  {
  }

  /** An acknowledged node can be polled exactly when the assigned address leaves bit 6 clear. */
  lemma PollableExactly(s: State, granted: byte)
    requires WellFormed(s) && s.connect != Connected
    ensures (exists w :: IsPoll(w, Move(s, Ack(granted)).addr)) <==> granted & SYSTEM_TOKEN == 0
  {
    var a := StoredAddress(granted);
    assert Move(s, Ack(granted)).addr == a;
    BitSixKept(granted);
    if granted & SYSTEM_TOKEN == 0 {
      assert IsPoll(Word(a, true), a);
    }
  }
}
