/** The sender's side of the bus as values: what the interrupt routines of `bidib.c`, the transmit FIFO of
    `bidib_client_if.c` and `set_bidib_state` of `bidib_client_parser.c` do to the shared globals. */
module Bus {
  import opened Bytes
  import opened Crc8
  import opened Ring

  datatype Connection = Disconnected | Applied | Connected | Rejected

  /** The globals the interrupt routines and the main loop share. `de` is the RS-485 driver-enable pin and
      `txIrq` the enable bit of the transmit interrupt. */
  datatype State = State(
    connect: Connection, backoff: nat, addr: byte,
    de: bool, txIrq: bool, nakMode: bool,
    logonMode: bool, logonBuf: seq<byte>, txIndex: nat, txRemaining: nat,
    parserIndex: nat, parserRemaining: nat, parserCrc: byte,
    buf: seq<byte>, read: nat, write: nat, ahead: nat,
    msgNum: byte)

  const NO_ADDRESS: byte := 0xFF
  const SYSTEM_TOKEN: byte := 0x40
  const LOGON_PROMPT: byte := 0x7E
  const MSG_LOCAL_LOGON: byte := 0xF0
  const UNIQUE_ID: seq<byte> := [0x00, 0x01, 0x0D, 0xBA, 0xF1, 0xB6, 0xBC]

  /** Where a flush leaves the write index: behind the cells reserved for the logon message and its CRC. */
  const LOGON_RESERVED: nat := 12
  /** Words of a logon on the wire. */
  const LOGON_WORDS: nat := 13

  /** What a DE-high period puts on the wire to carry a payload: P_LENGTH, the payload, the CRC over both. */
  function Frame(payload: seq<byte>): (f: seq<byte>)
    requires |payload| < 256
    ensures |f| == |payload| + 2 && Fold(0, f) == 0
  {
    var body := [ToByte(|payload|)] + payload;
    AppendedFoldCancels(0, body);
    body + [Fold(0, body)]
  }

  const LOGON_MSG: seq<byte> := [0x0A, 0x00, 0x00, MSG_LOCAL_LOGON] + UNIQUE_ID
  const LOGON_FRAME: seq<byte> := Frame(LOGON_MSG)
  /** What a flush leaves in the reserved cells. */
  const LOGON_IMAGE: seq<byte> := LOGON_MSG + [Fold(0, LOGON_MSG)]

  ghost predicate WellFormed(s: State) {
    && |s.buf| == RING_SIZE && s.read < RING_SIZE && s.write < RING_SIZE && s.ahead <= RING_SIZE
    && s.parserIndex < RING_SIZE && s.parserRemaining <= RING_SIZE
    && |s.logonBuf| == LOGON_WORDS && s.txIndex + s.txRemaining <= LOGON_WORDS
    && s.backoff < 64
  }

  // ---- bidib_client_if.c ----

  /** `bidib_tx_fifo_put`: the accepted message is stored at the write index; false only when the FIFO is full. */
  function Put(s: State, m: seq<byte>): (r: (State, bool))
    requires WellFormed(s)
    ensures WellFormed(r.0)
  {
    if s.connect != Connected then (s, true)
    else if s.ahead + |m| > RING_SIZE then (s, false)
    else (s.(buf := Store(s.buf, s.write, m), write := Slot(s.write, |m|), ahead := s.ahead + |m|), true)
  }

  /** The successor of a sequence number: 0 only ever starts a session. */
  function NextNumber(n: byte): byte {
    if n + 1 == 0 then 1 else n + 1
  }

  /** `bidib_flush_tx`; `image` is what `bidib_prepare_tx_logon` writes to the reserved cells. */
  function Flush(s: State, image: seq<byte>): (r: State)
    requires WellFormed(s) && |image| == LOGON_RESERVED
    ensures WellFormed(r)
  {
    s.(read := 0, write := LOGON_RESERVED, ahead := 0, buf := image + s.buf[LOGON_RESERVED..])
  }

  // ---- bidib_client_parser.c ----

  /** `set_bidib_state(BIDIB_DISCONNECTED, 0)`, as far as the sender is concerned: the main loop's poll timeout. */
  function Disconnect(s: State, image: seq<byte>): (r: State)
    requires WellFormed(s) && |image| == LOGON_RESERVED
    ensures WellFormed(r)
  {
    if s.connect == Disconnected then s
    else Flush(s, image).(connect := Disconnected, addr := NO_ADDRESS)
  }

  /** `set_bidib_state(BIDIB_REJECTED, 0)`. */
  function Reject(s: State): (r: State)
    requires WellFormed(s)
    ensures WellFormed(r)
  {
    if s.connect == Rejected then s
    else s.(connect := Rejected, addr := NO_ADDRESS)
  }

  /** The parity bit `MSG_LOCAL_LOGON_ACK` adds to the assigned address. */
  function ParityBit(granted: byte): byte {
    var t1 := granted ^ (granted << 4);
    var t2 := t1 ^ (t1 << 2);
    var t3 := t2 ^ (t2 << 1);
    t3 & 0x80
  }

  /** Handling `MSG_LOCAL_LOGON_ACK` that names our unique id. */
  function Acknowledge(s: State, granted: byte): (r: State)
    requires WellFormed(s)
    ensures WellFormed(r)
  {
    if s.connect == Connected then s.(msgNum := 0)
    else s.(connect := Connected, addr := granted | ParityBit(granted), msgNum := 0)
  }

  // ---- bidib.c ----

  /** `bidib_start_tx`: raises DE and puts the first logon word on the wire. */
  function StartLogon(s: State): (r: (State, seq<byte>))
    requires WellFormed(s)
    ensures WellFormed(r.0)
  {
    (s.(logonMode := true, txIndex := 1, txRemaining := LOGON_WORDS - 1, de := true, txIrq := true), [s.logonBuf[0]])
  }

  /** A LOGON prompt; `busFree` is what collision avoidance finds. */
  function HearPrompt(s: State, busFree: bool): (r: (State, seq<byte>))
    requires WellFormed(s)
    ensures WellFormed(r.0)
  {
    match s.connect
    case Disconnected =>
      if s.backoff > 0 then (s.(backoff := s.backoff - 1), [])
      else if busFree then StartLogon(s.(connect := Applied))
      else (s, [])
    case Applied => (s.(backoff := (s.backoff + 1) % 64, connect := Disconnected), [])
    case _ => (s, [])
  }

  /** A poll of our own address: everything queued becomes one frame, an empty queue is answered by a single 0. */
  function HearPoll(s: State): (r: (State, seq<byte>))
    requires WellFormed(s)
    ensures WellFormed(r.0)
  {
    if s.ahead > 0 && !s.logonMode then
      var plength := ToByte(s.ahead);
      (s.(de := true, txIrq := true, parserIndex := s.read, parserRemaining := s.ahead, parserCrc := Absorb(0, plength),
          read := Slot(s.read, s.ahead), ahead := 0), [plength])
    else (s.(de := true, txIrq := true, nakMode := true), [0])
  }

  predicate IsPrompt(w: Word) {
    w.idBit && w.data == LOGON_PROMPT
  }

  predicate IsPoll(w: Word, addr: byte) {
    w.idBit && w.data & SYSTEM_TOKEN == 0 && w.data == addr
  }

  /** `bidib_pio_rx_isr` for one word. Returns the words put on the wire. */
  function HearWord(s: State, w: Word, busFree: bool): (r: (State, seq<byte>))
    requires WellFormed(s)
    ensures WellFormed(r.0)
  {
    if s.de then (s, [])
    else if IsPrompt(w) then HearPrompt(s, busFree)
    else if IsPoll(w, s.addr) then HearPoll(s)
    else (s, [])
  }

  /** No word changes the logon frame or the sequence number. */
  lemma HearLeaves(s: State, w: Word, busFree: bool)
    requires WellFormed(s)
    ensures var r := HearWord(s, w, busFree).0; r.logonBuf == s.logonBuf && r.msgNum == s.msgNum
  {
  }

  /** `bidib_pio_tx_isr`; nothing happens while the interrupt is disabled. Returns the words put on the wire. */
  function TransmitInterrupt(s: State): (r: (State, seq<byte>))
    requires WellFormed(s)
    ensures WellFormed(r.0)
  {
    if !s.txIrq then (s, [])
    else if s.logonMode then
      if s.txRemaining > 0 then
        (s.(txIndex := s.txIndex + 1, txRemaining := s.txRemaining - 1), [s.logonBuf[s.txIndex]])
      else
        (s.(de := false, txIrq := false, logonMode := false, read := LOGON_RESERVED, ahead := 0), [])
    else if s.nakMode then
      (s.(nakMode := false, de := false, txIrq := false), [])
    else if s.parserRemaining > 0 then
      var b := s.buf[s.parserIndex];
      (s.(parserIndex := Slot(s.parserIndex, 1), parserRemaining := s.parserRemaining - 1,
          parserCrc := Absorb(s.parserCrc, b)), [b])
    else
      (s.(de := false, txIrq := false), [s.parserCrc])
  }

  /** The globals after `bidib_init` and `init_bidib_client`: `ram` is what the transmit buffer held before. */
  function Boot(logonBuf: seq<byte>, image: seq<byte>, ram: seq<byte>): (s: State)
    requires |logonBuf| == LOGON_WORDS && |image| == LOGON_RESERVED && |ram| == RING_SIZE
    ensures WellFormed(s)
  {
    var s := State(Disconnected, 0, NO_ADDRESS, false, false, false, true, logonBuf, 0, 0, 0, 0, 0, ram, 0, 0, 0, 1);
    Flush(s, image)
  }

  // ---- Messages and steps ----

  /** `bidib_build_header` with its data: size, address 0, sequence number, type. */
  function Message(number: byte, msgType: byte, data: seq<byte>): (m: seq<byte>)
    requires |data| <= 251
    ensures IsMessage(m) && |m| == 4 + |data|
  {
    [ToByte(3 + |data|), 0, number, msgType] + data
  }

  predicate IsMessage(m: seq<byte>) {
    4 <= |m| <= 255 && m[0] as nat + 1 == |m|
  }

  /** The atomic steps of the interrupt routines and the main loop, in any order. */
  datatype Step =
    | Send(msgType: byte, data: seq<byte>)   // a message is numbered and put into the FIFO
    | Hear(w: Word, busFree: bool)           // the receive interrupt takes one word
    | Irq                                    // the transmit interrupt
    | Ack(granted: byte)                     // MSG_LOCAL_LOGON_ACK with our unique id is processed
    | Refuse                                 // MSG_LOGON_REJECTED with our unique id is processed
    | Timeout(image: seq<byte>)              // the main loop misses its polls
  {
    /** A size byte of 255 would keep the copy loop of `bidib_tx_fifo_put` running for ever. */
    predicate Possible() {
      && (Send? ==> |data| <= 251)
      && (Timeout? ==> |image| == LOGON_RESERVED)
    }
  }

  type Event = e: Step | e.Possible() witness Irq

  /** The bus state after one step. */
  function Move(s: State, e: Event): (r: State)
    requires WellFormed(s)
    ensures WellFormed(r)
  {
    match e
    case Send(msgType, data) => Put(s.(msgNum := NextNumber(s.msgNum)), Message(s.msgNum, msgType, data)).0
    case Hear(w, busFree) => HearWord(s, w, busFree).0
    case Irq => TransmitInterrupt(s).0
    case Ack(granted) => Acknowledge(s, granted)
    case Refuse => Reject(s)
    case Timeout(image) => if s.connect == Connected then Disconnect(s, image) else s
  }

  /** What a step puts on the wire. */
  function Emit(s: State, e: Event): seq<byte>
    requires WellFormed(s)
  {
    match e
    case Hear(w, busFree) => HearWord(s, w, busFree).1
    case Irq => TransmitInterrupt(s).1
    case _ => []
  }

  /** The bus state after a run. */
  function After(s: State, es: seq<Event>): (r: State)
    requires WellFormed(s)
    ensures WellFormed(r)
  {
    if es == [] then s else Move(After(s, es[..|es| - 1]), es[|es| - 1])
  }

  lemma AfterLast(s: State, es: seq<Event>, e: Event)
    requires WellFormed(s)
    ensures After(s, es + [e]) == Move(After(s, es), e)
  {
    assert (es + [e])[..|es|] == es;
  }

  lemma SameLast(s: State, m: State, x: seq<Event>, y: seq<Event>, e: Event)
    requires WellFormed(s) && WellFormed(m) && After(s, x) == After(m, y)
    ensures After(s, x + [e]) == After(m, y + [e])
  {
    AfterLast(s, x, e);
    AfterLast(m, y, e);
  }

  lemma {:induction false} AfterConcat(s: State, a: seq<Event>, b: seq<Event>)
    requires WellFormed(s)
    ensures After(s, a + b) == After(After(s, a), b)
  {
    if b == [] {
      assert a + b == a;
    } else {
      var c, e := b[..|b| - 1], b[|b| - 1];
      AfterConcat(s, a, c);
      SameLast(s, After(s, a), a + c, c, e);
      SnocConcat(a, b);
    }
  }

  /** What a run puts on the wire. */
  function Emitted(s: State, es: seq<Event>): seq<byte>
    requires WellFormed(s)
  {
    if es == [] then []
    else Emitted(s, es[..|es| - 1]) + Emit(After(s, es[..|es| - 1]), es[|es| - 1])
  }

  /** The words of a run the receive interrupt passes on: those it sees while the driver is off. */
  function Heard(s: State, es: seq<Event>): seq<Word>
    requires WellFormed(s)
  {
    if es == [] then []
    else
      var e := es[|es| - 1];
      Heard(s, es[..|es| - 1]) + if e.Hear? && !After(s, es[..|es| - 1]).de then [e.w] else []
  }
}
