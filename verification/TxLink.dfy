/** The sender as the firmware runs it: `bidib.c` and the transmit half of `bidib_client_if.c`, updating its globals
    and buffers in place. Every method is proved against the value functions of module Bus. */
module TxLink {
  import opened Bytes
  import opened Crc8
  import opened Ring
  import B = Bus
  import opened RxBuffer
  import H = HalfDuplex

  const TX_BUF_SIZE: nat := 32

  /** The logon message as both prepare routines build it: the header, then the unique id byte by byte. */
  method WriteLogonMessage(a: array<byte>, at: nat)
    requires at + 11 <= a.Length
    modifies a
    ensures a[..] == old(a[..at]) + B.LOGON_MSG + old(a[at + 11..])
  {
    a[at], a[at + 1], a[at + 2], a[at + 3] := 0x0A, 0x00, 0x00, B.MSG_LOCAL_LOGON;
    ghost var m := [0x0A, 0x00, 0x00, B.MSG_LOCAL_LOGON];
    var i := 0;
    while i < 7
      invariant 0 <= i <= 7
      invariant a[..at] == old(a[..at]) && a[at + 11..] == old(a[at + 11..])
      invariant a[at..at + 4] == m && a[at + 4..at + 4 + i] == B.UNIQUE_ID[..i]
    {
      a[at + 4 + i] := B.UNIQUE_ID[i];
      i := i + 1;
    }
    assert a[at..at + 11] == a[at..at + 4] + a[at + 4..at + 11];
    assert B.UNIQUE_ID[..7] == B.UNIQUE_ID;
    assert a[..] == a[..at] + a[at..at + 11] + a[at + 11..];
  }

  /** The CRC loops of both prepare routines. */
  method CrcOver(a: array<byte>, n: nat) returns (crc: byte)
    requires n <= a.Length
    ensures crc == Fold(0, a[..n])
  {
    crc := 0;
    for i := 0 to n
      invariant crc == Fold(0, a[..i])
    {
      FoldSnoc(0, a[..i], a[i]);
      assert a[..i + 1] == a[..i] + [a[i]];
      crc := Crc8Update(crc, a[i]);
    }
  }

  lemma LogonLength()
    ensures |B.LOGON_MSG| == 11 && |B.LOGON_FRAME| == B.LOGON_WORDS && |B.LOGON_IMAGE| == B.LOGON_RESERVED
  {
  }

  lemma LogonLengthByte()
    ensures ToByte(|B.LOGON_MSG|) == 0x0B
  {
  }

  function Events(fifo: seq<Word>, busFree: seq<bool>): (es: seq<B.Event>)
    requires |fifo| == |busFree|
    ensures |es| == |fifo|
  {
    if fifo == [] then []
    else
      var n := |fifo| - 1;
      Events(fifo[..n], busFree[..n]) + [B.Hear(fifo[n], busFree[n])]
  }

  lemma EventsSnoc(fifo: seq<Word>, busFree: seq<bool>, i: nat)
    requires |fifo| == |busFree| && i < |fifo|
    ensures Events(fifo[..i + 1], busFree[..i + 1]) == Events(fifo[..i], busFree[..i]) + [B.Hear(fifo[i], busFree[i])]
  {
    assert fifo[..i + 1][..i] == fifo[..i] && busFree[..i + 1][..i] == busFree[..i];
  }

  lemma HeardSnoc(s: B.State, es: seq<B.Event>, e: B.Event, q: seq<Word>)
    requires B.WellFormed(s) && e.Hear?
    ensures B.After(s, es + [e]) == B.Move(B.After(s, es), e)
    ensures B.Emitted(s, es + [e]) == B.Emitted(s, es) + B.HearWord(B.After(s, es), e.w, e.busFree).1
    ensures EnqueueAll(q, B.Heard(s, es + [e]))
         == if B.After(s, es).de then EnqueueAll(q, B.Heard(s, es)) else Enqueue(EnqueueAll(q, B.Heard(s, es)), e.w)
  {
    assert (es + [e])[..|es|] == es;
    var h := B.Heard(s, es);
    assert h + [] == h;
    assert (h + [e.w])[..|h|] == h;
  }

  /** No prompt and no poll of address `addr`. */
  ghost predicate Passing(w: Word, addr: byte) {
    w.idBit ==> w.data != 0x7E && (w.data != addr || addr & 0x40 != 0)
  }

  /** The run leaves the node as it is and hands on these words. */
  ghost predicate Passes(s: B.State, es: seq<B.Event>, ws: seq<Word>)
    requires B.WellFormed(s)
  {
    B.After(s, es) == s && B.Emitted(s, es) == [] && B.Heard(s, es) == ws
  }

  lemma OnePasses(s: B.State, es: seq<B.Event>, ws: seq<Word>, w: Word, busFree: bool)
    requires B.WellFormed(s) && !s.de && Passing(w, s.addr) && Passes(s, es, ws)
    ensures Passes(s, es + [B.Hear(w, busFree)], ws + [w])
  {
    H.OtherWordsIgnored(s, w, busFree);
    OneMoreHeard(s, es, B.Hear(w, busFree));
  }

  /** While the node does not drive the bus, every word reaches the receive ring, if it has room for them, and the
      words that do not concern the driver leave the node as it is. */
  lemma {:induction false} PassingWordsAreHeard(s: B.State, fifo: seq<Word>, busFree: seq<bool>)
    requires B.WellFormed(s) && !s.de && |fifo| == |busFree| && forall w :: w in fifo ==> Passing(w, s.addr)
    ensures Passes(s, Events(fifo, busFree), fifo)
  {
    if fifo != [] {
      var ws, w, n := fifo[..|fifo| - 1], fifo[|fifo| - 1], |fifo| - 1;
      assert fifo == ws + [w] && w in fifo && forall u :: u in ws ==> u in fifo;
      PassingWordsAreHeard(s, ws, busFree[..n]);
      OnePasses(s, Events(ws, busFree[..n]), ws, w, busFree[n]);
    }
  }

  /** A word heard while the driver is off is handed on, whether or not it raises the driver; one heard while it is on
      is an echo. */
  lemma OneMoreHeard(s: B.State, es: seq<B.Event>, e: B.Event)
    requires B.WellFormed(s) && e.Hear?
    ensures B.Heard(s, es + [e]) == B.Heard(s, es) + if B.After(s, es).de then [] else [e.w]
    ensures B.After(s, es + [e]) == B.Move(B.After(s, es), e)
    ensures B.Emitted(s, es + [e]) == B.Emitted(s, es) + B.Emit(B.After(s, es), e)
  {
    assert (es + [e])[..|es|] == es;
  }

  /** What the receive interrupt leaves in the ring: the words waiting, and behind them the first of those heard, as
      many as 63 allow. */
  lemma RingAfterInterrupt(q: seq<Word>, s: B.State, fifo: seq<Word>, busFree: seq<bool>)
    requires B.WellFormed(s) && !s.de && |fifo| == |busFree| && |q| <= 63
    requires forall w :: w in fifo ==> Passing(w, s.addr)
    ensures EnqueueAll(q, B.Heard(s, Events(fifo, busFree)))
         == q + if |fifo| <= 63 - |q| then fifo else fifo[..63 - |q|]
  {
    PassingWordsAreHeard(s, fifo, busFree);
    EnqueueAllTakes(q, fifo);
  }

  /** The bus state when a poll has turned the queue into a frame. */
  function QueueCaptured(s: B.State): B.State
    requires 0 < s.ahead < 256
  {
    s.(de := true, txIrq := true, parserIndex := s.read, parserRemaining := s.ahead,
       parserCrc := Absorb(0, ToByte(s.ahead)), read := Slot(s.read, s.ahead), ahead := 0)
  }

  class Link {
    var connect: B.Connection
    var backoff: nat
    var addr: byte
    var de: bool
    var txIrq: bool
    var nakMode: bool
    var logonMode: bool
    var txIndex: nat
    var txRemaining: nat
    var parserIndex: nat
    var parserRemaining: nat
    var parserCrc: byte
    var read: nat
    var write: nat
    var ahead: nat
    var msgNum: byte
    const logonBuf: array<byte>   // tx_buf: the id bits of its words are all 0
    const txBuf: array<byte>      // bidib_tx_buf

    ghost predicate Shaped()
      reads this
    {
      logonBuf.Length == TX_BUF_SIZE && txBuf.Length == RING_SIZE && logonBuf != txBuf
    }

    ghost function State(): B.State
      reads this, logonBuf, txBuf
      requires Shaped()
    {
      B.State(connect, backoff, addr, de, txIrq, nakMode, logonMode, logonBuf[..B.LOGON_WORDS], txIndex, txRemaining,
              parserIndex, parserRemaining, parserCrc, txBuf[..], read, write, ahead, msgNum)
    }

    ghost predicate Valid()
      reads this, logonBuf, txBuf
    {
      Shaped() && B.WellFormed(State())
    }

    // ---- bidib_client_if.c ----

    /** The copy loop of `bidib_tx_fifo_put`. */
    method CopyIn(m: seq<byte>)
      requires Shaped() && write < RING_SIZE
      modifies this`write, txBuf
      ensures write == Slot(old(write), |m|)
      ensures txBuf[..] == Store(old(txBuf[..]), old(write), m)
    {
      ghost var before := txBuf[..];
      ghost var at := write;
      var i := 0;
      while i < |m|
        invariant 0 <= i <= |m|
        invariant write == Slot(at, i)
        invariant txBuf[..] == Store(before, at, m[..i])
      {
        txBuf[write] := m[i];
        assert m[..i + 1][..i] == m[..i];
        SlotSlot(at, i, 1);
        write := (write + 1) % RING_SIZE;
        i := i + 1;
      }
      assert m[..i] == m;
    }

    /** `bidib_tx_fifo_put`. A size byte of 255 would never let the copy loop end. */
    method FifoPut(m: seq<byte>) returns (ok: bool)
      requires Valid()
      requires m != [] && m[0] != 255 && |m| == m[0] as nat + 1
      modifies this`write, this`ahead, txBuf
      ensures Valid()
      ensures (State(), ok) == B.Put(old(State()), m)
    {
      if connect != B.Connected {
        return true;
      }
      if ahead + |m| > RING_SIZE {
        return false;
      }
      CopyIn(m);
      ahead := ahead + |m|;
      return true;
    }

    /** `bidib_get_tx_num`. */
    method GetTxNum() returns (number: byte)
      requires Valid()
      modifies this`msgNum
      ensures Valid()
      ensures number == old(msgNum) && State() == old(State()).(msgNum := B.NextNumber(number))
    {
      number := msgNum;
      msgNum := msgNum + 1;
      if msgNum == 0 {
        msgNum := 1;
      }
    }

    /** `bidib_build_header`, the data bytes, and `send_bidib_message`. */
    method SendMessage(msgType: byte, data: seq<byte>) returns (ok: bool)
      requires Valid() && |data| <= 251
      modifies this`msgNum, this`write, this`ahead, txBuf
      ensures Valid()
      ensures State() == B.Move(old(State()), B.Send(msgType, data))
    {
      var number := GetTxNum();
      var m := [ToByte(3 + |data|), 0, number, msgType] + data;
      ok := FifoPut(m);
    }

    /** `bidib_prepare_tx_logon`. */
    method PrepareTxLogon()
      requires Shaped()
      modifies txBuf
      ensures txBuf[..] == B.LOGON_IMAGE + old(txBuf[B.LOGON_RESERVED..])
    {
      ghost var tail := txBuf[B.LOGON_RESERVED..];
      WriteLogonMessage(txBuf, 0);
      LogonLength();
      assert txBuf[..11] == B.LOGON_MSG;
      var crc := CrcOver(txBuf, 11);
      txBuf[11] := crc;
      assert txBuf[..] == txBuf[..11] + [txBuf[11]] + tail;
    }

    /** `bidib_flush_tx`. */
    method FlushTx()
      requires Valid()
      modifies this`read, this`write, this`ahead, txBuf
      ensures Valid()
      ensures State() == B.Flush(old(State()), B.LOGON_IMAGE)
    {
      read, write, ahead := 0, B.LOGON_RESERVED, 0;
      PrepareTxLogon();
    }

    /** The globals before `bidib_init`. */
    constructor ()
      ensures Valid() && fresh(logonBuf) && fresh(txBuf)
      ensures State() == B.Boot(B.LOGON_FRAME, B.LOGON_IMAGE, seq(RING_SIZE, _ => 0))
    {
      connect, backoff, addr := B.Disconnected, 0, B.NO_ADDRESS;
      de, txIrq, nakMode, logonMode := false, false, false, true;
      txIndex, txRemaining, parserIndex, parserRemaining, parserCrc := 0, 0, 0, 0, 0;
      read, write, ahead, msgNum := 0, 0, 0, 1;
      logonBuf := new byte[TX_BUF_SIZE](_ => 0);
      txBuf := new byte[RING_SIZE](_ => 0);
      new;
      PrepareLogonBuf();
      assert txBuf[..] == seq(RING_SIZE, _ => 0);
      FlushTx();
    }

    // ---- bidib.c ----

    /** `bidib_prepare_logon_buf`. */
    method PrepareLogonBuf()
      requires Shaped()
      modifies logonBuf
      ensures logonBuf[..B.LOGON_WORDS] == B.LOGON_FRAME
    {
      logonBuf[0] := 0x0B;
      WriteLogonMessage(logonBuf, 1);
      LogonLength();
      assert logonBuf[..12] == [0x0B] + B.LOGON_MSG;
      var crc := CrcOver(logonBuf, 12);
      logonBuf[12] := crc;
      LogonLengthByte();
      assert logonBuf[..13] == logonBuf[..12] + [crc];
    }

    /** `bidib_start_tx`. Returns the word put on the wire. */
    method StartTx() returns (out: seq<byte>)
      requires Valid()
      modifies this`logonMode, this`txIndex, this`txRemaining, this`de, this`txIrq
      ensures Valid()
      ensures (State(), out) == B.StartLogon(old(State()))
    {
      logonMode := true;
      txIndex := 0;
      txRemaining := B.LOGON_WORDS - 1;
      de := true;
      out := [logonBuf[txIndex]];
      txIndex := txIndex + 1;
      txIrq := true;
    }

    /** The logon branch of `bidib_pio_tx_isr`. */
    method TxLogonWord() returns (out: seq<byte>)
      requires Valid() && txIrq && logonMode
      modifies this`txIndex, this`txRemaining, this`de, this`txIrq, this`logonMode, this`read, this`ahead
      ensures Valid()
      ensures (State(), out) == B.TransmitInterrupt(old(State()))
    {
      if txRemaining > 0 {
        out := [logonBuf[txIndex]];
        txIndex := txIndex + 1;
        txRemaining := txRemaining - 1;
      } else {
        out := [];
        de := false;
        txIrq := false;
        logonMode := false;
        read := B.LOGON_RESERVED;
        ahead := 0;
      }
    }

    /** The frame branch of `bidib_pio_tx_isr`. */
    method TxFrameWord() returns (out: seq<byte>)
      requires Valid() && txIrq && !logonMode && !nakMode
      modifies this`parserIndex, this`parserRemaining, this`parserCrc, this`de, this`txIrq
      ensures Valid()
      ensures (State(), out) == B.TransmitInterrupt(old(State()))
    {
      if parserRemaining > 0 {
        var b := txBuf[parserIndex];
        parserCrc := Crc8Update(parserCrc, b);
        parserIndex := (parserIndex + 1) % RING_SIZE;
        parserRemaining := parserRemaining - 1;
        out := [b];
      } else {
        out := [parserCrc];
        de := false;
        txIrq := false;
      }
    }

    /** `bidib_pio_tx_isr`, which runs while its interrupt is enabled. Returns the word put on the wire. */
    method TxIsr() returns (out: seq<byte>)
      requires Valid() && txIrq
      modifies this
      ensures Valid()
      ensures (State(), out) == B.TransmitInterrupt(old(State()))
    {
      if logonMode {
        out := TxLogonWord();
      } else if nakMode {
        nakMode := false;
        de := false;
        txIrq := false;
        out := [];
      } else {
        out := TxFrameWord();
      }
    }

    /** The LOGON branch of `bidib_pio_rx_isr`. */
    method OnPrompt(busFree: bool) returns (out: seq<byte>)
      requires Valid()
      modifies this
      ensures Valid()
      ensures (State(), out) == B.HearPrompt(old(State()), busFree)
    {
      out := [];
      if connect == B.Disconnected {
        if backoff > 0 {
          backoff := backoff - 1;
        } else if busFree {
          connect := B.Applied;
          out := StartTx();
        }
      } else if connect == B.Applied {
        backoff := (backoff + 1) % 64;
        connect := B.Disconnected;
      }
    }

    /** The poll branch of `bidib_pio_rx_isr`. */
    method OnPoll() returns (out: seq<byte>)
      requires Valid()
      modifies this`de, this`txIrq, this`nakMode
      modifies this`parserIndex, this`parserRemaining, this`parserCrc, this`read, this`ahead
      ensures Valid()
      ensures (State(), out) == B.HearPoll(old(State()))
    {
      if ahead > 0 && !logonMode {
        out := SendQueue();
      } else {
        out := SendNak();
      }
    }

    method SendNak() returns (out: seq<byte>)
      requires Valid()
      modifies this`de, this`txIrq, this`nakMode
      ensures Valid() && out == [0]
      ensures State() == old(State()).(de := true, txIrq := true, nakMode := true)
    {
      de := true;
      nakMode := true;
      out := [0];
      txIrq := true;
    }

    /** Capturing the queue as one frame. */
    method SendQueue() returns (out: seq<byte>)
      requires Valid() && ahead > 0
      modifies this`de, this`txIrq, this`parserIndex, this`parserRemaining, this`parserCrc, this`read, this`ahead
      ensures Valid()
      ensures State() == QueueCaptured(old(State())) && out == [ToByte(old(ahead))]
    {
      out := StartCrc();
      TakeQueue();
      de := true;
      txIrq := true;
    }

    method StartCrc() returns (out: seq<byte>)
      requires Valid()
      modifies this`parserCrc
      ensures Valid() && out == [ToByte(ahead)]
      ensures State() == old(State()).(parserCrc := Absorb(0, ToByte(ahead)))
    {
      var plength := ToByte(ahead);
      parserCrc := Crc8Update(0, plength);
      out := [plength];
    }

    method TakeQueue()
      requires Valid()
      modifies this`parserIndex, this`parserRemaining, this`read, this`ahead
      ensures Valid()
      ensures var s := old(State());
        State() == s.(parserIndex := s.read, parserRemaining := s.ahead, read := Slot(s.read, s.ahead), ahead := 0)
    {
      parserIndex := read;
      parserRemaining := ahead;
      read := (read + ahead) % RING_SIZE;
      ahead := 0;
    }

    /** One turn of the loop in `bidib_pio_rx_isr`. */
    method HearOne(w: Word, busFree: bool, rx: Buffer) returns (out: seq<byte>)
      requires Valid() && rx.Valid() && rx.cells as object !in {this, logonBuf, txBuf}
      modifies this, rx, rx.cells
      ensures Valid() && rx.Valid()
      ensures (State(), out) == B.HearWord(old(State()), w, busFree)
      ensures rx.Queue() == if old(de) then old(rx.Queue()) else Enqueue(old(rx.Queue()), w)
    {
      out := [];
      if de {
        return;
      }
      rx.Put(w);
      if w.idBit {
        if w.data & B.SYSTEM_TOKEN != 0 {
          if w.data == B.LOGON_PROMPT {
            out := OnPrompt(busFree);
          }
        } else if w.data == addr {
          out := OnPoll();
        }
      }
    }

    /** `bidib_pio_rx_isr` on the words in the hardware FIFO; `busFree` tells for each what collision avoidance would
        find. Returns the words put on the wire. */
    method RxIsr(fifo: seq<Word>, busFree: seq<bool>, rx: Buffer) returns (out: seq<byte>)
      requires Valid() && rx.Valid() && rx.cells as object !in {this, logonBuf, txBuf} && |fifo| == |busFree|
      modifies this, rx, rx.cells
      ensures Valid() && rx.Valid()
      ensures var es := Events(fifo, busFree);
        && State() == B.After(old(State()), es)
        && out == B.Emitted(old(State()), es)
        && rx.Queue() == EnqueueAll(old(rx.Queue()), B.Heard(old(State()), es))
    {
      out := [];
      ghost var s0, q0 := State(), rx.Queue();
      for i := 0 to |fifo|
        invariant Valid() && rx.Valid()
        invariant State() == B.After(s0, Events(fifo[..i], busFree[..i]))
        invariant out == B.Emitted(s0, Events(fifo[..i], busFree[..i]))
        invariant rx.Queue() == EnqueueAll(q0, B.Heard(s0, Events(fifo[..i], busFree[..i])))
      {
        ghost var es, s := Events(fifo[..i], busFree[..i]), State();
        EventsSnoc(fifo, busFree, i);
        HeardSnoc(s0, es, B.Hear(fifo[i], busFree[i]), q0);
        var o := HearOne(fifo[i], busFree[i], rx);
        out := out + o;
      }
      assert fifo[..|fifo|] == fifo && busFree[..|fifo|] == busFree;
    }
  }
}
