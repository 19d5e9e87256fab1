/** What an undisturbed series of transmit interrupts sends, in closed form. */
module IrqRuns {
  import opened Bytes
  import opened Crc8
  import opened Ring
  import opened Bus
  import opened Line
  import H = HalfDuplex

  function IrqRun(n: nat): (es: seq<Event>)
    ensures |es| == n && forall e :: e in es ==> e == Irq
  {
    if n == 0 then [] else IrqRun(n - 1) + [Irq]
  }

  lemma {:induction false} IrqRunCount(n: nat)
    ensures H.Irqs(IrqRun(n)) == n
  {
    if n > 0 {
      IrqRunCount(n - 1);
      OneMoreCounts(IrqRun(n - 1));
    }
  }

  lemma OneMoreCounts(es: seq<Event>)
    ensures H.Irqs(es + [Irq]) == H.Irqs(es) + 1
  {
    assert (es + [Irq])[..|es|] == es;
  }

  lemma OneMoreIrq(l: Line, n: nat)
    requires Usable(l)
    ensures Run(l, IrqRun(n + 1)) == DoIrq(Run(l, IrqRun(n)))
  {
    assert IrqRun(n + 1)[..n] == IrqRun(n);
  }

  // ---- A frame ----

  /** A frame is in transmission and its running CRC covers what went out. */
  ghost predicate SendingPayload(l: Line) {
    && Usable(l) && l.bus.de && l.bus.txIrq && !l.bus.logonMode && !l.bus.nakMode
    && l.bus.parserCrc == Fold(0, l.sent)
  }

  /** The line when `k` more bytes of the frame went out. */
  function PayloadSent(l: Line, k: nat): Line
    requires Usable(l) && k <= l.bus.parserRemaining
  {
    var sent := l.sent + Segment(l.bus.buf, l.bus.parserIndex, k);
    l.(bus := l.bus.(parserIndex := Slot(l.bus.parserIndex, k), parserRemaining := l.bus.parserRemaining - k,
                     parserCrc := Fold(0, sent)),
       sent := sent)
  }

  lemma SegmentSnoc(buf: seq<byte>, at: nat, k: nat)
    requires |buf| == RING_SIZE
    ensures Segment(buf, at, k + 1) == Segment(buf, at, k) + [buf[Slot(at, k)]]
  {
  }

  lemma SentGrows(sent: seq<byte>, buf: seq<byte>, at: nat, k: nat)
    requires |buf| == RING_SIZE
    ensures var before, b := sent + Segment(buf, at, k), buf[Slot(at, k)];
      && sent + Segment(buf, at, k + 1) == before + [b]
      && Fold(0, sent + Segment(buf, at, k + 1)) == Absorb(Fold(0, before), b)
  {
    SegmentSnoc(buf, at, k);
    assert sent + Segment(buf, at, k + 1) == (sent + Segment(buf, at, k)) + [buf[Slot(at, k)]];
    FoldSnoc(0, sent + Segment(buf, at, k), buf[Slot(at, k)]);
  }

  lemma SendsOneMore(l: Line, k: nat)
    requires SendingPayload(l) && k < l.bus.parserRemaining
    ensures DoIrq(PayloadSent(l, k)) == PayloadSent(l, k + 1)
  {
    SentGrows(l.sent, l.bus.buf, l.bus.parserIndex, k);
    SlotSlot(l.bus.parserIndex, k, 1);
  }

  lemma {:induction false} SendsPayload(l: Line, k: nat)
    requires SendingPayload(l) && k <= l.bus.parserRemaining
    ensures Run(l, IrqRun(k)) == PayloadSent(l, k)
  {
    if k == 0 {
      assert l.sent + [] == l.sent;
      assert Segment(l.bus.buf, l.bus.parserIndex, 0) == [];
    } else {
      SendsPayload(l, k - 1);
      OneMoreIrq(l, k - 1);
      SendsOneMore(l, k - 1);
    }
  }

  /** Whatever the ring holds goes out, closed by a CRC that fits it. */
  function FrameSent(l: Line): Line
    requires Usable(l)
  {
    var m := PayloadSent(l, l.bus.parserRemaining);
    m.(bus := m.bus.(de := false, txIrq := false), sent := [], carried := [],
       done := l.done + [Transmission(l.kind, m.sent + [Fold(0, m.sent)], l.carried)])
  }

  lemma SendsFrame(l: Line)
    requires SendingPayload(l)
    ensures Run(l, IrqRun(l.bus.parserRemaining + 1)) == FrameSent(l)
  {
    var n := l.bus.parserRemaining;
    SendsPayload(l, n);
    OneMoreIrq(l, n);
  }

  // ---- A logon ----

  ghost predicate SendingLogonWords(l: Line) {
    Usable(l) && l.bus.de && l.bus.txIrq && l.bus.logonMode
  }

  function LogonSent(l: Line, k: nat): Line
    requires Usable(l) && k <= l.bus.txRemaining
  {
    l.(bus := l.bus.(txIndex := l.bus.txIndex + k, txRemaining := l.bus.txRemaining - k),
       sent := l.sent + l.bus.logonBuf[l.bus.txIndex..l.bus.txIndex + k])
  }

  lemma SendsOneMoreWord(l: Line, k: nat)
    requires SendingLogonWords(l) && k < l.bus.txRemaining
    ensures DoIrq(LogonSent(l, k)) == LogonSent(l, k + 1)
  {
    var i := l.bus.txIndex;
    var words := l.bus.logonBuf;
    assert words[i..i + k + 1] == words[i..i + k] + [words[i + k]];
    assert l.sent + words[i..i + k + 1] == l.sent + words[i..i + k] + [words[i + k]];
  }

  lemma {:induction false} SendsLogonWords(l: Line, k: nat)
    requires SendingLogonWords(l) && k <= l.bus.txRemaining
    ensures Run(l, IrqRun(k)) == LogonSent(l, k)
  {
    if k == 0 {
      assert l.sent + [] == l.sent;
    } else {
      SendsLogonWords(l, k - 1);
      OneMoreIrq(l, k - 1);
      SendsOneMoreWord(l, k - 1);
    }
  }

  /** The end of a logon resets the transmit ring to where the flush left the write index. */
  function LogonEnded(l: Line): Line
    requires Usable(l)
  {
    var m := LogonSent(l, l.bus.txRemaining);
    m.(bus := m.bus.(de := false, txIrq := false, logonMode := false, read := LOGON_RESERVED, ahead := 0),
       sent := [], carried := [], done := l.done + [Transmission(l.kind, m.sent, l.carried)])
  }

  lemma SendsLogon(l: Line)
    requires SendingLogonWords(l)
    ensures Run(l, IrqRun(l.bus.txRemaining + 1)) == LogonEnded(l)
  {
    var n := l.bus.txRemaining;
    SendsLogonWords(l, n);
    OneMoreIrq(l, n);
    assert LogonSent(l, n).sent + [] == LogonSent(l, n).sent;
  }

  // ---- Anything ----

  /** Interrupts neither change what kind of transmission goes on nor start another. */
  lemma {:induction false} IrqsKeepKind(l: Line, n: nat)
    requires Usable(l)
    ensures var r := Run(l, IrqRun(n));
      r.kind == l.kind && l.done <= r.done && forall i :: |l.done| <= i < |r.done| ==> r.done[i].kind == l.kind
  {
    if n > 0 {
      IrqsKeepKind(l, n - 1);
      OneMoreIrq(l, n - 1);
      IrqKeepsKind(Run(l, IrqRun(n - 1)));
    }
  }

  lemma IrqKeepsKind(l: Line)
    requires Usable(l)
    ensures var r := DoIrq(l);
      && r.kind == l.kind
      && (r.done == l.done || (|r.done| == |l.done| + 1 && l.done <= r.done && r.done[|l.done|].kind == l.kind))
  {
  }
}
