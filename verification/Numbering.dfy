/** Sequence numbers on both sides of the bus. */
module Numbering {
  import opened Bytes
  import opened Ring
  import opened Bus
  import opened Line
  import opened LineSafety

  /** The number of the `n`-th message of a session, as `bidib_get_tx_num` draws it. */
  function SequenceNumber(n: nat): byte {
    if n == 0 then 0 else NextNumber(SequenceNumber(n - 1))
  }

  lemma ByteSuccessor(k: nat)
    requires k < 255
    ensures ToByte(1 + k) != 0
    ensures NextNumber(ToByte(1 + k)) == ToByte(1 + if k == 254 then 0 else k + 1)
  {
  }

  /** Where in a round of 255 the `n`-th successor stands. */
  function Turn(n: nat): (k: nat)
    ensures k < 255
  {
    if n == 0 || Turn(n - 1) == 254 then 0 else Turn(n - 1) + 1
  }

  lemma NextRemainder(n: nat, k: nat)
    requires n % 255 == k
    ensures (n + 1) % 255 == if k == 254 then 0 else k + 1
  {
  }

  lemma {:induction false} TurnIsRemainder(n: nat)
    ensures Turn(n) == n % 255
  {
    if n > 0 {
      TurnIsRemainder(n - 1);
      NextRemainder(n - 1, Turn(n - 1));
    }
  }

  lemma {:induction false} SequenceTurns(n: nat)
    ensures SequenceNumber(n + 1) == ToByte(1 + Turn(n))
  {
    if n == 0 {
      FirstNumber(n);
    } else {
      SequenceTurns(n - 1);
      ByteSuccessor(Turn(n - 1));
    }
  }

  lemma FirstNumber(n: nat)
    requires n == 0
    ensures SequenceNumber(n + 1) == 1 == ToByte(1)
  {
    assert SequenceNumber(n) == 0;
  }

  /** 0 once, then 1 to 255 round and round. */
  lemma SequenceCycles(n: nat)
    ensures SequenceNumber(n + 1) == ToByte(1 + n % 255)
  {
    SequenceTurns(n);
    TurnIsRemainder(n);
  }

  function Sends(es: seq<Event>): nat {
    if es == [] then 0 else Sends(es[..|es| - 1]) + if es[|es| - 1].Send? then 1 else 0
  }

  lemma OnlySendDraws(s: State, e: Event)
    requires WellFormed(s) && !e.Ack?
    ensures Move(s, e).msgNum == if e.Send? then NextNumber(s.msgNum) else s.msgNum
  {
    match e
    case Send(msgType, data) =>
    case Hear(w, busFree) => HearLeaves(s, w, busFree);
    case Irq =>
    case Refuse =>
    case Timeout(image) =>
  }

  lemma DrawStep(s: State, e: Event, n: nat)
    requires WellFormed(s) && !e.Ack? && s.msgNum == SequenceNumber(n)
    ensures Move(s, e).msgNum == SequenceNumber(n + if e.Send? then 1 else 0)
  {
    OnlySendDraws(s, e);
  }

  /** From an acknowledgement to the next, the n-th message drawn gets the n-th sequence number. */
  lemma {:induction false} NumbersFollowDraws(s: State, es: seq<Event>)
    requires WellFormed(s) && s.msgNum == 0 && forall e :: e in es ==> !e.Ack?
    ensures After(s, es).msgNum == SequenceNumber(Sends(es))
  {
    if es != [] {
      var n := |es| - 1;
      NumbersFollowDraws(s, es[..n]);
      DrawStep(After(s, es[..n]), es[n], Sends(es[..n]));
    }
  }

  /** Every message of the run finds the node connected and room in the FIFO. */
  ghost predicate NothingRefused(l: Line, es: seq<Event>)
    requires Usable(l)
  {
    es != [] ==>
      && NothingRefused(l, es[..|es| - 1])
      && (es[|es| - 1].Send? ==>
            var s := Run(l, es[..|es| - 1]).bus;
            s.connect == Connected && s.ahead + 4 + |es[|es| - 1].data| <= RING_SIZE)
  }

  ghost predicate NumberedFrom(kept: seq<seq<byte>>, start: nat) {
    start <= |kept| && forall i :: start <= i < |kept| ==> |kept[i]| >= 4 && kept[i][2] == SequenceNumber(i - start)
  }

  lemma SendAppends(l: Line, msgType: byte, data: seq<byte>)
    requires Usable(l) && |data| <= 251 && l.bus.connect == Connected && l.bus.ahead + 4 + |data| <= RING_SIZE
    ensures DoSend(l, msgType, data).kept == l.kept + [Message(l.bus.msgNum, msgType, data)]
  {
  }

  lemma OthersKeep(l: Line, e: Event)
    requires Usable(l) && !e.Send? && !e.Timeout?
    ensures Next(l, e).kept == l.kept
  {
    match e
    case Hear(w, busFree) =>
    case Irq =>
    case Ack(granted) =>
    case Refuse =>
  }

  ghost predicate Consecutive(l: Line, es: seq<Event>)
    requires Usable(l)
  {
    NumberedFrom(Run(l, es).kept, |l.kept|) && |Run(l, es).kept| == |l.kept| + Sends(es)
  }

  lemma AppendNumbered(kept: seq<seq<byte>>, start: nat, m: seq<byte>)
    requires NumberedFrom(kept, start) && |m| >= 4 && m[2] == SequenceNumber(|kept| - start)
    ensures NumberedFrom(kept + [m], start)
  {
  }

  lemma OneSendConsecutive(l: Line, r: Line, start: nat, drawn: nat, msgType: byte, data: seq<byte>)
    requires Usable(r) && NumberedFrom(r.kept, start) && |r.kept| == start + drawn
    requires r.bus.msgNum == SequenceNumber(drawn) && |data| <= 251
    requires r.bus.connect == Connected && r.bus.ahead + 4 + |data| <= RING_SIZE
    ensures NumberedFrom(DoSend(r, msgType, data).kept, start)
    ensures |DoSend(r, msgType, data).kept| == start + drawn + 1
  {
    SendAppends(r, msgType, data);
    AppendNumbered(r.kept, start, Message(r.bus.msgNum, msgType, data));
  }

  lemma OneMoreConsecutive(l: Line, r: Line, drawn: nat, e: Event)
    requires Usable(r) && NumberedFrom(r.kept, |l.kept|) && |r.kept| == |l.kept| + drawn
    requires r.bus.msgNum == SequenceNumber(drawn) && !e.Timeout?
    requires e.Send? ==> r.bus.connect == Connected && r.bus.ahead + 4 + |e.data| <= RING_SIZE
    ensures NumberedFrom(Next(r, e).kept, |l.kept|)
    ensures |Next(r, e).kept| == |l.kept| + drawn + if e.Send? then 1 else 0
  {
    if e.Send? {
      OneSendConsecutive(l, r, |l.kept|, drawn, e.msgType, e.data);
    } else {
      OthersKeep(r, e);
    }
  }

  /** As long as no message is refused, the accepted messages are numbered consecutively. */
  lemma {:induction false} AcceptedAreConsecutive(l: Line, es: seq<Event>)
    requires Usable(l) && l.bus.msgNum == 0 && NothingRefused(l, es)
    requires forall e :: e in es ==> !e.Ack? && !e.Timeout?
    ensures Consecutive(l, es)
  {
    if es != [] {
      var n := |es| - 1;
      AcceptedAreConsecutive(l, es[..n]);
      NumbersFollowDraws(l.bus, es[..n]);
      RunMovesBus(l, es[..n]);
      OneMoreConsecutive(l, Run(l, es[..n]), Sends(es[..n]), es[n]);
    }
  }

  /** And so are the messages of the frames that went out, as long as the guards of the run theorem hold. */
  lemma DeliveredAreConsecutive(l: Line, es: seq<Event>)
    requires Usable(l) && Inv(l) && Guarded(l, es) && l.bus.msgNum == 0 && NothingRefused(l, es)
    requires forall e :: e in es ==> !e.Ack? && !e.Timeout?
    ensures DeliveredInSequence(l, Run(l, es))
  {
    AcceptedAreConsecutive(l, es);
    RunKeepsRecord(l, es);
    DeliveredOf(l, Run(l, es));
  }

  lemma DeliveredOf(l: Line, r: Line)
    requires NumberedFrom(r.kept, |l.kept|) && r.kept == Delivered(r.done) + r.carried + r.queued
    ensures DeliveredInSequence(l, r)
  {
    PrefixNumbered(r.kept, Delivered(r.done), r.carried, r.queued, |l.kept|);
  }

  /** The messages delivered between `l` and `r` are numbered from 0. */
  ghost predicate DeliveredInSequence(l: Line, r: Line) {
    var d := Delivered(r.done);
    forall i :: |l.kept| <= i < |d| ==> |d[i]| >= 4 && d[i][2] == SequenceNumber(i - |l.kept|)
  }

  lemma PrefixNumbered(kept: seq<seq<byte>>, d: seq<seq<byte>>, c: seq<seq<byte>>, q: seq<seq<byte>>, start: nat)
    requires kept == d + c + q && NumberedFrom(kept, start)
    ensures forall i :: start <= i < |d| ==> |d[i]| >= 4 && d[i][2] == SequenceNumber(i - start)
  {
    forall i | start <= i < |d| ensures |d[i]| >= 4 && d[i][2] == SequenceNumber(i - start) {
      assert kept[i] == d[i];
    }
  }

  // ---- The receiver ----

  /** `bidib_rx_msg_num` after messages with the given numbers were processed: a mismatch resynchronises to the
      message. */
  function Expected(numbers: seq<byte>): byte {
    if numbers == [] then 0 else NextNumber(numbers[|numbers| - 1])
  }

  ghost predicate NeverResyncs(numbers: seq<byte>) {
    forall i :: 0 <= i < |numbers| ==> numbers[i] == Expected(numbers[..i])
  }

  ghost predicate InSequence(numbers: seq<byte>) {
    forall i :: 0 <= i < |numbers| ==> numbers[i] == SequenceNumber(i)
  }

  lemma ResyncsLast(numbers: seq<byte>)
    requires numbers != []
    ensures NeverResyncs(numbers) <==>
      NeverResyncs(numbers[..|numbers| - 1]) && numbers[|numbers| - 1] == Expected(numbers[..|numbers| - 1])
  {
    var p := numbers[..|numbers| - 1];
    assert forall i :: 0 <= i < |p| ==> p[..i] == numbers[..i];
  }

  lemma SequenceLast(numbers: seq<byte>)
    requires numbers != []
    ensures InSequence(numbers) <==>
      InSequence(numbers[..|numbers| - 1]) && numbers[|numbers| - 1] == SequenceNumber(|numbers| - 1)
  {
  }

  /** The receiver never has to resynchronise exactly when the numbers are those of the sender's sequence. */
  lemma {:induction false} InStepExactly(numbers: seq<byte>)
    ensures NeverResyncs(numbers) <==> InSequence(numbers)
  {
    if numbers != [] {
      var p := numbers[..|numbers| - 1];
      InStepExactly(p);
      ResyncsLast(numbers);
      SequenceLast(numbers);
      if InSequence(p) {
        assert Expected(p) == SequenceNumber(|p|);
      }
    }
  }
}
