/** What `process_bidib_message` makes of one message, as far as the connection is concerned. */
module Dispatch {
  import opened Bytes
  import B = Bus
  import Rx = Assembler
  import N = Numbering
  import R = Reception
  import opened Crc8

  const ADDRESS_BITS: byte := 0x3F
  const MSG_LOCAL_LOGON_ACK: byte := 0x70
  const MSG_LOGON_REJECTED: byte := 0x72

  /** Bytes behind a message's size byte that dispatching may look at. */
  const REACH: nat := 20

  /** The bus globals and the expected sequence number. */
  datatype Control = Control(bus: B.State, rxNum: byte)

  /** Where the address stack of a message to this node ends: behind the terminator or the fourth level. */
  function StackEnd(view: seq<byte>, i: nat, depth: nat): (e: nat)
    requires depth <= 4 && i + 5 - depth <= |view|
    ensures i < e <= i + 5 - depth
    decreases 4 - depth
  {
    if depth < 4 && view[i] != 0 then StackEnd(view, i + 1, depth + 1) else i + 1
  }

  /** Index of the message type, if the message is a broadcast or for this node, and the number it carries in the
      latter case. */
  datatype Header = NotForUs | Broadcast(typeAt: nat) | Addressed(typeAt: nat, number: byte)

  function ReadHeader(view: seq<byte>, addr: byte): (h: Header)
    requires |view| >= REACH
    ensures !h.NotForUs? ==> h.typeAt <= 7
  {
    if view[1] == 0 then Broadcast(3)
    else if view[1] == addr & ADDRESS_BITS then
      var numberAt := StackEnd(view, 1, 0);
      Addressed(numberAt + 1, view[numberAt])
    else NotForUs
  }

  /** The cases of the message switch that change the connection. Replies are Send steps of the bus. */
  function Act(c: Control, view: seq<byte>, typeAt: nat): (r: Control)
    requires B.WellFormed(c.bus) && |view| >= REACH && typeAt <= 7
    ensures B.WellFormed(r.bus)
  {
    if view[typeAt] == MSG_LOCAL_LOGON_ACK && view[typeAt + 2..typeAt + 9] == B.UNIQUE_ID then
      Control(B.Acknowledge(c.bus, view[typeAt + 1]), 0)
    else if view[typeAt] == MSG_LOGON_REJECTED && view[typeAt + 1..typeAt + 8] == B.UNIQUE_ID then
      c.(bus := B.Reject(c.bus))
    else c
  }

  /** `process_bidib_message` on a message with a legal size byte. */
  function Process(c: Control, view: seq<byte>): (r: Control)
    requires B.WellFormed(c.bus) && |view| >= REACH
    ensures B.WellFormed(r.bus)
  {
    match ReadHeader(view, c.bus.addr)
    case NotForUs => c
    case Broadcast(typeAt) => Act(c, view, typeAt)
    case Addressed(typeAt, number) => Act(c.(rxNum := B.NextNumber(number)), view, typeAt)
  }

  /** The effect of `bidib_parser` from index `i` on; `behind` is the memory that follows the packet array. */
  function ProcessFrom(c: Control, paket: seq<byte>, behind: seq<byte>, i: nat, total: nat): (r: Control)
    requires B.WellFormed(c.bus) && |paket| == Rx.PAKET_SIZE && |behind| >= REACH
    ensures B.WellFormed(r.bus)
    decreases total - i
  {
    if i >= total || i >= Rx.PAKET_SIZE then c
    else
      var length := paket[i] as nat;
      if length == 0 || length >= 128 then c
      else
        var d := Process(c, paket[i..] + behind);
        if length == 127 then d else ProcessFrom(d, paket, behind, i + length + 1, total)
  }

  /** The connection after one more word: a complete packet with residue zero is processed. */
  function TakenBy(s: Rx.State, c: Control, w: Word, behind: seq<byte>): (r: Control)
    requires Rx.WellFormed(s) && B.WellFormed(c.bus) && |behind| >= REACH
    ensures B.WellFormed(r.bus)
  {
    var (t, complete) := Rx.Take(s, w);
    if complete then ProcessFrom(c, t.paket, behind, 1, t.paket[0] as nat) else c
  }

  /** The connection after a stream of words. */
  function Driven(a: Rx.State, c: Control, ws: seq<Word>, behind: seq<byte>): (r: Control)
    requires Rx.WellFormed(a) && B.WellFormed(c.bus) && |behind| >= REACH
    ensures B.WellFormed(r.bus)
  {
    if ws == [] then c
    else
      var n := |ws| - 1;
      TakenBy(Rx.Feed(a, ws[..n]).asm, Driven(a, c, ws[..n], behind), ws[n], behind)
  }

  /** A receiver that differs only in what does not matter between frames takes the next word alike. */
  lemma TakesNext(a: Rx.State, c: Control, s: Rx.State, q: seq<Word>, k: nat, behind: seq<byte>)
    requires Rx.WellFormed(a) && B.WellFormed(c.bus) && |behind| >= REACH && k < |q|
    requires Rx.Alike(s, Rx.Feed(a, q[..k]).asm)
    ensures Rx.Alike(Rx.Take(s, q[k]).0, Rx.Feed(a, q[..k + 1]).asm)
    ensures Rx.Feed(a, q[..k + 1]).msgs
         == Rx.Feed(a, q[..k]).msgs + if Rx.Take(s, q[k]).1 then Rx.Parse(Rx.Take(s, q[k]).0.paket).msgs else []
    ensures Driven(a, c, q[..k + 1], behind) == TakenBy(s, Driven(a, c, q[..k], behind), q[k], behind)
  {
    Rx.AlikeTake(s, Rx.Feed(a, q[..k]).asm, q[k]);
    Rx.FeedSnoc(a, q[..k], q[k]);
    assert q[..k + 1] == q[..k] + [q[k]];
    assert q[..k + 1][..k] == q[..k];
  }

  /** The message that assigns `granted` to this node. */
  function LogonAck(granted: byte): seq<byte> {
    [0x0B, 0x00, 0x00, MSG_LOCAL_LOGON_ACK, granted] + B.UNIQUE_ID
  }

  /** The interface's answer to our logon connects the node with the granted address and restarts both sequence
      counters. */
  lemma LogonAckConnects(c: Control, granted: byte, behind: seq<byte>)
    requires B.WellFormed(c.bus) && |behind| >= REACH
    ensures Process(c, LogonAck(granted) + behind) == Control(B.Acknowledge(c.bus, granted), 0)
    ensures Process(c, LogonAck(granted) + behind).bus == B.Move(c.bus, B.Ack(granted))
  {
    var view := LogonAck(granted) + behind;
    assert view[5..12] == B.UNIQUE_ID;
  }

  /** The message that refuses this node. */
  function Refusal(): seq<byte> {
    [0x0A, 0x00, 0x00, MSG_LOGON_REJECTED] + B.UNIQUE_ID
  }

  /** It takes the Refuse step: a node without an address, which stays off the bus. */
  lemma RefusalRefuses(c: Control, behind: seq<byte>)
    requires B.WellFormed(c.bus) && |behind| >= REACH
    ensures Process(c, Refusal() + behind) == c.(bus := B.Move(c.bus, B.Refuse))
  {
    var view := Refusal() + behind;
    assert view[4..11] == B.UNIQUE_ID;
  }

  /** The two messages, byte by byte. */
  lemma AnswerBytes(granted: byte)
    ensures LogonAck(granted) == [0x0B, 0x00, 0x00, 0x70, granted, 0x00, 0x01, 0x0D, 0xBA, 0xF1, 0xB6, 0xBC]
    ensures Refusal() == [0x0A, 0x00, 0x00, 0x72, 0x00, 0x01, 0x0D, 0xBA, 0xF1, 0xB6, 0xBC]
  {
  }

  /** A broadcast changes nothing here unless it is one of the two answers and names this node's unique id. */
  lemma BroadcastExactly(c: Control, view: seq<byte>)
    requires B.WellFormed(c.bus) && |view| >= REACH && view[1] == 0
    ensures Process(c, view) ==
      if view[3] == 0x70 && view[5..12] == B.UNIQUE_ID then Control(B.Move(c.bus, B.Ack(view[4])), 0)
      else if view[3] == 0x72 && view[4..11] == B.UNIQUE_ID then c.(bus := B.Move(c.bus, B.Refuse))
      else c
  {
  }

  /** A message for another node changes nothing. */
  lemma OtherNodesIgnored(c: Control, view: seq<byte>)
    requires B.WellFormed(c.bus) && |view| >= REACH && view[1] != 0 && view[1] != c.bus.addr & 0x3F
    ensures Process(c, view) == c
  {
  }

  /** A node granted address g, 1 to 63, takes exactly the messages with address byte g for its own. */
  lemma OwnAddressExactly(s: B.State, granted: byte, view: seq<byte>)
    requires B.WellFormed(s) && s.connect != B.Connected && 1 <= granted <= 63 && |view| >= REACH
    ensures ReadHeader(view, B.Move(s, B.Ack(granted)).addr).Addressed? <==> view[1] == granted
  {
    SixBits(granted);
  }

  lemma SixBits(granted: byte)
    requires 1 <= granted <= 63
    ensures (granted | B.ParityBit(granted)) & 0x3F == granted
  {
  }

  // ---- Frames ----

  /** What dispatching looks at of message `k`: the message, and the memory behind it. */
  ghost predicate ViewOf(view: seq<byte>, m: seq<byte>) {
    |view| >= REACH && |m| <= |view| && view[..|m|] == m
  }

  /** The same of a list of messages. */
  ghost predicate ViewsOf(views: seq<seq<byte>>, ms: seq<seq<byte>>) {
    && |views| == |ms| && (forall v :: v in views ==> |v| >= REACH)
    && forall j :: 0 <= j < |ms| ==> ViewOf(views[j], ms[j])
  }

  lemma ViewsGrow(c: Control, view: seq<byte>, rest: seq<seq<byte>>, ms: seq<seq<byte>>, k: nat)
    returns (views: seq<seq<byte>>)
    requires B.WellFormed(c.bus) && k < |ms| && ViewOf(view, ms[k]) && ViewsOf(rest, ms[k + 1..])
    ensures ViewsOf(views, ms[k..])
    ensures ProcessEach(c, views) == ProcessEach(Process(c, view), rest)
  {
    views := [view] + rest;
    HeadAndRest(ms, k);
    FirstThenRest(c, view, rest);
  }

  lemma ViewInPaket(paket: seq<byte>, behind: seq<byte>, i: nat, m: seq<byte>)
    requires |paket| == Rx.PAKET_SIZE && |behind| >= REACH && i + |m| <= Rx.PAKET_SIZE && paket[i..i + |m|] == m
    ensures ViewOf(paket[i..] + behind, m)
  {
    assert (paket[i..] + behind)[..|m|] == paket[i..i + |m|];
  }

  /** The packet's messages are processed one after the other. */
  lemma {:induction false} PacketProcesses(c: Control, paket: seq<byte>, behind: seq<byte>, ms: seq<seq<byte>>, k: nat)
    returns (views: seq<seq<byte>>)
    requires B.WellFormed(c.bus) && |behind| >= REACH && R.Holds(paket, ms) && R.AllSized(ms) && k <= |ms|
    ensures ViewsOf(views, ms[k..])
    ensures ProcessedFrom(c, paket, behind, ms, k) == ProcessEach(c, views)
    decreases |ms| - k
  {
    if k == |ms| {
      NothingLeft(c, paket, behind, ms);
      views := [];
    } else {
      var view := FirstOfRest(c, paket, behind, ms, k);
      var rest := PacketProcesses(Process(c, view), paket, behind, ms, k + 1);
      views := ViewsGrow(c, view, rest, ms, k);
    }
  }

  /** The effect of the messages from number `k` on. */
  function ProcessedFrom(c: Control, paket: seq<byte>, behind: seq<byte>, ms: seq<seq<byte>>, k: nat): Control
    requires B.WellFormed(c.bus) && |behind| >= REACH && R.Holds(paket, ms) && k <= |ms|
  {
    ProcessFrom(c, paket, behind, 1 + |Flatten(ms[..k])|, paket[0] as nat)
  }

  lemma NothingLeft(c: Control, paket: seq<byte>, behind: seq<byte>, ms: seq<seq<byte>>)
    requires B.WellFormed(c.bus) && |behind| >= REACH && R.Holds(paket, ms)
    ensures ProcessedFrom(c, paket, behind, ms, |ms|) == c
  {
    assert ms[..|ms|] == ms;
  }

  lemma FirstOfRest(c: Control, paket: seq<byte>, behind: seq<byte>, ms: seq<seq<byte>>, k: nat)
    returns (view: seq<byte>)
    requires B.WellFormed(c.bus) && |behind| >= REACH && R.Holds(paket, ms) && R.AllSized(ms) && k < |ms|
    ensures ViewOf(view, ms[k])
    ensures ProcessedFrom(c, paket, behind, ms, k) == ProcessedFrom(Process(c, view), paket, behind, ms, k + 1)
  {
    R.MessageInPaket(paket, ms, k);
    var i, m := 1 + |Flatten(ms[..k])|, ms[k];
    assert m in ms && R.Sized(m);
    assert paket[i] == paket[i..i + |m|][0];
    view := paket[i..] + behind;
    ViewInPaket(paket, behind, i, m);
    OneOfPacket(c, paket, behind, i, paket[0] as nat, m);
  }

  lemma {:induction false} OneOfPacket(c: Control, paket: seq<byte>, behind: seq<byte>, i: nat, total: nat,
                                       m: seq<byte>)
    requires B.WellFormed(c.bus) && |paket| == Rx.PAKET_SIZE && |behind| >= REACH && R.Sized(m)
    requires i + |m| <= Rx.PAKET_SIZE && i < total && paket[i] == m[0]
    ensures ProcessFrom(c, paket, behind, i, total)
         == ProcessFrom(Process(c, paket[i..] + behind), paket, behind, i + |m|, total)
  {
  }

  /** Processing message by message, from the first on. */
  function ProcessEach(c: Control, views: seq<seq<byte>>): (r: Control)
    requires B.WellFormed(c.bus) && forall v :: v in views ==> |v| >= REACH
    ensures B.WellFormed(r.bus)
    decreases |views|
  {
    if views == [] then c else ProcessEach(Process(c, views[0]), views[1..])
  }

  lemma FirstThenRest(c: Control, view: seq<byte>, rest: seq<seq<byte>>)
    requires B.WellFormed(c.bus) && |view| >= REACH && forall v :: v in rest ==> |v| >= REACH
    ensures ProcessEach(c, [view] + rest) == ProcessEach(Process(c, view), rest)
  {
    assert ([view] + rest)[1..] == rest;
  }

  lemma {:induction false} DrivenConcat(a: Rx.State, c: Control, v: seq<Word>, w: Word, behind: seq<byte>)
    requires Rx.WellFormed(a) && B.WellFormed(c.bus) && |behind| >= REACH
    ensures Driven(a, c, v + [w], behind) == TakenBy(Rx.Feed(a, v).asm, Driven(a, c, v, behind), w, behind)
  {
    assert (v + [w])[..|v|] == v;
  }

  lemma {:induction false} PrefixDrivesNothing(a: Rx.State, c: Control, f: seq<byte>, k: nat, behind: seq<byte>)
    requires Rx.WellFormed(a) && a.phase == Rx.Idle && B.WellFormed(c.bus) && |behind| >= REACH
    requires R.FrameShaped(f) && k < |f|
    ensures Driven(a, c, R.Behind(f[..k]), behind) == c
  {
    if k == 0 {
      assert R.Behind(f[..0]) == [] + [R.START_WORD];
      DrivenConcat(a, c, [], R.START_WORD, behind);
    } else {
      PrefixDrivesNothing(a, c, f, k - 1, behind);
      R.BehindSnoc(f, k - 1);
      DrivenConcat(a, c, R.Behind(f[..k - 1]), Word(f[k - 1], false), behind);
      NotYetComplete(a, f, k - 1);
    }
  }

  lemma NotYetComplete(a: Rx.State, f: seq<byte>, k: nat)
    requires Rx.WellFormed(a) && a.phase == Rx.Idle && R.FrameShaped(f) && k + 1 < |f|
    ensures !Rx.Take(Rx.Feed(a, R.Behind(f[..k])).asm, Word(f[k], false)).1
  {
    if k == 0 {
      StartThenLength(a);
    } else {
      R.CollectsPrefix(a, f, k);
      R.TakesData(Rx.Feed(a, R.Behind(f[..k])).asm, f[k]);
    }
  }

  lemma StartThenLength(a: Rx.State)
    requires Rx.WellFormed(a) && a.phase == Rx.Idle
    ensures Rx.Feed(a, R.Behind([])).asm.phase == Rx.GetLen
  {
    Rx.FeedSnoc(a, [], R.START_WORD);
    assert R.Behind([]) == [] + [R.START_WORD];
  }

  lemma FrameDrives(a: Rx.State, c: Control, f: seq<byte>, behind: seq<byte>)
    requires Rx.WellFormed(a) && a.phase == Rx.Idle && B.WellFormed(c.bus) && |behind| >= REACH
    requires R.FrameShaped(f) && Fold(0, f) == 0
    ensures var paket := Rx.Feed(a, R.Behind(f)).asm.paket;
      Driven(a, c, R.Behind(f), behind) == ProcessFrom(c, paket, behind, 1, paket[0] as nat)
  {
    var v, w := LastOfFrame(a, c, f, behind);
    LastWordDrives(a, c, R.Behind(f), v, w, behind);
  }

  lemma LastOfFrame(a: Rx.State, c: Control, f: seq<byte>, behind: seq<byte>) returns (v: seq<Word>, w: Word)
    requires Rx.WellFormed(a) && a.phase == Rx.Idle && B.WellFormed(c.bus) && |behind| >= REACH
    requires R.FrameShaped(f) && Fold(0, f) == 0
    ensures R.Behind(f) == v + [w] && Rx.Take(Rx.Feed(a, v).asm, w).1 && Driven(a, c, v, behind) == c
  {
    var k := |f| - 1;
    PrefixDrivesNothing(a, c, f, k, behind);
    v, w := R.Behind(f[..k]), Word(f[k], false);
    R.BehindSnoc(f, k);
    assert f[..k + 1] == f;
    R.CollectsPrefix(a, f, k);
    R.CloseFrame(Rx.Feed(a, v).asm, f);
  }

  lemma LastWordDrives(a: Rx.State, c: Control, ws: seq<Word>, v: seq<Word>, w: Word, behind: seq<byte>)
    requires Rx.WellFormed(a) && B.WellFormed(c.bus) && |behind| >= REACH
    requires Driven(a, c, v, behind) == c && Rx.Take(Rx.Feed(a, v).asm, w).1 && ws == v + [w]
    ensures var paket := Rx.Feed(a, ws).asm.paket;
      Driven(a, c, ws, behind) == ProcessFrom(c, paket, behind, 1, paket[0] as nat)
  {
    DrivenConcat(a, c, v, w, behind);
    Rx.FeedSnoc(a, v, w);
  }

  /** A frame of messages that reaches an idle receiver is processed message by message, each seen with its own bytes in
      front. */
  lemma FrameIsProcessed(a: Rx.State, c: Control, ms: seq<seq<byte>>, behind: seq<byte>) returns (views: seq<seq<byte>>)
    requires Rx.WellFormed(a) && a.phase == Rx.Idle && B.WellFormed(c.bus) && |behind| >= REACH
    requires R.AllSized(ms) && 1 <= |Flatten(ms)| < Rx.PAKET_SIZE
    ensures ViewsOf(views, ms)
    ensures Driven(a, c, R.Behind(B.Frame(Flatten(ms))), behind) == ProcessEach(c, views)
  {
    var f := B.Frame(Flatten(ms));
    R.FrameIsShaped(Flatten(ms));
    R.FrameChecked(a, f);
    var paket := Rx.Feed(a, R.Behind(f)).asm.paket;
    R.CapturedHolds(paket, ms);
    FrameDrives(a, c, f, behind);
    views := PacketProcesses(c, paket, behind, ms, 0);
    assert ms[..0] == [] && ms[0..] == ms;
  }

  /** The interface's acknowledgement, received as a frame word by word, is the Ack step of the bus. */
  lemma LogonCompletes(a: Rx.State, c: Control, granted: byte, behind: seq<byte>)
    requires Rx.WellFormed(a) && a.phase == Rx.Idle && B.WellFormed(c.bus) && |behind| >= REACH
    ensures Driven(a, c, R.Behind(B.Frame(LogonAck(granted))), behind) == Control(B.Move(c.bus, B.Ack(granted)), 0)
  {
    var m := LogonAck(granted);
    FlattenSnoc([], m);
    assert [] + [m] == [m] && Flatten([m]) == m;
    var views := FrameIsProcessed(a, c, [m], behind);
    assert views[1..] == [];
    AckSeen(c, granted, views[0]);
  }

  lemma AckSeen(c: Control, granted: byte, view: seq<byte>)
    requires B.WellFormed(c.bus) && ViewOf(view, LogonAck(granted))
    ensures Process(c, view) == Control(B.Move(c.bus, B.Ack(granted)), 0)
  {
    var rest := view[12..];
    assert view == LogonAck(granted) + rest;
    assert view[5..12] == B.UNIQUE_ID;
  }

  // ---- Address stacks ----

  /** A message to this node behind an address stack of `depth` levels, closed by 0 unless it is full. */
  ghost predicate StackOf(view: seq<byte>, addr: byte, depth: nat) {
    && |view| >= REACH && 1 <= depth <= 4 && view[1] == addr & ADDRESS_BITS
    && (forall i :: 1 <= i <= depth ==> view[i] != 0) && (depth < 4 ==> view[depth + 1] == 0)
  }

  lemma StackEndIs(view: seq<byte>, addr: byte, depth: nat, d: nat)
    requires StackOf(view, addr, depth) && d <= depth
    ensures StackEnd(view, 1 + d, d) == depth + 2
    decreases depth - d
  {
    if d < depth {
      StackEndIs(view, addr, depth, d + 1);
    }
  }

  /** Its number lies behind the stack, its type behind the number. */
  lemma AddressedHeader(view: seq<byte>, addr: byte, depth: nat)
    requires StackOf(view, addr, depth)
    ensures ReadHeader(view, addr) == Addressed(depth + 3, view[depth + 2])
  {
    StackEndIs(view, addr, depth, 0);
  }

  ghost predicate NamesUs(view: seq<byte>, typeAt: nat)
    requires |view| >= REACH && typeAt <= 7
  {
    view[typeAt] == MSG_LOCAL_LOGON_ACK && view[typeAt + 2..typeAt + 9] == B.UNIQUE_ID
  }

  /** Any message to this node, in step or not, makes the successor of its number expected, which is never 0; only the
      acknowledgement of our logon restarts the count. */
  lemma AcceptedNumberAdvances(c: Control, view: seq<byte>, depth: nat)
    requires B.WellFormed(c.bus) && StackOf(view, c.bus.addr, depth)
    ensures Process(c, view).rxNum == if NamesUs(view, depth + 3) then 0 else B.NextNumber(view[depth + 2])
    ensures B.NextNumber(view[depth + 2]) != 0
  {
    AddressedHeader(view, c.bus.addr, depth);
  }

  // ---- Sequences of messages ----

  /** Neither of the two answers to a logon. */
  ghost predicate Plain(view: seq<byte>, addr: byte) {
    && |view| >= REACH
    && var h := ReadHeader(view, addr);
       h.NotForUs? || view[h.typeAt] !in {MSG_LOCAL_LOGON_ACK, MSG_LOGON_REJECTED}
  }

  ghost predicate AllPlain(views: seq<seq<byte>>, addr: byte) {
    forall v :: v in views ==> Plain(v, addr)
  }

  function ProcessAll(c: Control, views: seq<seq<byte>>): (r: Control)
    requires B.WellFormed(c.bus) && forall v :: v in views ==> |v| >= REACH
    ensures B.WellFormed(r.bus)
  {
    if views == [] then c else Process(ProcessAll(c, views[..|views| - 1]), views[|views| - 1])
  }

  /** The numbers of the messages to this node. */
  function Numbers(addr: byte, views: seq<seq<byte>>): seq<byte>
    requires forall v :: v in views ==> |v| >= REACH
  {
    if views == [] then []
    else
      Numbers(addr, views[..|views| - 1]) +
      match ReadHeader(views[|views| - 1], addr)
      case Addressed(_, number) => [number]
      case _ => []
  }

  /** No message is found out of step. */
  ghost predicate InStep(c: Control, views: seq<seq<byte>>)
    requires B.WellFormed(c.bus) && forall v :: v in views ==> |v| >= REACH
  {
    views != [] ==>
      var p := views[..|views| - 1];
      InStep(c, p) &&
      match ReadHeader(views[|views| - 1], c.bus.addr)
      case Addressed(_, number) => number == ProcessAll(c, p).rxNum
      case _ => true
  }

  lemma PlainKeepsBus(c: Control, view: seq<byte>)
    requires B.WellFormed(c.bus) && Plain(view, c.bus.addr)
    ensures Process(c, view) ==
      match ReadHeader(view, c.bus.addr)
      case Addressed(_, number) => c.(rxNum := B.NextNumber(number))
      case _ => c
  {
  }

  /** The dispatcher's counter is the expected number of the sequence heard. */
  lemma {:induction false} CounterIsExpected(c: Control, views: seq<seq<byte>>)
    requires B.WellFormed(c.bus) && c.rxNum == 0 && AllPlain(views, c.bus.addr)
    ensures ProcessAll(c, views) == c.(rxNum := N.Expected(Numbers(c.bus.addr, views)))
  {
    if views != [] {
      var p, v := views[..|views| - 1], views[|views| - 1];
      CounterIsExpected(c, p);
      assert v in views;
      PlainKeepsBus(ProcessAll(c, p), v);
      assert Numbers(c.bus.addr, p) + [] == Numbers(c.bus.addr, p);
    }
  }

  lemma NeverResyncsSnoc(numbers: seq<byte>, n: byte)
    ensures N.NeverResyncs(numbers + [n]) <==> N.NeverResyncs(numbers) && n == N.Expected(numbers)
  {
    N.ResyncsLast(numbers + [n]);
    assert (numbers + [n])[..|numbers|] == numbers;
  }

  lemma LastInStep(c: Control, p: seq<seq<byte>>, v: seq<byte>, counter: byte)
    requires B.WellFormed(c.bus) && Plain(v, c.bus.addr) && forall u :: u in p ==> |u| >= REACH
    requires counter == N.Expected(Numbers(c.bus.addr, p))
    requires InStep(c, p) <==> N.NeverResyncs(Numbers(c.bus.addr, p))
    requires ProcessAll(c, p).rxNum == counter
    ensures InStep(c, p + [v]) <==> N.NeverResyncs(Numbers(c.bus.addr, p + [v]))
  {
    var before := Numbers(c.bus.addr, p);
    assert (p + [v])[..|p|] == p;
    match ReadHeader(v, c.bus.addr)
    case Addressed(_, number) => NeverResyncsSnoc(before, number);
    case NotForUs => assert before + [] == before;
    case Broadcast(_) => assert before + [] == before;
  }

  lemma {:induction false} InStepIsNoResync(c: Control, views: seq<seq<byte>>)
    requires B.WellFormed(c.bus) && c.rxNum == 0 && AllPlain(views, c.bus.addr)
    ensures InStep(c, views) <==> N.NeverResyncs(Numbers(c.bus.addr, views))
  {
    if views != [] {
      var p, v := views[..|views| - 1], views[|views| - 1];
      assert v in views && forall u :: u in p ==> u in views;
      InStepIsNoResync(c, p);
      CounterIsExpected(c, p);
      LastInStep(c, p, v, ProcessAll(c, p).rxNum);
      assert views == p + [v];
    }
  }

  /** From a fresh connection on, the receiver finds every message to this node in step exactly when their numbers are
      those of the sender's sequence, whatever other messages lie between them. */
  lemma InStepExactly(c: Control, views: seq<seq<byte>>)
    requires B.WellFormed(c.bus) && c.rxNum == 0 && AllPlain(views, c.bus.addr)
    ensures InStep(c, views) <==> N.InSequence(Numbers(c.bus.addr, views))
  {
    InStepIsNoResync(c, views);
    N.InStepExactly(Numbers(c.bus.addr, views));
  }

  // ---- Dispatching as steps of the bus ----

  ghost predicate Answers(es: seq<B.Event>) {
    forall e :: e in es ==> e.Ack? || e.Refuse?
  }

  /** What a piece of dispatching does to the bus is a run of acknowledgements and refusals. */
  ghost predicate RunsTo(s: B.State, es: seq<B.Event>, r: B.State)
    requires B.WellFormed(s)
  {
    Answers(es) && B.After(s, es) == r
  }

  lemma NoStep(s: B.State)
    requires B.WellFormed(s)
    ensures RunsTo(s, [], s)
  {
  }

  lemma OneStep(s: B.State, e: B.Event)
    requires B.WellFormed(s) && (e.Ack? || e.Refuse?)
    ensures RunsTo(s, [e], B.Move(s, e))
  {
    assert [e][..0] == [];
  }

  lemma Joined(s: B.State, a: seq<B.Event>, m: B.State, b: seq<B.Event>, r: B.State)
    requires B.WellFormed(s) && B.WellFormed(m) && RunsTo(s, a, m) && RunsTo(m, b, r)
    ensures RunsTo(s, a + b, r)
  {
    B.AfterConcat(s, a, b);
  }

  lemma ProcessIsRun(c: Control, view: seq<byte>) returns (es: seq<B.Event>)
    requires B.WellFormed(c.bus) && |view| >= REACH
    ensures RunsTo(c.bus, es, Process(c, view).bus)
  {
    var h := ReadHeader(view, c.bus.addr);
    if !h.NotForUs? && NamesUs(view, h.typeAt) {
      OneStep(c.bus, B.Ack(view[h.typeAt + 1]));
      es := [B.Ack(view[h.typeAt + 1])];
    } else if !h.NotForUs? && view[h.typeAt] == MSG_LOGON_REJECTED && view[h.typeAt + 1..h.typeAt + 8] == B.UNIQUE_ID {
      OneStep(c.bus, B.Refuse);
      es := [B.Refuse];
    } else {
      NoStep(c.bus);
      es := [];
    }
  }

  lemma PacketIsRun(c: Control, paket: seq<byte>, behind: seq<byte>, i: nat, total: nat) returns (es: seq<B.Event>)
    requires B.WellFormed(c.bus) && |paket| == Rx.PAKET_SIZE && |behind| >= REACH
    ensures RunsTo(c.bus, es, ProcessFrom(c, paket, behind, i, total).bus)
    decreases total - i
  {
    if i >= total || i >= Rx.PAKET_SIZE || paket[i] == 0 || paket[i] >= 128 {
      NoStep(c.bus);
      es := [];
    } else {
      var d := Process(c, paket[i..] + behind);
      es := ProcessIsRun(c, paket[i..] + behind);
      if paket[i] < 127 {
        var rest := PacketIsRun(d, paket, behind, i + paket[i] as nat + 1, total);
        Joined(c.bus, es, d.bus, rest, ProcessFrom(c, paket, behind, i, total).bus);
        es := es + rest;
      }
    }
  }

  /** Whatever words a receiver hears, the connection moves by acknowledgements and refusals of the bus only: what
      holds of every run of the bus holds of the receiver. */
  lemma {:induction false} DrivenIsRun(a: Rx.State, c: Control, ws: seq<Word>, behind: seq<byte>)
    returns (es: seq<B.Event>)
    requires Rx.WellFormed(a) && B.WellFormed(c.bus) && |behind| >= REACH
    ensures RunsTo(c.bus, es, Driven(a, c, ws, behind).bus)
    decreases |ws|
  {
    if ws == [] {
      NoStep(c.bus);
      es := [];
    } else {
      var n := |ws| - 1;
      var d := Driven(a, c, ws[..n], behind);
      es := DrivenIsRun(a, c, ws[..n], behind);
      var (t, complete) := Rx.Take(Rx.Feed(a, ws[..n]).asm, ws[n]);
      if complete {
        var more := PacketIsRun(d, t.paket, behind, 1, t.paket[0] as nat);
        Joined(c.bus, es, d.bus, more, Driven(a, c, ws, behind).bus);
        es := es + more;
      }
    }
  }
}
