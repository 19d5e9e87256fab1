/** Runs of the sender: the bus state together with a record of what was accepted and what went over the wire. */
module Line {
  import opened Bytes
  import opened Ring
  import opened Bus

  datatype Kind = Logon | Nak | Data

  /** One complete DE-high period. `msgs` are the messages it carries. */
  datatype Transmission = Transmission(kind: Kind, bytes: seq<byte>, msgs: seq<seq<byte>>)

  /** `done` are the finished transmissions, `kind`, `sent` and `carried` describe the one in progress. `queued` are
      the messages in the FIFO. `kept` are all accepted messages, less those a flush discarded. */
  datatype Line = Line(
    bus: State, done: seq<Transmission>, kind: Kind, sent: seq<byte>, carried: seq<seq<byte>>,
    queued: seq<seq<byte>>, kept: seq<seq<byte>>)

  ghost predicate Usable(l: Line) {
    WellFormed(l.bus) && |l.queued| <= |l.kept|
  }

  /** `send_bidib_message` for a finished message. */
  function Offer(l: Line, m: seq<byte>): (r: Line)
    requires Usable(l)
    ensures Usable(r)
  {
    var (s, ok) := Put(l.bus, m);
    if ok && s.connect == Connected then l.(bus := s, queued := l.queued + [m], kept := l.kept + [m])
    else l
  }

  function DoSend(l: Line, msgType: byte, data: seq<byte>): (r: Line)
    requires Usable(l) && |data| <= 251
    ensures Usable(r)
  {
    Offer(l.(bus := l.bus.(msgNum := NextNumber(l.bus.msgNum))), Message(l.bus.msgNum, msgType, data))
  }

  function DoHear(l: Line, w: Word, busFree: bool): (r: Line)
    requires Usable(l)
    ensures Usable(r)
  {
    var (s, out) := HearWord(l.bus, w, busFree);
    if l.bus.de || !s.de then l.(bus := s)
    else if IsPrompt(w) then l.(bus := s, kind := Logon, sent := out, carried := [])
    else if s.nakMode then l.(bus := s, kind := Nak, sent := out, carried := [])
    else l.(bus := s, kind := Data, sent := out, carried := l.queued, queued := [])
  }

  function DoIrq(l: Line): (r: Line)
    requires Usable(l)
    ensures Usable(r)
  {
    var (s, out) := TransmitInterrupt(l.bus);
    if l.bus.de && !s.de then
      l.(bus := s, sent := [], carried := [], done := l.done + [Transmission(l.kind, l.sent + out, l.carried)])
    else l.(bus := s, sent := l.sent + out)
  }

  function DoTimeout(l: Line, image: seq<byte>): (r: Line)
    requires Usable(l) && |image| == LOGON_RESERVED
    ensures Usable(r)
  {
    if l.bus.connect != Connected then l
    else l.(bus := Disconnect(l.bus, image), queued := [], kept := l.kept[..|l.kept| - |l.queued|])
  }

  function Next(l: Line, e: Event): (r: Line)
    requires Usable(l)
    ensures Usable(r)
  {
    match e
    case Send(msgType, data) => DoSend(l, msgType, data)
    case Hear(w, busFree) => DoHear(l, w, busFree)
    case Irq => DoIrq(l)
    case Ack(granted) => l.(bus := Acknowledge(l.bus, granted))
    case Refuse => l.(bus := Reject(l.bus))
    case Timeout(image) => DoTimeout(l, image)
  }

  /** The line after a whole run. */
  function Run(l: Line, es: seq<Event>): (r: Line)
    requires Usable(l)
    ensures Usable(r)
  {
    if es == [] then l else Next(Run(l, es[..|es| - 1]), es[|es| - 1])
  }

  function Start(logonBuf: seq<byte>, image: seq<byte>, ram: seq<byte>): (l: Line)
    requires |logonBuf| == LOGON_WORDS && |image| == LOGON_RESERVED && |ram| == RING_SIZE
    ensures Usable(l)
  {
    Line(Boot(logonBuf, image, ram), [], Logon, [], [], [], [])
  }

  lemma RunOne(l: Line, e: Event)
    requires Usable(l)
    ensures Run(l, [e]) == Next(l, e)
  {
    assert [e][..0] == [];
  }

  lemma RunLast(l: Line, es: seq<Event>, e: Event)
    requires Usable(l)
    ensures Run(l, es + [e]) == Next(Run(l, es), e)
  {
    assert (es + [e])[..|es|] == es;
  }

  lemma SameLast(l: Line, m: Line, x: seq<Event>, y: seq<Event>, e: Event)
    requires Usable(l) && Usable(m) && Run(l, x) == Run(m, y)
    ensures Run(l, x + [e]) == Run(m, y + [e])
  {
    RunLast(l, x, e);
    RunLast(m, y, e);
  }

  lemma {:induction false} RunConcat(l: Line, a: seq<Event>, b: seq<Event>)
    requires Usable(l)
    ensures Run(l, a + b) == Run(Run(l, a), b)
  {
    if b == [] {
      assert a + b == a;
    } else {
      var c, e := b[..|b| - 1], b[|b| - 1];
      RunConcat(l, a, c);
      SameLast(l, Run(l, a), a + c, c, e);
      SnocConcat(a, b);
    }
  }

  lemma NextMovesBus(l: Line, e: Event)
    requires Usable(l)
    ensures Next(l, e).bus == Move(l.bus, e)
  {
    match e
    case Send(msgType, data) =>
    case Hear(w, busFree) =>
    case Irq =>
    case Ack(granted) =>
    case Refuse =>
    case Timeout(image) =>
  }

  /** The record does not influence the bus. */
  lemma {:induction false} RunMovesBus(l: Line, es: seq<Event>)
    requires Usable(l)
    ensures Run(l, es).bus == After(l.bus, es)
  {
    if es != [] {
      var n := |es| - 1;
      RunMovesBus(l, es[..n]);
      NextMovesBus(Run(l, es[..n]), es[n]);
    }
  }
}
