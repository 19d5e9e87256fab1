/** The receiver as the firmware runs it: `bidib_client_parser.c` around the shared link and the receive ring. */
module Client {
  import opened Bytes
  import opened Crc8
  import B = Bus
  import opened TxLink
  import opened RxBuffer
  import Rx = Assembler
  import D = Dispatch

  class Parser {
    const link: Link
    const rx: Buffer
    const paket: array<byte>
    var phase: Rx.Phase
    var index: nat
    var crc: byte
    var rxNum: byte

    ghost predicate Shaped()
      reads this, link
    {
      && link.Shaped() && paket.Length == Rx.PAKET_SIZE
      && paket != link.logonBuf && paket != link.txBuf
      && rx.cells as object !in {this, link, paket, link.logonBuf, link.txBuf}
    }

    ghost predicate Valid()
      reads this, link, link.logonBuf, link.txBuf, rx
    {
      Shaped() && link.Valid() && rx.Valid() && index < 256
    }

    ghost function Asm(): Rx.State
      requires Shaped()
      reads this, link, paket
    {
      Rx.State(phase, paket[..], index, crc)
    }

    ghost function Control(): D.Control
      requires Valid()
      reads this, link, link.logonBuf, link.txBuf, rx
    {
      D.Control(link.State(), rxNum)
    }

    constructor (link: Link, rx: Buffer)
      requires link.Valid() && rx.Valid() && rx.cells as object !in {link as object, link.logonBuf, link.txBuf}
      ensures this.link == link && this.rx == rx && fresh(paket) && Valid()
      ensures phase == Rx.Idle && rxNum == 0
    {
      this.link, this.rx := link, rx;
      paket := new byte[Rx.PAKET_SIZE](_ => 0);
      phase, index, crc, rxNum := Rx.Idle, 0, 0, 0;
    }

    // ---- set_bidib_state ----

    /** `set_bidib_state(BIDIB_DISCONNECTED, 0)`. */
    method Disconnect()
      requires Valid()
      modifies this`phase, link, link.txBuf, rx`read, rx`write
      ensures Valid()
      ensures link.State() == B.Disconnect(old(link.State()), B.LOGON_IMAGE)
      ensures old(link.connect) != B.Disconnected ==> rx.Queue() == [] && phase == Rx.Idle
      ensures old(link.connect) == B.Disconnected ==> rx.Queue() == old(rx.Queue()) && phase == old(phase)
    {
      if link.connect == B.Disconnected {
        return;
      }
      link.connect := B.Disconnected;
      link.addr := B.NO_ADDRESS;
      rx.Flush();
      link.FlushTx();
      phase := Rx.Idle;
    }

    /** The case MSG_LOCAL_LOGON_ACK of the message switch, with `set_bidib_state(BIDIB_CONNECTED, ...)`. */
    method Acknowledge(granted: byte)
      requires Valid()
      modifies this`rxNum, link`connect, link`addr, link`msgNum
      ensures Valid()
      ensures Control() == D.Control(B.Acknowledge(old(link.State()), granted), 0)
    {
      var t := granted ^ (granted << 4);
      t := t ^ (t << 2);
      t := t ^ (t << 1);
      t := t & 0x80;
      if link.connect != B.Connected {
        link.connect := B.Connected;
        link.addr := granted | t;
      }
      rxNum := 0;
      link.msgNum := 0;
    }

    /** `set_bidib_state(BIDIB_REJECTED, 0)`. */
    method Reject()
      requires Valid()
      modifies link`connect, link`addr
      ensures Valid()
      ensures link.State() == B.Reject(old(link.State()))
    {
      if link.connect != B.Rejected {
        link.connect := B.Rejected;
        link.addr := B.NO_ADDRESS;
      }
    }

    // ---- process_bidib_message, bidib_parser ----

    /** The address walk of `process_bidib_message` over a message to this node: the index of its sequence number. */
    method SkipAddressStack(view: seq<byte>) returns (numberAt: nat)
      requires |view| >= D.REACH
      ensures numberAt == D.StackEnd(view, 1, 0) <= 6
    {
      var depth := 0;
      numberAt := 1;
      while view[numberAt] != 0 && depth < 4
        invariant 0 <= depth <= 4 && numberAt == 1 + depth
        invariant D.StackEnd(view, numberAt, depth) == D.StackEnd(view, 1, 0)
        decreases 4 - depth
      {
        depth := depth + 1;
        numberAt := numberAt + 1;
      }
      numberAt := numberAt + 1;
    }

    /** The message switch, as far as it concerns the connection. */
    method Act(view: seq<byte>, typeAt: nat)
      requires Valid() && |view| >= D.REACH && typeAt <= 7
      modifies this`rxNum, link`connect, link`addr, link`msgNum
      ensures Valid()
      ensures Control() == D.Act(old(Control()), view, typeAt)
    {
      if view[typeAt] == D.MSG_LOCAL_LOGON_ACK {
        if view[typeAt + 2..typeAt + 9] == B.UNIQUE_ID {
          Acknowledge(view[typeAt + 1]);
        }
      } else if view[typeAt] == D.MSG_LOGON_REJECTED {
        if view[typeAt + 1..typeAt + 8] == B.UNIQUE_ID {
          Reject();
        }
      }
    }

    /** The sequence check of `process_bidib_message`. */
    method AcceptNumber(number: byte)
      requires Valid()
      modifies this`rxNum
      ensures rxNum == B.NextNumber(number)
    {
      if number != rxNum {
        rxNum := number;
      }
      rxNum := rxNum + 1;
      if rxNum == 0 {
        rxNum := 1;
      }
    }

    /** `process_bidib_message` behind its length check. */
    method ProcessBody(view: seq<byte>)
      requires Valid() && |view| >= D.REACH
      modifies this`rxNum, link`connect, link`addr, link`msgNum
      ensures Valid()
      ensures Control() == D.Process(old(Control()), view)
    {
      if view[1] == 0 {
        Act(view, 3);
      } else if view[1] == link.addr & D.ADDRESS_BITS {
        var numberAt := SkipAddressStack(view);
        AcceptNumber(view[numberAt]);
        Act(view, numberAt + 1);
      }
    }

    /** `process_bidib_message` on the memory from a size byte on. */
    method ProcessMessage(view: seq<byte>) returns (consumed: nat)
      requires Valid() && |view| >= D.REACH
      modifies this`rxNum, link`connect, link`addr, link`msgNum
      ensures Valid()
      ensures consumed == if view[0] == 0 || view[0] as nat >= 128 then 128 else view[0] as nat + 1
      ensures Control() ==
        if view[0] == 0 || view[0] as nat >= 128 then old(Control()) else D.Process(old(Control()), view)
    {
      var length := view[0] as nat;
      if length == 0 || length >= 128 {
        return 128;
      }
      ProcessBody(view);
      return length + 1;
    }

    /** The loop body of `bidib_parser`: one message; `ok` is false when its length ends the packet. */
    method OneMessage(behind: seq<byte>) returns (msgs: seq<seq<byte>>, ok: bool)
      requires Valid() && |behind| >= D.REACH && 1 <= index < Rx.PAKET_SIZE
      modifies this`index, this`rxNum, link`connect, link`addr, link`msgNum
      ensures Valid()
      ensures var n := paket[old(index)] as nat;
        && msgs == (if 0 < n < 128 then [Rx.MessageAt(paket[..], old(index), n)] else [])
        && (ok <==> 0 < n < 127)
        && index == (if ok then old(index) + n + 1 else old(index))
        && Control() == if 0 < n < 128 then D.Process(old(Control()), paket[old(index)..] + behind) else old(Control())
    {
      var n := paket[index] as nat;
      assert (paket[index..] + behind)[0] == paket[index];
      var consumed := ProcessMessage(paket[index..] + behind);
      msgs := if 0 < n < 128 then [Rx.MessageAt(paket[..], index, n)] else [];
      ok := consumed != 128;
      if ok {
        index := index + consumed;
      }
    }

    /** `bidib_parser`. `behind` is the memory that follows the packet array; the loop stops where it would start a
        message there. Returns the messages dispatched and how the loop ended. */
    method ParsePacket(behind: seq<byte>) returns (msgs: seq<seq<byte>>, end: Rx.End)
      requires Valid() && |behind| >= D.REACH
      modifies this`index, this`rxNum, link`connect, link`addr, link`msgNum
      ensures Valid()
      ensures Rx.Parsed(msgs, end) == Rx.Parse(paket[..])
      ensures Control() == D.ProcessFrom(old(Control()), paket[..], behind, 1, paket[0] as nat)
    {
      var total := paket[0] as nat;
      ghost var p, c := paket[..], Control();
      index := 1;
      msgs := [];
      assert Progress(p, behind, c, 1, [], c);
      while index < total
        invariant Valid() && 1 <= index && paket[..] == p
        invariant Progress(p, behind, c, index, msgs, Control())
        decreases total - index
      {
        if index >= Rx.PAKET_SIZE {
          return msgs, Rx.Overrun;
        }
        ghost var i, m, d := index, msgs, Control();
        ProgressStep(p, behind, c, i, m, d);
        var more, ok := OneMessage(behind);
        msgs := msgs + more;
        if !ok {
          return msgs, Rx.BadLength;
        }
      }
      return msgs, Rx.Complete;
    }

    // ---- run_bidib_client ----

    /** The two collecting branches of the assembler. */
    method CollectByte(b: byte) returns (complete: bool)
      requires Valid() && phase == Rx.Collect
      modifies this`phase, this`index, this`crc, paket
      ensures Valid()
      ensures (Asm(), complete) == Rx.Take(old(Asm()), Word(b, false))
    {
      complete := false;
      if index <= paket[0] as nat {
        if index < Rx.PAKET_SIZE {
          paket[index] := b;
        }
        crc := Crc8Update(crc, b);
        index := (index + 1) % 256;
      } else {
        var residue := Crc8Update(crc, b);
        complete := residue == 0;
        phase := Rx.Idle;
      }
    }

    /** One turn of the assembler loop, up to the call of the splitter. */
    method TakeWord(w: Word) returns (complete: bool)
      requires Valid()
      modifies this`phase, this`index, this`crc, paket
      ensures Valid()
      ensures (Asm(), complete) == Rx.Take(old(Asm()), w)
    {
      complete := false;
      match phase
      case Idle =>
        if w.idBit && w.data == 0 {
          phase := Rx.GetLen;
        }
      case GetLen =>
        if !w.idBit && w.data > 0 {
          paket[0] := w.data;
          index := 1;
          crc := Crc8Update(0, w.data);
          phase := Rx.Collect;
        } else {
          phase := Rx.Idle;
        }
      case Collect =>
        complete := CollectByte(w.data);
    }

    /** One turn of the assembler loop. */
    method HandleWord(w: Word, behind: seq<byte>) returns (msgs: seq<seq<byte>>)
      requires Valid() && |behind| >= D.REACH
      modifies this, paket, link`connect, link`addr, link`msgNum
      ensures Valid()
      ensures Rx.Alike(Asm(), Rx.Take(old(Asm()), w).0)
      ensures msgs == if Rx.Take(old(Asm()), w).1 then Rx.Parse(Rx.Take(old(Asm()), w).0.paket).msgs else []
      ensures Control() == D.TakenBy(old(Asm()), old(Control()), w, behind)
    {
      var complete := TakeWord(w);
      msgs := [];
      if complete {
        var end;
        msgs, end := ParsePacket(behind);
      }
    }

    /** The first `k` words of `q` are handled, the others wait in the ring. */
    ghost predicate Drained(a: Rx.State, c: D.Control, q: seq<Word>, k: nat, msgs: seq<seq<byte>>, behind: seq<byte>)
      requires Valid() && Rx.WellFormed(a) && B.WellFormed(c.bus) && |behind| >= D.REACH
      reads this, link, link.logonBuf, link.txBuf, rx, rx.cells, paket
    {
      && k <= |q| && rx.Queue() == q[k..]
      && Rx.Alike(Asm(), Rx.Feed(a, q[..k]).asm) && msgs == Rx.Feed(a, q[..k]).msgs
      && Control() == D.Driven(a, c, q[..k], behind)
    }

    /** The body of the assembler loop. */
    method DrainOne(behind: seq<byte>, before: seq<seq<byte>>,
                    ghost a: Rx.State, ghost c: D.Control, ghost q: seq<Word>, ghost k: nat)
      returns (msgs: seq<seq<byte>>)
      requires Valid() && |behind| >= D.REACH && Rx.WellFormed(a) && B.WellFormed(c.bus)
      requires k < |q| && Drained(a, c, q, k, before, behind)
      modifies this, paket, link`connect, link`addr, link`msgNum, rx`read
      ensures Valid() && Drained(a, c, q, k + 1, msgs, behind)
    {
      D.TakesNext(a, c, Asm(), q, k, behind);
      var w := rx.Read();
      var more := HandleWord(w, behind);
      msgs := before + more;
    }

    /** The assembler loop of `run_bidib_client`: empties the receive ring. Returns the messages dispatched. */
    method DrainRing(behind: seq<byte>) returns (msgs: seq<seq<byte>>)
      requires Valid() && |behind| >= D.REACH
      modifies this, paket, link`connect, link`addr, link`msgNum, rx`read
      ensures Valid() && rx.Queue() == []
      ensures var f := Rx.Feed(old(Asm()), old(rx.Queue())); Rx.Alike(Asm(), f.asm) && msgs == f.msgs
      ensures Control() == D.Driven(old(Asm()), old(Control()), old(rx.Queue()), behind)
    {
      msgs := [];
      ghost var a, c, q, k := Asm(), Control(), rx.Queue(), 0;
      var ready := rx.Ready();
      while ready
        invariant Valid() && Drained(a, c, q, k, msgs, behind) && (ready <==> k < |q|)
        decreases |q| - k
      {
        msgs := DrainOne(behind, msgs, a, c, q, k);
        k := k + 1;
        ready := rx.Ready();
      }
      assert q[..|q|] == q;
    }

    /** `run_bidib_client`, its feature streaming apart; `missedPolls` is the outcome of the poll supervision. */
    method RunClient(missedPolls: bool, behind: seq<byte>) returns (msgs: seq<seq<byte>>)
      requires Valid() && |behind| >= D.REACH
      modifies this, paket, link, link.txBuf, rx`read, rx`write
      ensures Valid() && rx.Queue() == []
      ensures if old(link.connect) == B.Connected && missedPolls
              then msgs == [] && phase == Rx.Idle && link.State() == B.Disconnect(old(link.State()), B.LOGON_IMAGE)
              else var f := Rx.Feed(old(Asm()), old(rx.Queue()));
                && Rx.Alike(Asm(), f.asm) && msgs == f.msgs
                && Control() == D.Driven(old(Asm()), old(Control()), old(rx.Queue()), behind)
    {
      if link.connect == B.Connected && missedPolls {
        Disconnect();
        return [];   // the flush emptied the ring
      }
      msgs := DrainRing(behind);
    }
  }

  /** The splitter stands at index `i`, has dispatched `msgs` and brought the connection from `c0` to `c`. */
  ghost predicate Progress(p: seq<byte>, behind: seq<byte>, c0: D.Control, i: nat, msgs: seq<seq<byte>>, c: D.Control)
    requires |p| == Rx.PAKET_SIZE && |behind| >= D.REACH && B.WellFormed(c0.bus) && B.WellFormed(c.bus)
  {
    var total := p[0] as nat;
    && Rx.Parse(p) == Rx.Parsed(msgs + Rx.Split(p, i, total).msgs, Rx.Split(p, i, total).end)
    && D.ProcessFrom(c0, p, behind, 1, total) == D.ProcessFrom(c, p, behind, i, total)
  }

  lemma SplitProgress(p: seq<byte>, i: nat, msgs: seq<seq<byte>>)
    requires |p| == Rx.PAKET_SIZE && i < p[0] as nat && i < Rx.PAKET_SIZE
    requires var rest := Rx.Split(p, i, p[0] as nat); Rx.Parse(p) == Rx.Parsed(msgs + rest.msgs, rest.end)
    ensures var n := p[i] as nat;
      if n == 0 || n >= 128 then Rx.Parse(p) == Rx.Parsed(msgs, Rx.BadLength)
      else if n == 127 then Rx.Parse(p) == Rx.Parsed(msgs + [Rx.MessageAt(p, i, n)], Rx.BadLength)
      else
        var rest := Rx.Split(p, i + n + 1, p[0] as nat);
        Rx.Parse(p) == Rx.Parsed((msgs + [Rx.MessageAt(p, i, n)]) + rest.msgs, rest.end)
  {
    var n := p[i] as nat;
    if n == 0 || n >= 128 {
      assert msgs + [] == msgs;
    } else if n < 127 {
      Regroup(msgs, Rx.MessageAt(p, i, n), Rx.Split(p, i + n + 1, p[0] as nat).msgs);
    }
  }

  lemma ProgressStep(p: seq<byte>, behind: seq<byte>, c0: D.Control, i: nat, msgs: seq<seq<byte>>, c: D.Control)
    requires |p| == Rx.PAKET_SIZE && |behind| >= D.REACH && B.WellFormed(c0.bus) && B.WellFormed(c.bus)
    requires Progress(p, behind, c0, i, msgs, c) && i < p[0] as nat && i < Rx.PAKET_SIZE
    ensures var n := p[i] as nat;
      if n == 0 || n >= 128 then
        Rx.Parse(p) == Rx.Parsed(msgs, Rx.BadLength) && D.ProcessFrom(c0, p, behind, 1, p[0] as nat) == c
      else
        var d := D.Process(c, p[i..] + behind);
        if n == 127 then
          && Rx.Parse(p) == Rx.Parsed(msgs + [Rx.MessageAt(p, i, n)], Rx.BadLength)
          && D.ProcessFrom(c0, p, behind, 1, p[0] as nat) == d
        else Progress(p, behind, c0, i + n + 1, msgs + [Rx.MessageAt(p, i, n)], d)
  {
    SplitProgress(p, i, msgs);
  }

  lemma Regroup<T>(a: seq<T>, x: T, b: seq<T>)
    ensures a + ([x] + b) == (a + [x]) + b
  {
  }
}
