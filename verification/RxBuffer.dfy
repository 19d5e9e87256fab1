/** The receive ring of `bidib_client_if.c` between the receive interrupt and the main loop, and the path of the words
    through it into the assembler. */
module RxBuffer {
  import opened Bytes
  import Rx = Assembler

  const RX_BUF_SIZE: nat := 64

  /** One cell stays free, so 63 words fit; more are dropped silently. */
  function Enqueue(q: seq<Word>, w: Word): (r: seq<Word>)
    ensures |q| < RX_BUF_SIZE ==> |r| < RX_BUF_SIZE
  {
    if |q| < RX_BUF_SIZE - 1 then q + [w] else q
  }

  function EnqueueAll(q: seq<Word>, ws: seq<Word>): (r: seq<Word>)
    ensures |q| < RX_BUF_SIZE ==> |r| < RX_BUF_SIZE
  {
    if ws == [] then q else Enqueue(EnqueueAll(q, ws[..|ws| - 1]), ws[|ws| - 1])
  }

  /** A word is stored behind the others unless 63 wait, and is lost then. */
  lemma EnqueueExactly(q: seq<Word>, w: Word)
    requires |q| <= 63
    ensures Enqueue(q, w) == if |q| < 63 then q + [w] else q
  {
  }

  /** Of any words the ring takes the first ones, as many as it has room for. */
  lemma {:induction false} EnqueueAllTakes(q: seq<Word>, ws: seq<Word>)
    requires |q| <= 63
    ensures EnqueueAll(q, ws) == q + if |ws| <= 63 - |q| then ws else ws[..63 - |q|]
  {
    if ws == [] {
      assert q + [] == q;
    } else {
      var p, w := ws[..|ws| - 1], ws[|ws| - 1];
      EnqueueAllTakes(q, p);
      EnqueueExactly(EnqueueAll(q, p), w);
      if |ws| <= 63 - |q| {
        Regrouped(q, p, [w]);
        assert p + [w] == ws;
      } else {
        assert p[..63 - |q|] == ws[..63 - |q|];
      }
    }
  }

  /** The words from index `read` to index `write`. */
  function Between(cells: seq<Word>, read: nat, write: nat): (q: seq<Word>)
    requires |cells| == RX_BUF_SIZE && read < RX_BUF_SIZE && write < RX_BUF_SIZE
    ensures |q| < RX_BUF_SIZE
  {
    if read <= write then cells[read..write] else cells[read..] + cells[..write]
  }

  lemma Advanced(i: nat)
    requires i < RX_BUF_SIZE
    ensures (i + 1) % RX_BUF_SIZE == if i + 1 == RX_BUF_SIZE then 0 else i + 1
  {
  }

  lemma PutGrows(cells: seq<Word>, read: nat, write: nat, w: Word)
    requires |cells| == RX_BUF_SIZE && read < RX_BUF_SIZE && write < RX_BUF_SIZE
    ensures var next := if write + 1 == RX_BUF_SIZE then 0 else write + 1;
            var q := Between(cells, read, write);
      && (next == read ==> |q| == RX_BUF_SIZE - 1)
      && (next != read ==> |q| < RX_BUF_SIZE - 1 && Between(cells[write := w], read, next) == q + [w])
  {
  }

  lemma TakeShrinks(cells: seq<Word>, read: nat, write: nat)
    requires |cells| == RX_BUF_SIZE && read < RX_BUF_SIZE && write < RX_BUF_SIZE && read != write
    ensures Between(cells, read, write)
         == [cells[read]] + Between(cells, if read + 1 == RX_BUF_SIZE then 0 else read + 1, write)
  {
  }

  class Buffer {
    const cells: array<Word>
    var read: nat
    var write: nat

    ghost predicate Valid()
      reads this
    {
      cells.Length == RX_BUF_SIZE && read < RX_BUF_SIZE && write < RX_BUF_SIZE
    }

    /** The words between the read and the write index. */
    ghost function Queue(): (q: seq<Word>)
      requires Valid()
      reads this, cells
      ensures |q| < RX_BUF_SIZE
    {
      Between(cells[..], read, write)
    }

    constructor ()
      ensures Valid() && Queue() == [] && fresh(cells)
    {
      cells := new Word[RX_BUF_SIZE](_ => Word(0, false));
      read, write := 0, 0;
    }

    /** `bidib_rx_ready`. */
    method Ready() returns (ready: bool)
      requires Valid()
      ensures ready <==> Queue() != []
    {
      ready := read != write;
    }

    /** `bidib_rx_read`, as one step. */
    method Read() returns (w: Word)
      requires Valid() && Queue() != []
      modifies this`read
      ensures Valid() && w == old(Queue())[0] && Queue() == old(Queue())[1..]
    {
      TakeShrinks(cells[..], read, write);
      w := cells[read];
      read := read + 1;
      if read == RX_BUF_SIZE {
        read := 0;
      }
    }

    /** `bidib_rx_buf_put`. */
    method Put(w: Word)
      requires Valid()
      modifies this`write, cells
      ensures Valid() && Queue() == Enqueue(old(Queue()), w)
    {
      var next := (write + 1) % RX_BUF_SIZE;
      Advanced(write);
      PutGrows(cells[..], read, write, w);
      if next != read {
        ghost var updated := cells[..][write := w];
        cells[write] := w;
        assert cells[..] == updated;
        write := next;
      }
    }

    /** `bidib_flush_rx`. */
    method Flush()
      requires Valid()
      modifies this`read, this`write
      ensures Valid() && Queue() == []
    {
      read, write := 0, 0;
    }
  }

  // ---- Interrupt and main loop interleaved ----

  datatype Step = Arrive(w: Word) | Drain

  /** The ring, the assembler behind it, the words the ring took and the messages dispatched so far. */
  datatype Inbox = Inbox(queue: seq<Word>, asm: Rx.State, taken: seq<Word>, msgs: seq<seq<byte>>)

  function Next(i: Inbox, e: Step): (r: Inbox)
    requires Rx.WellFormed(i.asm)
    ensures Rx.WellFormed(r.asm)
  {
    match e
    case Arrive(w) =>
      var q := Enqueue(i.queue, w);
      i.(queue := q, taken := if q == i.queue then i.taken else i.taken + [w])
    case Drain =>
      if i.queue == [] then i
      else
        var f := Rx.Step(Rx.Fed(i.asm, i.msgs), i.queue[0]);
        i.(queue := i.queue[1..], asm := f.asm, msgs := f.msgs)
  }

  function Run(i: Inbox, es: seq<Step>): (r: Inbox)
    requires Rx.WellFormed(i.asm)
    ensures Rx.WellFormed(r.asm)
  {
    if es == [] then i else Next(Run(i, es[..|es| - 1]), es[|es| - 1])
  }

  /** The assembler went through everything taken but the queue. */
  ghost predicate InOrder(start: Rx.State, i: Inbox)
    requires Rx.WellFormed(start)
  {
    |i.queue| <= |i.taken|
    && i.queue == i.taken[|i.taken| - |i.queue|..]
    && Rx.Feed(start, i.taken[..|i.taken| - |i.queue|]) == Rx.Fed(i.asm, i.msgs)
  }

  lemma ArriveInOrder(start: Rx.State, i: Inbox, w: Word)
    requires Rx.WellFormed(start) && Rx.WellFormed(i.asm) && InOrder(start, i)
    ensures InOrder(start, i.(queue := i.queue + [w], taken := i.taken + [w]))
  {
    var k := |i.taken| - |i.queue|;
    assert (i.taken + [w])[..k] == i.taken[..k];
    assert (i.taken + [w])[k..] == i.taken[k..] + [w];
  }

  lemma QueueHead(taken: seq<Word>, k: nat)
    requires k < |taken|
    ensures taken[k..][0] == taken[k] && taken[k..][1..] == taken[k + 1..] && taken[..k + 1] == taken[..k] + [taken[k]]
  {
  }

  lemma DrainInOrder(start: Rx.State, i: Inbox)
    requires Rx.WellFormed(start) && Rx.WellFormed(i.asm) && InOrder(start, i) && i.queue != []
    ensures InOrder(start, Next(i, Drain))
  {
    var k := |i.taken| - |i.queue|;
    QueueHead(i.taken, k);
    Rx.FeedSnoc(start, i.taken[..k], i.taken[k]);
  }

  lemma NextInOrder(start: Rx.State, i: Inbox, e: Step)
    requires Rx.WellFormed(start) && Rx.WellFormed(i.asm) && InOrder(start, i)
    ensures InOrder(start, Next(i, e))
  {
    match e
    case Arrive(w) =>
      if |i.queue| < RX_BUF_SIZE - 1 {
        ArriveInOrder(start, i, w);
      }
    case Drain =>
      if i.queue != [] {
        DrainInOrder(start, i);
      }
  }

  lemma {:induction false} RunInOrder(start: Rx.State, i: Inbox, es: seq<Step>)
    requires Rx.WellFormed(start) && Rx.WellFormed(i.asm) && InOrder(start, i)
    ensures InOrder(start, Run(i, es))
  {
    if es != [] {
      RunInOrder(start, i, es[..|es| - 1]);
      NextInOrder(start, Run(i, es[..|es| - 1]), es[|es| - 1]);
    }
  }

  /** However interrupt and main loop interleave, once the ring is drained the messages dispatched are those of the
      words the ring took, fed in order. */
  lemma DrainedRingIsTransparent(start: Rx.State, es: seq<Step>)
    requires Rx.WellFormed(start)
    requires Run(Inbox([], start, [], []), es).queue == []
    ensures var i := Run(Inbox([], start, [], []), es); Rx.Feed(start, i.taken) == Rx.Fed(i.asm, i.msgs)
  {
    RunInOrder(start, Inbox([], start, [], []), es);
    var i := Run(Inbox([], start, [], []), es);
    assert i.taken[..|i.taken|] == i.taken;
  }

  function Arrivals(es: seq<Step>): seq<Word> {
    if es == [] then [] else Arrivals(es[..|es| - 1]) + if es[|es| - 1].Arrive? then [es[|es| - 1].w] else []
  }

  /** Every word arrives at a ring with room. */
  ghost predicate NeverFull(i: Inbox, es: seq<Step>)
    requires Rx.WellFormed(i.asm)
  {
    es != [] ==>
      && NeverFull(i, es[..|es| - 1])
      && (es[|es| - 1].Arrive? ==> |Run(i, es[..|es| - 1]).queue| < RX_BUF_SIZE - 1)
  }

  lemma {:induction false} TakenCount(i: Inbox, es: seq<Step>)
    requires Rx.WellFormed(i.asm)
    ensures |Run(i, es).taken| <= |i.taken| + |Arrivals(es)|
    ensures !NeverFull(i, es) ==> |Run(i, es).taken| < |i.taken| + |Arrivals(es)|
  {
    if es != [] {
      TakenCount(i, es[..|es| - 1]);
    }
  }

  /** Without the main loop the ring of a run holds what the interrupt's stores leave in it. */
  lemma {:induction false} ArrivalsAreEnqueued(i: Inbox, es: seq<Step>)
    requires Rx.WellFormed(i.asm) && forall e :: e in es ==> e.Arrive?
    ensures Run(i, es).queue == EnqueueAll(i.queue, Arrivals(es))
    ensures Run(i, es).asm == i.asm && Run(i, es).msgs == i.msgs
  {
    if es != [] {
      var p, e := es[..|es| - 1], es[|es| - 1];
      assert e in es && forall x :: x in p ==> x in es;
      ArrivalsAreEnqueued(i, p);
      EnqueueAllSnoc(i.queue, Arrivals(p), e.w);
    }
  }

  lemma EnqueueAllSnoc(q: seq<Word>, ws: seq<Word>, w: Word)
    ensures EnqueueAll(q, ws + [w]) == Enqueue(EnqueueAll(q, ws), w)
  {
    assert (ws + [w])[..|ws|] == ws;
  }

  /** The ring passes on every word exactly when none arrives while 63 wait. */
  lemma {:induction false} LosslessExactly(i: Inbox, es: seq<Step>)
    requires Rx.WellFormed(i.asm)
    ensures NeverFull(i, es) <==> Run(i, es).taken == i.taken + Arrivals(es)
  {
    TakenCount(i, es);
    if es != [] {
      TakenCount(i, es[..|es| - 1]);
      LosslessExactly(i, es[..|es| - 1]);
    }
  }
}
