/** The drop-oldest log ring (`log.c`). */
module LogRing {
  import opened Bytes

  const LOG_RING_SIZE: nat := 2048
  /** One cell stays free. */
  const CAPACITY: nat := LOG_RING_SIZE - 1
  /** Bytes one call of `log_poll` sends at most. */
  const POLL_BUDGET: nat := 512

  /** The newest `n` bytes. */
  function Newest(s: seq<byte>, n: nat): (r: seq<byte>)
    ensures |r| <= n && |r| <= |s|
  {
    if |s| <= n then s else s[|s| - n..]
  }

  lemma NewestOfNewest(s: seq<byte>, b: byte, n: nat)
    requires n > 0
    ensures Newest(Newest(s, n) + [b], n) == Newest(s + [b], n)
  {
  }

  function Wrap(i: nat): nat {
    if i == LOG_RING_SIZE then 0 else i
  }

  /** The bytes from index `tail` to index `head`. */
  function Span(cells: seq<byte>, tail: nat, head: nat): (c: seq<byte>)
    requires |cells| == LOG_RING_SIZE && head < LOG_RING_SIZE && tail < LOG_RING_SIZE
    ensures |c| <= CAPACITY
  {
    if tail <= head then cells[tail..head] else cells[tail..] + cells[..head]
  }

  lemma SpanPop(cells: seq<byte>, tail: nat, head: nat)
    requires |cells| == LOG_RING_SIZE && head < LOG_RING_SIZE && tail < LOG_RING_SIZE && tail != head
    ensures Span(cells, tail, head) == [cells[tail]] + Span(cells, Wrap(tail + 1), head)
  {
  }

  lemma WrittenEnd(cells: seq<byte>, i: nat, at: nat, b: byte)
    requires i <= at < |cells|
    ensures cells[at := b][i..at + 1] == cells[i..at] + [b]
  {
  }

  lemma WrittenElsewhere(cells: seq<byte>, at: nat, b: byte, i: nat)
    requires at < i <= |cells|
    ensures cells[at := b][i..] == cells[i..]
  {
  }

  lemma SpanPush(cells: seq<byte>, tail: nat, head: nat, b: byte)
    requires |cells| == LOG_RING_SIZE && head < LOG_RING_SIZE && tail < LOG_RING_SIZE && Wrap(head + 1) != tail
    ensures Span(cells[head := b], tail, Wrap(head + 1)) == Span(cells, tail, head) + [b]
  {
    if tail <= head {
      WrittenEnd(cells, tail, head, b);
      if head + 1 == LOG_RING_SIZE {
        assert cells[head := b][tail..] == cells[head := b][tail..head + 1];
      }
    } else {
      WrittenEnd(cells, 0, head, b);
      WrittenElsewhere(cells, head, b, tail);
      Regrouped(cells[tail..], cells[..head], [b]);
    }
  }

  lemma SpanFull(cells: seq<byte>, tail: nat, head: nat, b: byte)
    requires |cells| == LOG_RING_SIZE && head < LOG_RING_SIZE && tail < LOG_RING_SIZE && Wrap(head + 1) == tail
    ensures |Span(cells, tail, head)| == CAPACITY
    ensures Span(cells[head := b], Wrap(tail + 1), tail) == Span(cells, tail, head)[1..] + [b]
  {
    SpanPop(cells, tail, head);
    assert Span(cells, tail, head)[1..] == Span(cells, Wrap(tail + 1), head);
    SpanPush(cells, Wrap(tail + 1), head, b);
  }

  lemma PushSpan(cells: seq<byte>, tail: nat, head: nat, b: byte)
    requires |cells| == LOG_RING_SIZE && head < LOG_RING_SIZE && tail < LOG_RING_SIZE
    ensures var h := Wrap(head + 1);
            var t := if h == tail then Wrap(tail + 1) else tail;
      Span(cells[head := b], t, h) == Newest(Span(cells, tail, head) + [b], CAPACITY)
  {
    var s := Span(cells, tail, head);
    if Wrap(head + 1) == tail {
      SpanFull(cells, tail, head, b);
      assert (s + [b])[1..] == s[1..] + [b];
    } else {
      SpanPush(cells, tail, head, b);
    }
  }

  lemma NextIndex(i: nat)
    requires i < LOG_RING_SIZE
    ensures (i + 1) % LOG_RING_SIZE == Wrap(i + 1) < LOG_RING_SIZE
  {
  }

  lemma PushNone(before: seq<byte>, data: seq<byte>)
    requires |before| <= CAPACITY
    ensures Newest(before + data[..0], CAPACITY) == before && data[..|data|] == data
  {
    assert before + [] == before;
  }

  lemma PushStep(before: seq<byte>, data: seq<byte>, i: nat)
    requires i < |data|
    ensures Newest(Newest(before + data[..i], CAPACITY) + [data[i]], CAPACITY)
         == Newest(before + data[..i + 1], CAPACITY)
  {
    NewestOfNewest(before + data[..i], data[i], CAPACITY);
    assert before + data[..i] + [data[i]] == before + data[..i + 1];
  }

  class Ring {
    const cells: array<byte>
    var head: nat
    var tail: nat

    ghost predicate Valid()
      reads this
    {
      cells.Length == LOG_RING_SIZE && head < LOG_RING_SIZE && tail < LOG_RING_SIZE
    }

    ghost function Contents(): (c: seq<byte>)
      requires Valid()
      reads this, cells
      ensures |c| <= CAPACITY
    {
      Span(cells[..], tail, head)
    }

    /** `log_init`. */
    constructor ()
      ensures Valid() && Contents() == [] && fresh(cells)
    {
      cells := new byte[LOG_RING_SIZE](_ => 0);
      head, tail := 0, 0;
    }

    /** `log_ring_used`. */
    method Used() returns (n: nat)
      requires Valid()
      ensures n == |Contents()|
    {
      n := (head + LOG_RING_SIZE - tail) % LOG_RING_SIZE;
    }

    /** The loop body of `log_push`. */
    method PushByte(b: byte)
      requires Valid()
      modifies this, cells
      ensures Valid() && Contents() == Newest(old(Contents()) + [b], CAPACITY)
    {
      PushSpan(cells[..], tail, head, b);
      NextIndex(head);
      NextIndex(tail);
      ghost var updated := cells[..][head := b];
      cells[head] := b;
      assert cells[..] == updated;
      head := (head + 1) % LOG_RING_SIZE;
      if head == tail {
        tail := (tail + 1) % LOG_RING_SIZE;
      }
    }

    /** `log_push`. */
    method Push(data: seq<byte>)
      requires Valid()
      modifies this, cells
      ensures Valid() && Contents() == Newest(old(Contents()) + data, CAPACITY)
    {
      ghost var before := Contents();
      PushNone(before, data);
      var i := 0;
      while i < |data|
        invariant Valid() && 0 <= i <= |data|
        invariant Contents() == Newest(before + data[..i], CAPACITY)
      {
        PushByte(data[i]);
        PushStep(before, data, i);
        i := i + 1;
      }
    }

    /** The loop body of `log_poll`. */
    method PopByte() returns (b: byte)
      requires Valid() && Contents() != []
      modifies this`tail
      ensures Valid() && [b] + Contents() == old(Contents())
    {
      SpanPop(cells[..], tail, head);
      NextIndex(tail);
      b := cells[tail];
      tail := (tail + 1) % LOG_RING_SIZE;
    }

    /** `log_poll`, when the UART takes `room` more bytes. Returns the bytes sent. */
    method Poll(room: nat) returns (out: seq<byte>)
      requires Valid()
      modifies this`tail
      ensures Valid()
      ensures out + Contents() == old(Contents()) && |out| == Sendable(|old(Contents())|, room)
    {
      out := [];
      while head != tail
        invariant Valid() && |out| <= room && |out| < POLL_BUDGET
        invariant out + Contents() == old(Contents())
        decreases |Contents()|
      {
        if |out| == room {
          return;
        }
        ghost var c, o := Contents(), out;
        var b := PopByte();
        out := out + [b];
        assert o + c == out + Contents();
        if |out| >= POLL_BUDGET {
          return;
        }
      }
    }
  }

  /** How many of `used` bytes a poll sends. */
  function Sendable(used: nat, room: nat): (n: nat)
    ensures n <= used && n <= room && n <= 512 && (n == used || n == room || n == 512)
  {
    var n := if used <= room then used else room;
    if n <= POLL_BUDGET then n else POLL_BUDGET
  }

  // ---- Whole histories ----

  datatype Step = Push(data: seq<byte>) | Poll(room: nat)

  /** Everything ever pushed, the position from which on bytes are still in the ring, and the positions drained. */
  datatype History = History(pushed: seq<byte>, low: nat, drained: seq<nat>)

  function Window(h: History): seq<byte>
    requires h.low <= |h.pushed|
  {
    h.pushed[h.low..]
  }

  /** The ring's contents after one step, as the ring's methods promise it. */
  function RingAfter(contents: seq<byte>, e: Step): seq<byte> {
    match e
    case Push(data) => Newest(contents + data, CAPACITY)
    case Poll(room) => contents[Sendable(|contents|, room)..]
  }

  function Positions(from: nat, n: nat): (p: seq<nat>)
    ensures |p| == n && forall i :: 0 <= i < n ==> p[i] == from + i
  {
    seq(n, i requires 0 <= i => from + i)
  }

  function Next(h: History, e: Step): History
    requires h.low <= |h.pushed|
  {
    match e
    case Push(data) =>
      var all := h.pushed + data;
      History(all, if |all| - h.low > CAPACITY then |all| - CAPACITY else h.low, h.drained)
    case Poll(room) =>
      var n := Sendable(|h.pushed| - h.low, room);
      History(h.pushed, h.low + n, h.drained + Positions(h.low, n))
  }

  function Run(es: seq<Step>): (h: History)
    ensures h.low <= |h.pushed|
  {
    if es == [] then History([], 0, []) else Next(Run(es[..|es| - 1]), es[|es| - 1])
  }

  function RingRun(es: seq<Step>): seq<byte> {
    if es == [] then [] else RingAfter(RingRun(es[..|es| - 1]), es[|es| - 1])
  }

  /** The ring always holds the newest contiguous part of what was pushed. */
  lemma {:induction false} RingIsWindow(es: seq<Step>)
    ensures RingRun(es) == Window(Run(es)) && |RingRun(es)| <= 2047
  {
    if es != [] {
      RingIsWindow(es[..|es| - 1]);
      WindowMoves(Run(es[..|es| - 1]), es[|es| - 1]);
    }
  }

  lemma WindowMoves(h: History, e: Step)
    requires h.low <= |h.pushed| && |Window(h)| <= CAPACITY
    ensures RingAfter(Window(h), e) == Window(Next(h, e)) && |Window(Next(h, e))| <= CAPACITY
  {
    match e
    case Push(data) => PushedWindow(h.pushed, h.low, data);
    case Poll(room) =>
  }

  lemma PushedWindow(pushed: seq<byte>, low: nat, data: seq<byte>)
    requires low <= |pushed|
    ensures var all := pushed + data;
      Newest(pushed[low..] + data, CAPACITY) == all[if |all| - low > CAPACITY then |all| - CAPACITY else low..]
  {
    assert (pushed + data)[low..] == pushed[low..] + data;
  }

  /** The bytes one step sends, as the ring's methods promise it. */
  function SentBy(contents: seq<byte>, e: Step): seq<byte> {
    match e
    case Push(_) => []
    case Poll(room) => contents[..Sendable(|contents|, room)]
  }

  /** One step: a push keeps the newest 2047 bytes, a poll sends as many of the oldest as the UART takes, at most 512,
      and leaves the others. */
  lemma StepExactly(contents: seq<byte>, data: seq<byte>, room: nat)
    ensures var all := contents + data;
      RingAfter(contents, Push(data)) == if |all| <= 2047 then all else all[|all| - 2047..]
    ensures exists n ::
      && n <= |contents| && n <= room && n <= 512 && (n == |contents| || n == room || n == 512)
      && SentBy(contents, Poll(room)) == contents[..n] && RingAfter(contents, Poll(room)) == contents[n..]
  {
    var n := Sendable(|contents|, room);
    assert SentBy(contents, Poll(room)) == contents[..n];
  }

  /** All bytes a run sends. */
  function Sent(es: seq<Step>): seq<byte> {
    if es == [] then [] else Sent(es[..|es| - 1]) + SentBy(RingRun(es[..|es| - 1]), es[|es| - 1])
  }

  /** All bytes a run pushes. */
  function Pushed(es: seq<Step>): seq<byte> {
    if es == [] then []
    else Pushed(es[..|es| - 1]) + match es[|es| - 1] case Push(data) => data case Poll(_) => []
  }

  /** Positions that ascend and lie below the ring. */
  ghost predicate InOrder(h: History) {
    && h.low <= |h.pushed|
    && (forall i :: 0 <= i < |h.drained| ==> h.drained[i] < h.low)
    && forall i, j :: 0 <= i < j < |h.drained| ==> h.drained[i] < h.drained[j]
  }

  /** The bytes `sent` are the pushed bytes at the positions drained. */
  ghost predicate SentFrom(h: History, sent: seq<byte>) {
    && InOrder(h) && |sent| == |h.drained|
    && forall k :: 0 <= k < |sent| ==> sent[k] == h.pushed[h.drained[k]]
  }

  lemma PushKeepsSent(h: History, sent: seq<byte>, data: seq<byte>)
    requires SentFrom(h, sent)
    ensures SentFrom(Next(h, Push(data)), sent + [])
  {
    assert sent + [] == sent;
  }

  lemma PollKeepsOrder(h: History, room: nat)
    requires InOrder(h)
    ensures InOrder(Next(h, Poll(room)))
  {
  }

  lemma PollSends(h: History, sent: seq<byte>, room: nat)
    requires SentFrom(h, sent)
    ensures SentFrom(Next(h, Poll(room)), sent + SentBy(Window(h), Poll(room)))
  {
    PollKeepsOrder(h, room);
  }

  lemma {:induction false} PushedIsHistory(es: seq<Step>)
    ensures Run(es).pushed == Pushed(es)
  {
    if es != [] {
      PushedIsHistory(es[..|es| - 1]);
      assert Pushed(es[..|es| - 1]) + [] == Pushed(es[..|es| - 1]);
    }
  }

  lemma {:induction false} RunSends(es: seq<Step>)
    ensures SentFrom(Run(es), Sent(es))
  {
    if es != [] {
      var p := es[..|es| - 1];
      RunSends(p);
      RingIsWindow(p);
      match es[|es| - 1]
      case Push(data) => PushKeepsSent(Run(p), Sent(p), data);
      case Poll(room) => PollSends(Run(p), Sent(p), room);
    }
  }

  /** Positions that ascend and pick `sent` from `pushed`. */
  ghost predicate Picks(pushed: seq<byte>, at: seq<nat>, sent: seq<byte>) {
    && |at| == |sent|
    && (forall i :: 0 <= i < |at| ==> at[i] < |pushed| && sent[i] == pushed[at[i]])
    && forall i, j :: 0 <= i < j < |at| ==> at[i] < at[j]
  }

  /** Under any interleaving of pushes and polls the bytes sent are bytes pushed, in order and none twice. */
  lemma DrainedInOrder(es: seq<Step>)
    ensures exists at :: Picks(Pushed(es), at, Sent(es))
  {
    RunSends(es);
    PushedIsHistory(es);
    assert Picks(Pushed(es), Run(es).drained, Sent(es));
  }

  /** No push finds the ring too full for its bytes. */
  ghost predicate NeverFull(es: seq<Step>) {
    es != [] ==>
      && NeverFull(es[..|es| - 1])
      && (es[|es| - 1].Push? ==> |RingRun(es[..|es| - 1])| + |es[|es| - 1].data| <= 2047)
  }

  lemma {:induction false} NothingLost(es: seq<Step>)
    ensures NeverFull(es) ==> Run(es).drained == Positions(0, Run(es).low)
    ensures !NeverFull(es) ==> |Run(es).drained| < Run(es).low
    ensures |Run(es).drained| <= Run(es).low
  {
    if es != [] {
      NothingLost(es[..|es| - 1]);
      RingIsWindow(es[..|es| - 1]);
    }
  }

  lemma AllDrained(h: History, sent: seq<byte>)
    requires SentFrom(h, sent) && h.drained == Positions(0, h.low)
    ensures sent + Window(h) == h.pushed
  {
    assert sent == h.pushed[..h.low];
  }

  /** What was sent and what the ring still holds is everything ever pushed, exactly when no push overran the ring. */
  lemma LosslessExactly(es: seq<Step>)
    ensures Sent(es) + RingRun(es) == Pushed(es) <==> NeverFull(es)
  {
    NothingLost(es);
    RunSends(es);
    RingIsWindow(es);
    PushedIsHistory(es);
    var h := Run(es);
    if NeverFull(es) {
      AllDrained(h, Sent(es));
    } else {
      assert |Sent(es) + RingRun(es)| < |h.pushed|;
    }
  }
}
