/** The receiver's side as values: the frame assembler and the message splitter of `bidib_client_parser.c`. */
module Assembler {
  import opened Bytes
  import opened Crc8

  const PAKET_SIZE: nat := 64

  datatype Phase = Idle | GetLen | Collect

  /** `bidib_rx_state`, `bidib_rx_paket`, `bidib_rx_index` (an 8-bit counter) and `bidib_rx_crc`. */
  datatype State = State(phase: Phase, paket: seq<byte>, index: nat, crc: byte)

  predicate WellFormed(a: State) {
    |a.paket| == PAKET_SIZE && a.index < 256
  }

  // ---- The splitter ----

  /** How the splitter's loop ends. `Overrun`: it would read behind the packet array, whose content is not modelled.
      */
  datatype End = Complete | BadLength | Overrun

  datatype Parsed = Parsed(msgs: seq<seq<byte>>, end: End)

  /** The bytes of the packet array a message at index `i` with size byte `length` occupies. */
  function MessageAt(paket: seq<byte>, i: nat, length: nat): seq<byte>
    requires |paket| == PAKET_SIZE && i < PAKET_SIZE
  {
    paket[i..if i + length + 1 <= PAKET_SIZE then i + length + 1 else PAKET_SIZE]
  }

  /** `bidib_parser` from index `i` on: the messages handed to `process_bidib_message`. That function reports a bad
      length as 128, which is also what it returns for a message of length 127. */
  function Split(paket: seq<byte>, i: nat, total: nat): (p: Parsed)
    requires |paket| == PAKET_SIZE
    decreases total - i
  {
    if i >= total then Parsed([], Complete)
    else if i >= PAKET_SIZE then Parsed([], Overrun)
    else
      var length := paket[i] as nat;
      if length == 0 || length >= 128 then Parsed([], BadLength)
      else if length + 1 == 128 then Parsed([MessageAt(paket, i, length)], BadLength)
      else
        var rest := Split(paket, i + length + 1, total);
        Parsed([MessageAt(paket, i, length)] + rest.msgs, rest.end)
  }

  function Parse(paket: seq<byte>): Parsed
    requires |paket| == PAKET_SIZE
  {
    Split(paket, 1, paket[0] as nat)
  }

  // ---- The assembler ----

  /** One pass of the loop in `run_bidib_client`. The flag tells whether `bidib_parser` is called on the packet. */
  function Take(a: State, w: Word): (r: (State, bool))
    requires WellFormed(a)
    ensures WellFormed(r.0)
  {
    match a.phase
    case Idle =>
      (if w.idBit && w.data == 0 then a.(phase := GetLen) else a, false)
    case GetLen =>
      if !w.idBit && w.data > 0 then
        (State(Collect, a.paket[0 := w.data], 1, Absorb(0, w.data)), false)
      else (a.(phase := Idle), false)
    case Collect =>
      if a.index <= a.paket[0] as nat then
        (State(Collect, if a.index < PAKET_SIZE then a.paket[a.index := w.data] else a.paket,
               (a.index + 1) % 256, Absorb(a.crc, w.data)), false)
      else (a.(phase := Idle), Absorb(a.crc, w.data) == 0)
  }

  /** The assembler after a stream of words, and the messages dispatched on the way. */
  datatype Fed = Fed(asm: State, msgs: seq<seq<byte>>)

  function Step(f: Fed, w: Word): (r: Fed)
    requires WellFormed(f.asm)
    ensures WellFormed(r.asm)
  {
    var (b, complete) := Take(f.asm, w);
    Fed(b, f.msgs + if complete then Parse(b.paket).msgs else [])
  }

  function Feed(a: State, ws: seq<Word>): (r: Fed)
    requires WellFormed(a)
    ensures WellFormed(r.asm)
  {
    if ws == [] then Fed(a, []) else Step(Feed(a, ws[..|ws| - 1]), ws[|ws| - 1])
  }

  lemma FeedSnoc(a: State, ws: seq<Word>, w: Word)
    requires WellFormed(a)
    ensures Feed(a, ws + [w]) == Step(Feed(a, ws), w)
  {
    assert (ws + [w])[..|ws|] == ws;
  }

  /** A piece fed after another one. */
  function Then(f: Fed, g: Fed): Fed {
    Fed(g.asm, f.msgs + g.msgs)
  }

  lemma Unchanged(f: Fed)
    ensures Then(f, Fed(f.asm, [])) == f
  {
  }

  lemma StepAfter(f: Fed, g: Fed, w: Word)
    requires WellFormed(g.asm)
    ensures Step(Then(f, g), w) == Then(f, Step(g, w))
  {
    var (b, complete) := Take(g.asm, w);
    Regrouped(f.msgs, g.msgs, if complete then Parse(b.paket).msgs else []);
  }

  lemma FeedLast(a: State, v: seq<Word>, c: seq<Word>, x: Word)
    requires WellFormed(a) && Feed(a, v + c) == Then(Feed(a, v), Feed(Feed(a, v).asm, c))
    ensures Feed(a, (v + c) + [x]) == Then(Feed(a, v), Feed(Feed(a, v).asm, c + [x]))
  {
    FeedSnoc(a, v + c, x);
    FeedSnoc(Feed(a, v).asm, c, x);
    StepAfter(Feed(a, v), Feed(Feed(a, v).asm, c), x);
  }

  /** Feeding in pieces dispatches the same messages. */
  lemma {:induction false} FeedConcat(a: State, v: seq<Word>, w: seq<Word>)
    requires WellFormed(a)
    ensures Feed(a, v + w) == Then(Feed(a, v), Feed(Feed(a, v).asm, w))
  {
    if w == [] {
      assert v + w == v;
      Unchanged(Feed(a, v));
    } else {
      var c, x := w[..|w| - 1], w[|w| - 1];
      FeedConcat(a, v, c);
      SnocConcat(v, w);
      FeedLast(a, v, c, x);
    }
  }

  /** Index and CRC only matter while a frame is collected; the splitter reuses the index. */
  ghost predicate Alike(a: State, b: State) {
    && WellFormed(a) && WellFormed(b) && a.phase == b.phase && a.paket == b.paket
    && (a.phase == Collect ==> a.index == b.index && a.crc == b.crc)
  }

  lemma AlikeTake(a: State, b: State, w: Word)
    requires Alike(a, b)
    ensures Alike(Take(a, w).0, Take(b, w).0) && Take(a, w).1 == Take(b, w).1
  {
  }
}
