/** What the receiver makes of a frame: delivery, error detection, splitting, resynchronisation. */
module Reception {
  import opened Bytes
  import opened Crc8
  import opened Assembler
  import Bus

  /** The word behind which the parser expects a packet: id bit set, data 0. */
  const START_WORD: Word := Word(0, true)

  function DataWords(bytes: seq<byte>): (ws: seq<Word>)
    ensures |ws| == |bytes|
  {
    if bytes == [] then [] else DataWords(bytes[..|bytes| - 1]) + [Word(bytes[|bytes| - 1], false)]
  }

  lemma DataWordsSnoc(bytes: seq<byte>, b: byte)
    ensures DataWords(bytes + [b]) == DataWords(bytes) + [Word(b, false)]
  {
    assert (bytes + [b])[..|bytes|] == bytes;
  }

  /** A byte string shaped like a frame: P_LENGTH, that many bytes, one more. */
  ghost predicate FrameShaped(f: seq<byte>) {
    f != [] && 1 <= f[0] as nat <= 254 && |f| == f[0] as nat + 2
  }

  // ---- Collecting a frame ----

  /** `k` bytes of frame `f` went through the assembler. */
  ghost predicate Collecting(a: State, f: seq<byte>, k: nat)
    requires FrameShaped(f) && 1 <= k < |f|
  {
    && WellFormed(a) && a.phase == Collect && a.index == k && a.crc == Fold(0, f[..k])
    && forall j :: 0 <= j < k && j < PAKET_SIZE ==> a.paket[j] == f[j]
  }

  lemma TakesData(a: State, b: byte)
    requires WellFormed(a) && a.phase == Collect && a.index <= a.paket[0] as nat && a.index < 255
    ensures var (r, complete) := Take(a, Word(b, false));
      && !complete && r.phase == Collect && r.index == a.index + 1 && r.crc == Absorb(a.crc, b)
      && r.paket == if a.index < PAKET_SIZE then a.paket[a.index := b] else a.paket
  {
  }

  lemma FoldNext(f: seq<byte>, k: nat)
    requires k < |f|
    ensures Fold(0, f[..k + 1]) == Absorb(Fold(0, f[..k]), f[k])
  {
    assert f[..k + 1][..k] == f[..k];
  }

  lemma CollectOne(a: State, f: seq<byte>, k: nat)
    requires FrameShaped(f) && 1 <= k && k + 1 < |f| && Collecting(a, f, k)
    ensures !Take(a, Word(f[k], false)).1 && Collecting(Take(a, Word(f[k], false)).0, f, k + 1)
  {
    FoldNext(f, k);
    TakesData(a, f[k]);
  }

  function Behind(f: seq<byte>): seq<Word> {
    [START_WORD] + DataWords(f)
  }

  lemma BehindSnoc(f: seq<byte>, k: nat)
    requires k < |f|
    ensures Behind(f[..k + 1]) == Behind(f[..k]) + [Word(f[k], false)]
  {
    DataWordsSnoc(f[..k], f[k]);
    assert f[..k + 1] == f[..k] + [f[k]];
  }

  lemma FirstTwo(a: State, b: byte)
    requires WellFormed(a) && a.phase == Idle
    ensures Feed(a, Behind([b])) == Step(Step(Fed(a, []), START_WORD), Word(b, false))
  {
    FeedSnoc(a, [], START_WORD);
    FeedSnoc(a, [START_WORD], Word(b, false));
    DataWordsSnoc([], b);
    assert [] + [START_WORD] == [START_WORD];
    assert [] + [b] == [b];
    assert Behind([b]) == [START_WORD] + [Word(b, false)];
  }

  lemma CollectsFirst(a: State, f: seq<byte>)
    requires FrameShaped(f) && WellFormed(a) && a.phase == Idle
    ensures Collecting(Feed(a, Behind(f[..1])).asm, f, 1) && Feed(a, Behind(f[..1])).msgs == []
  {
    FirstTwo(a, f[0]);
    assert f[..1] == [f[0]];
    FoldSnoc(0, [], f[0]);
  }

  lemma {:induction false} CollectsPrefix(a: State, f: seq<byte>, k: nat)
    requires FrameShaped(f) && WellFormed(a) && a.phase == Idle && 1 <= k < |f|
    ensures Collecting(Feed(a, Behind(f[..k])).asm, f, k) && Feed(a, Behind(f[..k])).msgs == []
  {
    if k == 1 {
      CollectsFirst(a, f);
    } else {
      CollectsPrefix(a, f, k - 1);
      BehindSnoc(f, k - 1);
      FeedSnoc(a, Behind(f[..k - 1]), Word(f[k - 1], false));
      CollectOne(Feed(a, Behind(f[..k - 1])).asm, f, k - 1);
    }
  }

  lemma CloseFrame(a: State, f: seq<byte>)
    requires FrameShaped(f) && Collecting(a, f, |f| - 1)
    ensures Take(a, Word(f[|f| - 1], false)) == (a.(phase := Idle), Fold(0, f) == 0)
  {
    FoldLast(f);
    TakesCrc(a, f[|f| - 1]);
  }

  lemma FoldLast(f: seq<byte>)
    requires f != []
    ensures Fold(0, f) == Absorb(Fold(0, f[..|f| - 1]), f[|f| - 1])
  {
  }

  lemma TakesCrc(a: State, b: byte)
    requires WellFormed(a) && a.phase == Collect && a.index == a.paket[0] as nat + 1
    ensures Take(a, Word(b, false)) == (a.(phase := Idle), Absorb(a.crc, b) == 0)
  {
  }

  /** The packet array starts with the bytes of the frame, without its CRC. */
  ghost predicate Captured(paket: seq<byte>, f: seq<byte>) {
    |paket| == PAKET_SIZE && forall j :: 0 <= j < |f| - 1 && j < PAKET_SIZE ==> paket[j] == f[j]
  }

  /** A complete frame leaves the assembler idle and is parsed exactly when its residue is zero. */
  lemma FrameChecked(a: State, f: seq<byte>)
    requires FrameShaped(f) && WellFormed(a) && a.phase == Idle
    ensures var r := Feed(a, Behind(f));
      && r.asm.phase == Idle && Captured(r.asm.paket, f)
      && r.msgs == if Fold(0, f) == 0 then Parse(r.asm.paket).msgs else []
  {
    var k := |f| - 1;
    CollectsPrefix(a, f, k);
    CloseFrame(Feed(a, Behind(f[..k])).asm, f);
    BehindSnoc(f, k);
    assert f[..k + 1] == f;
    FeedSnoc(a, Behind(f[..k]), Word(f[k], false));
  }

  // ---- Splitting ----

  /** A message as the splitter understands it: a size byte and that many bytes behind it. */
  ghost predicate Sized(m: seq<byte>) {
    2 <= |m| <= 127 && m[0] as nat + 1 == |m|
  }

  ghost predicate AllSized(ms: seq<seq<byte>>) {
    forall m :: m in ms ==> Sized(m)
  }

  /** The packet array begins, behind P_LENGTH, with the messages. */
  ghost predicate Fronts(paket: seq<byte>, ms: seq<seq<byte>>) {
    |paket| == PAKET_SIZE && |Flatten(ms)| < PAKET_SIZE && paket[1..1 + |Flatten(ms)|] == Flatten(ms)
  }

  /** The packet array holds P_LENGTH and the messages behind it. */
  ghost predicate Holds(paket: seq<byte>, ms: seq<seq<byte>>) {
    Fronts(paket, ms) && paket[0] as nat == |Flatten(ms)|
  }

  lemma MessageInFlat(ms: seq<seq<byte>>, k: nat)
    requires k < |ms|
    ensures var i := |Flatten(ms[..k])|;
      && |Flatten(ms[..k + 1])| == i + |ms[k]| <= |Flatten(ms)|
      && Flatten(ms)[i..i + |ms[k]|] == ms[k]
  {
    var i := |Flatten(ms[..k])|;
    FlattenSnoc(ms[..k], ms[k]);
    assert ms[..k + 1] == ms[..k] + [ms[k]];
    FlattenConcat(ms[..k + 1], ms[k + 1..]);
    assert ms == ms[..k + 1] + ms[k + 1..];
    assert (Flatten(ms[..k]) + ms[k])[i..i + |ms[k]|] == ms[k];
  }

  lemma MessageInPaket(paket: seq<byte>, ms: seq<seq<byte>>, k: nat)
    requires Fronts(paket, ms) && k < |ms|
    ensures var i := 1 + |Flatten(ms[..k])|;
      && 1 + |Flatten(ms[..k + 1])| == i + |ms[k]| <= 1 + |Flatten(ms)| && paket[i..i + |ms[k]|] == ms[k]
  {
    MessageInFlat(ms, k);
    SliceOfSlice(paket, 1, 1 + |Flatten(ms)|, |Flatten(ms[..k])|, |Flatten(ms[..k])| + |ms[k]|);
  }

  lemma SplitHead(paket: seq<byte>, i: nat, total: nat, m: seq<byte>)
    requires |paket| == PAKET_SIZE && i < total && i + |m| <= PAKET_SIZE && Sized(m) && paket[i..i + |m|] == m
    ensures var rest := Split(paket, i + |m|, total); Split(paket, i, total) == Parsed([m] + rest.msgs, rest.end)
  {
    assert paket[i] == paket[i..i + |m|][0];
  }

  /** The splitter from message `k` on. */
  function SplitFrom(paket: seq<byte>, ms: seq<seq<byte>>, total: nat, k: nat): Parsed
    requires Fronts(paket, ms) && k <= |ms|
  {
    Split(paket, 1 + |Flatten(ms[..k])|, total)
  }

  lemma SplitsOne(paket: seq<byte>, ms: seq<seq<byte>>, total: nat, k: nat)
    requires Fronts(paket, ms) && AllSized(ms) && |Flatten(ms)| <= total && k < |ms|
    ensures var rest := SplitFrom(paket, ms, total, k + 1);
      SplitFrom(paket, ms, total, k) == Parsed([ms[k]] + rest.msgs, rest.end)
  {
    MessageInPaket(paket, ms, k);
    assert ms[k] in ms && Sized(ms[k]);
    SplitHead(paket, 1 + |Flatten(ms[..k])|, total, ms[k]);
  }

  lemma {:induction false} SplitsRest(paket: seq<byte>, ms: seq<seq<byte>>, total: nat, k: nat)
    requires Fronts(paket, ms) && AllSized(ms) && |Flatten(ms)| <= total && k <= |ms|
    ensures var rest := SplitFrom(paket, ms, total, |ms|);
      SplitFrom(paket, ms, total, k) == Parsed(ms[k..] + rest.msgs, rest.end)
    decreases |ms| - k
  {
    var rest := SplitFrom(paket, ms, total, |ms|);
    if k == |ms| {
      assert ms[k..] + rest.msgs == rest.msgs;
    } else {
      SplitsOne(paket, ms, total, k);
      SplitsRest(paket, ms, total, k + 1);
      FirstBack(ms, k, rest.msgs);
    }
  }

  lemma FirstBack<T>(ms: seq<T>, k: nat, rest: seq<T>)
    requires k < |ms|
    ensures [ms[k]] + (ms[k + 1..] + rest) == ms[k..] + rest
  {
    HeadAndRest(ms, k);
    Regrouped([ms[k]], ms[k + 1..], rest);
  }

  lemma SplitsAll(paket: seq<byte>, ms: seq<seq<byte>>, total: nat)
    requires Fronts(paket, ms) && AllSized(ms) && |Flatten(ms)| <= total
    ensures var rest := Split(paket, 1 + |Flatten(ms)|, total);
      Split(paket, 1, total) == Parsed(ms + rest.msgs, rest.end)
  {
    SplitsRest(paket, ms, total, 0);
    assert ms[..0] == [] && ms[0..] == ms && ms[..|ms|] == ms;
  }

  /** A packet that is a concatenation of messages is dispatched as exactly that list, in order. */
  lemma ParsesMessages(paket: seq<byte>, ms: seq<seq<byte>>)
    requires Holds(paket, ms) && AllSized(ms)
    ensures Parse(paket) == Parsed(ms, Complete)
  {
    SplitsAll(paket, ms, paket[0] as nat);
    assert ms + [] == ms;
  }

  /** Messages in front of an impossible size byte are dispatched, and nothing behind it. */
  lemma BadLengthEndsPacket(paket: seq<byte>, ms: seq<seq<byte>>, b: byte)
    requires Fronts(paket, ms) && AllSized(ms) && |Flatten(ms)| < PAKET_SIZE - 1 && |Flatten(ms)| < paket[0] as nat
    requires paket[1 + |Flatten(ms)|] == b && (b == 0 || b >= 128)
    ensures Parse(paket) == if 1 + |Flatten(ms)| < paket[0] as nat then Parsed(ms, BadLength) else Parsed(ms, Complete)
  {
    SplitsAll(paket, ms, paket[0] as nat);
    assert ms + [] == ms;
  }

  lemma {:induction false} SplitStaysInside(paket: seq<byte>, i: nat, total: nat)
    requires |paket| == PAKET_SIZE && total <= PAKET_SIZE
    ensures Split(paket, i, total).end != Overrun
    decreases total - i
  {
    if i < total {
      SplitStaysInside(paket, i + paket[i] as nat + 1, total);
    }
  }

  /** The splitter stays inside the packet array whatever it contains exactly when P_LENGTH is at most 64. */
  lemma SplitterStaysInside(total: nat)
    ensures total <= PAKET_SIZE <==> forall p: seq<byte> :: |p| == PAKET_SIZE ==> Split(p, 1, total).end != Overrun
  {
    if total <= PAKET_SIZE {
      forall p: seq<byte> | |p| == PAKET_SIZE ensures Split(p, 1, total).end != Overrun {
        SplitStaysInside(p, 1, total);
      }
    } else {
      var p: seq<byte> := seq(PAKET_SIZE, _ => 62);
      assert Split(p, 64, total).end == Overrun;
      assert Split(p, 1, total).end == Overrun;
    }
  }

  /** The frame of a payload is shaped like one. */
  lemma FrameIsShaped(payload: seq<byte>)
    requires 1 <= |payload| <= 254
    ensures FrameShaped(Bus.Frame(payload)) && Bus.Frame(payload)[1..1 + |payload|] == payload
  {
  }

  lemma CapturedHolds(paket: seq<byte>, ms: seq<seq<byte>>)
    requires 1 <= |Flatten(ms)| < PAKET_SIZE && Captured(paket, Bus.Frame(Flatten(ms)))
    ensures Holds(paket, ms)
  {
    var p := Flatten(ms);
    var f := Bus.Frame(p);
    FrameIsShaped(p);
    assert paket[1..1 + |p|] == f[1..1 + |p|];
  }

  /** Round trip: a frame of messages, behind the start word, is delivered as exactly those messages. */
  lemma DeliversFrame(a: State, ms: seq<seq<byte>>)
    requires WellFormed(a) && a.phase == Idle && AllSized(ms) && 1 <= |Flatten(ms)| < PAKET_SIZE
    ensures Feed(a, Behind(Bus.Frame(Flatten(ms)))).asm.phase == Idle
    ensures Feed(a, Behind(Bus.Frame(Flatten(ms)))).msgs == ms
  {
    var f := Bus.Frame(Flatten(ms));
    FrameIsShaped(Flatten(ms));
    FrameChecked(a, f);
    var r := Feed(a, Behind(f));
    CapturedHolds(r.asm.paket, ms);
    ParsesMessages(r.asm.paket, ms);
  }

  /** The bytes dispatched are bytes of the packet array. */
  lemma {:induction false} SplitIsShort(paket: seq<byte>, i: nat, total: nat)
    requires |paket| == PAKET_SIZE && i <= PAKET_SIZE
    ensures |Flatten(Split(paket, i, total).msgs)| <= PAKET_SIZE - i
    decreases total - i
  {
    if i < total && i < PAKET_SIZE {
      var length := paket[i] as nat;
      var m := MessageAt(paket, i, length);
      if 0 < length < 127 {
        var next := i + length + 1;
        if next <= PAKET_SIZE {
          SplitIsShort(paket, next, total);
        } else {
          assert Split(paket, next, total).msgs == [];
        }
        FlattenHead(m, Split(paket, next, total).msgs);
      } else if length == 127 {
        FlattenHead(m, []);
      }
    }
  }

  lemma FlattenHead(m: seq<byte>, rest: seq<seq<byte>>)
    ensures Flatten([m] + rest) == m + Flatten(rest)
  {
    FlattenConcat([m], rest);
    FlattenSnoc([], m);
    assert [] + [m] == [m];
  }

  /** The receiver delivers a frame of messages exactly when its P_LENGTH is at most 63. */
  lemma DeliversExactly(a: State, ms: seq<seq<byte>>)
    requires WellFormed(a) && a.phase == Idle && AllSized(ms) && 1 <= |Flatten(ms)| <= 254
    ensures Feed(a, Behind(Bus.Frame(Flatten(ms)))).msgs == ms <==> |Flatten(ms)| < PAKET_SIZE
  {
    if |Flatten(ms)| < PAKET_SIZE {
      DeliversFrame(a, ms);
    } else {
      var f := Bus.Frame(Flatten(ms));
      FrameIsShaped(Flatten(ms));
      FrameChecked(a, f);
      var paket := Feed(a, Behind(f)).asm.paket;
      SplitIsShort(paket, 1, paket[0] as nat);
    }
  }

  // ---- Corrupted frames ----

  lemma CorruptedIsShaped(f: seq<byte>, error: seq<byte>)
    requires FrameShaped(f) && |error| == |f| && error[0] == 0
    ensures FrameShaped(XorBytes(f, error))
  {
    XorHead(f, error);
    XorWithZero(f[0]);
  }

  lemma {:induction false} XorHead(f: seq<byte>, error: seq<byte>)
    requires f != [] && |error| == |f|
    ensures XorBytes(f, error)[0] == Xor(f[0], error[0])
  {
    if |f| > 1 {
      XorHead(f[..|f| - 1], error[..|f| - 1]);
    }
  }

  /** Which error patterns the CRC is sure to notice: an odd number of flipped bits, a burst of at most eight, or two
      flipped bits whose distance is no multiple of 127. */
  ghost predicate Noticeable(error: seq<byte>) {
    || OddWeight(Bits(error))
    || (exists from: nat, to: nat :: BurstWithin(Bits(error), from, to))
    || (exists i: nat, j: nat :: OnlyAt(Bits(error), i, j) && (j - i) % 127 != 0)
  }

  ghost predicate BurstWithin(bits: seq<bool>, from: nat, to: nat) {
    from <= to <= |bits| && to - from <= 8 && !Silent(bits) && Silent(bits[..from]) && Silent(bits[to..])
  }

  /** A frame corrupted behind its length byte is dropped whole, and the assembler is ready for the next one. */
  lemma CorruptedFrameDropped(a: State, f: seq<byte>, error: seq<byte>)
    requires WellFormed(a) && a.phase == Idle && FrameShaped(f) && Fold(0, f) == 0
    requires |error| == |f| && error[0] == 0 && Noticeable(error)
    ensures Feed(a, Behind(XorBytes(f, error))).asm.phase == Idle
    ensures Feed(a, Behind(XorBytes(f, error))).msgs == []
  {
    CorruptedIsShaped(f, error);
    if OddWeight(Bits(error)) {
      OddErrorsDetected(f, error);
    } else if from: nat, to: nat :| BurstWithin(Bits(error), from, to) {
      BurstsDetected(f, error, from, to);
    } else {
      var i: nat, j: nat :| OnlyAt(Bits(error), i, j) && (j - i) % 127 != 0;
      DoubleErrorsDetected(f, error, i, j);
    }
    FrameChecked(a, XorBytes(f, error));
  }

  // ---- Resynchronisation ----

  lemma BoundsKept(a: State, w: Word)
    requires WellFormed(a) && Bounded(a)
    ensures Bounded(Take(a, w).0)
  {
  }

  /** The index of a collecting assembler lies between 1 and the CRC's place, unless P_LENGTH is 255. */
  ghost predicate Bounded(a: State)
    requires WellFormed(a)
  {
    a.phase == Collect && a.paket[0] != 255 ==> 1 <= a.index <= a.paket[0] as nat + 1
  }

  /** Every state an idle assembler reaches is bounded, whatever it hears. */
  lemma {:induction false} AlwaysBounded(a: State, ws: seq<Word>)
    requires WellFormed(a) && Bounded(a)
    ensures Bounded(Feed(a, ws).asm)
  {
    if ws != [] {
      AlwaysBounded(a, ws[..|ws| - 1]);
      BoundsKept(Feed(a, ws[..|ws| - 1]).asm, ws[|ws| - 1]);
    }
  }

  /** Words a collecting assembler still consumes before it is idle again. */
  function WordsToIdle(a: State): nat
    requires WellFormed(a) && a.phase == Collect && a.index <= a.paket[0] as nat + 1
  {
    a.paket[0] as nat + 2 - a.index
  }

  lemma TakesAny(f: Fed, w: Word)
    requires WellFormed(f.asm) && f.asm.phase == Collect
    requires 1 <= f.asm.index <= f.asm.paket[0] as nat && f.asm.index < 255
    ensures var r := Step(f, w);
      r.asm.phase == Collect && r.asm.paket[0] == f.asm.paket[0] && r.asm.index == f.asm.index + 1 && r.msgs == f.msgs
  {
    assert f.msgs + [] == f.msgs;
  }

  lemma {:induction false} StillCollecting(a: State, ws: seq<Word>)
    requires WellFormed(a) && a.phase == Collect && 1 <= a.index <= a.paket[0] as nat + 1 && a.paket[0] != 255
    requires |ws| < WordsToIdle(a)
    ensures var b := Feed(a, ws).asm;
      b.phase == Collect && b.paket[0] == a.paket[0] && b.index == a.index + |ws| && Feed(a, ws).msgs == []
  {
    if ws != [] {
      var n := |ws| - 1;
      StillCollecting(a, ws[..n]);
      TakesAny(Feed(a, ws[..n]), ws[n]);
    }
  }

  ghost predicate SameData(v: seq<Word>, w: seq<Word>) {
    |v| == |w| && forall i :: 0 <= i < |v| ==> v[i].data == w[i].data
  }

  /** Inside a frame the id bits do not count: up to its end an assembler is led to the same state, and to the same
      messages, by any words with the same data. */
  lemma {:induction false} IdBitsIgnored(a: State, v: seq<Word>, w: seq<Word>)
    requires WellFormed(a) && a.phase == Collect && 1 <= a.index <= a.paket[0] as nat + 1 && a.paket[0] != 255
    requires SameData(v, w) && |v| <= WordsToIdle(a)
    ensures Feed(a, v) == Feed(a, w)
  {
    if v != [] {
      var n := |v| - 1;
      IdBitsIgnored(a, v[..n], w[..n]);
      StillCollecting(a, v[..n]);
      DataDecides(Feed(a, v[..n]), v[n], w[n]);
    }
  }

  lemma DataDecides(f: Fed, v: Word, w: Word)
    requires WellFormed(f.asm) && f.asm.phase == Collect && v.data == w.data
    ensures Step(f, v) == Step(f, w)
  {
  }

  /** Whatever arrives, a collecting assembler is idle after exactly the words its P_LENGTH announced, and then
      delivers the next frame unchanged and once. */
  lemma Resynchronises(a: State, noise: seq<Word>, ms: seq<seq<byte>>)
    requires WellFormed(a) && Bounded(a) && a.phase == Collect && a.paket[0] != 255
    requires |noise| == WordsToIdle(a) && AllSized(ms) && 1 <= |Flatten(ms)| < PAKET_SIZE
    ensures forall k :: 0 <= k < |noise| ==> Feed(a, noise[..k]).asm.phase == Collect
    ensures Feed(a, noise).asm.phase == Idle
    ensures Feed(a, noise + Behind(Bus.Frame(Flatten(ms)))).msgs == Feed(a, noise).msgs + ms
  {
    forall k | 0 <= k < |noise| ensures Feed(a, noise[..k]).asm.phase == Collect {
      StillCollecting(a, noise[..k]);
    }
    IdleAfterNoise(a, noise);
    DeliversAfter(a, noise, ms);
  }

  lemma IdleAfterNoise(a: State, noise: seq<Word>)
    requires WellFormed(a) && Bounded(a) && a.phase == Collect && a.paket[0] != 255 && |noise| == WordsToIdle(a)
    ensures Feed(a, noise).asm.phase == Idle
  {
    StillCollecting(a, noise[..|noise| - 1]);
  }

  lemma DeliversAfter(a: State, noise: seq<Word>, ms: seq<seq<byte>>)
    requires WellFormed(a) && Feed(a, noise).asm.phase == Idle && AllSized(ms) && 1 <= |Flatten(ms)| < PAKET_SIZE
    ensures Feed(a, noise + Behind(Bus.Frame(Flatten(ms)))).msgs == Feed(a, noise).msgs + ms
  {
    FeedConcat(a, noise, Behind(Bus.Frame(Flatten(ms))));
    DeliversFrame(Feed(a, noise).asm, ms);
  }

  // ---- Waiting for the length ----

  lemma FeedFirst(a: State, w: Word, ws: seq<Word>)
    requires WellFormed(a) && !Take(a, w).1
    ensures Feed(a, [w] + ws) == Feed(Take(a, w).0, ws)
  {
    FeedConcat(a, [w], ws);
    FeedSnoc(a, [], w);
    assert [] + [w] == [w];
  }

  /** An assembler that waits for the length is idle at once if the word is none, and otherwise collects as many
      words as it says, and the CRC. */
  lemma FirstWordDecides(a: State, w: Word, noise: seq<Word>)
    requires WellFormed(a) && a.phase == GetLen && w.data != 255
    requires |noise| == if w.idBit || w.data == 0 then 0 else w.data as nat + 1
    ensures forall k :: 0 <= k < |noise| ==> Feed(a, [w] + noise[..k]).asm.phase == Collect
    ensures Feed(a, [w] + noise).asm.phase == Idle && (noise == [] ==> Feed(a, [w] + noise).msgs == [])
  {
    FeedFirst(a, w, noise);
    var b := Take(a, w).0;
    if !w.idBit && w.data != 0 {
      forall k | 0 <= k < |noise| ensures Feed(a, [w] + noise[..k]).asm.phase == Collect {
        FeedFirst(a, w, noise[..k]);
        StillCollecting(b, noise[..k]);
      }
      IdleAfterNoise(b, noise);
    }
  }

  lemma {:induction false} IdleIgnoresData(a: State, bytes: seq<byte>)
    requires WellFormed(a) && a.phase == Idle
    ensures Feed(a, DataWords(bytes)) == Fed(a, [])
  {
    if bytes != [] {
      var n := |bytes| - 1;
      IdleIgnoresData(a, bytes[..n]);
      FeedSnoc(a, DataWords(bytes[..n]), Word(bytes[n], false));
    }
  }

  /** A frame that finds the assembler waiting for a length is lost whole, since its start word is taken for that
      length; the frame behind it is delivered. */
  lemma LengthWaiterLosesFrame(a: State, f: seq<byte>, ms: seq<seq<byte>>)
    requires WellFormed(a) && a.phase == GetLen && AllSized(ms) && 1 <= |Flatten(ms)| < PAKET_SIZE
    ensures Feed(a, Behind(f)).asm.phase == Idle && Feed(a, Behind(f)).msgs == []
    ensures Feed(a, Behind(f) + Behind(Bus.Frame(Flatten(ms)))).msgs == ms
  {
    FeedFirst(a, START_WORD, DataWords(f));
    IdleIgnoresData(Take(a, START_WORD).0, f);
    DeliversAfter(a, Behind(f), ms);
    assert [] + ms == ms;
  }

  /** Every stream of `n` words brings the assembler back to idle at some point. */
  ghost predicate IdleWithin(a: State, n: nat)
    requires WellFormed(a)
  {
    forall ws: seq<Word> :: |ws| == n ==> MeetsIdle(a, ws)
  }

  ghost predicate MeetsIdle(a: State, ws: seq<Word>)
    requires WellFormed(a)
  {
    exists k :: 0 <= k <= |ws| && Feed(a, ws[..k]).asm.phase == Idle
  }

  lemma ComesIdle(a: State)
    requires WellFormed(a) && Bounded(a) && a.phase == Collect && a.paket[0] != 255
    ensures IdleWithin(a, WordsToIdle(a))
  {
    forall ws: seq<Word> | |ws| == WordsToIdle(a) ensures MeetsIdle(a, ws) {
      IdleAfterNoise(a, ws);
      IdleAtTheEnd(a, ws);
    }
  }

  lemma IdleAtTheEnd(a: State, ws: seq<Word>)
    requires WellFormed(a) && Feed(a, ws).asm.phase == Idle
    ensures MeetsIdle(a, ws)
  {
    assert ws[..|ws|] == ws;
  }

  const ALL_ONES: Word := Word(255, false)

  function AllOnes(n: nat): (ws: seq<Word>)
    ensures |ws| == n && forall k :: 0 <= k <= n ==> ws[..k] == AllOnes(k)
  {
    if n == 0 then [] else AllOnes(n - 1) + [ALL_ONES]
  }

  lemma WrapsOn(a: State)
    requires WellFormed(a) && a.phase == Collect && a.paket[0] == 255
    ensures var r := Take(a, ALL_ONES).0; r.phase == Collect && r.paket[0] == 255
  {
  }

  /** With P_LENGTH 255 the 8-bit index wraps and the length cell is overwritten, so 0xFF words keep the assembler
      busy. */
  lemma {:induction false} WrappedIndexStarves(a: State, n: nat)
    requires WellFormed(a) && a.phase == Collect && a.paket[0] == 255
    ensures var b := Feed(a, AllOnes(n)).asm; b.phase == Collect && b.paket[0] == 255
  {
    if n > 0 {
      WrappedIndexStarves(a, n - 1);
      FeedSnoc(a, AllOnes(n - 1), ALL_ONES);
      WrapsOn(Feed(a, AllOnes(n - 1)).asm);
    }
  }

  /** The same from a state that waits for the length. */
  lemma {:induction false} LengthWaiterStarves(a: State, n: nat)
    requires WellFormed(a) && a.phase == GetLen
    ensures var b := Feed(a, AllOnes(n)).asm;
      if n == 0 then b == a else b.phase == Collect && b.paket[0] == 255
  {
    if n > 0 {
      LengthWaiterStarves(a, n - 1);
      FeedSnoc(a, AllOnes(n - 1), ALL_ONES);
      if n > 1 {
        WrapsOn(Feed(a, AllOnes(n - 1)).asm);
      }
    }
  }

  lemma NeverIdle(a: State, n: nat)
    requires WellFormed(a) && (a.phase == GetLen || (a.phase == Collect && a.paket[0] == 255))
    ensures !IdleWithin(a, n)
  {
    forall k | 0 <= k <= n ensures Feed(a, AllOnes(n)[..k]).asm.phase != Idle {
      if a.phase == GetLen {
        LengthWaiterStarves(a, k);
      } else {
        WrappedIndexStarves(a, k);
      }
    }
    assert !MeetsIdle(a, AllOnes(n));
  }

  /** Whatever is heard, an assembler is sure to be idle again within a bounded number of words exactly when it is
      idle, or collects a frame whose P_LENGTH is not 255; one that waits for a length may be given 255. */
  lemma ResyncExactly(a: State)
    requires WellFormed(a) && Bounded(a)
    ensures (exists n :: IdleWithin(a, n)) <==> a.phase == Idle || (a.phase == Collect && a.paket[0] != 255)
  {
    if a.phase == Idle {
      AlreadyIdle(a);
    } else if a.phase == Collect && a.paket[0] != 255 {
      ComesIdle(a);
    } else {
      forall n: nat ensures !IdleWithin(a, n) {
        NeverIdle(a, n);
      }
    }
  }

  lemma AlreadyIdle(a: State)
    requires WellFormed(a) && a.phase == Idle
    ensures IdleWithin(a, 0)
  {
    forall ws: seq<Word> | |ws| == 0 ensures MeetsIdle(a, ws) {
      IdleAtTheEnd(a, ws);
    }
  }
}
