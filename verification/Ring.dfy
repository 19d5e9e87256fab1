/** The 128-byte circular transmit buffer seen as a store of segments (`bidib_client_if.c`). */
module Ring {
  import opened Bytes

  const RING_SIZE: nat := 128

  /** The index reached from `at` by `k` steps of `(i + 1) & (BIDIB_TX_BUF_SIZE - 1)`. */
  function Slot(at: nat, k: nat): (i: nat)
    ensures i < RING_SIZE
  {
    (at + k) % RING_SIZE
  }

  /** The `n` bytes stored from index `at` on, wrapping at the end of the buffer. */
  function Segment(buf: seq<byte>, at: nat, n: nat): (s: seq<byte>)
    requires |buf| == RING_SIZE
    ensures |s| == n
  {
    seq(n, k requires 0 <= k < n => buf[Slot(at, k)])
  }

  /** The buffer after the bytes of `m` were stored one by one from index `at` on. */
  function Store(buf: seq<byte>, at: nat, m: seq<byte>): (r: seq<byte>)
    requires |buf| == RING_SIZE
    ensures |r| == RING_SIZE
  {
    if m == [] then buf
    else
      var n := |m| - 1;
      Store(buf, at, m[..n])[Slot(at, n) := m[n]]
  }

  /** Indices below twice the ring size wrap at most once. */
  lemma Wraps(i: nat)
    requires i < 2 * RING_SIZE
    ensures i % RING_SIZE == if i < RING_SIZE then i else i - RING_SIZE
  {
  }

  lemma SlotSlot(at: nat, k: nat, j: nat)
    ensures Slot(Slot(at, k), j) == Slot(at, k + j)
  {
  }

  lemma SegmentSplit(buf: seq<byte>, at: nat, k: nat, n: nat)
    requires |buf| == RING_SIZE && k <= n
    ensures Segment(buf, at, n) == Segment(buf, at, k) + Segment(buf, Slot(at, k), n - k)
  {
    forall j: nat | j < n - k
      ensures Slot(Slot(at, k), j) == Slot(at, k + j)
    {
      SlotSlot(at, k, j);
    }
  }

  /** How far cell `i` lies behind index `at`. */
  function Offset(at: nat, i: nat): (k: nat)
    requires at < RING_SIZE && i < RING_SIZE
    ensures k < RING_SIZE
  {
    if at <= i then i - at else i + RING_SIZE - at
  }

  lemma OffsetAhead(at: nat, k: nat)
    requires at < RING_SIZE && k < RING_SIZE
    ensures Offset(at, Slot(at, k)) == k
  {
    Wraps(at + k);
  }

  lemma OffsetBehind(from: nat, n: nat, k: nat)
    requires from < RING_SIZE && k < n <= RING_SIZE
    ensures Offset(Slot(from, n), Slot(from, k)) == RING_SIZE - (n - k)
  {
    Wraps(from + n);
    Wraps(from + k);
  }

  /** Storing touches exactly the cells of the segment stored to. */
  lemma {:induction false} StoreCells(buf: seq<byte>, at: nat, m: seq<byte>, i: nat)
    requires |buf| == RING_SIZE && at < RING_SIZE && |m| <= RING_SIZE && i < RING_SIZE
    ensures Store(buf, at, m)[i] == if Offset(at, i) < |m| then m[Offset(at, i)] else buf[i]
  {
    if m != [] {
      var n := |m| - 1;
      StoreCells(buf, at, m[..n], i);
      Wraps(at + n);
      assert Slot(at, n) == i <==> Offset(at, i) == n;
    }
  }

  /** What was stored is what the segment holds. */
  lemma StoreHolds(buf: seq<byte>, at: nat, m: seq<byte>)
    requires |buf| == RING_SIZE && at < RING_SIZE && |m| <= RING_SIZE
    ensures Segment(Store(buf, at, m), at, |m|) == m
  {
    forall k: nat | k < |m|
      ensures Store(buf, at, m)[Slot(at, k)] == m[k]
    {
      OffsetAhead(at, k);
      StoreCells(buf, at, m, Slot(at, k));
    }
  }

  /** A segment that ends where the store begins survives it, as long as both fit into the ring together. */
  lemma StoreKeeps(buf: seq<byte>, from: nat, n: nat, m: seq<byte>)
    requires |buf| == RING_SIZE && from < RING_SIZE && n + |m| <= RING_SIZE
    ensures Segment(Store(buf, Slot(from, n), m), from, n) == Segment(buf, from, n)
  {
    var at := Slot(from, n);
    forall k: nat | k < n
      ensures Store(buf, at, m)[Slot(from, k)] == buf[Slot(from, k)]
    {
      OffsetBehind(from, n, k);
      StoreCells(buf, at, m, Slot(from, k));
    }
  }

  /** Appending to a segment: the old bytes stay and the new ones follow. */
  lemma StoreAppends(buf: seq<byte>, from: nat, n: nat, m: seq<byte>)
    requires |buf| == RING_SIZE && from < RING_SIZE && n + |m| <= RING_SIZE
    ensures Segment(Store(buf, Slot(from, n), m), from, n + |m|) == Segment(buf, from, n) + m
  {
    var at := Slot(from, n);
    StoreKeeps(buf, from, n, m);
    StoreHolds(buf, at, m);
    SegmentSplit(Store(buf, at, m), from, n, n + |m|);
  }

  lemma SegmentPrefix(buf: seq<byte>, at: nat, k: nat, n: nat)
    requires |buf| == RING_SIZE && k <= n
    ensures Segment(buf, at, k) == Segment(buf, at, n)[..k]
  {
  }
}
