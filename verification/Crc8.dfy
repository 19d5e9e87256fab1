/** The CRC-8 of BiDiBus frames (`crc_8bit.c`, `include/crc_8bit.h`): the table, the fold, and what the fold
    detects. */
module Crc8 {
  import opened Bytes

  // The rows of `crc_array`.
  const ROW0: seq<byte> :=
    [0x00, 0x5e, 0xbc, 0xe2, 0x61, 0x3f, 0xdd, 0x83, 0xc2, 0x9c, 0x7e, 0x20, 0xa3, 0xfd, 0x1f, 0x41]
  const ROW1: seq<byte> :=
    [0x9d, 0xc3, 0x21, 0x7f, 0xfc, 0xa2, 0x40, 0x1e, 0x5f, 0x01, 0xe3, 0xbd, 0x3e, 0x60, 0x82, 0xdc]
  const ROW2: seq<byte> :=
    [0x23, 0x7d, 0x9f, 0xc1, 0x42, 0x1c, 0xfe, 0xa0, 0xe1, 0xbf, 0x5d, 0x03, 0x80, 0xde, 0x3c, 0x62]
  const ROW3: seq<byte> :=
    [0xbe, 0xe0, 0x02, 0x5c, 0xdf, 0x81, 0x63, 0x3d, 0x7c, 0x22, 0xc0, 0x9e, 0x1d, 0x43, 0xa1, 0xff]
  const ROW4: seq<byte> :=
    [0x46, 0x18, 0xfa, 0xa4, 0x27, 0x79, 0x9b, 0xc5, 0x84, 0xda, 0x38, 0x66, 0xe5, 0xbb, 0x59, 0x07]
  const ROW5: seq<byte> :=
    [0xdb, 0x85, 0x67, 0x39, 0xba, 0xe4, 0x06, 0x58, 0x19, 0x47, 0xa5, 0xfb, 0x78, 0x26, 0xc4, 0x9a]
  const ROW6: seq<byte> :=
    [0x65, 0x3b, 0xd9, 0x87, 0x04, 0x5a, 0xb8, 0xe6, 0xa7, 0xf9, 0x1b, 0x45, 0xc6, 0x98, 0x7a, 0x24]
  const ROW7: seq<byte> :=
    [0xf8, 0xa6, 0x44, 0x1a, 0x99, 0xc7, 0x25, 0x7b, 0x3a, 0x64, 0x86, 0xd8, 0x5b, 0x05, 0xe7, 0xb9]
  const ROW8: seq<byte> :=
    [0x8c, 0xd2, 0x30, 0x6e, 0xed, 0xb3, 0x51, 0x0f, 0x4e, 0x10, 0xf2, 0xac, 0x2f, 0x71, 0x93, 0xcd]
  const ROW9: seq<byte> :=
    [0x11, 0x4f, 0xad, 0xf3, 0x70, 0x2e, 0xcc, 0x92, 0xd3, 0x8d, 0x6f, 0x31, 0xb2, 0xec, 0x0e, 0x50]
  const ROW10: seq<byte> :=
    [0xaf, 0xf1, 0x13, 0x4d, 0xce, 0x90, 0x72, 0x2c, 0x6d, 0x33, 0xd1, 0x8f, 0x0c, 0x52, 0xb0, 0xee]
  const ROW11: seq<byte> :=
    [0x32, 0x6c, 0x8e, 0xd0, 0x53, 0x0d, 0xef, 0xb1, 0xf0, 0xae, 0x4c, 0x12, 0x91, 0xcf, 0x2d, 0x73]
  const ROW12: seq<byte> :=
    [0xca, 0x94, 0x76, 0x28, 0xab, 0xf5, 0x17, 0x49, 0x08, 0x56, 0xb4, 0xea, 0x69, 0x37, 0xd5, 0x8b]
  const ROW13: seq<byte> :=
    [0x57, 0x09, 0xeb, 0xb5, 0x36, 0x68, 0x8a, 0xd4, 0x95, 0xcb, 0x29, 0x77, 0xf4, 0xaa, 0x48, 0x16]
  const ROW14: seq<byte> :=
    [0xe9, 0xb7, 0x55, 0x0b, 0x88, 0xd6, 0x34, 0x6a, 0x2b, 0x75, 0x97, 0xc9, 0x4a, 0x14, 0xf6, 0xa8]
  const ROW15: seq<byte> :=
    [0x74, 0x2a, 0xc8, 0x96, 0x15, 0x4b, 0xa9, 0xf7, 0xb6, 0xe8, 0x0a, 0x54, 0xd7, 0x89, 0x6b, 0x35]

  function Xor(a: byte, b: byte): byte {
    a ^ b
  }

  function Row(h: byte): (row: seq<byte>)
    requires h < 16
    ensures |row| == 16
  {
    if h < 8 then
      if h == 0 then ROW0 else if h == 1 then ROW1 else if h == 2 then ROW2 else if h == 3 then ROW3
      else if h == 4 then ROW4 else if h == 5 then ROW5 else if h == 6 then ROW6 else ROW7
    else
      if h == 8 then ROW8 else if h == 9 then ROW9 else if h == 10 then ROW10 else if h == 11 then ROW11
      else if h == 12 then ROW12 else if h == 13 then ROW13 else if h == 14 then ROW14 else ROW15
  }

  /** `crc_array[i]`. */
  function Table(i: byte): byte {
    Halves(i);
    Row(i >> 4)[(i & 0xF) as nat]
  }

  lemma Halves(i: byte)
    ensures i >> 4 < 16 && i & 0xF < 16 && Xor((i >> 4) << 4, i & 0xF) == i
  {
  }

  /** `crc8_update`. */
  function Update(crc: byte, data: byte): byte {
    Table(Xor(crc, data))
  }

  // ---- The polynomial x^8 + x^5 + x^4 + 1 as a reflected shift register ----

  predicate Masked(d: byte, mask: byte) {
    d & mask != 0
  }

  function Shifted(c: byte, feedback: bool): byte {
    if feedback then (c >> 1) ^ 0x8C else c >> 1
  }

  /** One clock of the register: the bit leaving at the bottom, mixed with the data bit, feeds back into 0x8C. */
  function BitStep(crc: byte, bit: bool): byte {
    if (crc & 0x01 != 0) != bit then (crc >> 1) ^ 0x8C else crc >> 1
  }

  /** Eight clocks, least significant data bit first. */
  function ByteStep(crc: byte, data: byte): byte {
    var c1 := BitStep(crc, Masked(data, 0x01));
    var c2 := BitStep(c1, Masked(data, 0x02));
    var c3 := BitStep(c2, Masked(data, 0x04));
    var c4 := BitStep(c3, Masked(data, 0x08));
    var c5 := BitStep(c4, Masked(data, 0x10));
    var c6 := BitStep(c5, Masked(data, 0x20));
    var c7 := BitStep(c6, Masked(data, 0x40));
    BitStep(c7, Masked(data, 0x80))
  }

  lemma StepIsShifted(crc: byte, bit: bool)
    ensures BitStep(crc, bit) == Shifted(crc, Masked(crc, 0x01) != bit)
  {
  }

  // One fact about bit patterns at a time.

  lemma LowBitsOfXor(a: byte, b: byte)
    ensures Masked(Xor(a, b), 0x01) == (Masked(a, 0x01) != Masked(b, 0x01))
    ensures Masked(Xor(a, b), 0x02) == (Masked(a, 0x02) != Masked(b, 0x02))
  {
  }

  lemma BitsTwoThreeOfXor(a: byte, b: byte)
    ensures Masked(Xor(a, b), 0x04) == (Masked(a, 0x04) != Masked(b, 0x04))
    ensures Masked(Xor(a, b), 0x08) == (Masked(a, 0x08) != Masked(b, 0x08))
  {
  }

  lemma BitsFourFiveOfXor(a: byte, b: byte)
    ensures Masked(Xor(a, b), 0x10) == (Masked(a, 0x10) != Masked(b, 0x10))
    ensures Masked(Xor(a, b), 0x20) == (Masked(a, 0x20) != Masked(b, 0x20))
  {
  }

  lemma HighBitsOfXor(a: byte, b: byte)
    ensures Masked(Xor(a, b), 0x40) == (Masked(a, 0x40) != Masked(b, 0x40))
    ensures Masked(Xor(a, b), 0x80) == (Masked(a, 0x80) != Masked(b, 0x80))
  {
  }

  lemma BothFeedBack(a: byte, b: byte)
    ensures Shifted(Xor(a, b), false) == Xor(Shifted(a, true), Shifted(b, true))
  {
  }

  lemma LeftFeedsBack(a: byte, b: byte)
    ensures Shifted(Xor(a, b), true) == Xor(Shifted(a, true), Shifted(b, false))
  {
  }

  lemma RightFeedsBack(a: byte, b: byte)
    ensures Shifted(Xor(a, b), true) == Xor(Shifted(a, false), Shifted(b, true))
  {
  }

  lemma NoneFeedsBack(a: byte, b: byte)
    ensures Shifted(Xor(a, b), false) == Xor(Shifted(a, false), Shifted(b, false))
  {
  }

  lemma ShiftedLinear(a: byte, b: byte, p: bool, q: bool)
    ensures Shifted(Xor(a, b), p != q) == Xor(Shifted(a, p), Shifted(b, q))
  {
    if p && q {
      BothFeedBack(a, b);
    } else if p {
      LeftFeedsBack(a, b);
    } else if q {
      RightFeedsBack(a, b);
    } else {
      NoneFeedsBack(a, b);
    }
  }

  lemma StepLinear(a: byte, b: byte, x: bool, y: bool)
    ensures BitStep(Xor(a, b), x != y) == Xor(BitStep(a, x), BitStep(b, y))
  {
    LowBitsOfXor(a, b);
    StepIsShifted(a, x);
    StepIsShifted(b, y);
    StepIsShifted(Xor(a, b), x != y);
    ShiftedLinear(a, b, Masked(a, 0x01) != x, Masked(b, 0x01) != y);
  }

  // ---- Whole bit streams ----

  /** Any bit-serial register run over a stream. */
  function Clock<R>(step: (R, bool) -> R, c: R, bits: seq<bool>): R {
    if bits == [] then c else step(Clock(step, c, bits[..|bits| - 1]), bits[|bits| - 1])
  }

  ghost predicate IsXor(z: seq<bool>, x: seq<bool>, y: seq<bool>) {
    |z| == |x| == |y| && forall k :: 0 <= k < |z| ==> z[k] == (x[k] != y[k])
  }

  lemma {:induction false} ClockLinear<R(!new)>(step: (R, bool) -> R, xor: (R, R) -> R, a: R, b: R,
                                                z: seq<bool>, x: seq<bool>, y: seq<bool>)
    requires IsXor(z, x, y)
    requires forall a, b, x, y {:trigger xor(step(a, x), step(b, y))} ::
      step(xor(a, b), x != y) == xor(step(a, x), step(b, y))
    ensures Clock(step, xor(a, b), z) == xor(Clock(step, a, x), Clock(step, b, y))
  {
    if x != [] {
      var n := |x| - 1;
      ClockLinear(step, xor, a, b, z[..n], x[..n], y[..n]);
    }
  }

  lemma {:induction false} ClockConcat<R>(step: (R, bool) -> R, c: R, a: seq<bool>, b: seq<bool>)
    ensures Clock(step, c, a + b) == Clock(step, Clock(step, c, a), b)
  {
    if b == [] {
      assert a + b == a;
    } else {
      var n := |b| - 1;
      ClockConcat(step, c, a, b[..n]);
      assert (a + b)[..|a| + n] == a + b[..n];
    }
  }

  function BitFold(c: byte, bits: seq<bool>): byte {
    Clock(BitStep, c, bits)
  }

  lemma BitFoldLinear(a: byte, b: byte, z: seq<bool>, x: seq<bool>, y: seq<bool>)
    requires IsXor(z, x, y)
    ensures BitFold(Xor(a, b), z) == Xor(BitFold(a, x), BitFold(b, y))
  {
    forall a, b, x, y
      ensures BitStep(Xor(a, b), x != y) == Xor(BitStep(a, x), BitStep(b, y))
    {
      StepLinear(a, b, x, y);
    }
    ClockLinear(BitStep, Xor, a, b, z, x, y);
  }

  /** Bit `k` of a byte, in the order of transmission. */
  predicate Bit(d: byte, k: nat)
    requires k < 8
  {
    match k
    case 0 => Masked(d, 0x01)
    case 1 => Masked(d, 0x02)
    case 2 => Masked(d, 0x04)
    case 3 => Masked(d, 0x08)
    case 4 => Masked(d, 0x10)
    case 5 => Masked(d, 0x20)
    case 6 => Masked(d, 0x40)
    case 7 => Masked(d, 0x80)
  }

  function ByteBits(d: byte): seq<bool> {
    seq(8, k requires 0 <= k < 8 => Bit(d, k))
  }

  lemma ClockPrefix<R>(step: (R, bool) -> R, c: R, s: seq<bool>, k: nat)
    requires k < |s|
    ensures Clock(step, c, s[..k + 1]) == step(Clock(step, c, s[..k]), s[k])
  {
    assert s[..k + 1][..k] == s[..k];
  }

  lemma ClockEight<R>(step: (R, bool) -> R, c: R, s: seq<bool>)
    requires |s| == 8
    ensures Clock(step, c, s)
      == step(step(step(step(step(step(step(step(c, s[0]), s[1]), s[2]), s[3]), s[4]), s[5]), s[6]), s[7])
  {
    ClockPrefix(step, c, s, 0);
    ClockPrefix(step, c, s, 1);
    ClockPrefix(step, c, s, 2);
    ClockPrefix(step, c, s, 3);
    ClockPrefix(step, c, s, 4);
    ClockPrefix(step, c, s, 5);
    ClockPrefix(step, c, s, 6);
    ClockPrefix(step, c, s, 7);
    assert s[..8] == s;
  }

  lemma ByteStepIsBitFold(c: byte, d: byte)
    ensures ByteStep(c, d) == BitFold(c, ByteBits(d))
  {
    ClockEight(BitStep, c, ByteBits(d));
  }

  // ---- Bytes through the register ----

  /** The register after one more byte, least significant bit first. */
  function Absorb(c: byte, d: byte): byte {
    BitFold(c, ByteBits(d))
  }

  /** The CRC register after a byte string. */
  function Fold(c: byte, s: seq<byte>): byte {
    if s == [] then c else Absorb(Fold(c, s[..|s| - 1]), s[|s| - 1])
  }

  function Bits(s: seq<byte>): (b: seq<bool>)
    ensures |b| == 8 * |s|
  {
    if s == [] then [] else Bits(s[..|s| - 1]) + ByteBits(s[|s| - 1])
  }

  function XorBytes(a: seq<byte>, b: seq<byte>): (r: seq<byte>)
    requires |a| == |b|
    ensures |r| == |a|
  {
    if a == [] then [] else
      var n := |a| - 1;
      XorBytes(a[..n], b[..n]) + [Xor(a[n], b[n])]
  }

  lemma BitOfXor(a: byte, b: byte, k: nat)
    requires k < 8
    ensures Bit(Xor(a, b), k) == (Bit(a, k) != Bit(b, k))
  {
    match k
    case 0 => LowBitsOfXor(a, b);
    case 1 => LowBitsOfXor(a, b);
    case 2 => BitsTwoThreeOfXor(a, b);
    case 3 => BitsTwoThreeOfXor(a, b);
    case 4 => BitsFourFiveOfXor(a, b);
    case 5 => BitsFourFiveOfXor(a, b);
    case 6 => HighBitsOfXor(a, b);
    case 7 => HighBitsOfXor(a, b);
  }

  lemma ByteBitsOfXor(a: byte, b: byte)
    ensures IsXor(ByteBits(Xor(a, b)), ByteBits(a), ByteBits(b))
  {
    forall k | 0 <= k < 8
      ensures Bit(Xor(a, b), k) == (Bit(a, k) != Bit(b, k))
    {
      BitOfXor(a, b, k);
    }
  }

  lemma ByteStepLinear(a: byte, b: byte, x: byte, y: byte)
    ensures ByteStep(Xor(a, b), Xor(x, y)) == Xor(ByteStep(a, x), ByteStep(b, y))
  {
    ByteBitsOfXor(x, y);
    BitFoldLinear(a, b, ByteBits(Xor(x, y)), ByteBits(x), ByteBits(y));
    ByteStepIsBitFold(a, x);
    ByteStepIsBitFold(b, y);
    ByteStepIsBitFold(Xor(a, b), Xor(x, y));
  }

  /** The part of the data not yet clocked in may as well stand in the register. */
  lemma MixStep(r: byte, d: byte)
    ensures BitStep(Xor(r, d), false) == Xor(BitStep(r, Masked(d, 0x01)), d >> 1)
  {
    var low := Masked(d, 0x01);
    StepLinear(r, d, low, low);
    NoFeedback(d);
  }

  lemma NoFeedback(d: byte)
    ensures BitStep(d, Masked(d, 0x01)) == d >> 1
  {
  }

  lemma MasksShift(d: byte)
    ensures Masked(d >> 1, 0x01) == Masked(d, 0x02) && (d >> 1) >> 1 == d >> 2
    ensures Masked(d >> 2, 0x01) == Masked(d, 0x04) && (d >> 2) >> 1 == d >> 3
    ensures Masked(d >> 3, 0x01) == Masked(d, 0x08) && (d >> 3) >> 1 == d >> 4
    ensures Masked(d >> 4, 0x01) == Masked(d, 0x10) && (d >> 4) >> 1 == d >> 5
    ensures Masked(d >> 5, 0x01) == Masked(d, 0x20) && (d >> 5) >> 1 == d >> 6
    ensures Masked(d >> 6, 0x01) == Masked(d, 0x40) && (d >> 6) >> 1 == d >> 7
    ensures Masked(d >> 7, 0x01) == Masked(d, 0x80) && (d >> 7) >> 1 == 0
  {
  }

  /** Eight silent clocks. */
  function Silently(c: byte): byte {
    BitStep(BitStep(BitStep(BitStep(BitStep(BitStep(BitStep(BitStep(
      c, false), false), false), false), false), false), false), false)
  }

  lemma DataIsRegister(c: byte, d: byte)
    ensures ByteStep(c, d) == Silently(Xor(c, d))
  {
    MasksShift(d);
    var c1 := BitStep(c, Masked(d, 0x01));
    MixStep(c, d);
    var c2 := BitStep(c1, Masked(d, 0x02));
    MixStep(c1, d >> 1);
    var c3 := BitStep(c2, Masked(d, 0x04));
    MixStep(c2, d >> 2);
    var c4 := BitStep(c3, Masked(d, 0x08));
    MixStep(c3, d >> 3);
    var c5 := BitStep(c4, Masked(d, 0x10));
    MixStep(c4, d >> 4);
    var c6 := BitStep(c5, Masked(d, 0x20));
    MixStep(c5, d >> 5);
    var c7 := BitStep(c6, Masked(d, 0x40));
    MixStep(c6, d >> 6);
    MixStep(c7, d >> 7);
    XorWithZero(BitStep(c7, Masked(d, 0x80)));
  }

  lemma RegisterMixesIntoData(c: byte, d: byte)
    ensures ByteStep(c, d) == ByteStep(0, Xor(c, d))
  {
    DataIsRegister(c, d);
    DataIsRegister(0, Xor(c, d));
    XorWithZero(Xor(c, d));
  }

  // ---- The table ----

  /** A row is the first row shifted by its head. */
  ghost predicate FollowsHead(row: seq<byte>) {
    |row| == 16 && row == FirstRowShifted(row[0])
  }

  function FirstRowShifted(head: byte): (row: seq<byte>)
    ensures |row| == 16
  {
    seq(16, k requires 0 <= k < 16 => Xor(head, ROW0[k]))
  }

  lemma SixteenEqual<T>(a: seq<T>, b: seq<T>)
    requires |a| == |b| == 16
    requires a[0] == b[0] && a[1] == b[1] && a[2] == b[2] && a[3] == b[3]
    requires a[4] == b[4] && a[5] == b[5] && a[6] == b[6] && a[7] == b[7]
    requires a[8] == b[8] && a[9] == b[9] && a[10] == b[10] && a[11] == b[11]
    requires a[12] == b[12] && a[13] == b[13] && a[14] == b[14] && a[15] == b[15]
    ensures a == b
  {
    forall k | 0 <= k < 16 ensures a[k] == b[k] {
      assert k in {0, 1, 2, 3, 4, 5, 6, 7, 8, 9, 10, 11, 12, 13, 14, 15};
    }
  }

  lemma Rows0To3()
    ensures FollowsHead(ROW0) && FollowsHead(ROW1) && FollowsHead(ROW2) && FollowsHead(ROW3)
  {
    SixteenEqual(ROW0, FirstRowShifted(ROW0[0]));
    SixteenEqual(ROW1, FirstRowShifted(ROW1[0]));
    SixteenEqual(ROW2, FirstRowShifted(ROW2[0]));
    SixteenEqual(ROW3, FirstRowShifted(ROW3[0]));
  }

  lemma Rows4To7()
    ensures FollowsHead(ROW4) && FollowsHead(ROW5) && FollowsHead(ROW6) && FollowsHead(ROW7)
  {
    SixteenEqual(ROW4, FirstRowShifted(ROW4[0]));
    SixteenEqual(ROW5, FirstRowShifted(ROW5[0]));
    SixteenEqual(ROW6, FirstRowShifted(ROW6[0]));
    SixteenEqual(ROW7, FirstRowShifted(ROW7[0]));
  }

  lemma Rows8To11()
    ensures FollowsHead(ROW8) && FollowsHead(ROW9) && FollowsHead(ROW10) && FollowsHead(ROW11)
  {
    SixteenEqual(ROW8, FirstRowShifted(ROW8[0]));
    SixteenEqual(ROW9, FirstRowShifted(ROW9[0]));
    SixteenEqual(ROW10, FirstRowShifted(ROW10[0]));
    SixteenEqual(ROW11, FirstRowShifted(ROW11[0]));
  }

  lemma Rows12To15()
    ensures FollowsHead(ROW12) && FollowsHead(ROW13) && FollowsHead(ROW14) && FollowsHead(ROW15)
  {
    SixteenEqual(ROW12, FirstRowShifted(ROW12[0]));
    SixteenEqual(ROW13, FirstRowShifted(ROW13[0]));
    SixteenEqual(ROW14, FirstRowShifted(ROW14[0]));
    SixteenEqual(ROW15, FirstRowShifted(ROW15[0]));
  }

  lemma RowFollowsHead(h: byte)
    requires h < 16
    ensures FollowsHead(Row(h))
  {
    if h < 4 {
      Rows0To3();
    } else if h < 8 {
      Rows4To7();
    } else if h < 12 {
      Rows8To11();
    } else {
      Rows12To15();
    }
  }

  lemma Heads0To3()
    ensures ROW0[0] == ByteStep(0, 0x0)
    ensures ROW1[0] == ByteStep(0, 0x10)
    ensures ROW2[0] == ByteStep(0, 0x20)
    ensures ROW3[0] == ByteStep(0, 0x30)
  {
  }

  lemma Heads4To7()
    ensures ROW4[0] == ByteStep(0, 0x40)
    ensures ROW5[0] == ByteStep(0, 0x50)
    ensures ROW6[0] == ByteStep(0, 0x60)
    ensures ROW7[0] == ByteStep(0, 0x70)
  {
  }

  lemma Heads8To11()
    ensures ROW8[0] == ByteStep(0, 0x80)
    ensures ROW9[0] == ByteStep(0, 0x90)
    ensures ROW10[0] == ByteStep(0, 0xa0)
    ensures ROW11[0] == ByteStep(0, 0xb0)
  {
  }

  lemma Heads12To15()
    ensures ROW12[0] == ByteStep(0, 0xc0)
    ensures ROW13[0] == ByteStep(0, 0xd0)
    ensures ROW14[0] == ByteStep(0, 0xe0)
    ensures ROW15[0] == ByteStep(0, 0xf0)
  {
  }

  lemma HeadIsRegister0To3(h: byte)
    requires 0 <= h <= 3
    ensures Row(h)[0] == ByteStep(0, h << 4)
  {
    Heads0To3();
    assert h in {0, 1, 2, 3};
  }

  lemma HeadIsRegister4To7(h: byte)
    requires 4 <= h <= 7
    ensures Row(h)[0] == ByteStep(0, h << 4)
  {
    Heads4To7();
    assert h in {4, 5, 6, 7};
  }

  lemma HeadIsRegister8To11(h: byte)
    requires 8 <= h <= 11
    ensures Row(h)[0] == ByteStep(0, h << 4)
  {
    Heads8To11();
    assert h in {8, 9, 10, 11};
  }

  lemma HeadIsRegister12To15(h: byte)
    requires 12 <= h <= 15
    ensures Row(h)[0] == ByteStep(0, h << 4)
  {
    Heads12To15();
    assert h in {12, 13, 14, 15};
  }

  lemma HeadIsRegister(h: byte)
    requires h < 16
    ensures Row(h)[0] == ByteStep(0, h << 4)
  {
    if h < 4 {
      HeadIsRegister0To3(h);
    } else if h < 8 {
      HeadIsRegister4To7(h);
    } else if h < 12 {
      HeadIsRegister8To11(h);
    } else {
      HeadIsRegister12To15(h);
    }
  }

  lemma FirstRow0To3()
    ensures ROW0[0] == ByteStep(0, 0)
    ensures ROW0[1] == ByteStep(0, 1)
    ensures ROW0[2] == ByteStep(0, 2)
    ensures ROW0[3] == ByteStep(0, 3)
  {
  }

  lemma FirstRow4To7()
    ensures ROW0[4] == ByteStep(0, 4)
    ensures ROW0[5] == ByteStep(0, 5)
    ensures ROW0[6] == ByteStep(0, 6)
    ensures ROW0[7] == ByteStep(0, 7)
  {
  }

  lemma FirstRow8To11()
    ensures ROW0[8] == ByteStep(0, 8)
    ensures ROW0[9] == ByteStep(0, 9)
    ensures ROW0[10] == ByteStep(0, 10)
    ensures ROW0[11] == ByteStep(0, 11)
  {
  }

  lemma FirstRow12To15()
    ensures ROW0[12] == ByteStep(0, 12)
    ensures ROW0[13] == ByteStep(0, 13)
    ensures ROW0[14] == ByteStep(0, 14)
    ensures ROW0[15] == ByteStep(0, 15)
  {
  }

  lemma FirstRowIsRegister(k: byte)
    requires k < 16
    ensures ROW0[k as nat] == ByteStep(0, k)
  {
    if k < 4 {
      FirstRow0To3();
    } else if k < 8 {
      FirstRow4To7();
    } else if k < 12 {
      FirstRow8To11();
    } else {
      FirstRow12To15();
    }
  }

  /** All 256 entries: the register is linear, so a row is its head shifted by the first row. */
  lemma TableIsRegister(i: byte)
    ensures Table(i) == ByteStep(0, i)
  {
    var h, k := i >> 4, i & 0xF;
    Halves(i);
    RowFollowsHead(h);
    HeadIsRegister(h);
    FirstRowIsRegister(k);
    EntryFollowsHead(Row(h), k);
    ByteStepLinear(0, 0, h << 4, k);
    assert Xor(0, 0) == 0;
  }

  lemma EntryFollowsHead(row: seq<byte>, k: byte)
    requires |row| == 16 && FollowsHead(row) && k < 16
    ensures row[k as nat] == Xor(row[0], ROW0[k as nat])
  {
  }

  /** The table lookup of `crc8_update` clocks the polynomial's register once for each bit of the byte. */
  lemma UpdateIsAbsorb(crc: byte, data: byte)
    ensures Update(crc, data) == Absorb(crc, data)
  {
    TableIsRegister(Xor(crc, data));
    RegisterMixesIntoData(crc, data);
    ByteStepIsBitFold(crc, data);
  }

  /** The inline function both interrupt routines and the assembler call: it clocks the polynomial's register. */
  method Crc8Update(crc: byte, data: byte) returns (r: byte)
    ensures r == Absorb(crc, data)
  {
    r := Update(crc, data);
    UpdateIsAbsorb(crc, data);
  }

  lemma FoldSnoc(c: byte, s: seq<byte>, b: byte)
    ensures Fold(c, s + [b]) == Absorb(Fold(c, s), b)
  {
    assert (s + [b])[..|s|] == s;
  }

  lemma {:induction false} FoldIsBitFold(c: byte, s: seq<byte>)
    ensures Fold(c, s) == BitFold(c, Bits(s))
  {
    if s != [] {
      var n := |s| - 1;
      FoldIsBitFold(c, s[..n]);
      ClockConcat(BitStep, c, Bits(s[..n]), ByteBits(s[n]));
    }
  }

  /** The fold is linear over XOR. */
  lemma {:induction false} FoldLinear(a: byte, b: byte, s: seq<byte>, t: seq<byte>)
    requires |s| == |t|
    ensures Fold(Xor(a, b), XorBytes(s, t)) == Xor(Fold(a, s), Fold(b, t))
  {
    if s != [] {
      var n := |s| - 1;
      FoldLinear(a, b, s[..n], t[..n]);
      ByteBitsOfXor(s[n], t[n]);
      BitFoldLinear(Fold(a, s[..n]), Fold(b, t[..n]), ByteBits(Xor(s[n], t[n])), ByteBits(s[n]), ByteBits(t[n]));
      assert XorBytes(s, t)[..n] == XorBytes(s[..n], t[..n]);
    }
  }

  lemma AbsorbSelf(c: byte)
    ensures Absorb(c, c) == 0
  {
    UpdateIsAbsorb(c, c);
    assert Xor(c, c) == 0;
  }

  /** Appending the fold of a string to the string leaves residue zero, from any start value: what a sender closes a
      frame with, a receiver accepts. */
  lemma AppendedFoldCancels(c: byte, s: seq<byte>)
    ensures Fold(c, s + [Fold(c, s)]) == 0
  {
    FoldSnoc(c, s, Fold(c, s));
    AbsorbSelf(Fold(c, s));
  }

  // ---- What the check detects ----

  /** The residue of a correct frame hit by an error pattern is the residue of the pattern alone. */
  lemma ErrorResidue(frame: seq<byte>, error: seq<byte>)
    requires |frame| == |error| && Fold(0, frame) == 0
    ensures Fold(0, XorBytes(frame, error)) == BitFold(0, Bits(error))
  {
    FoldLinear(0, 0, frame, error);
    FoldIsBitFold(0, error);
    XorWithZero(BitFold(0, Bits(error)));
  }

  lemma XorWithZero(b: byte)
    ensures Xor(0, b) == b && Xor(b, 0) == b
  {
  }

  predicate OddWeight(bits: seq<bool>) {
    bits != [] && OddWeight(bits[..|bits| - 1]) != bits[|bits| - 1]
  }

  lemma StepParity(c: byte, bit: bool)
    ensures OddParity(BitStep(c, bit)) == (OddParity(c) != bit)
  {
  }

  lemma {:induction false} FoldParity(c: byte, bits: seq<bool>)
    ensures OddParity(BitFold(c, bits)) == (OddParity(c) != OddWeight(bits))
  {
    if bits != [] {
      var n := |bits| - 1;
      FoldParity(c, bits[..n]);
      StepParity(BitFold(c, bits[..n]), bits[n]);
    }
  }

  /** Every odd number of flipped bits leaves a nonzero residue. */
  lemma OddErrorsDetected(frame: seq<byte>, error: seq<byte>)
    requires |frame| == |error| && Fold(0, frame) == 0
    requires OddWeight(Bits(error))
    ensures Fold(0, XorBytes(frame, error)) != 0
  {
    ErrorResidue(frame, error);
    FoldParity(0, Bits(error));
  }

  ghost predicate Silent(bits: seq<bool>) {
    forall k :: 0 <= k < |bits| ==> !bits[k]
  }

  lemma StepZero(c: byte)
    ensures BitStep(c, false) == 0 <==> c == 0
  {
  }

  lemma {:induction false} SilenceKeepsZeroness(c: byte, bits: seq<bool>)
    requires Silent(bits)
    ensures BitFold(c, bits) == 0 <==> c == 0
  {
    if bits != [] {
      var n := |bits| - 1;
      SilenceKeepsZeroness(c, bits[..n]);
      StepZero(BitFold(c, bits[..n]));
    }
  }

  lemma EightStepsFromZero(b0: bool, b1: bool, b2: bool, b3: bool, b4: bool, b5: bool, b6: bool, b7: bool)
    ensures BitStep(BitStep(BitStep(BitStep(BitStep(BitStep(BitStep(BitStep(
              0, b0), b1), b2), b3), b4), b5), b6), b7) == 0
            ==> !b0 && !b1 && !b2 && !b3 && !b4 && !b5 && !b6 && !b7
  {
  }

  /** At most eight bits cannot cancel in an eight-bit register. */
  lemma ShortBurstNonzero(w: seq<bool>)
    requires |w| <= 8 && !Silent(w)
    ensures BitFold(0, w) != 0
  {
    var pad := seq(8 - |w|, _ => false);
    var v := w + pad;
    ClockConcat(BitStep, 0, w, pad);
    SilenceKeepsZeroness(BitFold(0, w), pad);
    ClockEight(BitStep, 0, v);
    EightStepsFromZero(v[0], v[1], v[2], v[3], v[4], v[5], v[6], v[7]);
    var k :| 0 <= k < |w| && w[k];
    assert v[k];
  }

  /** Every burst confined to eight consecutive bit positions, at any bit offset, leaves a nonzero residue. */
  lemma BurstsDetected(frame: seq<byte>, error: seq<byte>, from: nat, to: nat)
    requires |frame| == |error| && Fold(0, frame) == 0
    requires from <= to <= |Bits(error)| && to - from <= 8
    requires !Silent(Bits(error)) && Silent(Bits(error)[..from]) && Silent(Bits(error)[to..])
    ensures Fold(0, XorBytes(frame, error)) != 0
  {
    ErrorResidue(frame, error);
    BurstLeavesResidue(Bits(error), from, to);
  }

  lemma BurstLeavesResidue(b: seq<bool>, from: nat, to: nat)
    requires from <= to <= |b| && to - from <= 8 && !Silent(b) && Silent(b[..from]) && Silent(b[to..])
    ensures BitFold(0, b) != 0
  {
    ThreeParts(b, from, to);
    ClockConcat(BitStep, 0, b[..from] + b[from..to], b[to..]);
    ClockConcat(BitStep, 0, b[..from], b[from..to]);
    SilenceKeepsZeroness(0, b[..from]);
    if Silent(b[from..to]) {
      AllSilent(b, from, to);
    } else {
      ShortBurstNonzero(b[from..to]);
      SilenceKeepsZeroness(BitFold(0, b[from..to]), b[to..]);
    }
  }

  lemma AllSilent(b: seq<bool>, from: nat, to: nat)
    requires from <= to <= |b| && Silent(b[..from]) && Silent(b[from..to]) && Silent(b[to..])
    ensures Silent(b)
  {
    ThreeParts(b, from, to);
  }

  // ---- Two flipped bits: the register idles with period 127 ----

  /** The register after `n` clocks with silent data. */
  function Idle(c: byte, n: nat): byte {
    if n == 0 then c else BitStep(Idle(c, n - 1), false)
  }

  lemma {:induction false} IdleSplit(c: byte, m: nat, n: nat)
    ensures Idle(c, m + n) == Idle(Idle(c, m), n)
  {
    if n > 0 {
      IdleSplit(c, m, n - 1);
    }
  }

  /** Eight clocks from `c` end in `next` and do not meet 1 before. */
  ghost predicate EightAvoidOne(c: byte, next: byte) {
    && Idle(c, 8) == next
    && Idle(c, 0) != 1 && Idle(c, 1) != 1 && Idle(c, 2) != 1 && Idle(c, 3) != 1
    && Idle(c, 4) != 1 && Idle(c, 5) != 1 && Idle(c, 6) != 1 && Idle(c, 7) != 1
  }

  lemma Clocks0To24()
    ensures EightAvoidOne(0x8c, 0x2f)
    ensures EightAvoidOne(0x2f, 0x62)
    ensures EightAvoidOne(0x62, 0xd9)
  {
  }

  lemma Clocks24To48()
    ensures EightAvoidOne(0xd9, 0xcb)
    ensures EightAvoidOne(0xcb, 0xea)
    ensures EightAvoidOne(0xea, 0x97)
  {
  }

  lemma Clocks48To72()
    ensures EightAvoidOne(0x97, 0x92)
    ensures EightAvoidOne(0x92, 0xad)
    ensures EightAvoidOne(0xad, 0x52)
  {
  }

  lemma Clocks72To96()
    ensures EightAvoidOne(0x52, 0x67)
    ensures EightAvoidOne(0x67, 0xe6)
    ensures EightAvoidOne(0xe6, 0x34)
  {
  }

  lemma Clocks96To120()
    ensures EightAvoidOne(0x34, 0xdf)
    ensures EightAvoidOne(0xdf, 0x16)
    ensures EightAvoidOne(0x16, 0x40)
  {
  }

  /** No register among the first `n` of an idling run is 1. */
  ghost predicate AvoidsOne(c: byte, n: nat) {
    forall k :: 0 <= k < n ==> Idle(c, k) != 1
  }

  lemma EightMore(c: byte, next: byte, n: nat)
    requires EightAvoidOne(c, next) && AvoidsOne(next, n)
    ensures AvoidsOne(c, n + 8) && Idle(c, n + 8) == Idle(next, n)
  {
    IdleSplit(c, 8, n);
    forall k | 0 <= k < n + 8 ensures Idle(c, k) != 1 {
      if 8 <= k {
        IdleSplit(c, 8, k - 8);
      } else {
        assert k in {0, 1, 2, 3, 4, 5, 6, 7};
      }
    }
  }

  /** The idling register first shows 1 after 126 clocks; the next clock closes the cycle. */
  lemma OrbitReachesOne()
    ensures AvoidsOne(0x8C, 126) && Idle(0x8C, 126) == 1
  {
    Clocks0To24(); Clocks24To48(); Clocks48To72(); Clocks72To96(); Clocks96To120();
    LastSix();
    EightMore(0x16, 0x40, 6);
    EightMore(0xdf, 0x16, 14);
    EightMore(0x34, 0xdf, 22);
    EightMore(0xe6, 0x34, 30);
    EightMore(0x67, 0xe6, 38);
    EightMore(0x52, 0x67, 46);
    EightMore(0xad, 0x52, 54);
    EightMore(0x92, 0xad, 62);
    EightMore(0x97, 0x92, 70);
    EightMore(0xea, 0x97, 78);
    EightMore(0xcb, 0xea, 86);
    EightMore(0xd9, 0xcb, 94);
    EightMore(0x62, 0xd9, 102);
    EightMore(0x2f, 0x62, 110);
    EightMore(0x8c, 0x2f, 118);
  }

  lemma LastSix()
    ensures AvoidsOne(0x40, 6) && Idle(0x40, 6) == 1
  {
    assert Idle(0x40, 3) == 0x08;
  }

  lemma {:induction false} IdleIsPeriodic(n: nat)
    ensures Idle(0x8C, n) == 1 <==> n % 127 == 126
  {
    OrbitReachesOne();
    if 127 <= n {
      IdleIsPeriodic(n - 127);
      IdleSplit(0x8C, 127, n - 127);
    }
  }

  lemma {:induction false} SilenceIsIdle(c: byte, bits: seq<bool>)
    requires Silent(bits)
    ensures BitFold(c, bits) == Idle(c, |bits|)
  {
    if bits != [] {
      SilenceIsIdle(c, bits[..|bits| - 1]);
    }
  }

  lemma SecondFlip(c: byte)
    ensures BitStep(c, true) == 0 <==> c == 1
  {
  }

  ghost predicate OnlyAt(bits: seq<bool>, i: nat, j: nat) {
    i < j < |bits| && forall k :: 0 <= k < |bits| ==> (bits[k] <==> k == i || k == j)
  }

  /** Two flipped bits go unnoticed exactly when their distance is a multiple of 127 bit positions. */
  lemma DoubleErrorsDetected(frame: seq<byte>, error: seq<byte>, i: nat, j: nat)
    requires |frame| == |error| && Fold(0, frame) == 0
    requires OnlyAt(Bits(error), i, j)
    ensures Fold(0, XorBytes(frame, error)) == 0 <==> (j - i) % 127 == 0
  {
    ErrorResidue(frame, error);
    TwoFlips(Bits(error), i, j);
  }

  lemma TwoFlips(b: seq<bool>, i: nat, j: nat)
    requires OnlyAt(b, i, j)
    ensures BitFold(0, b) == 0 <==> (j - i) % 127 == 0
  {
    var gap := b[i + 1..j];
    SilenceKeepsZeroness(0, b[..i]);
    ClockSplit(b, i, j);
    SilenceIsIdle(0x8C, gap);
    IdleIsPeriodic(|gap|);
    SecondFlip(BitFold(0x8C, gap));
    SilenceKeepsZeroness(BitStep(BitFold(0x8C, gap), true), b[j + 1..]);
  }

  lemma ClockSplit(b: seq<bool>, i: nat, j: nat)
    requires i < j < |b| && b[i] && b[j] && BitFold(0, b[..i]) == 0
    ensures BitFold(0, b) == BitFold(BitStep(BitFold(0x8C, b[i + 1..j]), true), b[j + 1..])
  {
    assert b == b[..j + 1] + b[j + 1..];
    ClockConcat(BitStep, 0, b[..j + 1], b[j + 1..]);
    ClockPrefix(BitStep, 0, b, j);
    assert b[..j] == b[..i + 1] + b[i + 1..j];
    ClockConcat(BitStep, 0, b[..i + 1], b[i + 1..j]);
    ClockPrefix(BitStep, 0, b, i);
  }
}
