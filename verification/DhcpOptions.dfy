/** Reading and writing the options of a DHCP message (`opt_find`, `opt_write_n`, `opt_write_u8`, `opt_write_u32`). */
module DhcpOptions {
  import opened Bytes

  const OPT_SPAN: nat := 308
  const OPT_PAD: byte := 0
  const OPT_SUBNET_MASK: byte := 1
  const OPT_ROUTER: byte := 3
  const OPT_DNS: byte := 6
  const OPT_REQUESTED_IP: byte := 50
  const OPT_LEASE_TIME: byte := 51
  const OPT_MSG_TYPE: byte := 53
  const OPT_SERVER_ID: byte := 54
  const OPT_END: byte := 255

  // ---- opt_find ----

  /** The walk of `opt_find` from index `i` on. `opt` is the memory from the first option on; the walk may look at
      the byte behind its 308. */
  function Walk(opt: seq<byte>, cmd: byte, i: nat): (r: Option<nat>)
    requires |opt| > OPT_SPAN
    ensures r.Some? ==> i <= r.value < 308 && opt[r.value] == cmd
    decreases |opt| - i
  {
    if i >= OPT_SPAN || opt[i] == OPT_END then None
    else if opt[i] == cmd then Some(i)
    else Walk(opt, cmd, i + 2 + opt[i + 1] as nat)
  }

  /** `opt_find`. */
  method OptFind(opt: seq<byte>, cmd: byte) returns (r: Option<nat>)
    requires |opt| > OPT_SPAN
    ensures r == Walk(opt, cmd, 0)
  {
    var i := 0;
    while i < OPT_SPAN && opt[i] != OPT_END
      invariant Walk(opt, cmd, i) == Walk(opt, cmd, 0)
      decreases |opt| - i
    {
      if opt[i] == cmd {
        return Some(i);
      }
      i := i + 2 + opt[i + 1] as nat;
    }
    return None;
  }

  // ---- The writers ----

  datatype Field = Opt(code: byte, data: seq<byte>)

  /** An option proper: PAD and END are single bytes (RFC 2132 sections 3.1 and 3.2) and not produced by the
      writers. */
  type Opt = o: Field | |o.data| < 256 && o.code != OPT_END && o.code != OPT_PAD witness Opt(OPT_ROUTER, [])

  function Encode(o: Field): seq<byte>
    requires |o.data| < 256
  {
    [o.code, ToByte(|o.data|)] + o.data
  }

  function EncodeAll(os: seq<Opt>): seq<byte> {
    if os == [] then [] else Encode(os[0]) + EncodeAll(os[1..])
  }

  /** The big-endian bytes of a 32-bit number. */
  function BigEndian(v: bv32): seq<byte> {
    [((v >> 24) & 0xFF) as byte, ((v >> 16) & 0xFF) as byte, ((v >> 8) & 0xFF) as byte, (v & 0xFF) as byte]
  }

  /** `memcpy` into a buffer. */
  method CopyBytes(buf: array<byte>, pos: nat, data: seq<byte>)
    requires pos + |data| <= buf.Length
    modifies buf
    ensures buf[..] == old(buf[..pos]) + data + old(buf[pos + |data|..])
  {
    for i := 0 to |data|
      invariant buf[..] == old(buf[..pos]) + data[..i] + old(buf[pos + i..])
    {
      buf[pos + i] := data[i];
    }
    assert data[..|data|] == data;
  }

  lemma HeaderInPlace(before: seq<byte>, pos: nat, x: byte, y: byte, next: nat)
    requires pos + 2 <= next <= |before|
    ensures var after := before[pos := x][pos + 1 := y];
      after[..pos + 2] == before[..pos] + [x, y] && after[next..] == before[next..]
  {
  }

  lemma Regroup(a: seq<byte>, b: seq<byte>, c: seq<byte>, d: seq<byte>)
    ensures (a + b) + c + d == a + (b + c) + d
  {
  }

  /** `opt_write_n`. Returns the position behind the option. */
  method WriteN(buf: array<byte>, pos: nat, cmd: byte, data: seq<byte>) returns (next: nat)
    requires |data| < 256 && pos + 2 + |data| <= buf.Length
    modifies buf
    ensures next == pos + 2 + |data|
    ensures buf[..] == old(buf[..pos]) + Encode(Opt(cmd, data)) + old(buf[next..])
  {
    ghost var before := buf[..];
    var length := ToByte(|data|);
    buf[pos] := cmd;
    buf[pos + 1] := length;
    next := pos + 2 + |data|;
    assert buf[..] == before[pos := cmd][pos + 1 := length];
    HeaderInPlace(before, pos, cmd, length, next);
    CopyBytes(buf, pos + 2, data);
    Regroup(before[..pos], [cmd, length], data, before[next..]);
  }

  /** `opt_write_u8`. */
  method WriteU8(buf: array<byte>, pos: nat, cmd: byte, val: byte) returns (next: nat)
    requires pos + 3 <= buf.Length
    modifies buf
    ensures next == pos + 3
    ensures buf[..] == old(buf[..pos]) + Encode(Opt(cmd, [val])) + old(buf[next..])
  {
    buf[pos], buf[pos + 1], buf[pos + 2] := cmd, 1, val;
    next := pos + 3;
    assert ToByte(1) == 1;
  }

  /** `opt_write_u32`. */
  method WriteU32(buf: array<byte>, pos: nat, cmd: byte, val: bv32) returns (next: nat)
    requires pos + 6 <= buf.Length
    modifies buf
    ensures next == pos + 6
    ensures buf[..] == old(buf[..pos]) + Encode(Opt(cmd, BigEndian(val))) + old(buf[next..])
  {
    ghost var be := BigEndian(val);
    buf[pos], buf[pos + 1] := cmd, 4;
    buf[pos + 2] := ((val >> 24) & 0xFF) as byte;
    buf[pos + 3] := ((val >> 16) & 0xFF) as byte;
    buf[pos + 4] := ((val >> 8) & 0xFF) as byte;
    buf[pos + 5] := (val & 0xFF) as byte;
    next := pos + 6;
    assert ToByte(4) == 4;
  }

  // ---- The round trip ----

  /** The first option with the given code. */
  function FirstMatch(os: seq<Opt>, cmd: byte): (k: nat)
    ensures k <= |os| && (k < |os| ==> os[k].code == cmd) && forall j :: 0 <= j < k ==> os[j].code != cmd
  {
    if os == [] || os[0].code == cmd then 0 else 1 + FirstMatch(os[1..], cmd)
  }

  lemma FirstMatchIs(os: seq<Opt>, cmd: byte, k: nat)
    requires k < |os| && os[k].code == cmd && forall j :: 0 <= j < k ==> os[j].code != cmd
    ensures FirstMatch(os, cmd) == k
  {
  }

  /** An option behind a run of PAD bytes. */
  datatype Padded = Padded(pads: nat, opt: Opt)

  function Pads(n: nat): seq<byte> {
    seq(n, _ => OPT_PAD)
  }

  /** A padded list; `tail` PADs stand in front of its END. */
  function EncodePadded(ps: seq<Padded>, tail: nat): seq<byte> {
    if ps == [] then Pads(tail) else Pads(ps[0].pads) + Encode(ps[0].opt) + EncodePadded(ps[1..], tail)
  }

  function Options(ps: seq<Padded>): (os: seq<Opt>)
    ensures |os| == |ps| && forall k :: 0 <= k < |ps| ==> os[k] == ps[k].opt
  {
    seq(|ps|, k requires 0 <= k < |ps| => ps[k].opt)
  }

  /** Where option `k` of a padded list starts. */
  function OffsetOf(ps: seq<Padded>, k: nat): nat
    requires k < |ps|
  {
    if k == 0 then ps[0].pads else ps[0].pads + 2 + |ps[0].opt.data| + OffsetOf(ps[1..], k - 1)
  }

  ghost predicate EvenRuns(ps: seq<Padded>) {
    forall k :: 0 <= k < |ps| ==> ps[k].pads % 2 == 0
  }

  ghost predicate NoRuns(ps: seq<Padded>, tail: nat) {
    tail == 0 && forall k :: 0 <= k < |ps| ==> ps[k].pads == 0
  }

  // ---- Runs of PAD ----

  ghost predicate PadsAt(opt: seq<byte>, i: nat, n: nat) {
    i + n <= |opt| && forall j :: i <= j < i + n ==> opt[j] == OPT_PAD
  }

  /** The walk takes two PADs for an option of length 0. */
  lemma {:induction false} PairsSkipped(opt: seq<byte>, cmd: byte, i: nat, n: nat)
    requires |opt| > OPT_SPAN && PadsAt(opt, i, n) && n % 2 == 0 && i + n <= OPT_SPAN && (n == 0 || cmd != OPT_PAD)
    ensures Walk(opt, cmd, i) == Walk(opt, cmd, i + n)
    decreases n
  {
    if n > 0 {
      assert opt[i] == OPT_PAD && opt[i + 1] == OPT_PAD;
      PairsSkipped(opt, cmd, i + 2, n - 2);
    }
  }

  /** The last PAD of an odd run takes the code behind it for its length. */
  lemma OddRunMisses(opt: seq<byte>, cmd: byte, i: nat, n: nat)
    requires |opt| > OPT_SPAN && PadsAt(opt, i, n) && n % 2 == 1 && i + n < OPT_SPAN && opt[i + n] == cmd != OPT_PAD
    ensures Walk(opt, cmd, i) != Some(i + n)
  {
    var last := i + n - 1;
    PairsSkipped(opt, cmd, i, n - 1);
    assert opt[last] == OPT_PAD;
    assert Walk(opt, cmd, last) == Walk(opt, cmd, last + 2 + cmd as nat);
  }

  /** Behind a run of PADs `opt_find` returns the option that follows exactly when the run is even. */
  lemma FoundBehindPadsExactly(opt: seq<byte>, cmd: byte, n: nat)
    requires |opt| > OPT_SPAN && n < OPT_SPAN && PadsAt(opt, 0, n) && opt[n] == cmd && cmd != OPT_PAD && cmd != OPT_END
    ensures Walk(opt, cmd, 0) == Some(n) <==> n % 2 == 0
  {
    if n % 2 == 0 {
      PairsSkipped(opt, cmd, 0, n);
    } else {
      OddRunMisses(opt, cmd, 0, n);
    }
  }

  /** The shortest such input: one PAD in front hides the message type behind it. */
  lemma PadHidesOption(rest: seq<byte>)
    requires |rest| > OPT_SPAN && rest[51] == OPT_END
    ensures Walk([OPT_PAD, OPT_MSG_TYPE, 1, 1] + rest, OPT_MSG_TYPE, 0) == None
    ensures Walk([OPT_MSG_TYPE, 1, 1] + rest, OPT_MSG_TYPE, 0) == Some(0)
  {
    var padded := [OPT_PAD, OPT_MSG_TYPE, 1, 1] + rest;
    assert padded[1] == OPT_MSG_TYPE && padded[55] == OPT_END;
  }

  // ---- Lists in memory ----

  /** Runs, code and length bytes of a list, as they lie from index `i` on, closed by END inside the span. */
  ghost predicate Chained(opt: seq<byte>, i: nat, ps: seq<Padded>, tail: nat)
    requires |opt| > OPT_SPAN
    decreases |ps|
  {
    if ps == [] then i + tail < OPT_SPAN && PadsAt(opt, i, tail) && opt[i + tail] == OPT_END
    else
      var at := i + ps[0].pads;
      && at + 1 < OPT_SPAN && PadsAt(opt, i, ps[0].pads)
      && opt[at] == ps[0].opt.code && opt[at + 1] as nat == |ps[0].opt.data|
      && Chained(opt, at + 2 + |ps[0].opt.data|, ps[1..], tail)
  }

  /** The memory holds a padded list from index `i` on, closed by END inside the span `opt_find` walks. */
  ghost predicate Lists(opt: seq<byte>, i: nat, ps: seq<Padded>, tail: nat) {
    var end := i + |EncodePadded(ps, tail)|;
    end < OPT_SPAN < |opt| && opt[i..end] == EncodePadded(ps, tail) && opt[end] == OPT_END
  }

  lemma EncodedHead(ps: seq<Padded>, tail: nat)
    requires ps != []
    ensures var all, p := EncodePadded(ps, tail), ps[0].pads;
            var n := p + 2 + |ps[0].opt.data|;
      && n <= |all| && all[..p] == Pads(p) && all[p] == ps[0].opt.code && all[p + 1] as nat == |ps[0].opt.data|
      && all[n..] == EncodePadded(ps[1..], tail)
  {
    var p, e := Pads(ps[0].pads), Encode(ps[0].opt);
    var rest := EncodePadded(ps[1..], tail);
    assert EncodePadded(ps, tail) == p + e + rest;
    assert (p + e + rest)[|p|] == e[0] && (p + e + rest)[|p| + 1] == e[1];
  }

  lemma SegmentHolds(opt: seq<byte>, i: nat, end: nat, all: seq<byte>, k: nat)
    requires i <= end <= |opt| && opt[i..end] == all && k < |all|
    ensures opt[i + k] == all[k]
  {
    assert opt[i..end][k] == opt[i + k];
  }

  lemma SegmentPads(opt: seq<byte>, i: nat, end: nat, all: seq<byte>, p: nat)
    requires i <= end <= |opt| && opt[i..end] == all && p <= |all| && all[..p] == Pads(p)
    ensures PadsAt(opt, i, p)
  {
    forall j | i <= j < i + p ensures opt[j] == OPT_PAD {
      assert opt[i..end][j - i] == all[..p][j - i];
    }
  }

  lemma ListHead(opt: seq<byte>, i: nat, ps: seq<Padded>, tail: nat)
    requires ps != [] && Lists(opt, i, ps, tail)
    ensures var at := i + ps[0].pads;
      && at + 1 < OPT_SPAN && PadsAt(opt, i, ps[0].pads)
      && opt[at] == ps[0].opt.code && opt[at + 1] as nat == |ps[0].opt.data|
      && Lists(opt, at + 2 + |ps[0].opt.data|, ps[1..], tail)
  {
    var all, p := EncodePadded(ps, tail), ps[0].pads;
    var n := p + 2 + |ps[0].opt.data|;
    EncodedHead(ps, tail);
    SegmentPads(opt, i, i + |all|, all, p);
    SegmentHolds(opt, i, i + |all|, all, p);
    SegmentHolds(opt, i, i + |all|, all, p + 1);
    SliceOfSlice(opt, i, i + |all|, n, |all|);
  }

  lemma {:induction false} ListIsChained(opt: seq<byte>, i: nat, ps: seq<Padded>, tail: nat)
    requires Lists(opt, i, ps, tail)
    ensures Chained(opt, i, ps, tail)
    decreases |ps|
  {
    if ps == [] {
      SegmentPads(opt, i, i + tail, Pads(tail), tail);
    } else {
      ListHead(opt, i, ps, tail);
      ListIsChained(opt, i + ps[0].pads + 2 + |ps[0].opt.data|, ps[1..], tail);
    }
  }

  /** One option of the list: found if it has the code, else passed. */
  lemma WalkPasses(opt: seq<byte>, i: nat, ps: seq<Padded>, tail: nat, cmd: byte)
    requires |opt| > OPT_SPAN && ps != [] && Chained(opt, i, ps, tail)
    requires cmd != OPT_END && ps[0].pads % 2 == 0 && (cmd == OPT_PAD ==> ps[0].pads == 0)
    ensures Walk(opt, cmd, i) ==
      if ps[0].opt.code == cmd then Some(i + ps[0].pads) else Walk(opt, cmd, i + ps[0].pads + 2 + |ps[0].opt.data|)
  {
    PairsSkipped(opt, cmd, i, ps[0].pads);
  }

  lemma MatchInRest(ps: seq<Padded>, cmd: byte)
    requires ps != [] && ps[0].opt.code != cmd
    ensures FirstMatch(Options(ps), cmd) == 1 + FirstMatch(Options(ps[1..]), cmd)
  {
    assert Options(ps)[1..] == Options(ps[1..]);
  }

  lemma RunsOfRest(ps: seq<Padded>, tail: nat)
    requires ps != []
    ensures EvenRuns(ps) ==> EvenRuns(ps[1..])
    ensures NoRuns(ps, tail) ==> NoRuns(ps[1..], tail)
  {
  }

  /** What `opt_find` ought to find in a list from index `i` on. */
  function Expected(i: nat, ps: seq<Padded>, cmd: byte): Option<nat> {
    var k := FirstMatch(Options(ps), cmd);
    if k < |ps| then Some(i + OffsetOf(ps, k)) else None
  }

  lemma ExpectedInRest(i: nat, ps: seq<Padded>, cmd: byte)
    requires ps != [] && ps[0].opt.code != cmd
    ensures Expected(i, ps, cmd) == Expected(i + ps[0].pads + 2 + |ps[0].opt.data|, ps[1..], cmd)
  {
    MatchInRest(ps, cmd);
  }

  lemma ExpectedFirst(i: nat, ps: seq<Padded>, cmd: byte)
    requires ps != [] && ps[0].opt.code == cmd
    ensures Expected(i, ps, cmd) == Some(i + ps[0].pads)
  {
    FirstMatchIs(Options(ps), cmd, 0);
  }

  lemma {:induction false} WalkFindsFirst(opt: seq<byte>, i: nat, ps: seq<Padded>, tail: nat, cmd: byte)
    requires |opt| > OPT_SPAN && Chained(opt, i, ps, tail)
    requires cmd != OPT_END && EvenRuns(ps) && tail % 2 == 0 && (cmd == OPT_PAD ==> NoRuns(ps, tail))
    ensures Walk(opt, cmd, i) == Expected(i, ps, cmd)
    decreases |ps|
  {
    if ps == [] {
      PairsSkipped(opt, cmd, i, tail);
    } else {
      WalkPasses(opt, i, ps, tail, cmd);
      if ps[0].opt.code == cmd {
        ExpectedFirst(i, ps, cmd);
      } else {
        ExpectedInRest(i, ps, cmd);
        RunsOfRest(ps, tail);
        WalkFindsFirst(opt, i + ps[0].pads + 2 + |ps[0].opt.data|, ps[1..], tail, cmd);
      }
    }
  }

  /** In any list of options as the writers produce them, closed by END, with any even runs of PADs in between,
      `opt_find` returns the first option with the code it looks for, wherever it lies, and nothing exactly when
      there is none. */
  lemma FindReadsPadded(ps: seq<Padded>, tail: nat, rest: seq<byte>, cmd: byte)
    requires |EncodePadded(ps, tail)| < OPT_SPAN <= |EncodePadded(ps, tail)| + |rest|
    requires cmd != OPT_END && EvenRuns(ps) && tail % 2 == 0 && (cmd == OPT_PAD ==> NoRuns(ps, tail))
    ensures var k := FirstMatch(Options(ps), cmd);
      Walk(EncodePadded(ps, tail) + [OPT_END] + rest, cmd, 0) == if k < |ps| then Some(OffsetOf(ps, k)) else None
  {
    ListIsChained(EncodePadded(ps, tail) + [OPT_END] + rest, 0, ps, tail);
    WalkFindsFirst(EncodePadded(ps, tail) + [OPT_END] + rest, 0, ps, tail, cmd);
  }

  ghost predicate Distinct(ps: seq<Padded>) {
    forall j, k :: 0 <= j < k < |ps| ==> ps[j].opt.code != ps[k].opt.code
  }

  ghost predicate FoundAt(opt: seq<byte>, i: nat, ps: seq<Padded>, k: nat)
    requires |opt| > OPT_SPAN && k < |ps|
  {
    Walk(opt, ps[k].opt.code, i) == Some(i + OffsetOf(ps, k))
  }

  ghost predicate AllFound(opt: seq<byte>, i: nat, ps: seq<Padded>)
    requires |opt| > OPT_SPAN
  {
    forall k :: 0 <= k < |ps| ==> FoundAt(opt, i, ps, k)
  }

  lemma FoundBehindFirst(opt: seq<byte>, i: nat, ps: seq<Padded>, tail: nat, k: nat)
    requires |opt| > OPT_SPAN && Chained(opt, i, ps, tail) && Distinct(ps) && 0 < k < |ps| && ps[0].pads % 2 == 0
    ensures FoundAt(opt, i, ps, k) <==> FoundAt(opt, i + ps[0].pads + 2 + |ps[0].opt.data|, ps[1..], k - 1)
  {
    WalkPasses(opt, i, ps, tail, ps[k].opt.code);
  }

  lemma {:induction false} ChainFoundExactly(opt: seq<byte>, i: nat, ps: seq<Padded>, tail: nat)
    requires |opt| > OPT_SPAN && Chained(opt, i, ps, tail) && Distinct(ps)
    ensures AllFound(opt, i, ps) <==> EvenRuns(ps)
    decreases |ps|
  {
    if ps != [] {
      if ps[0].pads % 2 == 1 {
        OddRunMisses(opt, ps[0].opt.code, i, ps[0].pads);
        assert !FoundAt(opt, i, ps, 0);
      } else {
        var next := i + ps[0].pads + 2 + |ps[0].opt.data|;
        WalkPasses(opt, i, ps, tail, ps[0].opt.code);
        assert FoundAt(opt, i, ps, 0);
        ChainFoundExactly(opt, next, ps[1..], tail);
        forall k | 0 < k < |ps| ensures FoundAt(opt, i, ps, k) <==> FoundAt(opt, next, ps[1..], k - 1) {
          FoundBehindFirst(opt, i, ps, tail, k);
        }
        RestFound(opt, i, next, ps);
        RestEven(ps);
      }
    }
  }

  lemma RestFound(opt: seq<byte>, i: nat, next: nat, ps: seq<Padded>)
    requires |opt| > OPT_SPAN && ps != [] && FoundAt(opt, i, ps, 0)
    requires forall k :: 0 < k < |ps| ==> (FoundAt(opt, i, ps, k) <==> FoundAt(opt, next, ps[1..], k - 1))
    ensures AllFound(opt, i, ps) <==> AllFound(opt, next, ps[1..])
  {
    if AllFound(opt, i, ps) {
      forall k | 0 <= k < |ps| - 1 ensures FoundAt(opt, next, ps[1..], k) {
        assert FoundAt(opt, i, ps, k + 1);
      }
    }
  }

  lemma RestEven(ps: seq<Padded>)
    requires ps != [] && ps[0].pads % 2 == 0
    ensures EvenRuns(ps) <==> EvenRuns(ps[1..])
  {
    if EvenRuns(ps[1..]) {
      forall k | 0 <= k < |ps| ensures ps[k].pads % 2 == 0 {
        assert k > 0 ==> ps[1..][k - 1] == ps[k];
      }
    }
  }

  /** A list of options with different codes and PADs in between: every option is found at its place exactly when
      every run in front of one is even. RFC 2132 section 3.1 makes PAD a single byte, so that runs of any length
      are legal. */
  lemma PaddedFoundExactly(ps: seq<Padded>, tail: nat, rest: seq<byte>)
    requires |EncodePadded(ps, tail)| < OPT_SPAN <= |EncodePadded(ps, tail)| + |rest| && Distinct(ps)
    ensures AllFound(EncodePadded(ps, tail) + [OPT_END] + rest, 0, ps) <==> EvenRuns(ps)
  {
    ListIsChained(EncodePadded(ps, tail) + [OPT_END] + rest, 0, ps, tail);
    ChainFoundExactly(EncodePadded(ps, tail) + [OPT_END] + rest, 0, ps, tail);
  }

  // ---- Without PADs ----

  function Unpadded(os: seq<Opt>): (ps: seq<Padded>)
    ensures |ps| == |os| && Options(ps) == os && NoRuns(ps, 0)
  {
    seq(|os|, k requires 0 <= k < |os| => Padded(0, os[k]))
  }

  lemma {:induction false} UnpaddedEncodes(os: seq<Opt>)
    ensures EncodePadded(Unpadded(os), 0) == EncodeAll(os)
  {
    if os != [] {
      UnpaddedEncodes(os[1..]);
      assert Unpadded(os)[1..] == Unpadded(os[1..]);
      assert Pads(0) + Encode(os[0]) == Encode(os[0]);
    }
  }

  lemma {:induction false} UnpaddedOffset(os: seq<Opt>, k: nat)
    requires k < |os|
    ensures OffsetOf(Unpadded(os), k) == |EncodeAll(os[..k])|
  {
    if k > 0 {
      UnpaddedOffset(os[1..], k - 1);
      assert Unpadded(os)[1..] == Unpadded(os[1..]);
      assert os[..k][0] == os[0] && os[..k][1..] == os[1..][..k - 1];
    }
  }

  /** The same for what the writers themselves produce, in terms of the bytes in front of the option. */
  lemma FindReadsWritten(os: seq<Opt>, rest: seq<byte>, cmd: byte)
    requires cmd != 255 && |EncodeAll(os)| < 308 <= |EncodeAll(os)| + |rest|
    ensures var k := FirstMatch(os, cmd);
      Walk(EncodeAll(os) + [OPT_END] + rest, cmd, 0) == if k < |os| then Some(|EncodeAll(os[..k])|) else None
  {
    UnpaddedEncodes(os);
    FindReadsPadded(Unpadded(os), 0, rest, cmd);
    var k := FirstMatch(os, cmd);
    if k < |os| {
      UnpaddedOffset(os, k);
    }
  }
}
