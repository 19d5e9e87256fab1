/** `dhcp_server_process` over its lease array and option buffer. */
module DhcpServer {
  import opened Bytes
  import opened Dhcp
  import opened DhcpOptions

  const DHCPDISCOVER: byte := 1
  const DHCPOFFER: byte := 2
  const DHCPREQUEST: byte := 3
  const DHCPACK: byte := 5
  const LEASE_TIME_S: bv32 := 86400

  /** Memory from the first option on that a message may make the server look at. */
  const OPT_MEMORY: nat := OPT_SPAN + 8

  /** What the server answers: the message type and `yiaddr`, the address offered or confirmed. */
  datatype Reply = Reply(msgType: byte, yiaddr: seq<byte>)

  /** The slot a REQUEST asks for. */
  function NamedSlot(serverIp: seq<byte>, opt: seq<byte>): (slot: Option<nat>)
    requires |serverIp| == 4 && |opt| >= OPT_MEMORY
    ensures slot.Some? ==> slot.value < MAX_IP
  {
    var o := Walk(opt, OPT_REQUESTED_IP, 0);
    RequestedSlot(serverIp, if o.Some? then Some(opt[o.value + 2..o.value + 6]) else None)
  }

  /** The case distinction of `dhcp_server_process`. `times` are the clock readings of a DISCOVER scan, `now` that
      of a REQUEST. */
  function AnswerTo(msgType: byte, table: Table, serverIp: seq<byte>, mac: Mac, opt: seq<byte>,
                    times: seq<nat>, now: nat)
    : (r: (Table, Option<Reply>))
    requires |serverIp| == 4 && |opt| >= OPT_MEMORY && |times| == MAX_IP
  {
    if msgType == DHCPDISCOVER then
      var (t, offer) := Discover(table, mac, times);
      (t, if offer.Some? then Some(Reply(DHCPOFFER, AddressOf(serverIp, offer.value))) else None)
    else if msgType == DHCPREQUEST && NamedSlot(serverIp, opt).Some? then
      var slot := NamedSlot(serverIp, opt).value;
      var (t, ok) := Request(table, mac, slot, now);
      (t, if ok then Some(Reply(DHCPACK, AddressOf(serverIp, slot))) else None)
    else (table, None)
  }

  /** `dhcp_server_process` up to the reply. */
  function Answer(table: Table, serverIp: seq<byte>, mac: Mac, opt: seq<byte>, times: seq<nat>, now: nat)
    : (r: (Table, Option<Reply>))
    requires |serverIp| == 4 && |opt| >= OPT_MEMORY && |times| == MAX_IP
  {
    var at := Walk(opt, OPT_MSG_TYPE, 0);
    if at.None? then (table, None) else AnswerTo(opt[at.value + 2], table, serverIp, mac, opt, times, now)
  }

  class LeaseServer {
    const lease: array<Lease>
    const ip: seq<byte>
    const mask: seq<byte>

    ghost predicate Valid() {
      lease.Length == MAX_IP && |ip| == 4 && |mask| == 4
    }

    ghost function Leases(): Table
      requires Valid()
      reads lease
    {
      lease[..]
    }

    /** `dhcp_server_init`. */
    constructor (ip: seq<byte>, mask: seq<byte>)
      requires |ip| == 4 && |mask| == 4
      ensures Valid() && fresh(lease) && Leases() == INIT.table
    {
      this.ip, this.mask := ip, mask;
      lease := new Lease[MAX_IP](_ => Lease(NO_MAC, 0));
      new;
      assert lease[..] == INIT.table;
    }

    /** The scan of the DISCOVER case; `times` are the readings of the clock. Returns 8 if no slot is left. */
    method OnDiscover(mac: Mac, times: seq<nat>) returns (yi: nat)
      requires Valid() && |times| == MAX_IP
      modifies lease
      ensures (Leases(), yi) == Scan(old(Leases()), mac, times, 0, MAX_IP)
    {
      yi := MAX_IP;
      var i := 0;
      while i < MAX_IP
        invariant 0 <= i <= MAX_IP && yi <= MAX_IP
        invariant Scan(Leases(), mac, times, i, yi) == Scan(old(Leases()), mac, times, 0, MAX_IP)
      {
        if lease[i].mac == mac {
          yi := i;
          return;
        }
        if yi == MAX_IP {
          if lease[i].mac == NO_MAC {
            yi := i;
          }
          if SeenExpired(lease[i].expiry, times[i]) {
            ghost var before := lease[..];
            lease[i] := lease[i].(mac := NO_MAC);
            assert lease[..] == before[i := before[i].(mac := NO_MAC)];
            yi := i;
          }
        }
        i := i + 1;
      }
    }

    /** The lease part of the REQUEST case. */
    method OnRequest(mac: Mac, slot: nat, now: nat) returns (ok: bool)
      requires Valid() && slot < MAX_IP
      modifies lease
      ensures (Leases(), ok) == Request(old(Leases()), mac, slot, now)
    {
      ghost var before := lease[..];
      if lease[slot].mac == mac {
      } else if lease[slot].mac == NO_MAC {
        lease[slot] := lease[slot].(mac := mac);
      } else {
        return false;
      }
      lease[slot] := lease[slot].(expiry := ((now % TICKS + LEASE_MS) % TICKS) / CHUNK);
      assert lease[..] == before[slot := Lease(mac, ExpiryOf(now))];
      return true;
    }

    /** The address checks of the REQUEST case. */
    method FindRequestedSlot(opt: seq<byte>) returns (slot: Option<nat>)
      requires Valid() && |opt| >= OPT_MEMORY
      ensures slot == NamedSlot(ip, opt)
    {
      var o := OptFind(opt, OPT_REQUESTED_IP);
      if o.None? {
        return None;
      }
      var a := opt[o.value + 2..o.value + 6];
      if a[..3] != ip[..3] {
        return None;
      }
      var yi := a[3] - BASE_IP;
      return if yi as nat >= MAX_IP then None else Some(yi as nat);
    }

    /** The message switch of `dhcp_server_process`. */
    method Handle(msgType: byte, mac: Mac, opt: seq<byte>, times: seq<nat>, now: nat) returns (reply: Option<Reply>)
      requires Valid() && |opt| >= OPT_MEMORY && |times| == MAX_IP
      modifies lease
      ensures (Leases(), reply) == AnswerTo(msgType, old(Leases()), ip, mac, opt, times, now)
    {
      reply := None;
      if msgType == DHCPDISCOVER {
        var yi := OnDiscover(mac, times);
        if yi != MAX_IP {
          var yiaddr := ip[3 := BASE_IP + ToByte(yi)];
          assert yiaddr == AddressOf(ip, yi);
          reply := Some(Reply(DHCPOFFER, yiaddr));
        }
      } else if msgType == DHCPREQUEST {
        var slot := FindRequestedSlot(opt);
        if slot.Some? {
          var ok := OnRequest(mac, slot.value, now);
          if ok {
            var yiaddr := ip[3 := BASE_IP + ToByte(slot.value)];
            assert yiaddr == AddressOf(ip, slot.value);
            reply := Some(Reply(DHCPACK, yiaddr));
          }
        }
      }
    }

    /** `dhcp_server_process` up to the reply. */
    method Process(mac: Mac, opt: seq<byte>, times: seq<nat>, now: nat) returns (reply: Option<Reply>)
      requires Valid() && |opt| >= OPT_MEMORY && |times| == MAX_IP
      modifies lease
      ensures (Leases(), reply) == Answer(old(Leases()), ip, mac, opt, times, now)
    {
      var at := OptFind(opt, OPT_MSG_TYPE);
      if at.None? {
        return None;
      }
      reply := Handle(opt[at.value + 2], mac, opt, times, now);
    }

    /** An address option appended to the options written so far. */
    method AppendAddress(buf: array<byte>, pos: nat, cmd: byte, data: seq<byte>, ghost written: seq<byte>)
      returns (next: nat)
      requires |data| == 4 && pos + 6 <= buf.Length && buf[..pos] == written
      modifies buf
      ensures next == pos + 6 && buf[..next] == written + Encode(Opt(cmd, data))
    {
      next := WriteN(buf, pos, cmd, data);
    }

    /** The options of a reply, written over those of the request; what lies behind them is not sent. */
    method WriteReply(buf: array<byte>, msgType: byte)
      requires Valid() && buf.Length >= REPLY_LENGTH
      modifies buf
      ensures buf[..REPLY_LENGTH] == EncodeAll(ReplyOptions(msgType, ip, mask)) + [OPT_END]
    {
      ghost var w0 := Encode(Opt(OPT_MSG_TYPE, [msgType]));
      var p := WriteU8(buf, 0, OPT_MSG_TYPE, msgType);
      assert buf[..p] == w0;
      p := AppendAddress(buf, p, OPT_SERVER_ID, ip, w0);
      ghost var w1 := w0 + Encode(Opt(OPT_SERVER_ID, ip));
      p := AppendAddress(buf, p, OPT_SUBNET_MASK, mask, w1);
      ghost var w2 := w1 + Encode(Opt(OPT_SUBNET_MASK, mask));
      p := WriteRest(buf, p, w2);
      ReplyBytes(msgType, ip, mask);
    }

    /** Router, DNS server and lease time, and the end of the list. */
    method WriteRest(buf: array<byte>, pos: nat, ghost w2: seq<byte>) returns (p: nat)
      requires Valid() && pos == 15 && buf.Length >= REPLY_LENGTH && buf[..pos] == w2
      modifies buf
      ensures p == REPLY_LENGTH
      ensures buf[..p] == w2 + Encode(Opt(OPT_ROUTER, ip)) + Encode(Opt(OPT_DNS, ip))
        + Encode(Opt(OPT_LEASE_TIME, BigEndian(LEASE_TIME_S))) + [OPT_END]
    {
      p := AppendAddress(buf, pos, OPT_ROUTER, ip, w2);
      ghost var w3 := w2 + Encode(Opt(OPT_ROUTER, ip));
      p := AppendAddress(buf, p, OPT_DNS, ip, w3);
      ghost var w4 := w3 + Encode(Opt(OPT_DNS, ip));
      p := WriteU32(buf, p, OPT_LEASE_TIME, LEASE_TIME_S);
      ghost var w5 := w4 + Encode(Opt(OPT_LEASE_TIME, BigEndian(LEASE_TIME_S)));
      assert buf[..p] == w5;
      buf[p] := OPT_END;
      p := p + 1;
      assert buf[..p] == w5 + [OPT_END];
    }
  }

  /** Bytes of a reply's options, END included. */
  const REPLY_LENGTH: nat := 34

  function ReplyOptions(msgType: byte, ip: seq<byte>, mask: seq<byte>): seq<Opt>
    requires |ip| == 4 && |mask| == 4
  {
    [Opt(OPT_MSG_TYPE, [msgType]), Opt(OPT_SERVER_ID, ip), Opt(OPT_SUBNET_MASK, mask), Opt(OPT_ROUTER, ip),
     Opt(OPT_DNS, ip), Opt(OPT_LEASE_TIME, BigEndian(LEASE_TIME_S))]
  }

  lemma ReplyBytes(msgType: byte, ip: seq<byte>, mask: seq<byte>)
    requires |ip| == 4 && |mask| == 4
    ensures EncodeAll(ReplyOptions(msgType, ip, mask)) ==
      Encode(Opt(OPT_MSG_TYPE, [msgType])) + Encode(Opt(OPT_SERVER_ID, ip)) + Encode(Opt(OPT_SUBNET_MASK, mask))
      + Encode(Opt(OPT_ROUTER, ip)) + Encode(Opt(OPT_DNS, ip)) + Encode(Opt(OPT_LEASE_TIME, BigEndian(LEASE_TIME_S)))
  {
    var os := ReplyOptions(msgType, ip, mask);
    assert EncodeAll(os[5..]) == Encode(os[5]);
    assert EncodeAll(os[4..]) == Encode(os[4]) + EncodeAll(os[5..]) by { assert os[4..][1..] == os[5..]; }
    assert EncodeAll(os[3..]) == Encode(os[3]) + EncodeAll(os[4..]) by { assert os[3..][1..] == os[4..]; }
    assert EncodeAll(os[2..]) == Encode(os[2]) + EncodeAll(os[3..]) by { assert os[2..][1..] == os[3..]; }
    assert EncodeAll(os[1..]) == Encode(os[1]) + EncodeAll(os[2..]) by { assert os[1..][1..] == os[2..]; }
  }

  /** A client that reads the reply the way the server reads requests finds in it the message type, and the 24
      hours. */
  lemma ReplyReadable(msgType: byte, ip: seq<byte>, mask: seq<byte>, rest: seq<byte>)
    requires |ip| == 4 && |mask| == 4 && |rest| >= OPT_SPAN
    ensures var opt := EncodeAll(ReplyOptions(msgType, ip, mask)) + [OPT_END] + rest;
      && Walk(opt, OPT_MSG_TYPE, 0) == Some(0) && opt[2] == msgType
      && Walk(opt, OPT_LEASE_TIME, 0) == Some(27) && opt[29..33] == [0x00, 0x01, 0x51, 0x80]
  {
    var os := ReplyOptions(msgType, ip, mask);
    var opt := EncodeAll(os) + [OPT_END] + rest;
    ReplyBytes(msgType, ip, mask);
    FindReadsWritten(os, rest, OPT_MSG_TYPE);
    FindReadsWritten(os, rest, OPT_LEASE_TIME);
    FirstMatchIs(os, OPT_MSG_TYPE, 0);
    FirstMatchIs(os, OPT_LEASE_TIME, 5);
    LeaseTimeOffset(os);
  }

  lemma LeaseTimeOffset(os: seq<Opt>)
    requires |os| == 6 && |os[0].data| == 1 && forall i :: 1 <= i < 5 ==> |os[i].data| == 4
    ensures |EncodeAll(os[..5])| == 27
  {
    var ps := os[..5];
    assert |EncodeAll(ps[4..])| == 6 by { assert ps[4..][1..] == []; }
    assert |EncodeAll(ps[3..])| == 12 by { assert ps[3..][1..] == ps[4..]; }
    assert |EncodeAll(ps[2..])| == 18 by { assert ps[2..][1..] == ps[3..]; }
    assert |EncodeAll(ps[1..])| == 24 by { assert ps[1..][1..] == ps[2..]; }
  }

  // ---- Answers on the wire ----

  /** Memory that holds an option list as a client writes it. */
  function Options(os: seq<Opt>, rest: seq<byte>): seq<byte> {
    EncodeAll(os) + [OPT_END] + rest
  }

  ghost predicate Fits(os: seq<Opt>, rest: seq<byte>) {
    |EncodeAll(os)| < OPT_SPAN && |rest| >= OPT_MEMORY
  }

  /** The first option with code `cmd` carries `data`. */
  ghost predicate Carries(os: seq<Opt>, cmd: byte, data: seq<byte>) {
    exists k :: 0 <= k < |os| && os[k] == Opt(cmd, data) && forall j :: 0 <= j < k ==> os[j].code != cmd
  }

  lemma {:induction false} EncodedSplit(os: seq<Opt>, k: nat)
    requires k < |os|
    ensures EncodeAll(os) == EncodeAll(os[..k]) + Encode(os[k]) + EncodeAll(os[k + 1..])
  {
    if k == 0 {
      assert EncodeAll(os[..0]) == [];
      assert [] + Encode(os[0]) == Encode(os[0]);
    } else {
      EncodedSplit(os[1..], k - 1);
      assert os[1..][..k - 1] == os[..k][1..] && os[..k][0] == os[0] && os[1..][k..] == os[k + 1..];
      Regrouped4(Encode(os[0]), EncodeAll(os[..k][1..]), Encode(os[k]), EncodeAll(os[k + 1..]));
    }
  }

  lemma Regrouped4(a: seq<byte>, b: seq<byte>, c: seq<byte>, d: seq<byte>)
    ensures a + (b + c + d) == (a + b) + c + d
  {
  }

  lemma DataInPlace(front: seq<byte>, code: byte, len: byte, data: seq<byte>, behind: seq<byte>)
    ensures (front + ([code, len] + data) + behind)[|front| + 2..|front| + 2 + |data|] == data
  {
  }

  lemma MemoryAround(os: seq<Opt>, rest: seq<byte>, k: nat)
    requires k < |os|
    ensures var at, data := |EncodeAll(os[..k])|, os[k].data;
      at + 2 + |data| <= |EncodeAll(os)| && Options(os, rest)[at + 2..at + 2 + |data|] == data
  {
    EncodedSplit(os, k);
    var front, e, tail := EncodeAll(os[..k]), Encode(os[k]), EncodeAll(os[k + 1..]);
    Around(front, e, tail, [OPT_END], rest);
    DataInPlace(front, os[k].code, ToByte(|os[k].data|), os[k].data, tail + [OPT_END] + rest);
  }

  lemma Around(a: seq<byte>, b: seq<byte>, c: seq<byte>, d: seq<byte>, e: seq<byte>)
    ensures (a + b + c) + d + e == a + b + (c + d + e)
  {
  }

  /** What the search finds, and the bytes it finds there. */
  lemma FindsCarried(os: seq<Opt>, rest: seq<byte>, cmd: byte, data: seq<byte>)
    requires Fits(os, rest) && cmd != OPT_END && Carries(os, cmd, data)
    ensures var o := Walk(Options(os, rest), cmd, 0);
      && o.Some? && o.value + 2 + |data| <= |EncodeAll(os)|
      && Options(os, rest)[o.value + 2..o.value + 2 + |data|] == data
  {
    var k :| 0 <= k < |os| && os[k] == Opt(cmd, data) && forall j :: 0 <= j < k ==> os[j].code != cmd;
    FindReadsWritten(os, rest, cmd);
    FirstMatchIs(os, cmd, k);
    MemoryAround(os, rest, k);
  }

  lemma TypeRead(os: seq<Opt>, rest: seq<byte>, t: byte)
    requires Fits(os, rest) && Carries(os, 53, [t])
    ensures var o := Walk(Options(os, rest), OPT_MSG_TYPE, 0); o.Some? && Options(os, rest)[o.value + 2] == t
  {
    FindsCarried(os, rest, 53, [t]);
    var opt := Options(os, rest);
    var o := Walk(opt, 53, 0);
    assert opt[o.value + 2..o.value + 3][0] == opt[o.value + 2];
  }

  /** The four bytes are address 16 + k of the server's network. */
  ghost predicate IsAddress(a: seq<byte>, ip: seq<byte>, k: int) {
    |a| == |ip| == 4 && a[..3] == ip[..3] && a[3] as int == 16 + k && 0 <= k < 8
  }

  lemma {:induction false} AddressIsOf(a: seq<byte>, ip: seq<byte>, k: nat)
    requires |ip| == 4 && k < MAX_IP
    ensures IsAddress(a, ip, k) <==> a == AddressOf(ip, k)
  {
    AddressBytes(ip, k);
    if IsAddress(a, ip, k) {
      FourBytes(a, AddressOf(ip, k));
    }
  }

  lemma FourBytes(a: seq<byte>, b: seq<byte>)
    requires |a| == |b| == 4 && a[..3] == b[..3] && a[3] == b[3]
    ensures a == b
  {
    assert a == a[..3] + [a[3]] && b == b[..3] + [b[3]];
  }

  /** A DISCOVER, message type 1, is answered by an OFFER, type 2, of the address of the slot found, or not at all. */
  lemma {:induction false} DiscoverIsOffered(table: Table, ip: seq<byte>, mac: Mac, os: seq<Opt>, rest: seq<byte>,
                                             times: seq<nat>, now: nat)
    requires |ip| == 4 && |times| == MAX_IP && Fits(os, rest) && Carries(os, 53, [1])
    ensures var (t, reply) := Answer(table, ip, mac, Options(os, rest), times, now);
            var (u, offer) := Discover(table, mac, times);
      && t == u
      && (offer.None? ==> reply == None)
      && (offer.Some? ==> reply.Some? && reply.value.msgType == 2 && IsAddress(reply.value.yiaddr, ip, offer.value))
  {
    TypeRead(os, rest, 1);
    var offer := Discover(table, mac, times).1;
    if offer.Some? {
      AddressIsOf(AddressOf(ip, offer.value), ip, offer.value);
    }
  }

  /** A REQUEST, message type 3, for address 16 + k of the server's network is answered by an ACK, type 5, for that
      address, if the slot is the client's or free, and not at all otherwise. */
  lemma {:induction false} RequestIsAcked(table: Table, ip: seq<byte>, mac: Mac, os: seq<Opt>, rest: seq<byte>,
                                          times: seq<nat>, now: nat, a: seq<byte>, k: nat)
    requires |times| == MAX_IP && Fits(os, rest) && Carries(os, 53, [3]) && Carries(os, 50, a) && IsAddress(a, ip, k)
    ensures var (t, reply) := Answer(table, ip, mac, Options(os, rest), times, now);
      && t == Request(table, mac, k, now).0
      && reply == if table[k].mac == mac || table[k].mac == [0, 0, 0, 0, 0, 0] then Some(Reply(5, a)) else None
  {
    TypeRead(os, rest, 3);
    RequestedRead(os, rest, ip, a);
    AddressNamesSlotExactly(ip, a);
    AddressIsOf(a, ip, k);
  }

  lemma RequestedRead(os: seq<Opt>, rest: seq<byte>, ip: seq<byte>, a: seq<byte>)
    requires |ip| == |a| == 4 && Fits(os, rest) && Carries(os, 50, a)
    ensures NamedSlot(ip, Options(os, rest)) == RequestedSlot(ip, Some(a))
  {
    FindsCarried(os, rest, 50, a);
  }

  /** A REQUEST for any other address is ignored and changes nothing. */
  lemma RequestElsewhereIgnored(table: Table, ip: seq<byte>, mac: Mac, os: seq<Opt>, rest: seq<byte>,
                                times: seq<nat>, now: nat, a: seq<byte>)
    requires |ip| == 4 && |times| == MAX_IP && Fits(os, rest) && Carries(os, 53, [3])
    requires |a| == 4 && Carries(os, 50, a) && !(a[..3] == ip[..3] && 16 <= a[3] as nat < 24)
    ensures Answer(table, ip, mac, Options(os, rest), times, now) == (table, None)
  {
    TypeRead(os, rest, 3);
    RequestedRead(os, rest, ip, a);
    AddressNamesSlotExactly(ip, a);
  }

  /** Any other message type, and none, is ignored and changes nothing. */
  lemma OthersIgnored(table: Table, ip: seq<byte>, mac: Mac, os: seq<Opt>, rest: seq<byte>, times: seq<nat>, now: nat,
                      t: byte)
    requires |ip| == 4 && |times| == MAX_IP && Fits(os, rest)
    requires (Carries(os, 53, [t]) && t != 1 && t != 3) || forall k :: 0 <= k < |os| ==> os[k].code != 53
    ensures Answer(table, ip, mac, Options(os, rest), times, now) == (table, None)
  {
    if Carries(os, 53, [t]) {
      TypeRead(os, rest, t);
    } else {
      FindReadsWritten(os, rest, 53);
    }
  }

  /** What a client sees: it sends a DISCOVER and is offered an address; whatever other messages the server handles
      then, as long as no other client is ACKed for that slot, its REQUEST for exactly the address of the offer is
      answered by an ACK for it. */
  lemma {:induction false} OfferedAddressIsAcked(s: Server, ip: seq<byte>, mac: Mac, times: seq<nat>, ms: seq<Message>,
                                                 asking: seq<Opt>, wanting: seq<Opt>, rest: seq<byte>,
                                                 later: seq<nat>, now: nat, offer: Reply)
    requires |ip| == 4 && |times| == MAX_IP && |later| == MAX_IP
    requires Fits(asking, rest) && Carries(asking, 53, [1])
    requires Answer(s.table, ip, mac, Options(asking, rest), times, now).1 == Some(offer)
    requires |offer.yiaddr| == 4 && Fits(wanting, rest)
    requires Carries(wanting, 53, [3]) && Carries(wanting, 50, offer.yiaddr)
    requires NotTaken(Next(s, DiscoverMsg(mac, times)), ms, offer.yiaddr[3] as int - 16, mac)
    ensures offer.msgType == 2
    ensures var t := Run(Next(s, DiscoverMsg(mac, times)), ms).table;
      Answer(t, ip, mac, Options(wanting, rest), later, now).1 == Some(Reply(5, offer.yiaddr))
  {
    DiscoverIsOffered(s.table, ip, mac, asking, rest, times, now);
    var k := Discover(s.table, mac, times).1.value;
    var t := Run(Next(s, DiscoverMsg(mac, times)), ms).table;
    OfferHonoured(s, mac, times, k, ms, now);
    RequestIsAcked(t, ip, mac, wanting, rest, later, now, offer.yiaddr, k);
  }

  /** The reply's option bytes, one by one. */
  lemma ReplyOptionBytes(msgType: byte, ip: seq<byte>, mask: seq<byte>)
    requires |ip| == 4 && |mask| == 4
    ensures EncodeAll(ReplyOptions(msgType, ip, mask)) ==
      [53, 1, msgType] + ([54, 4] + ip) + ([1, 4] + mask) + ([3, 4] + ip) + ([6, 4] + ip)
      + [51, 4, 0x00, 0x01, 0x51, 0x80]
  {
    ReplyBytes(msgType, ip, mask);
    assert ToByte(1) == 1 && ToByte(4) == 4;
    assert BigEndian(LEASE_TIME_S) == [0x00, 0x01, 0x51, 0x80];
    assert [53, 1] + [msgType] == [53, 1, msgType];
    assert [51, 4] + [0x00, 0x01, 0x51, 0x80] == [51, 4, 0x00, 0x01, 0x51, 0x80];
  }

  /** The lease kept is the lease told: the four bytes of option 51 are seconds, big-endian. */
  lemma LeaseKeptIsLeaseTold()
    ensures LEASE_MS == 1000 * (0x00 * 0x1000000 + 0x01 * 0x10000 + 0x51 * 0x100 + 0x80)
  {
  }
}
