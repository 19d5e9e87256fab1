/** The lease table of `dhcpserver/dhcpserver.c` and what its clients can rely on over whole runs. */
module Dhcp {
  import opened Bytes

  const MAX_IP: nat := 8
  const BASE_IP: byte := 16
  /** The lease time in milliseconds: 24 hours. */
  const LEASE_MS: nat := 24 * 60 * 60 * 1000
  const TICKS: nat := 0x1_0000_0000
  const HALF: nat := 0x8000_0000
  const CHUNK: nat := 0x1_0000

  type Mac = m: seq<byte> | |m| == 6 witness [0, 0, 0, 0, 0, 0]

  const NO_MAC: Mac := [0, 0, 0, 0, 0, 0]

  /** A slot: whose it is, and the upper 16 bits of the tick at which the lease ends. */
  datatype Lease = Lease(mac: Mac, expiry: nat)

  type Table = t: seq<Lease> | |t| == MAX_IP witness seq(MAX_IP, _ => Lease(NO_MAC, 0))

  // ---- Expiry ----

  /** The expiry a lease granted at time `t` gets. The clock is the 32-bit millisecond counter, so `t` counts modulo
      2^32. */
  function ExpiryOf(t: nat): (e: nat)
    ensures e < CHUNK
  {
    ((t % TICKS + LEASE_MS) % TICKS) / CHUNK
  }

  /** The test of the DISCOVER scan: the difference of tick counts, read as a signed 32-bit number, is negative. */
  predicate SeenExpired(expiry: nat, t: nat) {
    (expiry * CHUNK + 0xFFFF - t % TICKS) % TICKS >= HALF
  }

  /** The last moment of a lease granted at `t0`: its nominal end, rounded up to the last tick of its 65536 ms
      chunk. */
  function LastMoment(t0: nat): (x: nat)
    ensures t0 + LEASE_MS <= x <= t0 + LEASE_MS + 0xFFFF
  {
    (t0 + LEASE_MS) / CHUNK * CHUNK + 0xFFFF
  }

  lemma ExpiryChunk(u: nat)
    ensures (u % TICKS) / CHUNK * CHUNK == (u / CHUNK * CHUNK) % TICKS
  {
    var q, r := u / TICKS, u % TICKS;
    var m := r / CHUNK;
    ChunksOf(q, r);
    assert (q * CHUNK + m) * CHUNK == TICKS * q + m * CHUNK;
    SmallRemainder(q, m * CHUNK);
  }

  lemma ChunksOf(q: nat, r: nat)
    requires r < TICKS
    ensures (q * TICKS + r) / CHUNK == q * CHUNK + r / CHUNK
  {
    var m := r / CHUNK;
    assert m * CHUNK <= r < m * CHUNK + CHUNK;
  }

  lemma ChunkEnd(x: nat)
    requires x % CHUNK == 0
    ensures x % TICKS + 0xFFFF == (x + 0xFFFF) % TICKS
  {
    var a, r := x / TICKS, x % TICKS;
    assert x == TICKS * a + r;
    assert r % CHUNK == 0;
    assert r + 0xFFFF < TICKS;
    SmallRemainder(a, r + 0xFFFF);
  }

  lemma SmallRemainder(a: nat, r: nat)
    requires r < TICKS
    ensures (TICKS * a + r) % TICKS == r
  {
  }

  lemma MultipleOfChunk(m: nat)
    ensures (m * CHUNK) % CHUNK == 0
  {
  }

  lemma LastOfChunk(u: nat)
    ensures (u % TICKS) / CHUNK * CHUNK + 0xFFFF == (u / CHUNK * CHUNK + 0xFFFF) % TICKS
  {
    var m := u / CHUNK;
    ExpiryChunk(u);
    MultipleOfChunk(m);
    ChunkEnd(m * CHUNK);
  }

  lemma SumModTicks(t: nat, k: nat)
    ensures (t % TICKS + k) % TICKS == (t + k) % TICKS
  {
    var q, r := t / TICKS, t % TICKS;
    var a, b := (r + k) / TICKS, (r + k) % TICKS;
    assert t + k == TICKS * (q + a) + b;
    SmallRemainder(q + a, b);
  }

  lemma ExpiryIsLastMoment(t0: nat)
    ensures ExpiryOf(t0) * CHUNK + 0xFFFF == LastMoment(t0) % TICKS
  {
    SumModTicks(t0, LEASE_MS);
    LastOfChunk(t0 + LEASE_MS);
  }

  lemma TicksShift(a: nat, t: nat)
    ensures (a % TICKS - t % TICKS) % TICKS == (a - t) % TICKS
  {
  }

  /** Across every wrap of the 32-bit clock: a lease granted at `t0` is seen expired at `t` exactly when `t` lies
      less than 2^31 ms behind its last moment, counted modulo 2^32. */
  lemma SeenExpiredExactly(t0: nat, t: nat)
    ensures SeenExpired(ExpiryOf(t0), t) <==> (t - LastMoment(t0) - 1) % TICKS < HALF
  {
    ExpiryIsLastMoment(t0);
    TicksShift(LastMoment(t0), t);
    Complement(LastMoment(t0) - t);
  }

  lemma Complement(d: int)
    ensures d % TICKS >= HALF <==> (-d - 1) % TICKS < HALF
  {
  }

  /** Never too early, and within 65.536 s of the nominal end from then on for 2^31 ms. */
  lemma ExpiryWindow(t0: nat, t: nat)
    requires t0 <= t <= t0 + LEASE_MS + HALF
    ensures t <= t0 + LEASE_MS ==> !SeenExpired(ExpiryOf(t0), t)
    ensures t > t0 + LEASE_MS + 0xFFFF ==> SeenExpired(ExpiryOf(t0), t)
  {
    SeenExpiredExactly(t0, t);
  }

  // ---- DISCOVER ----

  predicate Free(l: Lease, t: nat) {
    l.mac == NO_MAC || SeenExpired(l.expiry, t)
  }

  /** The scan of the DISCOVER case from slot `i` on; `yi` is the slot found so far, `times` are the clock readings.
      */
  function Scan(table: Table, mac: Mac, times: seq<nat>, i: nat, yi: nat): (r: (Table, nat))
    requires |times| == MAX_IP && i <= MAX_IP && yi <= MAX_IP
    ensures r.1 <= MAX_IP
    decreases |table| - i
  {
    if i == MAX_IP then (table, yi)
    else if table[i].mac == mac then (table, i)
    else if yi != MAX_IP then Scan(table, mac, times, i + 1, yi)
    else if SeenExpired(table[i].expiry, times[i]) then Scan(table[i := table[i].(mac := NO_MAC)], mac, times, i + 1, i)
    else if table[i].mac == NO_MAC then Scan(table, mac, times, i + 1, i)
    else Scan(table, mac, times, i + 1, yi)
  }

  /** The lowest slot from `i` on that holds the MAC; 8 if there is none. */
  function FirstOwn(table: Table, mac: Mac, i: nat): (k: nat)
    requires i <= MAX_IP
    ensures i <= k <= MAX_IP && (k < MAX_IP ==> table[k].mac == mac) && forall j :: i <= j < k ==> table[j].mac != mac
    decreases |table| - i
  {
    if i == MAX_IP || table[i].mac == mac then i else FirstOwn(table, mac, i + 1)
  }

  /** The lowest free or expired slot from `i` on; 8 if there is none. */
  function FirstFree(table: Table, times: seq<nat>, i: nat): (k: nat)
    requires |times| == MAX_IP && i <= MAX_IP
    ensures i <= k <= MAX_IP && (k < MAX_IP ==> Free(table[k], times[k]))
    ensures forall j :: i <= j < k ==> !Free(table[j], times[j])
    decreases |table| - i
  {
    if i == MAX_IP || Free(table[i], times[i]) then i else FirstFree(table, times, i + 1)
  }

  /** The table after the scan: at most the lowest free slot ahead of the client's own is cleared, and only if
      expired. */
  function Cleared(table: Table, mac: Mac, times: seq<nat>, i: nat): (r: Table)
    requires |times| == MAX_IP && i <= MAX_IP
  {
    var k := FirstFree(table, times, i);
    if k < FirstOwn(table, mac, i) && SeenExpired(table[k].expiry, times[k]) then table[k := table[k].(mac := NO_MAC)]
    else table
  }

  lemma {:induction false} ScanWithCandidate(table: Table, mac: Mac, times: seq<nat>, i: nat, yi: nat)
    requires |times| == MAX_IP && i <= MAX_IP && yi < MAX_IP
    ensures Scan(table, mac, times, i, yi) ==
      (table, if FirstOwn(table, mac, i) < MAX_IP then FirstOwn(table, mac, i) else yi)
    decreases |table| - i
  {
    if i < MAX_IP && table[i].mac != mac {
      ScanWithCandidate(table, mac, times, i + 1, yi);
    }
  }

  lemma {:induction false} OwnUnaffected(table: Table, mac: Mac, i: nat, j: nat, l: Lease)
    requires i < j <= MAX_IP
    ensures FirstOwn(table[i := l], mac, j) == FirstOwn(table, mac, j)
    decreases |table| - j
  {
    if j < MAX_IP && table[j].mac != mac {
      OwnUnaffected(table, mac, i, j + 1, l);
    }
  }

  /** The slot offered: the client's own, else the lowest free or expired one. */
  function Offered(table: Table, mac: Mac, times: seq<nat>, i: nat): nat
    requires |times| == MAX_IP && i <= MAX_IP
  {
    if FirstOwn(table, mac, i) < MAX_IP then FirstOwn(table, mac, i) else FirstFree(table, times, i)
  }

  lemma ScanExpired(table: Table, mac: Mac, times: seq<nat>, i: nat)
    requires |times| == MAX_IP && i < MAX_IP && table[i].mac != mac && SeenExpired(table[i].expiry, times[i])
    ensures Scan(table, mac, times, i, MAX_IP) == (Cleared(table, mac, times, i), Offered(table, mac, times, i))
  {
    var cleared := table[i := table[i].(mac := NO_MAC)];
    ScanWithCandidate(cleared, mac, times, i + 1, i);
    OwnUnaffected(table, mac, i, i + 1, cleared[i]);
  }

  lemma ScanUnowned(table: Table, mac: Mac, times: seq<nat>, i: nat)
    requires |times| == MAX_IP && i < MAX_IP && table[i].mac != mac
    requires !SeenExpired(table[i].expiry, times[i]) && table[i].mac == NO_MAC
    ensures Scan(table, mac, times, i, MAX_IP) == (Cleared(table, mac, times, i), Offered(table, mac, times, i))
  {
    ScanWithCandidate(table, mac, times, i + 1, i);
  }

  /** DISCOVER offers the lowest slot that holds the client's MAC, else the lowest free or expired slot, and goes
      unanswered when there is neither. */
  lemma {:induction false} ScanFinds(table: Table, mac: Mac, times: seq<nat>, i: nat)
    requires |times| == MAX_IP && i <= MAX_IP
    ensures Scan(table, mac, times, i, MAX_IP) == (Cleared(table, mac, times, i), Offered(table, mac, times, i))
    decreases |table| - i
  {
    if i < MAX_IP && table[i].mac != mac {
      if SeenExpired(table[i].expiry, times[i]) {
        ScanExpired(table, mac, times, i);
      } else if table[i].mac == NO_MAC {
        ScanUnowned(table, mac, times, i);
      } else {
        ScanFinds(table, mac, times, i + 1);
      }
    }
  }

  /** The DISCOVER case: the new table and the slot offered. */
  function Discover(table: Table, mac: Mac, times: seq<nat>): (r: (Table, Option<nat>))
    requires |times| == MAX_IP
  {
    var (t, yi) := Scan(table, mac, times, 0, MAX_IP);
    (t, if yi < MAX_IP then Some(yi) else None)
  }

  /** DISCOVER goes unanswered exactly when all eight slots are other clients' unexpired leases. */
  lemma UnansweredExactly(table: Table, mac: Mac, times: seq<nat>)
    requires |times| == MAX_IP
    ensures Discover(table, mac, times).1 == None <==>
      forall i :: 0 <= i < 8 ==> table[i].mac !in {mac, [0, 0, 0, 0, 0, 0]} && !SeenExpired(table[i].expiry, times[i])
  {
    ScanFinds(table, mac, times, 0);
    NoneLeft(table, mac, times, FirstOwn(table, mac, 0), FirstFree(table, times, 0));
  }

  lemma NoneLeft(table: Table, mac: Mac, times: seq<nat>, own: nat, free: nat)
    requires |times| == MAX_IP && own == FirstOwn(table, mac, 0) && free == FirstFree(table, times, 0)
    ensures own == MAX_IP && free == MAX_IP <==>
      forall i :: 0 <= i < MAX_IP ==> table[i].mac != mac && !Free(table[i], times[i])
  {
  }

  /** What DISCOVER does to a slot: nothing, or an expired lease loses its owner; the offered slot is the client's
      or free. */
  lemma DiscoverChanges(table: Table, mac: Mac, times: seq<nat>, i: nat)
    requires |times| == MAX_IP && i < MAX_IP
    ensures var (t, offer) := Discover(table, mac, times);
      && (t[i] == table[i] || (SeenExpired(table[i].expiry, times[i]) && t[i] == table[i].(mac := NO_MAC)))
      && (offer == Some(i) ==> t[i].mac == mac || t[i].mac == NO_MAC)
  {
    ScanFinds(table, mac, times, 0);
  }

  /** At most one slot changes. */
  lemma DiscoverChangesOne(table: Table, mac: Mac, times: seq<nat>, i: nat, j: nat)
    requires |times| == MAX_IP && i < MAX_IP && j < MAX_IP
    requires Discover(table, mac, times).0[i] != table[i] && Discover(table, mac, times).0[j] != table[j]
    ensures i == j
  {
    ScanFinds(table, mac, times, 0);
  }

  // ---- REQUEST ----

  /** The slot a REQUEST names: the requested address has to lie in the server's network, at BASE_IP and the seven
      addresses behind it. */
  function RequestedSlot(serverIp: seq<byte>, requested: Option<seq<byte>>): (slot: Option<nat>)
    requires |serverIp| == 4 && (requested.Some? ==> |requested.value| == 4)
    ensures slot.Some? ==> slot.value < MAX_IP
  {
    if requested.None? || requested.value[..3] != serverIp[..3] then None
    else
      var yi := requested.value[3] - BASE_IP;
      if yi as nat >= MAX_IP then None else Some(yi as nat)
  }

  /** The address of slot `k`. */
  function AddressOf(serverIp: seq<byte>, k: nat): (a: seq<byte>)
    requires |serverIp| == 4 && k < MAX_IP
    ensures |a| == 4
  {
    serverIp[..3] + [BASE_IP + ToByte(k)]
  }

  /** The four bytes of a requested address name slot `k` exactly if they are those of the server's network and 16 + k;
      any other four bytes, and no address, name no slot. */
  lemma AddressNamesSlotExactly(serverIp: seq<byte>, a: seq<byte>)
    requires |serverIp| == 4 && |a| == 4
    ensures forall k: nat :: k < 8 ==>
      (RequestedSlot(serverIp, Some(a)) == Some(k) <==> a[..3] == serverIp[..3] && a[3] as nat == 16 + k)
    ensures RequestedSlot(serverIp, Some(a)).None? <==> !(a[..3] == serverIp[..3] && 16 <= a[3] as nat < 24)
    ensures RequestedSlot(serverIp, None).None?
  {
    LastByte(a[3]);
  }

  lemma LastByte(b: byte)
    ensures (b - 16) as nat == if b as nat >= 16 then b as nat - 16 else b as nat + 240
  {
  }

  lemma AddressBytes(serverIp: seq<byte>, k: nat)
    requires |serverIp| == 4 && k < MAX_IP
    ensures var a := AddressOf(serverIp, k);
      a[..3] == serverIp[..3] && a[3] as nat == 16 + k && RequestedSlot(serverIp, Some(a)) == Some(k)
  {
    SmallSum(ToByte(k));
    AddressNamesSlotExactly(serverIp, AddressOf(serverIp, k));
  }

  lemma SmallSum(b: byte)
    requires b < 8
    ensures (16 + b) as nat == 16 + b as nat
  {
  }

  /** The REQUEST case for a slot at time `t`: the new table and whether the request is ACKed. */
  function Request(table: Table, mac: Mac, slot: nat, t: nat): (r: (Table, bool))
    requires slot < MAX_IP
  {
    if table[slot].mac == mac || table[slot].mac == NO_MAC then (table[slot := Lease(mac, ExpiryOf(t))], true)
    else (table, false)
  }

  // ---- Runs ----

  /** A message of a client. DISCOVER reads the clock once for each slot it looks at. */
  datatype ClientMessage =
    | DiscoverMsg(mac: Mac, times: seq<nat>)
    | RequestMsg(mac: Mac, slot: nat, time: nat)

  type Message = m: ClientMessage | (m.DiscoverMsg? ==> |m.times| == MAX_IP) && (m.RequestMsg? ==> m.slot < MAX_IP)
    witness RequestMsg(NO_MAC, 0, 0)

  datatype Ack = Ack(slot: nat, mac: Mac, time: nat)

  /** The server with a record: the time of the last message, all ACKs, and when each slot was last ACKed. */
  datatype Record = Record(table: Table, now: nat, log: seq<Ack>, renewed: seq<nat>)

  type Server = s: Record | |s.renewed| == MAX_IP
    witness Record(seq(MAX_IP, _ => Lease(NO_MAC, 0)), 0, [], seq(MAX_IP, _ => 0))

  /** `dhcp_server_init`. */
  const INIT: Server := Record(seq(MAX_IP, _ => Lease(NO_MAC, 0)), 0, [], seq(MAX_IP, _ => 0))

  function Next(s: Server, m: Message): Server {
    match m
    case DiscoverMsg(mac, times) => s.(table := Discover(s.table, mac, times).0, now := times[MAX_IP - 1])
    case RequestMsg(mac, slot, time) =>
      var (t, ok) := Request(s.table, mac, slot, time);
      if ok then Record(t, time, s.log + [Ack(slot, mac, time)], s.renewed[slot := time]) else s.(now := time)
  }

  function Run(s: Server, ms: seq<Message>): Server {
    if ms == [] then s else Next(Run(s, ms[..|ms| - 1]), ms[|ms| - 1])
  }

  /** The clock does not run backwards. */
  ghost predicate Timely(s: Server, m: Message) {
    match m
    case DiscoverMsg(_, times) => s.now <= times[0] && forall i, j :: 0 <= i < j < MAX_IP ==> times[i] <= times[j]
    case RequestMsg(_, _, time) => s.now <= time
  }

  /** A run in time order of clients that have a MAC. */
  ghost predicate Orderly(s: Server, ms: seq<Message>) {
    ms != [] ==>
      && Orderly(s, ms[..|ms| - 1])
      && Timely(Run(s, ms[..|ms| - 1]), ms[|ms| - 1]) && ms[|ms| - 1].mac != NO_MAC
  }

  /** What is known of slot `i`: its owner's lease runs from the last renewal, and every other client that ever was
      ACKed for it has had its full lease. */
  ghost predicate SlotInv(s: Server, i: nat)
    requires i < MAX_IP
  {
    && s.renewed[i] <= s.now
    && (s.table[i].mac != NO_MAC ==> s.table[i].expiry == ExpiryOf(s.renewed[i]))
    && forall a :: a in s.log && a.slot == i ==>
         || (a.mac == s.table[i].mac && a.time <= s.renewed[i])
         || a.time + LEASE_MS < s.now
  }

  ghost predicate LogInv(s: Server) {
    && (forall a :: a in s.log ==> a.slot < MAX_IP && a.mac != NO_MAC && a.time <= s.now)
    && (forall i, j :: 0 <= i < j < |s.log| ==> s.log[i].time <= s.log[j].time)
    && forall i, j :: 0 <= i < j < |s.log| && s.log[i].slot == s.log[j].slot && s.log[i].mac != s.log[j].mac ==>
         s.log[i].time + LEASE_MS < s.log[j].time
  }

  ghost predicate Inv(s: Server) {
    LogInv(s) && forall i :: 0 <= i < MAX_IP ==> SlotInv(s, i)
  }

  lemma DiscoverKeepsSlot(s: Server, mac: Mac, times: seq<nat>, i: nat)
    requires |times| == MAX_IP && Timely(s, DiscoverMsg(mac, times)) && i < MAX_IP && SlotInv(s, i)
    ensures SlotInv(Next(s, DiscoverMsg(mac, times)), i)
  {
    DiscoverChanges(s.table, mac, times, i);
    if SeenExpired(s.table[i].expiry, times[i]) && s.table[i].mac != NO_MAC {
      NotExpiredWithinLease(s.renewed[i], times[i]);
    }
  }

  lemma NotExpiredWithinLease(t0: nat, t: nat)
    requires t0 <= t && SeenExpired(ExpiryOf(t0), t)
    ensures t0 + LEASE_MS < t
  {
    SeenExpiredExactly(t0, t);
  }

  lemma RequestKeepsSlot(s: Server, mac: Mac, slot: nat, time: nat, i: nat)
    requires slot < MAX_IP && i < MAX_IP && s.now <= time && SlotInv(s, i) && LogInv(s)
    ensures SlotInv(Next(s, RequestMsg(mac, slot, time)), i)
  {
  }

  lemma AckKeepsLog(s: Server, mac: Mac, slot: nat, time: nat)
    requires slot < MAX_IP && s.now <= time && mac != NO_MAC && LogInv(s) && SlotInv(s, slot)
    requires s.table[slot].mac == mac || s.table[slot].mac == NO_MAC
    ensures LogInv(Next(s, RequestMsg(mac, slot, time)))
  {
  }

  lemma NextKeepsInv(s: Server, m: Message)
    requires Inv(s) && Timely(s, m) && m.mac != NO_MAC
    ensures Inv(Next(s, m))
  {
    match m
    case DiscoverMsg(mac, times) =>
      forall i | 0 <= i < MAX_IP ensures SlotInv(Next(s, m), i) {
        DiscoverKeepsSlot(s, mac, times, i);
      }
    case RequestMsg(mac, slot, time) =>
      if s.table[slot].mac == mac || s.table[slot].mac == NO_MAC {
        AckKeepsLog(s, mac, slot, time);
      }
      forall i | 0 <= i < MAX_IP ensures SlotInv(Next(s, m), i) {
        RequestKeepsSlot(s, mac, slot, time, i);
      }
  }

  lemma {:induction false} RunKeepsInv(s: Server, ms: seq<Message>)
    requires Inv(s) && Orderly(s, ms)
    ensures Inv(Run(s, ms))
  {
    if ms != [] {
      RunKeepsInv(s, ms[..|ms| - 1]);
      NextKeepsInv(Run(s, ms[..|ms| - 1]), ms[|ms| - 1]);
    }
  }

  /** Exclusive addresses: in every run, if an address is ACKed to one client and later to another, the first
      client's full 24 hour lease lies between, counted from any of its ACKs. */
  lemma AddressesAreExclusive(ms: seq<Message>, i: nat, j: nat)
    requires Orderly(INIT, ms) && i < j < |Run(INIT, ms).log|
    requires Run(INIT, ms).log[i].slot == Run(INIT, ms).log[j].slot
    requires Run(INIT, ms).log[i].mac != Run(INIT, ms).log[j].mac
    ensures Run(INIT, ms).log[i].time + LEASE_MS < Run(INIT, ms).log[j].time
  {
    assert Inv(INIT);
    RunKeepsInv(INIT, ms);
  }

  /** An ACK binds a free slot against the next client exactly when the client it went to has a MAC: a zero MAC
      leaves the slot looking free. */
  lemma AckBindsExactly(table: Table, mac: Mac, slot: nat, t: nat)
    requires slot < MAX_IP && table[slot].mac == NO_MAC
    ensures (forall other: Mac, u :: other != mac ==> !Request(Request(table, mac, slot, t).0, other, slot, u).1)
       <==> mac != NO_MAC
  {
    if mac == NO_MAC {
      var other: Mac := [1, 0, 0, 0, 0, 0];
      assert Request(Request(table, mac, slot, t).0, other, slot, t).1;
    }
  }

  /** No other client is ACKed for the slot during the run. */
  ghost predicate NotTaken(s: Server, ms: seq<Message>, slot: nat, mac: Mac) {
    ms != [] ==>
      var n := |ms| - 1;
      && NotTaken(s, ms[..n], slot, mac)
      && (ms[n].RequestMsg? && ms[n].slot == slot && ms[n].mac != mac ==>
            !Request(Run(s, ms[..n]).table, ms[n].mac, slot, ms[n].time).1)
  }

  ghost predicate HeldFor(s: Server, slot: nat, mac: Mac)
    requires slot < MAX_IP
  {
    s.table[slot].mac == mac || s.table[slot].mac == NO_MAC
  }

  lemma NextKeepsHeld(s: Server, m: Message, slot: nat, mac: Mac)
    requires slot < MAX_IP && HeldFor(s, slot, mac)
    requires m.RequestMsg? && m.slot == slot && m.mac != mac ==> !Request(s.table, m.mac, slot, m.time).1
    ensures HeldFor(Next(s, m), slot, mac)
  {
    if m.DiscoverMsg? {
      DiscoverChanges(s.table, m.mac, m.times, slot);
    }
  }

  lemma {:induction false} RunKeepsHeld(s: Server, ms: seq<Message>, slot: nat, mac: Mac)
    requires slot < MAX_IP && HeldFor(s, slot, mac) && NotTaken(s, ms, slot, mac)
    ensures HeldFor(Run(s, ms), slot, mac)
  {
    if ms != [] {
      RunKeepsHeld(s, ms[..|ms| - 1], slot, mac);
      NextKeepsHeld(Run(s, ms[..|ms| - 1]), ms[|ms| - 1], slot, mac);
    }
  }

  /** An offer is honoured: whatever happens in between, the client's REQUEST for the offered slot is ACKed unless
      another client was ACKed for it first. */
  lemma OfferHonoured(s: Server, mac: Mac, times: seq<nat>, slot: nat, ms: seq<Message>, t: nat)
    requires |times| == MAX_IP && Discover(s.table, mac, times).1 == Some(slot)
    requires NotTaken(Next(s, DiscoverMsg(mac, times)), ms, slot, mac)
    ensures slot < MAX_IP && Request(Run(Next(s, DiscoverMsg(mac, times)), ms).table, mac, slot, t).1
  {
    ScanFinds(s.table, mac, times, 0);
    DiscoverChanges(s.table, mac, times, slot);
    RunKeepsHeld(Next(s, DiscoverMsg(mac, times)), ms, slot, mac);
  }
}
