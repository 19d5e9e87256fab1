/** A throttle slot (`withrottle_if.c`) and the drive message its state is packed into (`bidib_send_cs_drive`). */
module Throttle {
  import opened Bytes

  const FUNCTIONS: nat := 29

  /** What the roster says of a function of a locomotive: nothing (no entry or no label), or whether it is lockable.
      */
  type Roster = (int, nat) -> Option<bool>

  // ---- The drive message ----

  /** `t_bidib_cs_drive` without its constant format byte. */
  datatype Drive = Drive(addr: nat, active: byte, speed: byte, f4f0: byte, f12f5: byte, f20f13: byte, f28f21: byte)

  function Flag(on: bool, mask: byte): byte {
    if on then mask else 0
  }

  /** Eight flags in one byte, the first in bit 0. */
  function Octet(g: seq<bool>): byte
    requires |g| == 8
  {
    Flag(g[0], 0x01) | Flag(g[1], 0x02) | Flag(g[2], 0x04) | Flag(g[3], 0x08)
    | Flag(g[4], 0x10) | Flag(g[5], 0x20) | Flag(g[6], 0x40) | Flag(g[7], 0x80)
  }

  /** F0 sits above F4..F1. */
  function LowOctet(g: seq<bool>): byte
    requires |g| == 5
  {
    Flag(g[0], 0x10) | Flag(g[1], 0x01) | Flag(g[2], 0x02) | Flag(g[3], 0x04) | Flag(g[4], 0x08)
  }

  function SpeedByte(speed: int, dir: nat): byte {
    if speed < 0 then 0x01 else ToByte(speed % 128) | Flag(dir != 0, 0x80)
  }

  function Pack(f: seq<bool>, addr: int, speed: int, dir: nat, active: byte): Drive
    requires |f| == FUNCTIONS
  {
    Drive(addr % 0x1_0000, active, SpeedByte(speed, dir),
          LowOctet(f[..5]), Octet(f[5..13]), Octet(f[13..21]), Octet(f[21..29]))
  }

  function Bit(b: byte, mask: byte): bool {
    b & mask != 0
  }

  function OctetFlags(b: byte): seq<bool> {
    [Bit(b, 0x01), Bit(b, 0x02), Bit(b, 0x04), Bit(b, 0x08), Bit(b, 0x10), Bit(b, 0x20), Bit(b, 0x40), Bit(b, 0x80)]
  }

  function LowFlags(b: byte): seq<bool> {
    [Bit(b, 0x10), Bit(b, 0x01), Bit(b, 0x02), Bit(b, 0x04), Bit(b, 0x08)]
  }

  /** The 29 functions as a command station reads them. */
  function Unpack(d: Drive): (f: seq<bool>)
    ensures |f| == FUNCTIONS
  {
    LowFlags(d.f4f0) + OctetFlags(d.f12f5) + OctetFlags(d.f20f13) + OctetFlags(d.f28f21)
  }

  lemma EightFlags(b0: bool, b1: bool, b2: bool, b3: bool, b4: bool, b5: bool, b6: bool, b7: bool)
    ensures var b := Flag(b0, 0x01) | Flag(b1, 0x02) | Flag(b2, 0x04) | Flag(b3, 0x08)
                     | Flag(b4, 0x10) | Flag(b5, 0x20) | Flag(b6, 0x40) | Flag(b7, 0x80);
      && Bit(b, 0x01) == b0 && Bit(b, 0x02) == b1 && Bit(b, 0x04) == b2 && Bit(b, 0x08) == b3
      && Bit(b, 0x10) == b4 && Bit(b, 0x20) == b5 && Bit(b, 0x40) == b6 && Bit(b, 0x80) == b7
  {
  }

  lemma OctetRoundTrip(g: seq<bool>)
    requires |g| == 8
    ensures OctetFlags(Octet(g)) == g
  {
    EightFlags(g[0], g[1], g[2], g[3], g[4], g[5], g[6], g[7]);
    assert OctetFlags(Octet(g)) == [g[0], g[1], g[2], g[3], g[4], g[5], g[6], g[7]];
    EightOfEight(g);
  }

  lemma EightOfEight(g: seq<bool>)
    requires |g| == 8
    ensures [g[0], g[1], g[2], g[3], g[4], g[5], g[6], g[7]] == g
  {
  }

  lemma FiveFlags(b0: bool, b1: bool, b2: bool, b3: bool, b4: bool)
    ensures var b := Flag(b0, 0x10) | Flag(b1, 0x01) | Flag(b2, 0x02) | Flag(b3, 0x04) | Flag(b4, 0x08);
      Bit(b, 0x10) == b0 && Bit(b, 0x01) == b1 && Bit(b, 0x02) == b2 && Bit(b, 0x04) == b3 && Bit(b, 0x08) == b4
  {
  }

  lemma LowRoundTrip(g: seq<bool>)
    requires |g| == 5
    ensures LowFlags(LowOctet(g)) == g
  {
    FiveFlags(g[0], g[1], g[2], g[3], g[4]);
  }

  /** A command station unpacks exactly the functions that were packed. */
  lemma FunctionsRoundTrip(f: seq<bool>, addr: int, speed: int, dir: nat, active: byte)
    requires |f| == FUNCTIONS
    ensures Unpack(Pack(f, addr, speed, dir, active)) == f
  {
    LowRoundTrip(f[..5]);
    OctetRoundTrip(f[5..13]);
    OctetRoundTrip(f[13..21]);
    OctetRoundTrip(f[21..29]);
    FourParts(f);
  }

  /** Where each function travels: F0 above F4 to F1, then eight in a byte, the lowest in bit 0. */
  lemma FunctionPlaces(f: seq<bool>, addr: int, speed: int, dir: nat, active: byte)
    requires |f| == FUNCTIONS
    ensures var d := Pack(f, addr, speed, dir, active);
      && FiveFrom(d.f4f0, f) && EightFrom(d.f12f5, f, 5) && EightFrom(d.f20f13, f, 13) && EightFrom(d.f28f21, f, 21)
      && d.active == active && d.addr == addr % 65536
  {
    LowPlaces(f);
    OctetPlaces(f, 5);
    OctetPlaces(f, 13);
    OctetPlaces(f, 21);
    assert f[5..5 + 8] == f[5..13] && f[13..13 + 8] == f[13..21] && f[21..21 + 8] == f[21..29];
  }

  lemma LowPlaces(f: seq<bool>)
    requires |f| == FUNCTIONS
    ensures FiveFrom(LowOctet(f[..5]), f)
  {
    FiveFlags(f[0], f[1], f[2], f[3], f[4]);
    var g := f[..5];
    assert g[0] == f[0] && g[1] == f[1] && g[2] == f[2] && g[3] == f[3] && g[4] == f[4];
  }

  ghost predicate FiveFrom(b: byte, f: seq<bool>)
    requires |f| == FUNCTIONS
  {
    && (b & 0x10 != 0) == f[0] && (b & 0x01 != 0) == f[1] && (b & 0x02 != 0) == f[2] && (b & 0x04 != 0) == f[3]
    && (b & 0x08 != 0) == f[4]
  }

  /** Functions `at` to `at + 7` are the bits of the byte, from bit 0 on. */
  ghost predicate EightFrom(b: byte, f: seq<bool>, at: nat)
    requires at + 8 <= |f|
  {
    && (b & 0x01 != 0) == f[at] && (b & 0x02 != 0) == f[at + 1] && (b & 0x04 != 0) == f[at + 2]
    && (b & 0x08 != 0) == f[at + 3] && (b & 0x10 != 0) == f[at + 4] && (b & 0x20 != 0) == f[at + 5]
    && (b & 0x40 != 0) == f[at + 6] && (b & 0x80 != 0) == f[at + 7]
  }

  lemma OctetPlaces(f: seq<bool>, at: nat)
    requires at + 8 <= |f|
    ensures EightFrom(Octet(f[at..at + 8]), f, at)
  {
    EightFlags(f[at], f[at + 1], f[at + 2], f[at + 3], f[at + 4], f[at + 5], f[at + 6], f[at + 7]);
  }

  lemma FourParts(f: seq<bool>)
    requires |f| == FUNCTIONS
    ensures f[..5] + f[5..13] + f[13..21] + f[21..29] == f
  {
  }

  /** Speeds 0 to 127 and the direction are read back unchanged. */
  lemma SpeedRoundTrip(speed: nat, dir: nat)
    requires speed < 128
    ensures (SpeedByte(speed, dir) & 0x7F) == ToByte(speed) && Bit(SpeedByte(speed, dir), 0x80) == (dir != 0)
  {
    SmallByte(speed);
    var b, top := ToByte(speed), Flag(dir != 0, 0x80);
    assert SpeedByte(speed, dir) == b | top by { assert speed % 128 == speed; }
    KeepSeven(b, top);
  }

  lemma SmallByte(n: nat)
    requires n < 128
    ensures ToByte(n) < 0x80
  {
  }

  lemma KeepSeven(b: byte, top: byte)
    requires b < 0x80 && (top == 0 || top == 0x80)
    ensures (b | top) & 0x7F == b && Bit(b | top, 0x80) == (top == 0x80)
  {
  }

  /** The speed byte of an emergency stop is also that of step 1 in reverse. */
  lemma EmergencyStopByte(speed: int, dir: nat)
    ensures SpeedByte(speed, dir) == 0x01 <==> speed < 0 || (speed % 128 == 1 && dir == 0)
  {
    if speed >= 0 {
      var n := speed % 128;
      SmallByte(n);
      KeepSeven(ToByte(n), Flag(dir != 0, 0x80));
    }
  }

  // ---- The active mask ----

  const SPEED_BIT: byte := 0x01
  const F0F4_BIT: byte := 0x02
  const F5F8_BIT: byte := 0x04
  const F9F12_BIT: byte := 0x08
  const F13F20_BIT: byte := 0x10
  const F21F28_BIT: byte := 0x20

  /** The mask sent when function `fn` changed. */
  function Active(fn: nat): byte {
    SPEED_BIT | (if fn <= 4 then F0F4_BIT else if fn <= 8 then F5F8_BIT else if fn <= 12 then F9F12_BIT
                 else if fn <= 20 then F13F20_BIT else F21F28_BIT)
  }

  /** What a command station takes over from a drive message: the function groups its mask names, the rest from
      before. */
  function TakenOver(before: seq<bool>, d: Drive): (f: seq<bool>)
    requires |before| == FUNCTIONS
    ensures |f| == FUNCTIONS
  {
    var f := Unpack(d);
    (if Bit(d.active, F0F4_BIT) then f[..5] else before[..5])
    + (if Bit(d.active, F5F8_BIT) then f[5..9] else before[5..9])
    + (if Bit(d.active, F9F12_BIT) then f[9..13] else before[9..13])
    + (if Bit(d.active, F13F20_BIT) then f[13..21] else before[13..21])
    + (if Bit(d.active, F21F28_BIT) then f[21..] else before[21..])
  }

  lemma FiveParts(f: seq<bool>)
    requires |f| == FUNCTIONS
    ensures f[..5] + f[5..9] + f[9..13] + f[13..21] + f[21..] == f
  {
  }

  lemma ActiveNamesGroup(fn: nat)
    ensures Bit(Active(fn), 0x02) <==> fn <= 4
    ensures Bit(Active(fn), 0x04) <==> 5 <= fn <= 8
    ensures Bit(Active(fn), 0x08) <==> 9 <= fn <= 12
    ensures Bit(Active(fn), 0x10) <==> 13 <= fn <= 20
    ensures Bit(Active(fn), 0x20) <==> 21 <= fn
    ensures Bit(Active(fn), 0x01) && Active(fn) & 0xC0 == 0
  {
  }

  /** A command station in step stays in step when one function changes: the mask names the group that holds it. */
  lemma StationStaysInStep(before: seq<bool>, fn: nat, on: bool, addr: int, speed: int, dir: nat)
    requires |before| == FUNCTIONS && fn < FUNCTIONS
    ensures TakenOver(before, Pack(before[fn := on], addr, speed, dir, Active(fn))) == before[fn := on]
  {
    var f := before[fn := on];
    FunctionsRoundTrip(f, addr, speed, dir, Active(fn));
    ActiveNamesGroup(fn);
    FiveParts(f);
    GroupsAgree(before, fn, on);
  }

  lemma GroupsAgree(before: seq<bool>, fn: nat, on: bool)
    requires |before| == FUNCTIONS && fn < FUNCTIONS
    ensures var f := before[fn := on];
      && (fn > 4 ==> f[..5] == before[..5])
      && (!(5 <= fn <= 8) ==> f[5..9] == before[5..9])
      && (!(9 <= fn <= 12) ==> f[9..13] == before[9..13])
      && (!(13 <= fn <= 20) ==> f[13..21] == before[13..21])
      && (fn < 21 ==> f[21..] == before[21..])
  {
  }

  /** The group of function bits that holds `fn`, by its bit in the mask. */
  function GroupBit(fn: nat): byte {
    if fn <= 4 then F0F4_BIT else if fn <= 8 then F5F8_BIT else if fn <= 12 then F9F12_BIT
    else if fn <= 20 then F13F20_BIT else F21F28_BIT
  }

  lemma TakenOverAt(before: seq<bool>, d: Drive, fn: nat)
    requires |before| == FUNCTIONS && fn < FUNCTIONS
    ensures TakenOver(before, d)[fn] == if Bit(d.active, GroupBit(fn)) then Unpack(d)[fn] else before[fn]
  {
    var f := Unpack(d);
    PartsAt(f, before, Bit(d.active, F0F4_BIT), Bit(d.active, F5F8_BIT), Bit(d.active, F9F12_BIT),
            Bit(d.active, F13F20_BIT), Bit(d.active, F21F28_BIT), fn);
  }

  lemma PartsAt(f: seq<bool>, b: seq<bool>, p: bool, q: bool, r: bool, s: bool, t: bool, fn: nat)
    requires |f| == FUNCTIONS && |b| == FUNCTIONS && fn < FUNCTIONS
    ensures ((if p then f[..5] else b[..5]) + (if q then f[5..9] else b[5..9]) + (if r then f[9..13] else b[9..13])
             + (if s then f[13..21] else b[13..21]) + (if t then f[21..] else b[21..]))[fn]
            == (if (if fn <= 4 then p else if fn <= 8 then q else if fn <= 12 then r else if fn <= 20 then s else t)
                then f[fn] else b[fn])
  {
  }

  // ---- The slot's state ----

  /** `Engine_t`: function states as the integers they are kept as, the DCC address (0 for none), speed and
      direction. */
  datatype Loco = Loco(state: seq<int>, dcc: int, newSpeed: int, dir: nat)

  predicate WellFormed(l: Loco) {
    |l.state| == FUNCTIONS
  }

  /** The commands of a throttle, parsed. `Lost` is a throttle that quits or whose heartbeat stops. */
  datatype Command =
    | Add(addr: int)
    | Release
    | Press(fn: nat, fstate: int)
    | Speed(speed: int)
    | Direction(dir: int)
    | Idle
    | Quit
    | Lost

  predicate InRange(c: Command) {
    c.Press? ==> c.fn < FUNCTIONS
  }

  type Cmd = c: Command | InRange(c) witness Idle

  /** A press that is not skipped: a release of a lockable function, or of any function but F2 of an unlisted one,
      is. */
  predicate Accepted(roster: Roster, dcc: int, fn: nat, fstate: int) {
    match roster(dcc, fn)
    case Some(lockable) => !(fstate == 0 && lockable)
    case None => fn == 2 || fstate != 0
  }

  /** The one case in which the state follows the button instead of toggling. */
  predicate Direct(roster: Roster, dcc: int, fn: nat) {
    roster(dcc, fn) == None && fn == 2
  }

  function Lights(state: seq<int>): (f: seq<bool>)
    ensures |f| == |state|
    ensures forall i :: 0 <= i < |state| ==> f[i] == (state[i] != 0)
  {
    seq(|state|, i requires 0 <= i < |state| => state[i] != 0)
  }

  function AllOff(): (s: seq<int>)
    ensures |s| == FUNCTIONS && forall i :: 0 <= i < |s| ==> s[i] == 0
  {
    seq(FUNCTIONS, _ => 0)
  }

  function Show(l: Loco, active: byte): Drive
    requires WellFormed(l)
  {
    Pack(Lights(l.state), l.dcc, l.newSpeed, l.dir, active)
  }

  /** The state after a command. */
  function Step(roster: Roster, l: Loco, c: Cmd): (m: Loco)
    requires WellFormed(l)
    ensures WellFormed(m)
  {
    match c
    case Add(addr) => Loco(AllOff(), addr, 0, 1)
    case Release => l.(dcc := 0, newSpeed := 0)
    case Lost => l.(newSpeed := 0)
    case Press(fn, fstate) =>
      if l.dcc == 0 || !Accepted(roster, l.dcc, fn, fstate) then l
      else if Direct(roster, l.dcc, fn) then l.(state := l.state[fn := fstate])
      else l.(state := l.state[fn := if l.state[fn] == 0 then 1 else 0])
    case Speed(speed) => if l.dcc == 0 then l else l.(newSpeed := speed)
    case Direction(dir) => if l.dcc == 0 then l else l.(dir := dir % 256, newSpeed := 0)
    case Idle => if l.dcc == 0 then l else l.(newSpeed := 0)
    case Quit => if l.dcc == 0 then l else l.(newSpeed := 0)
  }

  /** The mask of the drive message a command causes, if it causes one. */
  function Sends(roster: Roster, l: Loco, c: Cmd): Option<byte> {
    if l.dcc == 0 then None
    else
      match c
      case Press(fn, fstate) => if Accepted(roster, l.dcc, fn, fstate) then Some(Active(fn)) else None
      case Speed(_) => Some(SPEED_BIT)
      case Direction(_) => Some(SPEED_BIT)
      case Idle => Some(SPEED_BIT)
      case _ => None
  }

  /** The drive message a command causes: it shows the new state. */
  function Message(roster: Roster, l: Loco, c: Cmd): Option<Drive>
    requires WellFormed(l)
  {
    match Sends(roster, l, c)
    case None => None
    case Some(active) => Some(Show(Step(roster, l, c), active))
  }

  function Run(roster: Roster, cs: seq<Cmd>): (l: Loco)
    ensures WellFormed(l)
  {
    if cs == [] then Loco(AllOff(), 0, 0, 0) else Step(roster, Run(roster, cs[..|cs| - 1]), cs[|cs| - 1])
  }

  // ---- What the history says ----

  /** The address of the last locomotive added. */
  function LastAdded(cs: seq<Cmd>): int {
    if cs == [] then 0 else if cs[|cs| - 1].Add? then cs[|cs| - 1].addr else LastAdded(cs[..|cs| - 1])
  }

  /** A locomotive was added, and not released since. */
  predicate InUse(cs: seq<Cmd>) {
    && cs != [] && !cs[|cs| - 1].Release?
    && (if cs[|cs| - 1].Add? then cs[|cs| - 1].addr != 0 else InUse(cs[..|cs| - 1]))
  }

  /** The last command stops the locomotive, whatever its speed was. */
  predicate StopsLast(cs: seq<Cmd>) {
    cs == [] || cs[|cs| - 1].Add? || cs[|cs| - 1].Release? || cs[|cs| - 1].Lost?
    || (InUse(cs[..|cs| - 1]) && (cs[|cs| - 1].Direction? || cs[|cs| - 1].Idle? || cs[|cs| - 1].Quit?))
  }

  /** The last speed set while a locomotive was in use, unless something stopped it since. */
  function LastSpeed(cs: seq<Cmd>): int {
    if StopsLast(cs) then 0
    else if cs[|cs| - 1].Speed? && InUse(cs[..|cs| - 1]) then cs[|cs| - 1].speed
    else LastSpeed(cs[..|cs| - 1])
  }

  /** The last direction set while a locomotive was in use; forward when it was added, and 0 before any was. */
  function LastDirection(cs: seq<Cmd>): nat {
    if cs == [] then 0
    else if cs[|cs| - 1].Add? then 1
    else if cs[|cs| - 1].Direction? && InUse(cs[..|cs| - 1]) then cs[|cs| - 1].dir % 256
    else LastDirection(cs[..|cs| - 1])
  }

  /** The last command is a button of function `fn` of a locomotive in use. */
  predicate ButtonLast(cs: seq<Cmd>, fn: nat) {
    cs != [] && cs[|cs| - 1].Press? && cs[|cs| - 1].fn == fn && InUse(cs[..|cs| - 1])
  }

  /** How often the button of `fn` went down since the last locomotive was added. */
  function Downs(cs: seq<Cmd>, fn: nat): nat {
    if cs == [] || cs[|cs| - 1].Add? then 0
    else Downs(cs[..|cs| - 1], fn) + if ButtonLast(cs, fn) && cs[|cs| - 1].fstate != 0 then 1 else 0
  }

  /** How often it went up. */
  function Ups(cs: seq<Cmd>, fn: nat): nat {
    if cs == [] || cs[|cs| - 1].Add? then 0
    else Ups(cs[..|cs| - 1], fn) + if ButtonLast(cs, fn) && cs[|cs| - 1].fstate == 0 then 1 else 0
  }

  /** Where the button of `fn` was last seen since the last locomotive was added. */
  function LastButton(cs: seq<Cmd>, fn: nat): int {
    if cs == [] || cs[|cs| - 1].Add? then 0
    else if ButtonLast(cs, fn) then cs[|cs| - 1].fstate
    else LastButton(cs[..|cs| - 1], fn)
  }

  lemma {:induction false} AddressIsHistory(roster: Roster, cs: seq<Cmd>)
    ensures Run(roster, cs).dcc == if InUse(cs) then LastAdded(cs) else 0
    ensures InUse(cs) ==> LastAdded(cs) != 0
  {
    if cs != [] {
      AddressIsHistory(roster, cs[..|cs| - 1]);
    }
  }

  lemma StepSetsSpeed(roster: Roster, l: Loco, c: Cmd)
    requires WellFormed(l)
    ensures Step(roster, l, c).newSpeed ==
      if c.Add? || c.Release? || c.Lost? || (l.dcc != 0 && (c.Direction? || c.Idle? || c.Quit?)) then 0
      else if c.Speed? && l.dcc != 0 then c.speed else l.newSpeed
    ensures Step(roster, l, c).dir ==
      if c.Add? then 1 else if c.Direction? && l.dcc != 0 then c.dir % 256 else l.dir
  {
  }

  lemma {:induction false} SpeedIsHistory(roster: Roster, cs: seq<Cmd>)
    ensures Run(roster, cs).newSpeed == LastSpeed(cs) && Run(roster, cs).dir == LastDirection(cs)
  {
    if cs != [] {
      var before := cs[..|cs| - 1];
      SpeedIsHistory(roster, before);
      AddressIsHistory(roster, before);
      StepSetsSpeed(roster, Run(roster, before), cs[|cs| - 1]);
    }
  }

  predicate Flips(roster: Roster, l: Loco, c: Cmd, fn: nat) {
    c.Press? && c.fn == fn && l.dcc != 0 && Accepted(roster, l.dcc, fn, c.fstate)
  }

  lemma StepAt(roster: Roster, l: Loco, c: Cmd, fn: nat)
    requires WellFormed(l) && fn < FUNCTIONS && !c.Add?
    ensures Step(roster, l, c).state[fn] ==
      if !Flips(roster, l, c, fn) then l.state[fn]
      else if Direct(roster, l.dcc, fn) then c.fstate
      else if l.state[fn] == 0 then 1 else 0
  {
  }

  /** Which button events count. With a locomotive in use: pressing a button, nonzero, always sends and toggles, and so
      does releasing one of a labelled function that is not lockable; the button of F2 of an unlisted locomotive always
      sends and is taken over; any other release changes and sends nothing. */
  lemma ButtonExactly(roster: Roster, l: Loco, fn: nat, fstate: int)
    requires WellFormed(l) && fn < FUNCTIONS && l.dcc != 0
    ensures var c := Press(fn, fstate);
            var entry := roster(l.dcc, fn);
            var toggled := l.(state := l.state[fn := if l.state[fn] == 0 then 1 else 0]);
      && (entry == None && fn == 2 ==>
            Step(roster, l, c) == l.(state := l.state[2 := fstate]) && Sends(roster, l, c).Some?)
      && (!(entry == None && fn == 2) && fstate != 0 ==>
            Step(roster, l, c) == toggled && Sends(roster, l, c).Some?)
      && (entry == Some(false) && fstate == 0 ==>
            Step(roster, l, c) == toggled && Sends(roster, l, c).Some?)
      && ((entry == Some(true) || (entry == None && fn != 2)) && fstate == 0 ==>
            Step(roster, l, c) == l && Sends(roster, l, c) == None)
  {
  }

  /** The state of function `fn`, told from its buttons alone. */
  function FromButtons(entry: Option<bool>, cs: seq<Cmd>, fn: nat): int {
    match entry
    case Some(lockable) => (if lockable then Downs(cs, fn) else Downs(cs, fn) + Ups(cs, fn)) % 2
    case None => if fn == 2 then LastButton(cs, fn) else Downs(cs, fn) % 2
  }

  lemma OtherCommandKeeps(roster: Roster, l: Loco, c: Cmd, fn: nat)
    requires WellFormed(l) && fn < FUNCTIONS && !c.Add? && !(c.Press? && c.fn == fn && l.dcc != 0)
    ensures Step(roster, l, c).state[fn] == l.state[fn]
  {
  }

  lemma ButtonsOfRest(entry: Option<bool>, cs: seq<Cmd>, fn: nat)
    requires cs != [] && !cs[|cs| - 1].Add? && !ButtonLast(cs, fn)
    ensures FromButtons(entry, cs, fn) == FromButtons(entry, cs[..|cs| - 1], fn)
  {
  }

  lemma OneMoreButton(entry: Option<bool>, cs: seq<Cmd>, fn: nat)
    requires cs != [] && ButtonLast(cs, fn)
    ensures var fstate, before := cs[|cs| - 1].fstate, FromButtons(entry, cs[..|cs| - 1], fn);
      FromButtons(entry, cs, fn) ==
        if entry == None && fn == 2 then fstate
        else if fstate != 0 || entry == Some(false) then (if before == 0 then 1 else 0)
        else before
  {
  }

  /** After any history, a lockable or unlisted function is on exactly if its button went down an odd number of times
      since its locomotive was added, another labelled one if it moved an odd number of times; F2 of an unlisted one is
      as its button was last seen. */
  lemma {:induction false} StateIsHistory(roster: Roster, cs: seq<Cmd>, fn: nat)
    requires fn < FUNCTIONS
    ensures Run(roster, cs).state[fn] ==
      match roster(LastAdded(cs), fn)
      case Some(true) => Downs(cs, fn) % 2
      case Some(false) => (Downs(cs, fn) + Ups(cs, fn)) % 2
      case None => if fn == 2 then LastButton(cs, fn) else Downs(cs, fn) % 2
  {
    if cs != [] && !cs[|cs| - 1].Add? {
      var before, c := cs[..|cs| - 1], cs[|cs| - 1];
      var entry := roster(LastAdded(cs), fn);
      StateIsHistory(roster, before, fn);
      AddressIsHistory(roster, before);
      if ButtonLast(cs, fn) {
        ButtonExactly(roster, Run(roster, before), fn, c.fstate);
        OneMoreButton(entry, cs, fn);
      } else {
        OtherCommandKeeps(roster, Run(roster, before), c, fn);
        ButtonsOfRest(entry, cs, fn);
      }
    }
  }

  /** A command sends a drive message exactly if a locomotive is in use and the command sets its speed or direction,
      idles it, or is a button that counts. */
  lemma SendsExactly(roster: Roster, cs: seq<Cmd>, c: Cmd)
    ensures Message(roster, Run(roster, cs), c).Some? <==>
      && InUse(cs)
      && (c.Speed? || c.Direction? || c.Idle?
          || (c.Press? && (c.fstate != 0 || roster(LastAdded(cs), c.fn) == Some(false)
                           || (c.fn == 2 && roster(LastAdded(cs), c.fn) == None))))
  {
    AddressIsHistory(roster, cs);
  }

  /** Every drive message shows the history it follows, and no more: its functions are those of the buttons, speed,
      direction and address are the last ones set; its mask names the speed, and the group of the pressed function if a
      function caused it. */
  lemma MessageShowsHistory(roster: Roster, cs: seq<Cmd>, c: Cmd, fn: nat)
    requires Message(roster, Run(roster, cs), c).Some? && fn < FUNCTIONS
    ensures var d := Message(roster, Run(roster, cs), c).value;
            var now := cs + [c];
      && Unpack(d)[fn] == (0 != FromButtons(roster(LastAdded(now), fn), now, fn))
      && d.speed == SpeedByte(LastSpeed(now), LastDirection(now))
      && d.addr == LastAdded(cs) % 0x1_0000
      && d.active == (if c.Press? then Active(c.fn) else SPEED_BIT)
  {
    RunLast(roster, cs, c);
    AddressIsHistory(roster, cs);
    SpeedIsHistory(roster, cs + [c]);
    StateFromButtons(roster, cs + [c], fn);
    MessageShows(roster, Run(roster, cs), c, fn);
  }

  lemma StateFromButtons(roster: Roster, cs: seq<Cmd>, fn: nat)
    requires fn < FUNCTIONS
    ensures Run(roster, cs).state[fn] == FromButtons(roster(LastAdded(cs), fn), cs, fn)
  {
    StateIsHistory(roster, cs, fn);
  }

  lemma MessageShows(roster: Roster, l: Loco, c: Cmd, fn: nat)
    requires WellFormed(l) && Message(roster, l, c).Some? && fn < FUNCTIONS
    ensures var d, m := Message(roster, l, c).value, Step(roster, l, c);
      && Unpack(d)[fn] == (m.state[fn] != 0) && d.speed == SpeedByte(m.newSpeed, m.dir) && d.addr == l.dcc % 0x1_0000
      && d.active == (if c.Press? then Active(c.fn) else SPEED_BIT) && m.dcc == l.dcc
  {
    ShownFunction(Step(roster, l, c), Sends(roster, l, c).value, fn);
  }

  lemma ShownFunction(l: Loco, active: byte, fn: nat)
    requires WellFormed(l) && fn < FUNCTIONS
    ensures Unpack(Show(l, active))[fn] == (l.state[fn] != 0)
  {
    FunctionsRoundTrip(Lights(l.state), l.dcc, l.newSpeed, l.dir, active);
  }

  /** A command to a locomotive in use that sends a drive message. */
  predicate Speaks(roster: Roster, dcc: int, c: Cmd) {
    match c
    case Press(fn, fstate) => Accepted(roster, dcc, fn, fstate)
    case Speed(_) => true
    case Direction(_) => true
    case Idle => true
    case _ => false
  }

  lemma MessageForm(roster: Roster, l: Loco, c: Cmd)
    requires WellFormed(l)
    ensures var m := Message(roster, l, c);
      && (m.Some? <==> l.dcc != 0 && Speaks(roster, l.dcc, c))
      && (m.Some? ==> m.value.addr == l.dcc % 0x1_0000)
      && (m.Some? ==> m.value.speed == SpeedByte(Step(roster, l, c).newSpeed, Step(roster, l, c).dir))
  {
  }

  // ---- A command station that listens ----

  /** What a station has taken over for locomotive `addr` from the messages of a history. */
  function Station(roster: Roster, cs: seq<Cmd>, addr: nat): (f: seq<bool>)
    ensures |f| == FUNCTIONS
  {
    if cs == [] then Lights(AllOff())
    else
      var before := Station(roster, cs[..|cs| - 1], addr);
      match Message(roster, Run(roster, cs[..|cs| - 1]), cs[|cs| - 1])
      case Some(d) => if d.addr == addr then TakenOver(before, d) else before
      case None => before
  }

  /** A function of the group of `fn` was pressed since the last locomotive was added. */
  predicate Told(roster: Roster, cs: seq<Cmd>, fn: nat) {
    cs != [] && !cs[|cs| - 1].Add? &&
    (Told(roster, cs[..|cs| - 1], fn)
     || (cs[|cs| - 1].Press? && SendsLast(roster, cs) && GroupBit(cs[|cs| - 1].fn) == GroupBit(fn)))
  }

  lemma TakenOverShows(before: seq<bool>, l: Loco, active: byte, fn: nat)
    requires WellFormed(l) && |before| == FUNCTIONS && fn < FUNCTIONS
    ensures TakenOver(before, Show(l, active))[fn] == if Bit(active, GroupBit(fn)) then l.state[fn] != 0 else before[fn]
  {
    ShownFunction(l, active, fn);
    TakenOverAt(before, Show(l, active), fn);
  }

  lemma NamesGroupExactly(fn: nat, other: nat)
    ensures Bit(Active(fn), GroupBit(other)) <==> GroupBit(fn) == GroupBit(other)
  {
    ActiveNamesGroup(fn);
  }

  lemma SpeedNamesNoGroup(fn: nat)
    ensures !Bit(SPEED_BIT, GroupBit(fn))
  {
  }

  /** A station that hears every message agrees on every function whose group was named since the locomotive was
      added, though a message carries the whole state and the mask names one group. */
  lemma {:induction false} StationFollows(roster: Roster, cs: seq<Cmd>, fn: nat)
    requires fn < FUNCTIONS && Told(roster, cs, fn)
    ensures Station(roster, cs, LastAdded(cs) % 0x1_0000)[fn] == (Run(roster, cs).state[fn] != 0)
  {
    var before, c := cs[..|cs| - 1], cs[|cs| - 1];
    if Told(roster, before, fn) {
      StationFollows(roster, before, fn);
    }
    assert cs == before + [c];
    StationSteps(roster, before, c);
    if !Told(roster, before, fn) {
      ToldByLast(roster, before, c, fn);
    }
    StationFollowsStep(roster, Run(roster, before), Station(roster, before, LastAdded(cs) % 0x1_0000), c, fn);
  }

  lemma ToldByLast(roster: Roster, before: seq<Cmd>, c: Cmd, fn: nat)
    requires Told(roster, before + [c], fn) && !Told(roster, before, fn)
    ensures c.Press? && Flips(roster, Run(roster, before), c, c.fn) && GroupBit(c.fn) == GroupBit(fn)
  {
    assert (before + [c])[..|before|] == before;
    AddressIsHistory(roster, before);
  }

  lemma StationHears(roster: Roster, before: seq<Cmd>, c: Cmd, addr: nat)
    ensures var m := Message(roster, Run(roster, before), c);
            var f := Station(roster, before, addr);
      Station(roster, before + [c], addr) == (if m.Some? && m.value.addr == addr then TakenOver(f, m.value) else f)
  {
    assert (before + [c])[..|before|] == before;
  }

  lemma RunLast(roster: Roster, before: seq<Cmd>, c: Cmd)
    ensures Run(roster, before + [c]) == Step(roster, Run(roster, before), c)
    ensures !c.Add? ==> LastAdded(before + [c]) == LastAdded(before)
  {
    assert (before + [c])[..|before|] == before;
  }

  lemma StationSteps(roster: Roster, before: seq<Cmd>, c: Cmd)
    requires !c.Add?
    ensures LastAdded(before + [c]) == LastAdded(before)
    ensures var m := Message(roster, Run(roster, before), c);
            var addr := LastAdded(before) % 0x1_0000;
            var f := Station(roster, before, addr);
      Station(roster, before + [c], addr) == (if m.Some? then TakenOver(f, m.value) else f)
    ensures Run(roster, before + [c]) == Step(roster, Run(roster, before), c)
  {
    RunLast(roster, before, c);
    StationHears(roster, before, c, LastAdded(before) % 0x1_0000);
    AddressIsHistory(roster, before);
    MessageForm(roster, Run(roster, before), c);
  }

  lemma StationFollowsStep(roster: Roster, l: Loco, station: seq<bool>, c: Cmd, fn: nat)
    requires WellFormed(l) && |station| == FUNCTIONS && fn < FUNCTIONS && !c.Add?
    requires || station[fn] == (l.state[fn] != 0)
             || (c.Press? && Flips(roster, l, c, c.fn) && GroupBit(c.fn) == GroupBit(fn))
    ensures var m := Message(roster, l, c);
      (if m.Some? then TakenOver(station, m.value) else station)[fn] == (Step(roster, l, c).state[fn] != 0)
  {
    StepAt(roster, l, c, fn);
    var sends := Sends(roster, l, c);
    if sends.Some? {
      TakenOverShows(station, Step(roster, l, c), sends.value, fn);
      if c.Press? {
        NamesGroupExactly(c.fn, fn);
      } else {
        SpeedNamesNoGroup(fn);
      }
    }
  }

  // ---- The speed a station knows ----

  /** The last command sends a drive message. */
  predicate SendsLast(roster: Roster, cs: seq<Cmd>) {
    cs != [] && InUse(cs[..|cs| - 1]) && Speaks(roster, LastAdded(cs[..|cs| - 1]), cs[|cs| - 1])
  }

  /** A drive message was sent since the locomotive was added. */
  predicate Spoken(roster: Roster, cs: seq<Cmd>) {
    cs != [] && !cs[|cs| - 1].Add? && (SendsLast(roster, cs) || Spoken(roster, cs[..|cs| - 1]))
  }

  /** The speed set when the last drive message was sent. */
  function SpokenSpeed(roster: Roster, cs: seq<Cmd>): int {
    if cs == [] then 0 else if SendsLast(roster, cs) then LastSpeed(cs) else SpokenSpeed(roster, cs[..|cs| - 1])
  }

  /** The last command sets the speed to 0 without a message: the throttle is lost, released, or quits. */
  predicate StopsSilently(cs: seq<Cmd>) {
    cs != [] && (cs[|cs| - 1].Lost? || cs[|cs| - 1].Release? || (cs[|cs| - 1].Quit? && InUse(cs[..|cs| - 1])))
  }

  /** Such a command came after the last drive message. */
  predicate SilentStop(roster: Roster, cs: seq<Cmd>) {
    && cs != [] && !cs[|cs| - 1].Add? && !SendsLast(roster, cs)
    && (StopsSilently(cs) || SilentStop(roster, cs[..|cs| - 1]))
  }

  /** The speed byte a station last heard for locomotive `addr`. */
  function HeardSpeed(roster: Roster, cs: seq<Cmd>, addr: nat): Option<byte> {
    if cs == [] then None
    else
      match Message(roster, Run(roster, cs[..|cs| - 1]), cs[|cs| - 1])
      case Some(d) => if d.addr == addr then Some(d.speed) else HeardSpeed(roster, cs[..|cs| - 1], addr)
      case None => HeardSpeed(roster, cs[..|cs| - 1], addr)
  }

  lemma SpeakingKeepsLoco(cs: seq<Cmd>, roster: Roster)
    requires SendsLast(roster, cs)
    ensures LastAdded(cs) == LastAdded(cs[..|cs| - 1])
  {
  }

  lemma MessageIsSpoken(roster: Roster, cs: seq<Cmd>)
    requires cs != []
    ensures var m := Message(roster, Run(roster, cs[..|cs| - 1]), cs[|cs| - 1]);
      && (m.Some? <==> SendsLast(roster, cs))
      && (m.Some? ==> m.value.speed == SpeedByte(LastSpeed(cs), LastDirection(cs)))
      && (m.Some? ==> m.value.addr == LastAdded(cs) % 0x1_0000)
  {
    AddressIsHistory(roster, cs[..|cs| - 1]);
    SpeedIsHistory(roster, cs);
    MessageForm(roster, Run(roster, cs[..|cs| - 1]), cs[|cs| - 1]);
    if SendsLast(roster, cs) {
      SpeakingKeepsLoco(cs, roster);
    }
  }

  lemma QuietSpeed(roster: Roster, cs: seq<Cmd>)
    requires cs != [] && !cs[|cs| - 1].Add? && !SendsLast(roster, cs)
    ensures LastSpeed(cs) == if StopsSilently(cs) then 0 else LastSpeed(cs[..|cs| - 1])
    ensures LastDirection(cs) == LastDirection(cs[..|cs| - 1]) && LastAdded(cs) == LastAdded(cs[..|cs| - 1])
  {
  }

  lemma {:induction false} SpeedSinceSpoken(roster: Roster, cs: seq<Cmd>)
    requires Spoken(roster, cs)
    ensures !cs[|cs| - 1].Add?
    ensures LastSpeed(cs) == if SilentStop(roster, cs) then 0 else SpokenSpeed(roster, cs)
    ensures HeardSpeed(roster, cs, LastAdded(cs) % 0x1_0000)
         == Some(SpeedByte(SpokenSpeed(roster, cs), LastDirection(cs)))
  {
    MessageIsSpoken(roster, cs);
    if !SendsLast(roster, cs) {
      SpeedSinceSpoken(roster, cs[..|cs| - 1]);
      QuietSpeed(roster, cs);
    }
  }

  lemma ZeroByteExactly(speed: int, dir: nat)
    ensures SpeedByte(speed, dir) == SpeedByte(0, dir) <==> speed >= 0 && speed % 128 == 0
  {
    ZeroIsZero(dir);
    if speed >= 0 {
      var n := speed % 128;
      SmallByte(n);
      SpeedBitsDiffer(ToByte(n), Flag(dir != 0, 0x80));
    } else {
      SpeedBitsDiffer(0x01, Flag(dir != 0, 0x80));
    }
  }

  lemma ZeroIsZero(dir: nat)
    ensures SpeedByte(0, dir) == Flag(dir != 0, 0x80)
  {
    assert ToByte(0) == 0;
  }

  lemma SpeedBitsDiffer(b: byte, top: byte)
    requires b < 0x80 && (top == 0 || top == 0x80)
    ensures b | top == top <==> b == 0
    ensures b != 0 ==> b != top
  {
  }

  /** A station that has heard of the locomotive since it was added knows its speed exactly if nothing stopped it
      without a message since, or it stood still then: a throttle that is lost, released or quits leaves it running. */
  lemma StationKnowsSpeedExactly(roster: Roster, cs: seq<Cmd>)
    requires Spoken(roster, cs)
    ensures HeardSpeed(roster, cs, LastAdded(cs) % 0x1_0000) == Some(SpeedByte(LastSpeed(cs), LastDirection(cs)))
       <==> !SilentStop(roster, cs) || (SpokenSpeed(roster, cs) >= 0 && SpokenSpeed(roster, cs) % 128 == 0)
  {
    SpeedSinceSpoken(roster, cs);
    ZeroByteExactly(SpokenSpeed(roster, cs), LastDirection(cs));
  }

  /** In particular a throttle that is lost while it drives: the slot stands still, the station drives on. */
  lemma LostThrottleLeavesRunning(roster: Roster, cs: seq<Cmd>)
    requires SendsLast(roster, cs) && (LastSpeed(cs) < 0 || LastSpeed(cs) % 128 != 0)
    ensures var now := cs + [Lost];
      && LastSpeed(now) == 0
      && HeardSpeed(roster, now, LastAdded(now) % 0x1_0000) == Some(SpeedByte(LastSpeed(cs), LastDirection(cs)))
      && SpeedByte(LastSpeed(cs), LastDirection(cs)) != SpeedByte(0, LastDirection(now))
  {
    var now := cs + [Lost];
    assert now[..|cs|] == cs;
    QuietSpeed(roster, now);
    SpeedSinceSpoken(roster, now);
    ZeroByteExactly(LastSpeed(cs), LastDirection(cs));
  }

  // ---- The slot ----

  class Engine {
    const locoState: array<int>
    var dcc: int
    var newSpeed: int
    var dir: nat

    ghost predicate Valid()
      reads this
    {
      locoState.Length == FUNCTIONS
    }

    ghost function Value(): (l: Loco)
      reads this, locoState
      requires Valid()
      ensures WellFormed(l)
    {
      Loco(locoState[..], dcc, newSpeed, dir)
    }

    constructor ()
      ensures Valid() && fresh(locoState) && Value() == Run((_, _) => None, [])
    {
      locoState := new int[FUNCTIONS](_ => 0);
      dcc, newSpeed, dir := 0, 0, 0;
      new;
      assert locoState[..] == AllOff();
    }

    method LocoAdd(addr: int)
      requires Valid()
      modifies this, locoState
      ensures Valid() && forall roster :: Value() == Step(roster, old(Value()), Add(addr))
    {
      dcc := addr;
      for fk := 0 to FUNCTIONS
        invariant dcc == addr && locoState.Length == FUNCTIONS
        invariant forall k :: 0 <= k < fk ==> locoState[k] == 0
      {
        locoState[fk] := 0;
      }
      newSpeed, dir := 0, 1;
      assert locoState[..] == AllOff();
    }

    method LocoRelease()
      requires Valid()
      modifies this
      ensures Valid() && forall roster :: Value() == Step(roster, old(Value()), Release)
    {
      newSpeed := 0;
      if dcc != 0 {
        dcc := 0;
      }
    }

    method ThrottleStop()
      requires Valid()
      modifies this`newSpeed
      ensures Valid() && forall roster :: Value() == Step(roster, old(Value()), Lost)
    {
      newSpeed := 0;
    }

    /** The message built from the array, bit by bit. */
    method SendDrive(active: byte) returns (d: Drive)
      requires Valid()
      ensures d == Show(Value(), active)
    {
      var f12f5 := PackOctet(5);
      var f20f13 := PackOctet(13);
      var f28f21 := PackOctet(21);
      var f4f0 := PackLow();
      d := Drive(dcc % 0x1_0000, active, SpeedByte(newSpeed, dir), f4f0, f12f5, f20f13, f28f21);
    }

    method PackLow() returns (b: byte)
      requires Valid()
      ensures b == LowOctet(Lights(locoState[..])[..5])
    {
      b := Flag(locoState[0] != 0, 0x10) | Flag(locoState[1] != 0, 0x01) | Flag(locoState[2] != 0, 0x02)
           | Flag(locoState[3] != 0, 0x04) | Flag(locoState[4] != 0, 0x08);
    }

    method PackOctet(from: nat) returns (b: byte)
      requires Valid() && from + 8 <= FUNCTIONS
      ensures b == Octet(Lights(locoState[..])[from..from + 8])
    {
      b := Flag(locoState[from] != 0, 0x01) | Flag(locoState[from + 1] != 0, 0x02)
           | Flag(locoState[from + 2] != 0, 0x04) | Flag(locoState[from + 3] != 0, 0x08)
           | Flag(locoState[from + 4] != 0, 0x10) | Flag(locoState[from + 5] != 0, 0x20)
           | Flag(locoState[from + 6] != 0, 0x40) | Flag(locoState[from + 7] != 0, 0x80);
    }

    /** A function button: toggled, followed or skipped. */
    method SetFunction(roster: Roster, fn: nat, button: int) returns (taken: bool)
      requires Valid() && fn < FUNCTIONS && dcc != 0
      modifies locoState
      ensures Valid()
      ensures Value() == Step(roster, old(Value()), Press(fn, button))
      ensures taken == Accepted(roster, dcc, fn, button)
    {
      var entry := roster(dcc, fn);
      if entry.Some? {
        if button == 0 && entry.value {
          return false;
        }
        locoState[fn] := if locoState[fn] == 0 then 1 else 0;
      } else if fn != 2 {
        if button == 0 {
          return false;
        }
        locoState[fn] := if locoState[fn] == 0 then 1 else 0;
      } else {
        locoState[fn] := button;
      }
      taken := true;
    }

    method PressFunction(roster: Roster, fn: nat, button: int) returns (sent: Option<Drive>)
      requires Valid() && fn < FUNCTIONS && dcc != 0
      modifies locoState
      ensures Valid()
      ensures Value() == Step(roster, old(Value()), Press(fn, button))
      ensures sent == Message(roster, old(Value()), Press(fn, button))
    {
      sent := None;
      var taken := SetFunction(roster, fn, button);
      if taken {
        var d := SendDrive(Active(fn));
        sent := Some(d);
      }
    }

    /** One action of the throttle; without a locomotive it does nothing. */
    method LocoAction(roster: Roster, c: Cmd) returns (sent: Option<Drive>)
      requires Valid() && !c.Add? && !c.Release? && !c.Lost?
      modifies this, locoState
      ensures Valid()
      ensures Value() == Step(roster, old(Value()), c)
      ensures sent == Message(roster, old(Value()), c)
    {
      sent := None;
      if dcc == 0 {
        return;
      }
      match c
      case Press(fn, button) =>
        sent := PressFunction(roster, fn, button);
      case Speed(speed) =>
        newSpeed := speed;
        var d := SendDrive(SPEED_BIT);
        sent := Some(d);
      case Direction(towards) =>
        dir := towards % 256;
        newSpeed := 0;
        var d := SendDrive(SPEED_BIT);
        sent := Some(d);
      case Idle =>
        newSpeed := 0;
        var d := SendDrive(SPEED_BIT);
        sent := Some(d);
      case Quit =>
        newSpeed := 0;
    }
  }
}
