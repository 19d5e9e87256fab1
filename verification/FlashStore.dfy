/** The external NOR flash (`flash_store.c`): read-modify-erase-program against a plain byte memory, and the string
    records kept in it. */
module FlashStore {
  import opened Bytes

  const FLASH_SIZE: nat := 4 * 1024 * 1024
  const SECTOR: nat := 4096
  const PAGE: nat := 256
  const ERASED: byte := 0xFF
  /** Addresses and lengths are 32-bit numbers. */
  const WORD: nat := 0x1_0000_0000
  const STRING_MAX: nat := 24

  // ---- The chip ----

  /** What the commands of the chip do to its cells: erasing sets bits, programming can only clear them. */
  class Chip {
    const cells: array<byte>

    ghost predicate Valid() {
      cells.Length == FLASH_SIZE
    }

    /** SECTOR ERASE. */
    method Erase(base: nat)
      requires Valid() && base % SECTOR == 0 && base + SECTOR <= FLASH_SIZE
      modifies cells
      ensures forall x :: 0 <= x < FLASH_SIZE ==>
        cells[x] == if base <= x < base + SECTOR then ERASED else old(cells[x])
    {
      for i := 0 to SECTOR
        invariant forall x :: 0 <= x < FLASH_SIZE ==> cells[x] == if base <= x < base + i then ERASED else old(cells[x])
      {
        cells[base + i] := ERASED;
      }
    }

    /** PAGE PROGRAM. */
    method Program(base: nat, data: seq<byte>)
      requires Valid() && base % PAGE == 0 && base + PAGE <= FLASH_SIZE && |data| == PAGE
      modifies cells
      ensures forall x :: 0 <= x < FLASH_SIZE ==>
        cells[x] == if base <= x < base + PAGE then old(cells[x]) & data[x - base] else old(cells[x])
    {
      for i := 0 to PAGE
        invariant forall x :: 0 <= x < FLASH_SIZE ==>
          cells[x] == if base <= x < base + i then old(cells[x]) & data[x - base] else old(cells[x])
      {
        cells[base + i] := cells[base + i] & data[i];
      }
    }

    /** `flash_store_read`; the range test wraps at 32 bits like the firmware's. */
    method Read(addr: nat, len: nat) returns (r: Option<seq<byte>>)
      requires Valid() && addr + len < WORD
      ensures r == if addr + len <= FLASH_SIZE then Some(cells[addr..addr + len]) else None
    {
      if addr + len > FLASH_SIZE {
        return None;
      }
      return Some(cells[addr..addr + len]);
    }
  }

  lemma ErasedTakesAnything(b: byte)
    ensures ERASED & b == b
  {
  }

  // ---- flash_store_write ----

  /** What byte `x` of the flash is after a write: the loop steps by whole sectors from `addr`, so in every sector
      it only reaches the offsets at or behind the first one's. */
  function Written(before: seq<byte>, addr: nat, buf: seq<byte>, x: nat): byte
    requires x < |before|
  {
    if addr <= x < addr + |buf| && x % SECTOR >= addr % SECTOR then buf[x - addr] else before[x]
  }

  class Store {
    const chip: Chip
    const sector: array<byte>

    ghost predicate Valid() {
      chip.Valid() && sector.Length == SECTOR && sector != chip.cells
    }

    constructor (chip: Chip)
      requires chip.Valid()
      ensures Valid() && this.chip == chip && fresh(sector)
    {
      this.chip := chip;
      sector := new byte[SECTOR](_ => 0);
    }

    /** Erasing a sector and programming it page by page from the buffer. */
    method Rewrite(base: nat)
      requires Valid() && base % SECTOR == 0 && base + SECTOR <= FLASH_SIZE
      modifies chip.cells
      ensures forall x :: 0 <= x < FLASH_SIZE ==>
        chip.cells[x] == if base <= x < base + SECTOR then sector[x - base] else old(chip.cells[x])
    {
      chip.Erase(base);
      var p := 0;
      while p < SECTOR
        invariant p % PAGE == 0 && 0 <= p <= SECTOR
        invariant forall x :: 0 <= x < FLASH_SIZE ==>
          chip.cells[x] == if base <= x < base + p then sector[x - base]
                           else if base <= x < base + SECTOR then ERASED else old(chip.cells[x])
      {
        ghost var data := sector[p..p + PAGE];
        forall j | 0 <= j < PAGE ensures ERASED & data[j] == data[j] {
          ErasedTakesAnything(data[j]);
        }
        chip.Program(base + p, sector[p..p + PAGE]);
        p := p + PAGE;
      }
    }

    /** `memcpy` into the sector buffer. */
    method Patch(lo: nat, data: seq<byte>)
      requires Valid() && lo + |data| <= SECTOR
      modifies sector
      ensures forall x :: 0 <= x < SECTOR ==>
        sector[x] == if lo <= x < lo + |data| then data[x - lo] else old(sector[x])
    {
      for i := 0 to |data|
        invariant forall x :: 0 <= x < SECTOR ==> sector[x] == if lo <= x < lo + i then data[x - lo] else old(sector[x])
      {
        sector[lo + i] := data[i];
      }
    }

    /** `flash_store_read` of a whole sector into the sector buffer. */
    method LoadSector(base: nat)
      requires Valid() && base + SECTOR <= FLASH_SIZE
      modifies sector
      ensures forall y :: base <= y < base + SECTOR ==> sector[y - base] == chip.cells[y]
    {
      for i := 0 to SECTOR
        invariant forall y :: base <= y < base + i ==> sector[y - base] == chip.cells[y]
      {
        sector[i] := chip.cells[base + i];
      }
    }

    /** One turn of the loop in `flash_store_write`: the part of the range from `a` to the end of its sector. */
    method WriteSector(a: nat, data: seq<byte>)
      requires Valid() && a < FLASH_SIZE && a % SECTOR + |data| <= SECTOR
      modifies chip.cells, sector
      ensures forall x :: 0 <= x < FLASH_SIZE ==>
        chip.cells[x] == if a <= x < a + |data| then data[x - a] else old(chip.cells[x])
    {
      var base := a - a % SECTOR;
      SectorBase(a);
      LoadSector(base);
      Patch(a - base, data);
      Rewrite(base);
    }

    /** `flash_store_write`. The range test and the end of the range wrap at 32 bits; a range that wraps is reported
        as written and writes nothing. */
    method Write(addr: nat, buf: seq<byte>) returns (ok: bool)
      requires Valid() && addr < WORD && |buf| < WORD
      modifies chip.cells, sector
      ensures ok <==> (addr + |buf|) % WORD <= FLASH_SIZE
      ensures addr + |buf| <= FLASH_SIZE ==>
        forall x :: 0 <= x < FLASH_SIZE ==> chip.cells[x] == Written(old(chip.cells[..]), addr, buf, x)
      ensures addr + |buf| > FLASH_SIZE ==> chip.cells[..] == old(chip.cells[..])
    {
      var end := (addr + |buf|) % WORD;
      if end > FLASH_SIZE {
        return false;
      }
      if |buf| == 0 {
        return true;
      }
      ghost var before := chip.cells[..];
      var a := addr;
      while a < end
        invariant addr <= a && a % SECTOR == addr % SECTOR
        invariant addr + |buf| >= WORD ==> chip.cells[..] == before
        invariant addr + |buf| < WORD ==> forall x :: 0 <= x < FLASH_SIZE ==>
          chip.cells[x] == if x < a - a % SECTOR then Written(before, addr, buf, x) else before[x]
      {
        var hi := if end > a - a % SECTOR + SECTOR then SECTOR else end - (a - a % SECTOR);
        WriteSector(a, buf[a - addr..a - addr + (hi - a % SECTOR)]);
        a := a + SECTOR;
      }
      return true;
    }

    /** The same with the step repaired: the loop goes on at the next sector's base, and the write is a splice wherever
        it starts. */
    method WriteRepaired(addr: nat, buf: seq<byte>) returns (ok: bool)
      requires Valid() && addr < WORD && |buf| < WORD
      modifies chip.cells, sector
      ensures ok <==> (addr + |buf|) % WORD <= FLASH_SIZE
      ensures addr + |buf| <= FLASH_SIZE ==> chip.cells[..] == Splice(old(chip.cells[..]), addr, buf)
      ensures addr + |buf| > FLASH_SIZE ==> chip.cells[..] == old(chip.cells[..])
    {
      var end := (addr + |buf|) % WORD;
      if end > FLASH_SIZE {
        return false;
      }
      ghost var before := chip.cells[..];
      var a := addr;
      while a < end
        invariant addr <= a && (a == addr || a >= end || a % SECTOR == 0) && (end >= addr ==> a <= end)
        invariant addr + |buf| >= WORD ==> chip.cells[..] == before
        invariant addr + |buf| < WORD ==> forall x :: 0 <= x < FLASH_SIZE ==>
          chip.cells[x] == if addr <= x < a then buf[x - addr] else before[x]
      {
        var next := a - a % SECTOR + SECTOR;
        var stop := if end > next then next else end;
        WriteSector(a, buf[a - addr..stop - addr]);
        a := stop;
      }
      return true;
    }
  }

  lemma SectorBase(a: nat)
    requires a < FLASH_SIZE
    ensures (a - a % SECTOR) % SECTOR == 0 && a - a % SECTOR + SECTOR <= FLASH_SIZE
  {
  }

  // ---- What a write is worth ----

  /** The memory after a write. */
  function AfterWrite(before: seq<byte>, addr: nat, buf: seq<byte>): (after: seq<byte>)
    ensures |after| == |before|
  {
    seq(|before|, x requires 0 <= x < |before| => Written(before, addr, buf, x))
  }

  /** What the documentation promises: the range is replaced and everything else preserved. */
  function Splice(before: seq<byte>, addr: nat, buf: seq<byte>): (after: seq<byte>)
    requires addr + |buf| <= |before|
    ensures |after| == |before|
  {
    before[..addr] + buf + before[addr + |buf|..]
  }

  /** The range starts at a sector boundary or stays inside one sector. */
  predicate Covered(addr: nat, len: nat) {
    addr % 4096 == 0 || addr % 4096 + len <= 4096
  }

  lemma CoveredReachesAll(addr: nat, len: nat, x: nat)
    requires Covered(addr, len) && addr <= x < addr + len
    ensures x % SECTOR >= addr % SECTOR
  {
    if addr % SECTOR != 0 {
      assert x - addr < SECTOR - addr % SECTOR;
    }
  }

  lemma NextSectorMissed(addr: nat, len: nat) returns (x: nat)
    requires !Covered(addr, len)
    ensures addr <= x < addr + len && x % SECTOR < addr % SECTOR
  {
    x := addr - addr % SECTOR + SECTOR;
  }

  lemma CoveredWriteIsSplice(before: seq<byte>, addr: nat, buf: seq<byte>)
    requires addr + |buf| <= |before| && Covered(addr, |buf|)
    ensures AfterWrite(before, addr, buf) == Splice(before, addr, buf)
  {
    forall x | 0 <= x < |before|
      ensures Written(before, addr, buf, x) == Splice(before, addr, buf)[x]
    {
      if addr <= x < addr + |buf| {
        CoveredReachesAll(addr, |buf|, x);
      }
    }
  }

  /** A write splices the range into the memory, whatever both contain, exactly when it starts at a sector boundary
      or stays inside one sector; otherwise the head of the next sector keeps its old bytes. */
  lemma WriteSplicesExactly(addr: nat, len: nat)
    requires addr + len <= FLASH_SIZE
    ensures (forall before: seq<byte>, buf: seq<byte> :: |before| == FLASH_SIZE && |buf| == len ==>
               AfterWrite(before, addr, buf) == Splice(before, addr, buf))
       <==> Covered(addr, len)
  {
    if Covered(addr, len) {
      forall before: seq<byte>, buf: seq<byte> | |before| == FLASH_SIZE && |buf| == len
        ensures AfterWrite(before, addr, buf) == Splice(before, addr, buf)
      {
        CoveredWriteIsSplice(before, addr, buf);
      }
    } else {
      var x := NextSectorMissed(addr, len);
      var before: seq<byte>, buf: seq<byte> := seq(FLASH_SIZE, _ => 0), seq(len, _ => 1);
      assert AfterWrite(before, addr, buf)[x] == 0;
      assert Splice(before, addr, buf)[x] == 1;
    }
  }
}
