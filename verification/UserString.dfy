/** The user string in RAM and its record in the flash (`user_string_store`, `user_string_load`, the record
    functions of `flash_store.c`). */
module UserString {
  import opened Bytes
  import opened FlashStore

  const USER_STRING_ADDR: nat := 0

  /** A C string: the characters in front of the first NUL. */
  function CString(s: seq<byte>): (t: seq<byte>)
    ensures |t| <= |s| && t == s[..|t|] && (forall i :: 0 <= i < |t| ==> t[i] != 0) && (|t| < |s| ==> s[|t|] == 0)
  {
    if s == [] || s[0] == 0 then [] else [s[0]] + CString(s[1..])
  }

  /** The part of a string that is kept: at most 24 characters, and none from the first NUL on. */
  function Kept(s: seq<byte>): (t: seq<byte>)
    ensures |t| <= STRING_MAX
  {
    CString(if |s| > STRING_MAX then s[..STRING_MAX] else s)
  }

  function Record(t: seq<byte>): seq<byte>
    requires |t| <= STRING_MAX
  {
    [ToByte(|t|)] + t
  }

  /** The flash after a string was stored: an empty string is not written. */
  function StoreString(mem: seq<byte>, s: seq<byte>): (r: seq<byte>)
    requires |mem| == FLASH_SIZE
    ensures |r| == FLASH_SIZE
  {
    if Kept(s) == [] then mem else Splice(mem, USER_STRING_ADDR, Record(Kept(s)))
  }

  /** `flash_store_read_string` into a buffer of 25 characters. */
  function LoadString(mem: seq<byte>): Option<seq<byte>>
    requires |mem| == FLASH_SIZE
  {
    var len := mem[USER_STRING_ADDR] as nat;
    if len == 0xFF || len == 0 || len >= STRING_MAX + 1 then None
    else Some(mem[USER_STRING_ADDR + 1..USER_STRING_ADDR + 1 + len])
  }

  /** A string set over the bus is the one loaded after a reboot, exactly when something of it is kept; an empty one
      leaves the flash, and so the next start, with the string before. */
  lemma StringSurvivesRebootExactly(mem: seq<byte>, s: seq<byte>)
    requires |mem| == FLASH_SIZE
    ensures LoadString(StoreString(mem, s)) == Some(Kept(s)) <==> Kept(s) != []
    ensures Kept(s) == [] ==> LoadString(StoreString(mem, s)) == LoadString(mem)
  {
    var t := Kept(s);
    if t != [] {
      var r := StoreString(mem, s);
      assert r[0] == ToByte(|t|);
      assert r[1..1 + |t|] == t;
    }
  }

  lemma {:induction false} NulFreeIsKept(s: seq<byte>)
    requires forall i :: 0 <= i < |s| ==> s[i] != 0
    ensures CString(s) == s
  {
    if s != [] {
      NulFreeIsKept(s[1..]);
    }
  }

  /** A string without NUL of 1 to 24 characters is loaded as itself after a reboot, and a longer one as its first 24;
      one with a NUL as the characters in front of it, and an empty one as whatever was there before. */
  lemma StringIsLoaded(mem: seq<byte>, s: seq<byte>, n: nat)
    requires |mem| == FLASH_SIZE && n <= |s| && (forall i :: 0 <= i < n ==> s[i] != 0) && (n < |s| ==> s[n] == 0)
    ensures LoadString(StoreString(mem, s)) ==
      if n == 0 then LoadString(mem) else Some(s[..if n <= 24 then n else 24])
  {
    var k := if n <= 24 then n else 24;
    NulFreeIsKept(s[..k]);
    var cut := if |s| > STRING_MAX then s[..STRING_MAX] else s;
    if k < |cut| {
      CStringIs(cut, k);
      assert cut[..k] == s[..k];
    } else {
      assert cut == s[..k];
    }
    StringSurvivesRebootExactly(mem, s);
  }

  /** Everything behind the record is preserved. */
  lemma StoreTouchesRecordOnly(mem: seq<byte>, s: seq<byte>, x: nat)
    requires |mem| == FLASH_SIZE && STRING_MAX < x < FLASH_SIZE
    ensures StoreString(mem, s)[x] == mem[x]
  {
  }

  class StringStore {
    const flash: Store
    const text: array<byte>   // user_string

    ghost predicate Valid() {
      && flash.Valid() && text.Length == STRING_MAX + 1
      && text != flash.sector && text != flash.chip.cells
    }

    ghost function Mem(): (m: seq<byte>)
      requires Valid()
      reads flash.chip.cells
      ensures |m| == FLASH_SIZE
    {
      flash.chip.cells[..]
    }

    constructor (flash: Store)
      requires flash.Valid()
      ensures Valid() && this.flash == flash && fresh(text)
    {
      this.flash := flash;
      text := new byte[STRING_MAX + 1](_ => 0);
    }

    /** `strlen` on the string in RAM, which always holds a NUL. */
    method Length() returns (n: nat)
      requires Valid() && 0 in text[..]
      ensures n <= STRING_MAX && text[..n] == CString(text[..])
    {
      n := 0;
      while n < text.Length && text[n] != 0
        invariant 0 <= n <= text.Length
        invariant forall i :: 0 <= i < n ==> text[i] != 0
      {
        n := n + 1;
      }
      CStringIs(text[..], n);
    }

    /** `flash_store_write_string`. */
    method WriteRecord() returns (ok: bool)
      requires Valid() && 0 in text[..]
      modifies flash.chip.cells, flash.sector
      ensures ok <==> CString(text[..]) != []
      ensures Mem() ==
        if CString(text[..]) == [] then old(Mem())
        else Splice(old(Mem()), USER_STRING_ADDR, Record(CString(text[..])))
    {
      var len := Length();
      if len == 0 {
        return false;
      }
      ghost var before := Mem();
      var record := [ToByte(len)] + text[..len];
      ok := flash.Write(USER_STRING_ADDR, record);
      CoveredWriteIsSplice(before, USER_STRING_ADDR, record);
      assert Mem() == AfterWrite(before, USER_STRING_ADDR, record);
    }

    /** `user_string_store`: the string in RAM and its record. */
    method SetString(s: seq<byte>)
      requires Valid()
      modifies text, flash.chip.cells, flash.sector
      ensures CString(text[..]) == Kept(s)
      ensures Mem() == StoreString(old(Mem()), s)
    {
      var len := if |s| > STRING_MAX then STRING_MAX else |s|;
      for i := 0 to len
        modifies text
        invariant text[..i] == s[..i]
      {
        text[i] := s[i];
      }
      text[len] := 0;
      assert text[..len] == s[..len] && text[len] in text[..];
      CStringCut(text[..], len);
      assert s[..len] == if |s| > STRING_MAX then s[..STRING_MAX] else s;
      var ok := WriteRecord();
    }

    /** `user_string_load`: what the start-up reads back, if anything. */
    method LoadAtStart() returns (loaded: Option<seq<byte>>)
      requires Valid()
      modifies text
      ensures loaded == LoadString(Mem())
      ensures loaded.Some? ==> text[..|loaded.value| + 1] == loaded.value + [0]
      ensures loaded.None? ==> text[..] == old(text[..])
    {
      var head := flash.chip.Read(USER_STRING_ADDR, 1);
      var len := head.value[0] as nat;
      if len == 0xFF || len == 0 || len >= text.Length {
        return None;
      }
      loaded := flash.chip.Read(USER_STRING_ADDR + 1, len);
      for i := 0 to len
        invariant text[..i] == loaded.value[..i]
      {
        text[i] := loaded.value[i];
      }
      text[len] := 0;
    }
  }

  lemma {:induction false} CStringIs(s: seq<byte>, n: nat)
    requires n < |s| && s[n] == 0 && forall i :: 0 <= i < n ==> s[i] != 0
    ensures CString(s) == s[..n]
  {
    if n > 0 {
      CStringIs(s[1..], n - 1);
    }
  }

  /** A NUL at `n` makes the C string that of the first `n` characters. */
  lemma {:induction false} CStringCut(s: seq<byte>, n: nat)
    requires n < |s| && s[n] == 0
    ensures CString(s) == CString(s[..n])
  {
    if n > 0 && s[0] != 0 {
      CStringCut(s[1..], n - 1);
      assert s[1..][..n - 1] == s[..n][1..];
    }
  }
}
