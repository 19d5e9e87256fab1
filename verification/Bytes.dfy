/** The machine words the firmware computes with. */
module Bytes {

  /** A `uint8_t`: arithmetic wraps and the bitwise operators are the machine's. */
  type byte = bv8

  /** What one 9-bit UART frame carries: a data byte and the id bit that marks polls and system tokens. */
  datatype Word = Word(data: byte, idBit: bool)

  datatype Option<+T> = None | Some(value: T)

  /** The byte holding a count that fits into it. */
  function ToByte(n: nat): (b: byte)
    requires n < 256
    ensures b as nat == n
  {
    if n == 0 then 0 else Successor(ToByte(n - 1)); ToByte(n - 1) + 1
  }

  lemma Successor(b: byte)
    requires b < 255
    ensures (b + 1) as nat == b as nat + 1
  {
  }

  /** True iff an odd number of the eight bits are set. */
  predicate OddParity(b: byte) {
    var x := b ^ (b >> 4);
    var y := x ^ (x >> 2);
    (y ^ (y >> 1)) & 1 == 1
  }

  function Flatten<T>(parts: seq<seq<T>>): seq<T>
  {
    if parts == [] then [] else Flatten(parts[..|parts| - 1]) + parts[|parts| - 1]
  }

  lemma SliceOfSlice<T>(p: seq<T>, from: nat, to: nat, i: nat, j: nat)
    requires from <= to <= |p| && i <= j <= to - from
    ensures p[from..to][i..j] == p[from + i..from + j]
  {
    var f := p[from..to];
    var g, h := f[i..j], p[from + i..from + j];
    forall k | 0 <= k < j - i ensures g[k] == h[k] {
      assert g[k] == f[i + k];
    }
  }

  lemma Regrouped<T>(a: seq<T>, b: seq<T>, c: seq<T>)
    ensures (a + b) + c == a + (b + c)
  {
  }

  lemma ThreeParts<T>(s: seq<T>, i: nat, j: nat)
    requires i <= j <= |s|
    ensures s == s[..i] + s[i..j] + s[j..]
  {
  }

  lemma SnocConcat<T>(a: seq<T>, b: seq<T>)
    requires b != []
    ensures a + b == (a + b[..|b| - 1]) + [b[|b| - 1]] && b == b[..|b| - 1] + [b[|b| - 1]]
  {
  }

  lemma HeadAndRest<T>(s: seq<T>, k: nat)
    requires k < |s|
    ensures [s[k]] + s[k + 1..] == s[k..]
  {
  }

  lemma FlattenSnoc<T>(parts: seq<seq<T>>, p: seq<T>)
    ensures Flatten(parts + [p]) == Flatten(parts) + p
  {
    assert (parts + [p])[..|parts|] == parts;
  }

  lemma {:induction false} FlattenConcat<T>(a: seq<seq<T>>, b: seq<seq<T>>)
    ensures Flatten(a + b) == Flatten(a) + Flatten(b)
  {
    if b == [] {
      assert a + b == a;
    } else {
      var c, p := b[..|b| - 1], b[|b| - 1];
      FlattenConcat(a, c);
      SnocConcat(a, b);
      FlattenSnoc(a + c, p);
      assert (Flatten(a) + Flatten(c)) + p == Flatten(a) + (Flatten(c) + p);
    }
  }
}
