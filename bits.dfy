/**
 * Fixed-width unsigned integers as bit sequences, most significant bit first,
 * the way the bit streams read and write them (`readBits(n)`, `writeBits(n, v)`).
 * A bit is a `bool`: `true` is 1 and `false` is 0.
 */
module Bits {

  function Pow2(n: nat): (p: nat)
    ensures p >= 1
  {
    if n == 0 then 1 else 2 * Pow2(n - 1)
  }

  lemma {:induction false} Pow2Add(a: nat, b: nat)
    ensures Pow2(a + b) == Pow2(a) * Pow2(b)
  {
    if a > 0 {
      Pow2Add(a - 1, b);
    }
  }

  lemma {:induction false} Pow2Of32()
    ensures Pow2(32) == 0x1_0000_0000
  {
    assert Pow2(4) == 16;
    Pow2Add(4, 4);
    Pow2Add(8, 8);
    Pow2Add(16, 16);
  }

  /** The low `width` bits of `v`, most significant first (what `writeBits(width, v)` emits). */
  function ToBits(v: int, width: nat): (bits: seq<bool>)
    ensures |bits| == width
    decreases width
  {
    if width == 0 then [] else ToBits(v / 2, width - 1) + [v % 2 == 1]
  }

  /** The unsigned value of a bit sequence read most significant bit first (what `readBits` returns). */
  function FromBits(bits: seq<bool>): (v: nat)
    ensures v < Pow2(|bits|)
  {
    if bits == [] then 0
    else 2 * FromBits(bits[..|bits| - 1]) + (if bits[|bits| - 1] then 1 else 0)
  }

  /** Writing a value that fits in `width` bits and reading it back gives the value. */
  lemma {:induction false} FromToBits(v: int, width: nat)
    requires 0 <= v < Pow2(width)
    ensures FromBits(ToBits(v, width)) == v
  {
    if width > 0 {
      var bits := ToBits(v, width);
      assert bits[..width - 1] == ToBits(v / 2, width - 1);
      FromToBits(v / 2, width - 1);
    }
  }

  /** Reading `width` bits and writing the value back with the same width gives the same bits. */
  lemma {:induction false} ToFromBits(bits: seq<bool>)
    ensures ToBits(FromBits(bits), |bits|) == bits
  {
    if bits != [] {
      var n := |bits| - 1;
      var v := FromBits(bits);
      assert v / 2 == FromBits(bits[..n]);
      ToFromBits(bits[..n]);
      assert bits == bits[..n] + [bits[n]];
    }
  }
}
