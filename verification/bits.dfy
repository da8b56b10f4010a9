/**
 Bit-level assembly of one protocol nibble.

 The sensor strobes four data bits per nibble. The firmware folds each bit into
 an 8-bit accumulator by shifting the accumulator right by one and OR-ing the new
 bit into bit 3, so after four bits the FIRST bit sampled ends up in bit 0.
 This module states that fold on `bv8` exactly as the firmware writes it, and
 relates it to the positional value "sum of b_j * 2^j, first bit least significant".
 */
module Bits {

  /** Powers of two. */
  function Pow2(n: nat): (r: nat)
    ensures r >= 1
  {
    if n == 0 then 1 else 2 * Pow2(n - 1)
  }

  /** The positional value of a bit sequence read least-significant-bit first:
      the sum of `bits[j] * 2^j`. */
  function LsbFirstValue(bits: seq<bool>): (v: nat)
    ensures v < Pow2(|bits|)
  {
    if |bits| == 0 then 0
    else LsbFirstValue(bits[..|bits| - 1]) + (if bits[|bits| - 1] then Pow2(|bits| - 1) else 0)
  }

  /** The four bits of a nibble, in the order the sensor sends them (bit 0 first). */
  function NibbleBits(v: nat): (bits: seq<bool>)
    requires v < 16
    ensures |bits| == 4
  {
    [v % 2 == 1, (v / 2) % 2 == 1, (v / 4) % 2 == 1, (v / 8) % 2 == 1]
  }

  /** One step of the firmware's accumulation: shift right, then OR the sampled
      bit in at position 3. */
  function ShiftIn(k: bv8, data: bool): (r: bv8)
    ensures k < 16 ==> r < 16 && r as int == k as int / 2 + (if data then 8 else 0)
  {
    (k >> 1) | ((if data then 1 else 0) << 3)
  }

  /** The loop invariant of the firmware's bit loop: after `b` of the four bits the
      accumulator holds the value of the bits seen so far, scaled up by 2^(4-b). */
  lemma ShiftInStep(k: bv8, bits: seq<bool>, b: nat)
    requires |bits| == 4 && b < 4
    requires k as int == LsbFirstValue(bits[..b]) * Pow2(4 - b)
    ensures ShiftIn(k, bits[b]) as int == LsbFirstValue(bits[..b + 1]) * Pow2(3 - b)
  {
    AccumulatorStep(k as int, bits, b);
  }

  /** The arithmetic of one step: an accumulator scaled by 2^(4-b) is a nibble,
      and halving it and adding the next bit at weight 8 gives the next scaled value. */
  lemma AccumulatorStep(kv: int, bits: seq<bool>, b: nat)
    requires |bits| == 4 && b < 4
    requires kv == LsbFirstValue(bits[..b]) * Pow2(4 - b)
    ensures 0 <= kv < 16
    ensures kv / 2 + (if bits[b] then 8 else 0) == LsbFirstValue(bits[..b + 1]) * Pow2(3 - b)
  {
    var v := LsbFirstValue(bits[..b]);
    var d := if bits[b] then 1 else 0;
    assert bits[..b + 1][..b] == bits[..b];
    assert LsbFirstValue(bits[..b + 1]) == v + d * Pow2(b);
    assert Pow2(1) == 2 && Pow2(2) == 4 && Pow2(3) == 8 && Pow2(4) == 16;
    if b == 0 {
      assert v == 0 && kv == 0;
    } else if b == 1 {
      assert v < 2 && kv == v * 8;
    } else if b == 2 {
      assert v < 4 && kv == v * 4;
    } else {
      assert v < 8 && kv == v * 2;
    }
  }

  /** Four shift-ins starting from zero yield exactly the least-significant-first
      value of the four samples. */
  lemma FourShiftIns(bits: seq<bool>)
    requires |bits| == 4
    ensures ShiftIn(ShiftIn(ShiftIn(ShiftIn(0, bits[0]), bits[1]), bits[2]), bits[3]) as int
            == LsbFirstValue(bits)
  {
    assert bits[..0] == [];
    ShiftInStep(0, bits, 0);
    var k1 := ShiftIn(0, bits[0]);
    ShiftInStep(k1, bits, 1);
    var k2 := ShiftIn(k1, bits[1]);
    ShiftInStep(k2, bits, 2);
    var k3 := ShiftIn(k2, bits[2]);
    ShiftInStep(k3, bits, 3);
    assert bits[..4] == bits;
  }

  /** The value of four samples written out bit by bit. */
  lemma LsbFirstValueOfFour(bits: seq<bool>)
    requires |bits| == 4
    ensures LsbFirstValue(bits) == (if bits[0] then 1 else 0) + (if bits[1] then 2 else 0)
                                   + (if bits[2] then 4 else 0) + (if bits[3] then 8 else 0)
  {
    assert bits[..3][..2] == bits[..2];
    assert bits[..2][..1] == bits[..1];
    assert bits[..1][..0] == [];
    assert LsbFirstValue(bits[..1]) == (if bits[0] then 1 else 0);
    assert LsbFirstValue(bits[..2]) == LsbFirstValue(bits[..1]) + (if bits[1] then 2 else 0);
    assert LsbFirstValue(bits[..3]) == LsbFirstValue(bits[..2]) + (if bits[2] then 4 else 0);
  }

  /** Splitting a nibble into its bits and reassembling it gives the nibble back. */
  lemma NibbleBitsRoundTrip(v: nat)
    requires v < 16
    ensures LsbFirstValue(NibbleBits(v)) == v
  {
    LsbFirstValueOfFour(NibbleBits(v));
  }

  /** Reading four samples and splitting the value back into bits gives the samples
      back: the assembly loses no bit and invents none. */
  lemma LsbFirstValueRoundTrip(bits: seq<bool>)
    requires |bits| == 4
    ensures LsbFirstValue(bits) < 16
    ensures NibbleBits(LsbFirstValue(bits)) == bits
  {
    LsbFirstValueOfFour(bits);
  }
}
