/**
 Big-endian (network order) bytes of a 32-bit word, and reading a 16-bit word
 back from two of them: the two library calls the firmware uses to split the
 32-bit pattern of a measurement into two 16-bit input registers.
 */
module NetworkEndian {

  type Byte = x: nat | x < 0x100
  type U16 = x: nat | x < 0x1_0000
  type Word32 = x: nat | x < 0x1_0000_0000

  /** The four bytes of `x`, most significant first (`to_be_bytes`). */
  function ToBeBytes(x: Word32): (bs: seq<Byte>)
    ensures |bs| == 4
    ensures (bs[0] as nat) * 0x100_0000 + (bs[1] as nat) * 0x1_0000 + (bs[2] as nat) * 0x100 + bs[3] as nat == x
  {
    WordBytes(x);
    [x / 0x100_0000, (x / 0x1_0000) % 0x100, (x / 0x100) % 0x100, x % 0x100]
  }

  /** The 16-bit word whose big-endian bytes are `bs[0], bs[1]` (`read_u16`). */
  function ReadU16(bs: seq<Byte>): (w: U16)
    requires |bs| >= 2
    ensures w / 0x100 == bs[0] && w % 0x100 == bs[1]
  {
    var w := (bs[0] as nat) * 0x100 + bs[1] as nat;
    DivMod(w, bs[0], bs[1], 0x100);
    w
  }

  /** The 32-bit word whose big-endian bytes are `bs[0..4]`. */
  function ReadU32(bs: seq<Byte>): Word32
    requires |bs| >= 4
  {
    (bs[0] as nat) * 0x100_0000 + (bs[1] as nat) * 0x1_0000 + (bs[2] as nat) * 0x100 + bs[3] as nat
  }

  /** Writing a word as big-endian bytes and reading it back gives the word. */
  lemma BeBytesRoundTrip(x: Word32)
    ensures ReadU32(ToBeBytes(x)) == x
  {
    var bs := ToBeBytes(x);
    HighLowBytes(x);
    assert ReadU32(bs) == (ReadU16(bs[0..2]) as nat) * 0x1_0000 + ReadU16(bs[2..4]);
  }

  /** Reading four bytes as a word and writing it back gives the bytes. */
  lemma ReadU32RoundTrip(bs: seq<Byte>)
    requires |bs| == 4
    ensures ToBeBytes(ReadU32(bs)) == bs
  {
    var x := ReadU32(bs);
    var hi := (bs[0] as nat) * 0x100 + bs[1];
    var lo := (bs[2] as nat) * 0x100 + bs[3];
    assert x == hi * 0x1_0000 + lo;
    DivMod(x, hi, lo, 0x1_0000);
    DivMod(hi, bs[0], bs[1], 0x100);
    DivMod(lo, bs[2], bs[3], 0x100);
    HighLowBytes(x);
  }

  /** The first two big-endian bytes read as a 16-bit word are the high half of
      the word, the last two its low half, and the halves recombine into it. */
  lemma SplitHalves(x: Word32)
    ensures ReadU16(ToBeBytes(x)[0..2]) == x / 0x1_0000
    ensures ReadU16(ToBeBytes(x)[2..4]) == x % 0x1_0000
    ensures (ReadU16(ToBeBytes(x)[0..2]) as nat) * 0x1_0000 + ReadU16(ToBeBytes(x)[2..4]) == x
  {
    HighLowBytes(x);
  }

  /** The bytes of a word are the bytes of its high and low 16-bit halves. */
  lemma HighLowBytes(x: Word32)
    ensures var bs := ToBeBytes(x);
            && bs[0] == (x / 0x1_0000) / 0x100 && bs[1] == (x / 0x1_0000) % 0x100
            && bs[2] == (x % 0x1_0000) / 0x100 && bs[3] == (x % 0x1_0000) % 0x100
            && ReadU16(bs[0..2]) == x / 0x1_0000
            && ReadU16(bs[2..4]) == x % 0x1_0000
            && x == (x / 0x1_0000) * 0x1_0000 + x % 0x1_0000
  {
    var bs := ToBeBytes(x);
    WordBytes(x);
    assert bs[0..2][0] == bs[0] && bs[0..2][1] == bs[1];
    assert bs[2..4][0] == bs[2] && bs[2..4][1] == bs[3];
  }

  /** The four base-256 digits of a word, taken from its 16-bit halves: the top
      byte is the high half's top byte, and the two low bytes are the low half's. */
  lemma WordBytes(x: Word32)
    ensures x / 0x100_0000 == (x / 0x1_0000) / 0x100
    ensures (x / 0x100) % 0x100 == (x % 0x1_0000) / 0x100
    ensures x % 0x100 == (x % 0x1_0000) % 0x100
    ensures x == (x / 0x1_0000) * 0x1_0000 + x % 0x1_0000
  {
    var hi := x / 0x1_0000;
    var lo := x % 0x1_0000;
    var h1 := hi / 0x100;
    var h0 := hi % 0x100;
    var l1 := lo / 0x100;
    var l0 := lo % 0x100;
    assert hi == h1 * 0x100 + h0;
    assert lo == l1 * 0x100 + l0;
    assert x == hi * 0x1_0000 + lo;
    assert x == h1 * 0x100_0000 + (h0 * 0x1_0000 + lo);
    DivMod(x, h1, h0 * 0x1_0000 + lo, 0x100_0000);
    assert x == (hi * 0x100 + l1) * 0x100 + l0;
    DivMod(x, hi * 0x100 + l1, l0, 0x100);
    DivMod(hi * 0x100 + l1, hi, l1, 0x100);
  }

  /** Division by 2^8, 2^16 or 2^24 is determined by a quotient and an
      in-range remainder. */
  lemma DivMod(x: nat, q: nat, r: nat, d: nat)
    requires d == 0x100 || d == 0x1_0000 || d == 0x100_0000
    requires 0 <= r < d && x == q * d + r
    ensures x / d == q && x % d == r
  {
    if d == 0x100 {
      assert x == q * 0x100 + r;
    } else if d == 0x1_0000 {
      assert x == q * 0x1_0000 + r;
    } else {
      assert x == q * 0x100_0000 + r;
    }
  }
}
