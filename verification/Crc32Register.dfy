/** The checksum of src/mkimage/crc32.c as a shift register that takes in one bit at a time. */
module Crc32Register {

  type Byte = bv8

  /** The number of bits in the register. */
  const WIDTH: nat := 32
  const BYTE_WIDTH: nat := 8

  /** The powers of x in the divisor, except 32. */
  const TERMS: seq<nat> := [0, 1, 2, 4, 5, 7, 8, 10, 11, 12, 16, 22, 23, 26]

  /** x^32 modulo the divisor, as a register: bit 31 - p stands for x^p. */
  const POLY: bv32 := 0xedb8_8320

  predicate Low(c: bv32) { c & 1 == 1 }

  /** Multiplication of the register by x: the power 32 that falls off is replaced. */
  function Shift(c: bv32): bv32 {
    if Low(c) then POLY ^ (c >> 1) else c >> 1
  }

  function Shifts(c: bv32, n: nat): bv32
    decreases n
  {
    if n == 0 then c else Shifts(Shift(c), n - 1)
  }

  function Unit(b: bool): bv32 { if b then 1 else 0 }

  /** The register after it has taken in a bit. */
  function Take(c: bv32, b: bool): bv32 { Shift(c ^ Unit(b)) }

  /** The register after it has taken in some bits, one at a time. */
  function Feed(c: bv32, bits: seq<bool>): bv32
    decreases |bits|
  {
    if bits == [] then c else Feed(Take(c, bits[0]), bits[1..])
  }

  /** The n lowest bits, lowest first. */
  function LowBits(c: bv32, n: nat): (r: seq<bool>)
    ensures |r| == n
    decreases n
  {
    if n == 0 then [] else [Low(c)] + LowBits(c >> 1, n - 1)
  }

  function ByteBits(b: Byte): (r: seq<bool>)
    ensures |r| == 8
  {
    LowBits(b as bv32, BYTE_WIDTH)
  }

  /** The bits of some bytes, each byte's lowest first. */
  function Bits(buf: seq<Byte>): (r: seq<bool>)
    ensures |r| == 8 * |buf|
  {
    if buf == [] then [] else ByteBits(buf[0]) + Bits(buf[1..])
  }

  function Update(c: bv32, buf: seq<Byte>): bv32 { Feed(c, Bits(buf)) }

  function Complement(c: bv32): bv32 { c ^ 0xffff_ffff }

  /** The checksum of a buffer, continued from the checksum of what came before it. */
  function Crc(crc: bv32, buf: seq<Byte>): bv32 {
    Complement(Update(Complement(crc), buf))
  }

  // ---------------------------------------------------------------- concatenation

  lemma FeedStep(c: bv32, bits: seq<bool>)
    requires bits != []
    ensures Feed(c, bits) == Feed(Take(c, bits[0]), bits[1..])
  {
  }

  lemma {:induction false} FeedAppend(c: bv32, s: seq<bool>, t: seq<bool>)
    ensures Feed(c, s + t) == Feed(Feed(c, s), t)
    decreases |s|
  {
    if s == [] {
      assert s + t == t;
    } else {
      assert (s + t)[1..] == s[1..] + t;
      FeedAppend(Take(c, s[0]), s[1..], t);
    }
  }

  lemma {:induction false} BitsAppend(a: seq<Byte>, b: seq<Byte>)
    ensures Bits(a + b) == Bits(a) + Bits(b)
    decreases |a|
  {
    if a == [] {
      assert a + b == b;
    } else {
      assert (a + b)[1..] == a[1..] + b;
      BitsAppend(a[1..], b);
      assert Bits(a + b) == ByteBits(a[0]) + Bits(a[1..] + b);
    }
  }

  lemma UpdateAppend(c: bv32, a: seq<Byte>, b: seq<Byte>)
    ensures Update(c, a + b) == Update(Update(c, a), b)
  {
    BitsAppend(a, b);
    FeedAppend(c, Bits(a), Bits(b));
  }

  lemma ComplementTwice(c: bv32)
    ensures Complement(Complement(c)) == c
  {
  }

  /** The checksum of a concatenation is that of the second part continued from the first's. */
  lemma CrcAppend(crc: bv32, a: seq<Byte>, b: seq<Byte>)
    ensures Crc(crc, a + b) == Crc(Crc(crc, a), b)
  {
    var u := Update(Complement(crc), a);
    UpdateAppend(Complement(crc), a, b);
    ComplementTwice(u);
  }

  // ---------------------------------------------------------------- registers and their bits

  /** c has no bit at place n or above. */
  predicate Fits(c: bv32, n: nat)
    decreases n
  {
    if n == 0 then c == 0 else Fits(c >> 1, n - 1)
  }

  lemma FitsMore(c: bv32, n: nat)
    requires Fits(c >> 8, n)
    ensures Fits(c, n + 8)
  {
    assert Fits(c >> 7, n + 1) by { assert (c >> 7) >> 1 == c >> 8; }
    assert Fits(c >> 6, n + 2) by { assert (c >> 6) >> 1 == c >> 7; }
    assert Fits(c >> 5, n + 3) by { assert (c >> 5) >> 1 == c >> 6; }
    assert Fits(c >> 4, n + 4) by { assert (c >> 4) >> 1 == c >> 5; }
    assert Fits(c >> 3, n + 5) by { assert (c >> 3) >> 1 == c >> 4; }
    assert Fits(c >> 2, n + 6) by { assert (c >> 2) >> 1 == c >> 3; }
    assert Fits(c >> 1, n + 7) by { assert (c >> 1) >> 1 == c >> 2; }
  }

  lemma ByteFits(b: Byte)
    ensures Fits(b as bv32, BYTE_WIDTH)
  {
    assert (b as bv32) >> 8 == 0;
    FitsMore(b as bv32, 0);
  }

  lemma FourBytes(c: bv32)
    ensures (((c >> 8) >> 8) >> 8) >> 8 == 0
  {
  }

  lemma FitsMuchMore(c: bv32, n: nat)
    requires Fits((((c >> 8) >> 8) >> 8) >> 8, n)
    ensures Fits(c, n + 32)
  {
    var c1 := c >> 8;
    var c2 := c1 >> 8;
    var c3 := c2 >> 8;
    FitsMore(c3, n);
    FitsMore(c2, n + 8);
    FitsMore(c1, n + 16);
    FitsMore(c, n + 24);
  }

  lemma AllFit(c: bv32)
    ensures Fits(c, WIDTH)
  {
    FourBytes(c);
    FitsMuchMore(c, 0);
  }

  function Zeros(n: nat): (r: seq<bool>)
    ensures |r| == n
  {
    seq(n, _ => false)
  }

  lemma {:induction false} LowBitsBeyond(c: bv32, n: nat, m: nat)
    requires Fits(c, n)
    ensures LowBits(c, n + m) == LowBits(c, n) + Zeros(m)
    decreases n + m
  {
    if n > 0 {
      LowBitsBeyond(c >> 1, n - 1, m);
      assert LowBits(c, n + m) == [Low(c)] + LowBits(c >> 1, n - 1 + m);
    } else if m > 0 {
      assert c >> 1 == 0;
      LowBitsBeyond(c >> 1, 0, m - 1);
      assert LowBits(c, m) == [false] + LowBits(c >> 1, m - 1);
      assert LowBits(c, m) == Zeros(m);
    } else {
      assert LowBits(c, 0) == [];
    }
  }

  /** The register with the given low bits and no others. */
  function Word(bits: seq<bool>): bv32 {
    if bits == [] then 0 else (Word(bits[1..]) << 1) | Unit(bits[0])
  }

  lemma Rebuild(c: bv32)
    ensures ((c >> 1) << 1) | Unit(Low(c)) == c
  {
  }

  lemma {:induction false} WordOfLowBits(c: bv32, n: nat)
    requires Fits(c, n)
    ensures Word(LowBits(c, n)) == c
    decreases n
  {
    if n > 0 {
      WordOfLowBits(c >> 1, n - 1);
      Rebuild(c);
    }
  }

  /** The register as a polynomial, the coefficient of x^31 first. */
  function Coefficients(c: bv32): (r: seq<bool>)
    ensures |r| == WIDTH
  { LowBits(c, WIDTH) }

  lemma CoefficientsInjective(c: bv32, d: bv32)
    requires Coefficients(c) == Coefficients(d)
    ensures c == d
  {
    AllFit(c);
    AllFit(d);
    WordOfLowBits(c, WIDTH);
    WordOfLowBits(d, WIDTH);
  }

  lemma CoefficientsHalved(c: bv32)
    ensures Coefficients(c >> 1) == Coefficients(c)[1..] + [false]
  {
    AllFit(c);
    LowBitsBeyond(c >> 1, WIDTH - 1, 1);
  }
}
