/** The shift register computes the remainder of a polynomial division over the two-element
    field (section 8 of RFC 1952), and so detects every burst of at most 32 bits. */
module Crc32Polynomial {
  import opened Crc32Register

  /** Addition of polynomials. */
  function Sum(a: seq<bool>, b: seq<bool>): (r: seq<bool>)
    requires |a| == |b|
    ensures |r| == |a|
  {
    seq(|a|, i requires 0 <= i < |a| => a[i] != b[i])
  }

  lemma SumCons(x: bool, a: seq<bool>, y: bool, b: seq<bool>)
    requires |a| == |b|
    ensures Sum([x] + a, [y] + b) == [x != y] + Sum(a, b)
  {
  }

  lemma XorParts(c: bv32, d: bv32)
    ensures (c ^ d) >> 1 == (c >> 1) ^ (d >> 1)
    ensures Low(c ^ d) <==> Low(c) != Low(d)
  {
  }

  lemma {:induction false} LowBitsXor(c: bv32, d: bv32, n: nat)
    ensures LowBits(c ^ d, n) == Sum(LowBits(c, n), LowBits(d, n))
    decreases n
  {
    if n > 0 {
      XorParts(c, d);
      LowBitsXor(c >> 1, d >> 1, n - 1);
      SumCons(Low(c), LowBits(c >> 1, n - 1), Low(d), LowBits(d >> 1, n - 1));
    }
  }

  /** The divisor, the coefficient of x^32 first. */
  function Divisor(): (r: seq<bool>)
    ensures |r| == 33
  {
    seq(33, i => 32 - i in {0, 1, 2, 4, 5, 7, 8, 10, 11, 12, 16, 22, 23, 26, 32})
  }

  /** Long division: what is left of a polynomial, given by its coefficients, highest power
      first, once multiples of the divisor have cancelled all powers above 31. */
  function Remainder(p: seq<bool>): (r: seq<bool>)
    ensures |p| >= 32 ==> |r| == 32
    decreases |p|
  {
    if |p| <= 32 then p
    else if p[0] then Remainder(Sum(p[..33], Divisor())[1..] + p[33..])
    else Remainder(p[1..])
  }

  /** r added to the first 32 coefficients of p. */
  function SumFirst(r: seq<bool>, p: seq<bool>): (q: seq<bool>)
    requires |r| == 32 <= |p|
    ensures |q| == |p|
  {
    Sum(r, p[..32]) + p[32..]
  }

  /** The register's shift, on coefficients. */
  function TimesX(r: seq<bool>): (q: seq<bool>)
    requires |r| == 32
    ensures |q| == 32
  {
    if r[0] then Sum(Divisor()[1..], r[1..] + [false]) else r[1..] + [false]
  }

  function Halve(c: bv32, m: nat): bv32
    decreases m
  {
    if m == 0 then c else Halve(c >> 1, m - 1)
  }

  lemma {:induction false} LowBitsSplit(c: bv32, m: nat, n: nat)
    ensures LowBits(c, m + n) == LowBits(c, m) + LowBits(Halve(c, m), n)
    decreases m
  {
    if m > 0 {
      LowBitsSplit(c >> 1, m - 1, n);
      assert LowBits(c, m + n) == [Low(c)] + LowBits(c >> 1, m - 1 + n);
      assert LowBits(c, m) == [Low(c)] + LowBits(c >> 1, m - 1);
    }
  }

  lemma HalveByte(c: bv32)
    ensures Halve(c, 8) == (((((((c >> 1) >> 1) >> 1) >> 1) >> 1) >> 1) >> 1) >> 1
  {
  }

  lemma PolyByte0()
    ensures LowBits(POLY, 8) == [false, false, false, false, false, true, false, false]
  {
    assert LowBits(0x1db7106, 1) == [false];
    assert LowBits(0x3b6e20c, 2) == [false, false];
    assert LowBits(0x76dc419, 3) == [true, false, false];
    assert LowBits(0xedb8832, 4) == [false, true, false, false];
    assert LowBits(0x1db71064, 5) == [false, false, true, false, false];
    assert LowBits(0x3b6e20c8, 6) == [false, false, false, true, false, false];
    assert LowBits(0x76dc4190, 7) == [false, false, false, false, true, false, false];
  }

  lemma PolyByte1()
    ensures LowBits(0xedb8_83, 8) == [true, true, false, false, false, false, false, true]
  {
    assert LowBits(0x1db71, 1) == [true];
    assert LowBits(0x3b6e2, 2) == [false, true];
    assert LowBits(0x76dc4, 3) == [false, false, true];
    assert LowBits(0xedb88, 4) == [false, false, false, true];
    assert LowBits(0x1db710, 5) == [false, false, false, false, true];
    assert LowBits(0x3b6e20, 6) == [false, false, false, false, false, true];
    assert LowBits(0x76dc41, 7) == [true, false, false, false, false, false, true];
  }

  lemma PolyByte2()
    ensures LowBits(0xedb8, 8) == [false, false, false, true, true, true, false, true]
  {
    assert LowBits(0x1db, 1) == [true];
    assert LowBits(0x3b6, 2) == [false, true];
    assert LowBits(0x76d, 3) == [true, false, true];
    assert LowBits(0xedb, 4) == [true, true, false, true];
    assert LowBits(0x1db7, 5) == [true, true, true, false, true];
    assert LowBits(0x3b6e, 6) == [false, true, true, true, false, true];
    assert LowBits(0x76dc, 7) == [false, false, true, true, true, false, true];
  }

  lemma PolyByte3()
    ensures LowBits(0xed, 8) == [true, false, true, true, false, true, true, true]
  {
    assert LowBits(0x1, 1) == [true];
    assert LowBits(0x3, 2) == [true, true];
    assert LowBits(0x7, 3) == [true, true, true];
    assert LowBits(0xe, 4) == [false, true, true, true];
    assert LowBits(0x1d, 5) == [true, false, true, true, true];
    assert LowBits(0x3b, 6) == [true, true, false, true, true, true];
    assert LowBits(0x76, 7) == [false, true, true, false, true, true, true];
  }

  lemma DivisorBytes()
    ensures Divisor()[1..9] == [false, false, false, false, false, true, false, false]
    ensures Divisor()[9..17] == [true, true, false, false, false, false, false, true]
    ensures Divisor()[17..25] == [false, false, false, true, true, true, false, true]
    ensures Divisor()[25..] == [true, false, true, true, false, true, true, true]
  {
  }

  lemma PolyCoefficients()
    ensures Coefficients(POLY) == Divisor()[1..]
  {
    PolyByte0();
    PolyByte1();
    PolyByte2();
    PolyByte3();
    DivisorBytes();
    HalveByte(POLY);
    HalveByte(0xedb8_83);
    HalveByte(0xedb8);
    LowBitsSplit(POLY, 8, 24);
    LowBitsSplit(0xedb8_83, 8, 16);
    LowBitsSplit(0xedb8, 8, 8);
  }

  lemma TimesXIsShift(c: bv32)
    ensures Coefficients(Shift(c)) == TimesX(Coefficients(c))
  {
    CoefficientsHalved(c);
    if Low(c) {
      PolyCoefficients();
      LowBitsXor(POLY, c >> 1, WIDTH);
    }
  }

  /** Addition of registers is addition of polynomials. */
  lemma SumIsXor(c: bv32, d: bv32, e: bv32)
    requires Coefficients(e) == Sum(Coefficients(c), Coefficients(d))
    ensures c ^ d == e
  {
    LowBitsXor(c, d, WIDTH);
    CoefficientsInjective(c ^ d, e);
  }

  lemma UnitLow(b: bool)
    ensures Low(Unit(b)) <==> b
  {
  }

  lemma UnitCoefficients(c: bv32, b: bool)
    ensures Coefficients(c ^ Unit(b)) == [Coefficients(c)[0] != b] + Coefficients(c)[1..]
  {
    XorParts(c, Unit(b));
    assert Unit(b) >> 1 == 0;
    assert (c >> 1) ^ 0 == c >> 1;
    UnitLow(b);
  }

  // ---------------------------------------------------------------- the remainder

  /** One step of the division. */
  lemma DivideOnce(r: seq<bool>, b: bool, p: seq<bool>)
    requires |r| == 32 <= |p|
    ensures Remainder(SumFirst(r, [b] + p)) == Remainder(SumFirst(TimesX([r[0] != b] + r[1..]), p))
  {
    var q := SumFirst(r, [b] + p);
    var t := [r[0] != b] + r[1..];
    assert |q| == |p| + 1 && q[0] == t[0];
    assert q[1..] == SumFirst(r[1..] + [false], p);
    if q[0] {
      var x, y := Sum(q[..33], Divisor())[1..] + q[33..], SumFirst(TimesX(t), p);
      assert |x| == |y|;
      forall i | 0 <= i < |y|
        ensures x[i] == y[i]
      {
      }
      assert x == y;
    }
  }

  lemma TakeIsTimesX(c: bv32, b: bool)
    ensures Coefficients(Take(c, b)) == TimesX([Coefficients(c)[0] != b] + Coefficients(c)[1..])
  {
    UnitCoefficients(c, b);
    TimesXIsShift(c ^ Unit(b));
  }

  lemma {:induction false} FedIsRemainder(c: bv32, bits: seq<bool>)
    ensures Coefficients(Feed(c, bits)) == Remainder(SumFirst(Coefficients(c), bits + Zeros(32)))
    decreases |bits|
  {
    var r := Coefficients(c);
    if bits == [] {
      assert SumFirst(r, bits + Zeros(32)) == r;
    } else {
      var p := bits[1..] + Zeros(32);
      assert bits + Zeros(32) == [bits[0]] + p;
      FeedStep(c, bits);
      TakeIsTimesX(c, bits[0]);
      DivideOnce(r, bits[0], p);
      FedIsRemainder(Take(c, bits[0]), bits[1..]);
    }
  }

  /** The checksum of a buffer, continued from crc: the bits of the buffer, as a polynomial
      times x^32 whose first coefficients are added to those of the complement of crc, leave a
      remainder, and that is complemented. */
  lemma CrcIsRemainder(crc: bv32, buf: seq<Byte>)
    ensures var ones := Coefficients(0xffff_ffff);
            Coefficients(Crc(crc, buf)) ==
            Sum(Remainder(SumFirst(Sum(Coefficients(crc), ones), Bits(buf) + Zeros(32))), ones)
  {
    var start := Complement(crc);
    LowBitsXor(crc, 0xffff_ffff, WIDTH);
    FedIsRemainder(start, Bits(buf));
    LowBitsXor(Update(start, buf), 0xffff_ffff, WIDTH);
  }

  // ---------------------------------------------------------------- a window of bits

  function Pad(w: seq<bool>): (r: seq<bool>)
    requires |w| <= 32
    ensures |r| == 32
  {
    w + Zeros(32 - |w|)
  }

  function TimesXs(r: seq<bool>, n: nat): (q: seq<bool>)
    requires |r| == 32
    ensures |q| == 32
    decreases n
  {
    if n == 0 then r else TimesXs(TimesX(r), n - 1)
  }

  lemma {:induction false} ShiftsIsTimesXs(c: bv32, n: nat)
    ensures Coefficients(Shifts(c, n)) == TimesXs(Coefficients(c), n)
    decreases n
  {
    if n > 0 {
      TimesXIsShift(c);
      ShiftsIsTimesXs(Shift(c), n - 1);
    }
  }

  lemma SumAhead(r: seq<bool>, w: seq<bool>)
    requires |r| == 32 && 0 < |w| <= 32
    ensures Sum(TimesX([r[0] != w[0]] + r[1..]), Pad(w[1..])) == TimesX(Sum(r, Pad(w)))
  {
    var x, y := Sum(TimesX([r[0] != w[0]] + r[1..]), Pad(w[1..])), TimesX(Sum(r, Pad(w)));
    forall i | 0 <= i < 32
      ensures x[i] == y[i]
    {
    }
  }

  lemma TakeAhead(c: bv32, w: seq<bool>)
    requires 0 < |w| <= 32
    ensures Sum(Coefficients(Take(c, w[0])), Pad(w[1..])) == TimesX(Sum(Coefficients(c), Pad(w)))
  {
    TakeIsTimesX(c, w[0]);
    SumAhead(Coefficients(c), w);
  }

  /** Bits may be added to the register in advance, as many places up as they come later. */
  lemma {:induction false} FeedAhead(c: bv32, w: seq<bool>)
    requires |w| <= 32
    ensures Coefficients(Feed(c, w)) == TimesXs(Sum(Coefficients(c), Pad(w)), |w|)
    decreases |w|
  {
    if w == [] {
      assert Sum(Coefficients(c), Pad(w)) == Coefficients(c);
    } else {
      FeedStep(c, w);
      TakeAhead(c, w);
      FeedAhead(Take(c, w[0]), w[1..]);
    }
  }

  // ---------------------------------------------------------------- detection

  lemma TimesXInjective(r: seq<bool>, s: seq<bool>)
    requires |r| == |s| == 32 && TimesX(r) == TimesX(s)
    ensures r == s
  {
    assert TimesX(r)[31] == r[0] && TimesX(s)[31] == s[0];
    forall i | 0 < i < 32
      ensures r[i] == s[i]
    {
      assert TimesX(r)[i - 1] == TimesX(s)[i - 1];
    }
  }

  lemma TakeInjective(c: bv32, d: bv32, b: bool)
    requires Take(c, b) == Take(d, b)
    ensures c == d
  {
    var r, s := Coefficients(c), Coefficients(d);
    TakeIsTimesX(c, b);
    TakeIsTimesX(d, b);
    var r1, s1 := [r[0] != b] + r[1..], [s[0] != b] + s[1..];
    TimesXInjective(r1, s1);
    assert r[0] == (r1[0] != b) && s[0] == (s1[0] != b);
    assert r[1..] == r1[1..] && s[1..] == s1[1..];
    assert r == [r[0]] + r[1..] && s == [s[0]] + s[1..];
    CoefficientsInjective(c, d);
  }

  /** Whatever is fed, two different registers stay different. */
  lemma {:induction false} FeedInjective(c: bv32, d: bv32, bits: seq<bool>)
    requires Feed(c, bits) == Feed(d, bits)
    ensures c == d
    decreases |bits|
  {
    if bits != [] {
      FeedStep(c, bits);
      FeedStep(d, bits);
      FeedInjective(Take(c, bits[0]), Take(d, bits[0]), bits[1..]);
      TakeInjective(c, d, bits[0]);
    }
  }

  lemma {:induction false} TimesXsInjective(r: seq<bool>, s: seq<bool>, n: nat)
    requires |r| == |s| == 32
    ensures TimesXs(r, n) == TimesXs(s, n) ==> r == s
    decreases n
  {
    if n > 0 {
      TimesXsInjective(TimesX(r), TimesX(s), n - 1);
      if TimesX(r) == TimesX(s) { TimesXInjective(r, s); }
    }
  }

  lemma SameSum(r: seq<bool>, w: seq<bool>, v: seq<bool>)
    requires |r| == 32 && |w| == |v| <= 32 && Sum(r, Pad(w)) == Sum(r, Pad(v))
    ensures w == v
  {
    forall i | 0 <= i < |w|
      ensures w[i] == v[i]
    {
      assert Sum(r, Pad(w))[i] == Sum(r, Pad(v))[i];
    }
  }

  /** Two messages that differ only within 32 consecutive bits differ in their registers. */
  lemma BurstDetected(c: bv32, a: seq<bool>, w: seq<bool>, v: seq<bool>, z: seq<bool>)
    requires |w| == |v| <= 32
    ensures Feed(c, a + w + z) == Feed(c, a + v + z) <==> w == v
  {
    FeedAppend(c, a + w, z);
    FeedAppend(c, a + v, z);
    FeedAppend(c, a, w);
    FeedAppend(c, a, v);
    if Feed(c, a + w + z) == Feed(c, a + v + z) {
      FeedInjective(Feed(c, a + w), Feed(c, a + v), z);
      var r := Coefficients(Feed(c, a));
      FeedAhead(Feed(c, a), w);
      FeedAhead(Feed(c, a), v);
      TimesXsInjective(Sum(r, Pad(w)), Sum(r, Pad(v)), |w|);
      SameSum(r, w, v);
    }
  }
}
