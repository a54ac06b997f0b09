/** src/mkimage/crc32.c: the table-driven, unrolled checksum. */
module Crc32 {
  import opened Crc32Register
  import opened Crc32Polynomial

  function Shift8(c: bv32): bv32 { Shift(Shift(Shift(Shift(Shift(Shift(Shift(Shift(c)))))))) }

  const ROW0: seq<bv32> := [
    0x00000000, 0x77073096, 0xee0e612c, 0x990951ba, 0x076dc419, 0x706af48f, 0xe963a535, 0x9e6495a3,
    0x0edb8832, 0x79dcb8a4, 0xe0d5e91e, 0x97d2d988, 0x09b64c2b, 0x7eb17cbd, 0xe7b82d07, 0x90bf1d91,
    0x1db71064, 0x6ab020f2, 0xf3b97148, 0x84be41de, 0x1adad47d, 0x6ddde4eb, 0xf4d4b551, 0x83d385c7,
    0x136c9856, 0x646ba8c0, 0xfd62f97a, 0x8a65c9ec, 0x14015c4f, 0x63066cd9, 0xfa0f3d63, 0x8d080df5
  ]
  const ROW1: seq<bv32> := [
    0x3b6e20c8, 0x4c69105e, 0xd56041e4, 0xa2677172, 0x3c03e4d1, 0x4b04d447, 0xd20d85fd, 0xa50ab56b,
    0x35b5a8fa, 0x42b2986c, 0xdbbbc9d6, 0xacbcf940, 0x32d86ce3, 0x45df5c75, 0xdcd60dcf, 0xabd13d59,
    0x26d930ac, 0x51de003a, 0xc8d75180, 0xbfd06116, 0x21b4f4b5, 0x56b3c423, 0xcfba9599, 0xb8bda50f,
    0x2802b89e, 0x5f058808, 0xc60cd9b2, 0xb10be924, 0x2f6f7c87, 0x58684c11, 0xc1611dab, 0xb6662d3d
  ]
  const ROW2: seq<bv32> := [
    0x76dc4190, 0x01db7106, 0x98d220bc, 0xefd5102a, 0x71b18589, 0x06b6b51f, 0x9fbfe4a5, 0xe8b8d433,
    0x7807c9a2, 0x0f00f934, 0x9609a88e, 0xe10e9818, 0x7f6a0dbb, 0x086d3d2d, 0x91646c97, 0xe6635c01,
    0x6b6b51f4, 0x1c6c6162, 0x856530d8, 0xf262004e, 0x6c0695ed, 0x1b01a57b, 0x8208f4c1, 0xf50fc457,
    0x65b0d9c6, 0x12b7e950, 0x8bbeb8ea, 0xfcb9887c, 0x62dd1ddf, 0x15da2d49, 0x8cd37cf3, 0xfbd44c65
  ]
  const ROW3: seq<bv32> := [
    0x4db26158, 0x3ab551ce, 0xa3bc0074, 0xd4bb30e2, 0x4adfa541, 0x3dd895d7, 0xa4d1c46d, 0xd3d6f4fb,
    0x4369e96a, 0x346ed9fc, 0xad678846, 0xda60b8d0, 0x44042d73, 0x33031de5, 0xaa0a4c5f, 0xdd0d7cc9,
    0x5005713c, 0x270241aa, 0xbe0b1010, 0xc90c2086, 0x5768b525, 0x206f85b3, 0xb966d409, 0xce61e49f,
    0x5edef90e, 0x29d9c998, 0xb0d09822, 0xc7d7a8b4, 0x59b33d17, 0x2eb40d81, 0xb7bd5c3b, 0xc0ba6cad
  ]
  const ROW4: seq<bv32> := [
    0xedb88320, 0x9abfb3b6, 0x03b6e20c, 0x74b1d29a, 0xead54739, 0x9dd277af, 0x04db2615, 0x73dc1683,
    0xe3630b12, 0x94643b84, 0x0d6d6a3e, 0x7a6a5aa8, 0xe40ecf0b, 0x9309ff9d, 0x0a00ae27, 0x7d079eb1,
    0xf00f9344, 0x8708a3d2, 0x1e01f268, 0x6906c2fe, 0xf762575d, 0x806567cb, 0x196c3671, 0x6e6b06e7,
    0xfed41b76, 0x89d32be0, 0x10da7a5a, 0x67dd4acc, 0xf9b9df6f, 0x8ebeeff9, 0x17b7be43, 0x60b08ed5
  ]
  const ROW5: seq<bv32> := [
    0xd6d6a3e8, 0xa1d1937e, 0x38d8c2c4, 0x4fdff252, 0xd1bb67f1, 0xa6bc5767, 0x3fb506dd, 0x48b2364b,
    0xd80d2bda, 0xaf0a1b4c, 0x36034af6, 0x41047a60, 0xdf60efc3, 0xa867df55, 0x316e8eef, 0x4669be79,
    0xcb61b38c, 0xbc66831a, 0x256fd2a0, 0x5268e236, 0xcc0c7795, 0xbb0b4703, 0x220216b9, 0x5505262f,
    0xc5ba3bbe, 0xb2bd0b28, 0x2bb45a92, 0x5cb36a04, 0xc2d7ffa7, 0xb5d0cf31, 0x2cd99e8b, 0x5bdeae1d
  ]
  const ROW6: seq<bv32> := [
    0x9b64c2b0, 0xec63f226, 0x756aa39c, 0x026d930a, 0x9c0906a9, 0xeb0e363f, 0x72076785, 0x05005713,
    0x95bf4a82, 0xe2b87a14, 0x7bb12bae, 0x0cb61b38, 0x92d28e9b, 0xe5d5be0d, 0x7cdcefb7, 0x0bdbdf21,
    0x86d3d2d4, 0xf1d4e242, 0x68ddb3f8, 0x1fda836e, 0x81be16cd, 0xf6b9265b, 0x6fb077e1, 0x18b74777,
    0x88085ae6, 0xff0f6a70, 0x66063bca, 0x11010b5c, 0x8f659eff, 0xf862ae69, 0x616bffd3, 0x166ccf45
  ]
  const ROW7: seq<bv32> := [
    0xa00ae278, 0xd70dd2ee, 0x4e048354, 0x3903b3c2, 0xa7672661, 0xd06016f7, 0x4969474d, 0x3e6e77db,
    0xaed16a4a, 0xd9d65adc, 0x40df0b66, 0x37d83bf0, 0xa9bcae53, 0xdebb9ec5, 0x47b2cf7f, 0x30b5ffe9,
    0xbdbdf21c, 0xcabac28a, 0x53b39330, 0x24b4a3a6, 0xbad03605, 0xcdd70693, 0x54de5729, 0x23d967bf,
    0xb3667a2e, 0xc4614ab8, 0x5d681b02, 0x2a6f2b94, 0xb40bbe37, 0xc30c8ea1, 0x5a05df1b, 0x2d02ef8d
  ]

  const LOW_HALF: seq<bv32> := ROW0 + ROW1 + ROW2 + ROW3
  const HIGH_HALF: seq<bv32> := ROW4 + ROW5 + ROW6 + ROW7

  /** crc_table */
  const CRC_TABLE: seq<bv32> := LOW_HALF + HIGH_HALF

  lemma Row0Computed(b: Byte)
    ensures |ROW0| == 32
    ensures b < 0x20 ==> ROW0[b as nat] == Shift8(b as bv32)
  {
    if b < 0x20 {
      match b {
        case 0x00 => case 0x01 => case 0x02 => case 0x03 => case 0x04 => case 0x05 => case 0x06 => case 0x07 =>
        case 0x08 => case 0x09 => case 0x0a => case 0x0b => case 0x0c => case 0x0d => case 0x0e => case 0x0f =>
        case 0x10 => case 0x11 => case 0x12 => case 0x13 => case 0x14 => case 0x15 => case 0x16 => case 0x17 =>
        case 0x18 => case 0x19 => case 0x1a => case 0x1b => case 0x1c => case 0x1d => case 0x1e => case 0x1f =>
        case _ =>
      }
    }
  }

  lemma Row1Computed(b: Byte)
    ensures |ROW1| == 32
    ensures 0x20 <= b < 0x40 ==> ROW1[b as nat - 32] == Shift8(b as bv32)
  {
    match b {
      case 0x20 => case 0x21 => case 0x22 => case 0x23 => case 0x24 => case 0x25 => case 0x26 => case 0x27 =>
      case 0x28 => case 0x29 => case 0x2a => case 0x2b => case 0x2c => case 0x2d => case 0x2e => case 0x2f =>
      case 0x30 => case 0x31 => case 0x32 => case 0x33 => case 0x34 => case 0x35 => case 0x36 => case 0x37 =>
      case 0x38 => case 0x39 => case 0x3a => case 0x3b => case 0x3c => case 0x3d => case 0x3e => case 0x3f =>
      case _ =>
    }
  }

  lemma Row2Computed(b: Byte)
    ensures |ROW2| == 32
    ensures 0x40 <= b < 0x60 ==> ROW2[b as nat - 64] == Shift8(b as bv32)
  {
    match b {
      case 0x40 => case 0x41 => case 0x42 => case 0x43 => case 0x44 => case 0x45 => case 0x46 => case 0x47 =>
      case 0x48 => case 0x49 => case 0x4a => case 0x4b => case 0x4c => case 0x4d => case 0x4e => case 0x4f =>
      case 0x50 => case 0x51 => case 0x52 => case 0x53 => case 0x54 => case 0x55 => case 0x56 => case 0x57 =>
      case 0x58 => case 0x59 => case 0x5a => case 0x5b => case 0x5c => case 0x5d => case 0x5e => case 0x5f =>
      case _ =>
    }
  }

  lemma Row3Computed(b: Byte)
    ensures |ROW3| == 32
    ensures 0x60 <= b < 0x80 ==> ROW3[b as nat - 96] == Shift8(b as bv32)
  {
    match b {
      case 0x60 => case 0x61 => case 0x62 => case 0x63 => case 0x64 => case 0x65 => case 0x66 => case 0x67 =>
      case 0x68 => case 0x69 => case 0x6a => case 0x6b => case 0x6c => case 0x6d => case 0x6e => case 0x6f =>
      case 0x70 => case 0x71 => case 0x72 => case 0x73 => case 0x74 => case 0x75 => case 0x76 => case 0x77 =>
      case 0x78 => case 0x79 => case 0x7a => case 0x7b => case 0x7c => case 0x7d => case 0x7e => case 0x7f =>
      case _ =>
    }
  }

  lemma Row4Computed(b: Byte)
    ensures |ROW4| == 32
    ensures 0x80 <= b < 0xa0 ==> ROW4[b as nat - 128] == Shift8(b as bv32)
  {
    match b {
      case 0x80 => case 0x81 => case 0x82 => case 0x83 => case 0x84 => case 0x85 => case 0x86 => case 0x87 =>
      case 0x88 => case 0x89 => case 0x8a => case 0x8b => case 0x8c => case 0x8d => case 0x8e => case 0x8f =>
      case 0x90 => case 0x91 => case 0x92 => case 0x93 => case 0x94 => case 0x95 => case 0x96 => case 0x97 =>
      case 0x98 => case 0x99 => case 0x9a => case 0x9b => case 0x9c => case 0x9d => case 0x9e => case 0x9f =>
      case _ =>
    }
  }

  lemma Row5Computed(b: Byte)
    ensures |ROW5| == 32
    ensures 0xa0 <= b < 0xc0 ==> ROW5[b as nat - 160] == Shift8(b as bv32)
  {
    match b {
      case 0xa0 => case 0xa1 => case 0xa2 => case 0xa3 => case 0xa4 => case 0xa5 => case 0xa6 => case 0xa7 =>
      case 0xa8 => case 0xa9 => case 0xaa => case 0xab => case 0xac => case 0xad => case 0xae => case 0xaf =>
      case 0xb0 => case 0xb1 => case 0xb2 => case 0xb3 => case 0xb4 => case 0xb5 => case 0xb6 => case 0xb7 =>
      case 0xb8 => case 0xb9 => case 0xba => case 0xbb => case 0xbc => case 0xbd => case 0xbe => case 0xbf =>
      case _ =>
    }
  }

  lemma Row6Computed(b: Byte)
    ensures |ROW6| == 32
    ensures 0xc0 <= b < 0xe0 ==> ROW6[b as nat - 192] == Shift8(b as bv32)
  {
    match b {
      case 0xc0 => case 0xc1 => case 0xc2 => case 0xc3 => case 0xc4 => case 0xc5 => case 0xc6 => case 0xc7 =>
      case 0xc8 => case 0xc9 => case 0xca => case 0xcb => case 0xcc => case 0xcd => case 0xce => case 0xcf =>
      case 0xd0 => case 0xd1 => case 0xd2 => case 0xd3 => case 0xd4 => case 0xd5 => case 0xd6 => case 0xd7 =>
      case 0xd8 => case 0xd9 => case 0xda => case 0xdb => case 0xdc => case 0xdd => case 0xde => case 0xdf =>
      case _ =>
    }
  }

  lemma Row7Computed(b: Byte)
    ensures |ROW7| == 32
    ensures 0xe0 <= b ==> ROW7[b as nat - 224] == Shift8(b as bv32)
  {
    match b {
      case 0xe0 => case 0xe1 => case 0xe2 => case 0xe3 => case 0xe4 => case 0xe5 => case 0xe6 => case 0xe7 =>
      case 0xe8 => case 0xe9 => case 0xea => case 0xeb => case 0xec => case 0xed => case 0xee => case 0xef =>
      case 0xf0 => case 0xf1 => case 0xf2 => case 0xf3 => case 0xf4 => case 0xf5 => case 0xf6 => case 0xf7 =>
      case 0xf8 => case 0xf9 => case 0xfa => case 0xfb => case 0xfc => case 0xfd => case 0xfe => case 0xff =>
      case _ =>
    }
  }

  lemma LowHalfComputed(b: Byte)
    ensures |LOW_HALF| == 128
    ensures b < 0x80 ==> LOW_HALF[b as nat] == Shift8(b as bv32)
  {
    if
    case b < 0x20 => Row0Computed(b);
    case 0x20 <= b < 0x40 => Row1Computed(b);
    case 0x40 <= b < 0x60 => Row2Computed(b);
    case 0x60 <= b < 0x80 => Row3Computed(b);
    case 0x80 <= b =>
  }

  lemma HighHalfComputed(b: Byte)
    ensures |HIGH_HALF| == 128
    ensures 0x80 <= b ==> HIGH_HALF[b as nat - 128] == Shift8(b as bv32)
  {
    if
    case b < 0x80 =>
    case 0x80 <= b < 0xa0 => Row4Computed(b);
    case 0xa0 <= b < 0xc0 => Row5Computed(b);
    case 0xc0 <= b < 0xe0 => Row6Computed(b);
    case 0xe0 <= b => Row7Computed(b);
  }

  /** Every entry of the table is the register after eight shifts of its index. */
  lemma TableComputed(b: Byte)
    ensures |CRC_TABLE| == 256 && CRC_TABLE[b as nat] == Shift8(b as bv32)
  {
    LowHalfComputed(b);
    HighHalfComputed(b);
  }

  // ---------------------------------------------------------------- a byte at a time

  /** What is in the register's high places only moves. */
  lemma SumEven(a: seq<bool>, h: seq<bool>)
    requires |a| == |h| == 32 && !h[0]
    ensures TimesX(Sum(a, h)) == Sum(TimesX(a), h[1..] + [false])
  {
    var x, y := TimesX(Sum(a, h)), Sum(TimesX(a), h[1..] + [false]);
    forall i | 0 <= i < 32
      ensures x[i] == y[i]
    {
    }
  }

  lemma {:induction false} SumHigh(a: seq<bool>, h: seq<bool>, n: nat)
    requires |a| == |h| == 32 && n <= 32 && h[..n] == Zeros(n)
    ensures TimesXs(Sum(a, h), n) == Sum(TimesXs(a, n), h[n..] + Zeros(n))
    decreases n
  {
    if n == 0 {
      assert h[0..] + Zeros(0) == h;
    } else {
      assert h[..n][0] == Zeros(n)[0];
      SumEven(a, h);
      var k := h[1..] + [false];
      assert k[..n - 1] == h[..n][1..] == Zeros(n - 1);
      SumHigh(TimesX(a), k, n - 1);
      assert k[n - 1..] + Zeros(n - 1) == h[n..] + Zeros(n);
    }
  }

  predicate AllLow(m: bv32, n: nat)
    decreases n
  {
    n == 0 || (Low(m) && AllLow(m >> 1, n - 1))
  }

  lemma AndParts(x: bv32, m: bv32)
    ensures Low(x & m) <==> Low(x) && Low(m)
    ensures (x & m) >> 1 == (x >> 1) & (m >> 1)
  {
  }

  lemma {:induction false} LowBitsMasked(x: bv32, m: bv32, n: nat)
    requires AllLow(m, n)
    ensures LowBits(x & m, n) == LowBits(x, n)
    decreases n
  {
    if n > 0 {
      AndParts(x, m);
      LowBitsMasked(x >> 1, m >> 1, n - 1);
    }
  }

  /** A byte as a register has nothing in the high places. */
  lemma ByteCoefficients(b: Byte)
    ensures Coefficients(b as bv32) == Pad(ByteBits(b))
  {
    ByteFits(b);
    LowBitsBeyond(b as bv32, BYTE_WIDTH, WIDTH - BYTE_WIDTH);
  }

  lemma MoveOn(r: seq<bool>, n: nat)
    requires 0 < n <= |r|
    ensures (r[1..] + [false])[n - 1..] + Zeros(n - 1) == r[n..] + Zeros(n)
  {
  }

  lemma {:induction false} CoefficientsHalvedTimes(c: bv32, n: nat)
    requires n <= 32
    ensures Coefficients(Halve(c, n)) == Coefficients(c)[n..] + Zeros(n)
    decreases n
  {
    if n > 0 {
      CoefficientsHalved(c);
      CoefficientsHalvedTimes(c >> 1, n - 1);
      MoveOn(Coefficients(c), n);
    } else {
      assert Coefficients(c)[0..] + Zeros(0) == Coefficients(c);
    }
  }

  lemma EightHalves(c: bv32)
    ensures (((((((c >> 1) >> 1) >> 1) >> 1) >> 1) >> 1) >> 1) >> 1 == c >> 8
  {
  }

  lemma ShiftByte(c: bv32)
    ensures Coefficients(c >> 8) == Coefficients(c)[8..] + Zeros(8)
  {
    CoefficientsHalvedTimes(c, 8);
    HalveByte(c);
    EightHalves(c);
  }

  /** The index into the table: the low byte of the register plus the byte to take in. */
  lemma IndexBits(c: bv32, b: Byte, i: Byte)
    requires i as bv32 == (c ^ b as bv32) & 0xff
    ensures ByteBits(i) == Sum(Coefficients(c)[..8], ByteBits(b))
  {
    assert AllLow(0xff, 8);
    LowBitsMasked(c ^ b as bv32, 0xff, BYTE_WIDTH);
    LowBitsXor(c, b as bv32, BYTE_WIDTH);
    LowBitsSplit(c, BYTE_WIDTH, WIDTH - BYTE_WIDTH);
  }

  lemma SplitSum(r: seq<bool>, w: seq<bool>, v: seq<bool>)
    requires |r| == 32 && |w| == |v| == 8 && v == Sum(r[..8], w)
    ensures Sum(r, Pad(w)) == Sum(Pad(v), Zeros(8) + r[8..])
  {
    var x, y := Sum(r, Pad(w)), Sum(Pad(v), Zeros(8) + r[8..]);
    forall i | 0 <= i < 32
      ensures x[i] == y[i]
    {
    }
  }

  lemma EightShifts(c: bv32)
    ensures Shifts(c, BYTE_WIDTH) == Shift8(c)
  {
    assert Shifts(c, 8) == Shift8(c);
  }

  lemma TableStep(c: bv32, b: Byte, i: Byte)
    requires ByteBits(i) == Sum(Coefficients(c)[..8], ByteBits(b))
    ensures Coefficients(Update(c, [b])) == Sum(Coefficients(Shift8(i as bv32)), Coefficients(c >> 8))
  {
    var r := Coefficients(c);
    var q := Sum(r, Pad(ByteBits(b)));
    var a, h := Pad(ByteBits(i)), Zeros(8) + r[8..];
    SplitSum(r, ByteBits(b), ByteBits(i));
    assert Bits([b]) == ByteBits(b);
    FeedAhead(c, ByteBits(b));
    assert h[..BYTE_WIDTH] == Zeros(BYTE_WIDTH);
    SumHigh(a, h, BYTE_WIDTH);
    assert h[BYTE_WIDTH..] == r[8..];
    ByteCoefficients(i);
    ShiftsIsTimesXs(i as bv32, BYTE_WIDTH);
    EightShifts(i as bv32);
    ShiftByte(c);
  }

  lemma ThroughTable(c: bv32, b: Byte, i: Byte)
    requires i as bv32 == (c ^ b as bv32) & 0xff
    ensures |CRC_TABLE| == 256 && CRC_TABLE[i as nat] ^ (c >> 8) == Update(c, [b])
  {
    TableComputed(i);
    IndexBits(c, b, i);
    TableStep(c, b, i);
    SumIsXor(CRC_TABLE[i as nat], c >> 8, Update(c, [b]));
  }

  lemma IndexByte(x: bv32)
    ensures (x & 0xff) as Byte as bv32 == x & 0xff
  {
  }

  /** DO1: one byte through the table. */
  function Do1(c: bv32, b: Byte): (r: bv32)
    ensures r == Update(c, [b])
  {
    var i := ((c ^ b as bv32) & 0xff) as Byte;
    IndexByte(c ^ b as bv32);
    ThroughTable(c, b, i);
    CRC_TABLE[i as nat] ^ (c >> 8)
  }

  lemma UpdateOne(c: bv32, buf: seq<Byte>, i: nat)
    requires i < |buf|
    ensures Update(c, buf[..i + 1]) == Do1(Update(c, buf[..i]), buf[i])
  {
    UpdateAppend(c, buf[..i], [buf[i]]);
    assert buf[..i + 1] == buf[..i] + [buf[i]];
  }

  lemma EightMore(c: bv32, buf: seq<Byte>, i: nat)
    requires i + 8 <= |buf|
    ensures Update(c, buf[..i + 8]) ==
            Do1(Do1(Do1(Do1(Do1(Do1(Do1(Do1(Update(c, buf[..i]), buf[i]), buf[i + 1]), buf[i + 2]),
                                buf[i + 3]), buf[i + 4]), buf[i + 5]), buf[i + 6]), buf[i + 7])
  {
    UpdateOne(c, buf, i);
    UpdateOne(c, buf, i + 1);
    UpdateOne(c, buf, i + 2);
    UpdateOne(c, buf, i + 3);
    UpdateOne(c, buf, i + 4);
    UpdateOne(c, buf, i + 5);
    UpdateOne(c, buf, i + 6);
    UpdateOne(c, buf, i + 7);
  }

  /** DO8 */
  method Do8(c: bv32, buf: array<Byte>, i: nat) returns (r: bv32)
    requires i + 8 <= buf.Length
    ensures forall start | c == Update(start, buf[..i]) :: r == Update(start, buf[..i + 8])
  {
    r := Do1(c, buf[i]);
    r := Do1(r, buf[i + 1]);
    r := Do1(r, buf[i + 2]);
    r := Do1(r, buf[i + 3]);
    r := Do1(r, buf[i + 4]);
    r := Do1(r, buf[i + 5]);
    r := Do1(r, buf[i + 6]);
    r := Do1(r, buf[i + 7]);
    forall start | c == Update(start, buf[..i])
      ensures r == Update(start, buf[..i + 8])
    {
      EightMore(start, buf[..], i);
    }
  }

  /** crc32: the loop takes eight bytes at a time, then one at a time, through the table. */
  method Crc32(crc: bv32, buf: array<Byte>) returns (r: bv32)
    ensures r == Crc(crc, buf[..])
  {
    ghost var start := Complement(crc);
    r := crc ^ 0xffff_ffff;
    var i: nat, len: nat := 0, buf.Length;
    assert buf[..0] == [];
    while len >= 8
      invariant i + len == buf.Length && r == Update(start, buf[..i])
    {
      r := Do8(r, buf, i);
      i, len := i + 8, len - 8;
    }
    while len > 0
      invariant i + len == buf.Length && r == Update(start, buf[..i])
    {
      UpdateOne(start, buf[..], i);
      assert buf[..][..i] == buf[..i] && buf[..][..i + 1] == buf[..i + 1];
      r := Do1(r, buf[i]);
      i, len := i + 1, len - 1;
    }
    assert buf[..i] == buf[..];
    r := r ^ 0xffff_ffff;
  }

  // ---------------------------------------------------------------- make_crc_table

  function TermBit(n: nat): bv32
    requires n < |TERMS|
  {
    1 << (31 - TERMS[n])
  }

  /** The exclusive-or pattern of the first n terms. */
  function Pattern(n: nat): bv32
    requires n <= |TERMS|
  {
    if n == 0 then 0 else Pattern(n - 1) | TermBit(n - 1)
  }

  lemma Terms0To2()
    ensures TermBit(0) == 0x8000_0000
    ensures TermBit(1) == 0x4000_0000
    ensures TermBit(2) == 0x2000_0000
  {
  }

  lemma Terms3To6()
    ensures TermBit(3) == 0x0800_0000
    ensures TermBit(4) == 0x0400_0000
    ensures TermBit(5) == 0x0100_0000
    ensures TermBit(6) == 0x0080_0000
  {
  }

  lemma Terms7To9()
    ensures TermBit(7) == 0x0020_0000
    ensures TermBit(8) == 0x0010_0000
    ensures TermBit(9) == 0x0008_0000
  {
  }

  lemma Terms10To13()
    ensures TermBit(10) == 0x0000_8000
    ensures TermBit(11) == 0x0000_0200
    ensures TermBit(12) == 0x0000_0100
    ensures TermBit(13) == 0x0000_0020
  {
  }

  lemma PatternIsPoly()
    ensures Pattern(14) == POLY
  {
    Terms0To2();
    Terms3To6();
    Terms7To9();
    Terms10To13();
    assert Pattern(1) == 0x8000_0000;
    assert Pattern(2) == 0xc000_0000;
    assert Pattern(3) == 0xe000_0000;
    assert Pattern(4) == 0xe800_0000;
    assert Pattern(5) == 0xec00_0000;
    assert Pattern(6) == 0xed00_0000;
    assert Pattern(7) == 0xed80_0000;
    assert Pattern(8) == 0xeda0_0000;
    assert Pattern(9) == 0xedb0_0000;
    assert Pattern(10) == 0xedb8_0000;
    assert Pattern(11) == 0xedb8_8000;
    assert Pattern(12) == 0xedb8_8200;
    assert Pattern(13) == 0xedb8_8300;
  }

  lemma {:induction false} ShiftsOneMore(c: bv32, k: nat)
    ensures Shifts(c, k + 1) == Shift(Shifts(c, k))
    decreases k
  {
    if k > 0 {
      ShiftsOneMore(Shift(c), k - 1);
    }
  }

  /** What belongs in place b of the table. */
  function Entry(b: Byte): bv32 { Shift8(b as bv32) }

  /** The inner loop of make_crc_table. */
  method MakeEntry(poly: bv32, n: Byte) returns (c: bv32)
    requires poly == POLY
    ensures c == Entry(n)
  {
    c := n as bv32;
    for k := 0 to 8
      invariant c == Shifts(n as bv32, k)
    {
      ShiftsOneMore(n as bv32, k);
      c := if c & 1 == 1 then poly ^ (c >> 1) else c >> 1;
    }
    EightShifts(n as bv32);
  }

  ghost predicate Filled(t: seq<bv32>, n: nat)
    requires n <= |t|
  {
    forall b: Byte {:trigger Entry(b)} :: b as nat < n ==> t[b as nat] == Entry(b)
  }

  lemma NumberByte(b: Byte)
    ensures b as nat as Byte == b
  {
  }

  lemma FillOne(t: seq<bv32>, n: nat, c: bv32)
    requires |t| == 256 && n < 256 && Filled(t, n) && c == Entry(n as Byte)
    ensures Filled(t[n := c], n + 1)
  {
    forall b: Byte {:trigger Entry(b)} | b as nat < n + 1
      ensures t[n := c][b as nat] == Entry(b)
    {
      if b as nat == n {
        NumberByte(b);
      }
    }
  }

  lemma NextByte(b: Byte)
    requires b < 255
    ensures (b + 1) as nat == b as nat + 1
  {
  }

  lemma {:induction false} ByteNumber(n: nat)
    requires n < 256
    ensures n as Byte as nat == n
  {
    if n == 0 {
      NumberByte(0);
    } else {
      ByteNumber(n - 1);
      var b := (n - 1) as Byte;
      NextByte(b);
      NumberByte(b + 1);
    }
  }

  lemma SameTable(t: seq<bv32>)
    requires |t| == 256 && Filled(t, 256)
    ensures t == CRC_TABLE
  {
    TableComputed(0);
    forall n | 0 <= n < 256
      ensures t[n] == CRC_TABLE[n]
    {
      var b := n as Byte;
      ByteNumber(n);
      assert t[b as nat] == Entry(b);
      TableComputed(b);
    }
  }

  /** make_crc_table: what it computes is what the static table holds. */
  method MakeCrcTable(table: array<bv32>)
    requires table.Length == 256
    modifies table
    ensures table[..] == CRC_TABLE
  {
    var poly: bv32 := 0;
    for n := 0 to |TERMS|
      invariant poly == Pattern(n)
    {
      poly := poly | TermBit(n);
    }
    PatternIsPoly();
    for n := 0 to 256
      invariant Filled(table[..], n)
    {
      var c := MakeEntry(poly, n as Byte);
      FillOne(table[..], n, c);
      table[n] := c;
    }
    SameTable(table[..]);
  }

  // ---------------------------------------------------------------- detection

  lemma ByteBitsInjective(a: Byte, b: Byte)
    requires ByteBits(a) == ByteBits(b)
    ensures a == b
  {
    ByteFits(a);
    ByteFits(b);
    WordOfLowBits(a as bv32, BYTE_WIDTH);
    WordOfLowBits(b as bv32, BYTE_WIDTH);
  }

  lemma {:induction false} BitsInjective(a: seq<Byte>, b: seq<Byte>)
    requires |a| == |b| && Bits(a) == Bits(b)
    ensures a == b
  {
    if a != [] {
      assert ByteBits(a[0]) == Bits(a)[..8] == Bits(b)[..8] == ByteBits(b[0]);
      assert Bits(a[1..]) == Bits(a)[8..] == Bits(b)[8..] == Bits(b[1..]);
      ByteBitsInjective(a[0], b[0]);
      BitsInjective(a[1..], b[1..]);
    }
  }

  lemma SplitBits(a: seq<Byte>, w: seq<Byte>, z: seq<Byte>)
    ensures Bits(a + w + z) == Bits(a) + Bits(w) + Bits(z)
  {
    BitsAppend(a + w, z);
    BitsAppend(a, w);
  }

  /** Messages of the same length that agree outside at most four consecutive bytes have the
      same checksum only if they are the same. */
  lemma FourBytesDetected(crc: bv32, a: seq<Byte>, b: seq<Byte>, i: nat, j: nat)
    requires |a| == |b| && i <= j <= |a| && j <= i + 4
    requires a[..i] == b[..i] && a[j..] == b[j..]
    ensures Crc(crc, a) == Crc(crc, b) <==> a == b
  {
    var w, v := a[i..j], b[i..j];
    assert a == a[..i] + w + a[j..] && b == a[..i] + v + a[j..];
    SplitBits(a[..i], w, a[j..]);
    SplitBits(a[..i], v, a[j..]);
    var start := Complement(crc);
    BurstDetected(start, Bits(a[..i]), Bits(w), Bits(v), Bits(a[j..]));
    if Crc(crc, a) == Crc(crc, b) {
      ComplementTwice(Update(start, a));
      ComplementTwice(Update(start, b));
      BitsInjective(w, v);
    }
  }

  /** The state of the checksum determines what came before: no byte merges two registers. */
  lemma UpdateInjective(c: bv32, d: bv32, buf: seq<Byte>)
    ensures Update(c, buf) == Update(d, buf) <==> c == d
  {
    if Update(c, buf) == Update(d, buf) {
      FeedInjective(c, d, Bits(buf));
    }
  }
}
