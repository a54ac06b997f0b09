/** Image files (src/mkimage/mkimage.c, image.h): the payload of several files and the two
    checksums, for images that are not executed in place. */
module MkImage {
  import opened Basics
  import R = Crc32Register
  import C = Crc32

  type Octet = b: nat | b < 256
  type Word = w: nat | w < 0x1_0000_0000
  type Bytes = seq<Octet>

  const MAGIC := 0x2705_1956
  const HEADER := 64
  const LIMIT := 0x1_0000_0000
  const NAME := 32

  function ZeroBytes(n: nat): Bytes { seq(n, _ => 0) }

  // ---------------------------------------------------------------- network byte order

  /** htonl of a number, cut to 32 bits */
  function Htonl(n: nat): (r: Bytes)
    ensures |r| == 4
  {
    [n / 0x100_0000 % 256, n / 0x1_0000 % 256, n / 0x100 % 256, n % 256]
  }

  function Ntohl(b: Bytes): nat
    requires |b| == 4
  {
    0x100_0000 * b[0] as nat + 0x1_0000 * b[1] as nat + 0x100 * b[2] as nat + b[3] as nat
  }

  lemma DivTwice(n: nat)
    ensures n / 0x1_0000 == n / 0x100 / 0x100
    ensures n / 0x100_0000 == n / 0x1_0000 / 0x100
    ensures n / 0x1_0000_0000 == n / 0x100_0000 / 0x100
  {
  }

  lemma FourDigits(n: nat)
    ensures 0x100_0000 * (n / 0x100_0000 % 256) + 0x1_0000 * (n / 0x1_0000 % 256) + 0x100 * (n / 0x100 % 256)
            + n % 256 == n % 0x1_0000_0000
  {
    DivTwice(n);
    var q1 := n / 0x100;
    var q2 := n / 0x1_0000;
    var q3 := n / 0x100_0000;
    var q4 := n / 0x1_0000_0000;
    assert n == 0x100 * q1 + n % 256;
    assert q1 == 0x100 * q2 + q1 % 256;
    assert q2 == 0x100 * q3 + q2 % 256;
    assert q3 == 0x100 * q4 + q3 % 256;
  }

  lemma NtohlHtonl(n: nat)
    ensures Ntohl(Htonl(n)) == n % 0x1_0000_0000
  {
    FourDigits(n);
  }

  lemma DigitsInjective(a: int, b: int, c: int, d: int)
    requires 0x100_0000 * a + 0x1_0000 * b + 0x100 * c + d == 0
    requires -256 < a < 256 && -256 < b < 256 && -256 < c < 256 && -256 < d < 256
    ensures a == b == c == d == 0
  {
  }

  lemma NtohlInjective(a: Bytes, b: Bytes)
    requires |a| == |b| == 4 && Ntohl(a) == Ntohl(b)
    ensures a == b
  {
    DigitsInjective(a[0] as int - b[0] as int, a[1] as int - b[1] as int,
                    a[2] as int - b[2] as int, a[3] as int - b[3] as int);
    assert a == [a[0], a[1], a[2], a[3]] && b == [b[0], b[1], b[2], b[3]];
  }

  // ---------------------------------------------------------------- the payload

  /** The list of sizes, and the zero that ends it. */
  function Sizes(files: seq<Bytes>): Bytes {
    if files == [] then Htonl(0) else Htonl(|files[0]|) + Sizes(files[1..])
  }

  function Padding(n: nat): nat { if n % 4 == 0 then 0 else 4 - n % 4 }

  function Padded(f: Bytes): Bytes { f + ZeroBytes(Padding(|f|)) }

  /** Zeros fill a file up to the next multiple of four bytes. */
  lemma PaddedAligned(f: Bytes)
    ensures |Padded(f)| % 4 == 0 && |f| <= |Padded(f)| < |f| + 4 && Padded(f)[..|f|] == f
    ensures forall b | b in Padded(f)[|f|..] :: b == 0
  {
    assert Padded(f)[|f|..] == ZeroBytes(Padding(|f|));
  }

  /** The files, all but the last filled up to a multiple of four bytes. */
  function Data(files: seq<Bytes>): Bytes
    requires files != []
  {
    if |files| == 1 then files[0] else Padded(files[0]) + Data(files[1..])
  }

  /** The sizes listed, and what follows the list. */
  function DecodeSizes(d: Bytes): Option<(seq<nat>, Bytes)> {
    if |d| < 4 then None
    else if Ntohl(d[..4]) == 0 then Some(([], d[4..]))
    else match DecodeSizes(d[4..])
      case None => None
      case Some((sizes, rest)) => Some(([Ntohl(d[..4])] + sizes, rest))
  }

  /** Files of the given sizes, one by one, all but the last followed by padding. */
  function Cut(d: Bytes, sizes: seq<nat>): Option<seq<Bytes>>
    decreases |sizes|
  {
    if sizes == [] then Some([])
    else if |d| < sizes[0] then None
    else if |sizes| == 1 then Some([d[..sizes[0]]])
    else if |d| < sizes[0] + Padding(sizes[0]) then None
    else match Cut(d[sizes[0] + Padding(sizes[0])..], sizes[1..])
      case None => None
      case Some(files) => Some([d[..sizes[0]]] + files)
  }

  /** The files in the payload of a multi-file image, as its format is documented. */
  function Decode(d: Bytes): Option<seq<Bytes>> {
    match DecodeSizes(d)
    case None => None
    case Some((sizes, rest)) => Cut(rest, sizes)
  }

  function Lengths(files: seq<Bytes>): seq<nat> {
    seq(|files|, i requires 0 <= i < |files| => |files[i]|)
  }

  lemma FirstFour(a: Bytes, b: Bytes, rest: Bytes)
    requires |a| == 4
    ensures (a + b + rest)[..4] == a && (a + b + rest)[4..] == b + rest
  {
  }

  /** What copy_file copies: its "int size" holds the low 32 bits of the size. */
  function Kept(f: Bytes): (r: Bytes)
    ensures |r| == |f| % LIMIT && (r == f <==> |f| < LIMIT)
  {
    f[..|f| % LIMIT]
  }

  /** copy_file succeeds: an empty file cannot be mapped, and a size that is negative as an
      "int" cannot be written. */
  predicate Copies(f: Bytes) { f != [] && |Kept(f)| < 0x8000_0000 }

  function KeptAll(files: seq<Bytes>): (r: seq<Bytes>)
    ensures |r| == |files|
  {
    seq(|files|, i requires 0 <= i < |files| => Kept(files[i]))
  }

  lemma SizesStep(files: seq<Bytes>, rest: Bytes)
    requires files != []
    ensures var d := Sizes(files) + rest;
            && |d| >= 4 && Ntohl(d[..4]) == |Kept(files[0])| && d[4..] == Sizes(files[1..]) + rest
  {
    NtohlHtonl(|files[0]|);
    FirstFour(Htonl(|files[0]|), Sizes(files[1..]), rest);
  }

  lemma {:induction false} SizesDecode(files: seq<Bytes>, rest: Bytes)
    requires forall f | f in files :: Kept(f) != []
    ensures DecodeSizes(Sizes(files) + rest) == Some((Lengths(KeptAll(files)), rest))
    decreases |files|
  {
    var d := Sizes(files) + rest;
    if files == [] {
      NtohlHtonl(0);
      assert d[..4] == Htonl(0) && d[4..] == rest;
      assert Lengths(KeptAll(files)) == [];
    } else {
      SizesStep(files, rest);
      assert files[0] in files;
      SizesDecode(files[1..], rest);
      assert Lengths(KeptAll(files)) == [|Kept(files[0])|] + Lengths(KeptAll(files[1..]));
    }
  }

  /** The size of a file of which nothing is copied ends the list too early. */
  lemma {:induction false} EmptyEndsSizes(files: seq<Bytes>, rest: Bytes)
    requires exists f | f in files :: Kept(f) == []
    ensures var r := DecodeSizes(Sizes(files) + rest); && r.Some? && |r.value.0| < |files|
    decreases |files|
  {
    SizesStep(files, rest);
    if Kept(files[0]) != [] {
      EmptyEndsSizes(files[1..], rest);
    }
  }

  lemma {:induction false} CutCount(d: Bytes, sizes: seq<nat>)
    ensures Cut(d, sizes).Some? ==> |Cut(d, sizes).value| == |sizes|
    decreases |sizes|
  {
    if |sizes| > 1 && |d| >= sizes[0] + Padding(sizes[0]) {
      CutCount(d[sizes[0] + Padding(sizes[0])..], sizes[1..]);
    }
  }

  lemma {:induction false} DataCut(files: seq<Bytes>)
    requires files != []
    ensures Cut(Data(files), Lengths(files)) == Some(files)
    decreases |files|
  {
    var d, sizes := Data(files), Lengths(files);
    if |files| == 1 {
      assert d[..sizes[0]] == files[0];
      assert files == [files[0]];
    } else {
      DataCut(files[1..]);
      assert Lengths(files)[1..] == Lengths(files[1..]);
      assert d[..sizes[0]] == files[0];
      assert d[sizes[0] + Padding(sizes[0])..] == Data(files[1..]);
      assert files == [files[0]] + files[1..];
    }
  }

  lemma KeptSame(files: seq<Bytes>)
    ensures KeptAll(files) == files <==> forall f | f in files :: |f| < LIMIT
  {
    if KeptAll(files) == files {
      forall f | f in files ensures |f| < LIMIT {
        var i :| 0 <= i < |files| && files[i] == f;
        assert KeptAll(files)[i] == Kept(f);
      }
    }
  }

  /** The payload decodes to the files exactly if each has a size from 1 to 4 GiB - 1. */
  lemma PayloadDecodes(files: seq<Bytes>)
    requires files != []
    ensures Decode(Sizes(files) + Data(KeptAll(files))) == Some(files)
       <==> forall f | f in files :: 0 < |f| < LIMIT
  {
    var kept := KeptAll(files);
    if exists f | f in files :: Kept(f) == [] {
      EmptyEndsSizes(files, Data(kept));
      var r := DecodeSizes(Sizes(files) + Data(kept)).value;
      CutCount(r.1, r.0);
    } else {
      SizesDecode(files, Data(kept));
      DataCut(kept);
      KeptSame(files);
    }
  }

  /** A file of 4 GiB and one byte is cut to that byte, and nothing says so. */
  lemma LongFileIsCut()
    ensures var f := ZeroBytes(LIMIT + 1);
            Copies(f) && Kept(f) == [0] && Decode(Sizes([f]) + Data([Kept(f)])) != Some([f])
  {
    var f := ZeroBytes(LIMIT + 1);
    PayloadDecodes([f]);
    assert KeptAll([f]) == [Kept(f)] && f in [f];
  }

  // ---------------------------------------------------------------- the header

  /** What the header holds besides the magic number and its own checksum. */
  datatype Header = Header(time: nat, size: nat, load: nat, ep: nat, dcrc: Word,
                           os: Octet, arch: Octet, kind: Octet, comp: Octet, name: Bytes)

  /** strncpy into a field of zeros */
  function NameField(name: Bytes): (r: Bytes)
    ensures |r| == NAME
  {
    if |name| >= NAME then name[..NAME] else name + ZeroBytes(NAME - |name|)
  }

  function Layout(magic: Bytes, hcrc: Bytes, middle: Bytes, dcrc: Bytes, last: Bytes): (r: Bytes)
    requires |magic| == |hcrc| == |dcrc| == 4 && |middle| == 16 && |last| == 4 + NAME
    ensures |r| == HEADER
  {
    magic + hcrc + middle + dcrc + last
  }

  function HeaderBytes(h: Header, hcrc: Word): (r: Bytes)
    ensures |r| == HEADER
  {
    Layout(Htonl(MAGIC), Htonl(hcrc), Htonl(h.time) + Htonl(h.size) + Htonl(h.load) + Htonl(h.ep),
           Htonl(h.dcrc), [h.os, h.arch, h.kind, h.comp] + NameField(h.name))
  }

  lemma LayoutFields(magic: Bytes, hcrc: Bytes, middle: Bytes, dcrc: Bytes, last: Bytes, data: Bytes)
    requires |magic| == |hcrc| == |dcrc| == 4 && |middle| == 16 && |last| == 4 + NAME
    ensures var r := Layout(magic, hcrc, middle, dcrc, last) + data;
            && r[..4] == magic && r[4..8] == hcrc && r[24..28] == dcrc && r[HEADER..] == data
            && r[..4] + ZeroBytes(4) + r[8..HEADER] == Layout(magic, ZeroBytes(4), middle, dcrc, last)
  {
  }

  datatype Verdict = Good | BadSize | BadMagic | BadHeader | BadData

  /** A way to compute checksums. */
  type Summing = Bytes -> Word

  /** The header with zeros in place of its checksum. */
  function Blanked(image: Bytes): (r: Bytes)
    requires |image| >= HEADER
    ensures |r| == HEADER
  {
    image[..4] + ZeroBytes(4) + image[8..HEADER]
  }

  /** The checks of the option -l. */
  function Check(image: Bytes, crc: Summing): Verdict {
    if |image| < HEADER then BadSize
    else if Ntohl(image[..4]) != MAGIC then BadMagic
    else if crc(Blanked(image)) != Ntohl(image[4..8]) then BadHeader
    else if crc(image[HEADER..]) != Ntohl(image[24..28]) then BadData
    else Good
  }

  /** A header with its checksum, before data with the checksum that the header names. */
  function Image(h: Header, data: Bytes, crc: Summing): Bytes {
    HeaderBytes(h, crc(HeaderBytes(h, 0))) + data
  }

  lemma ImageFields(h: Header, data: Bytes, hcrc: Word)
    ensures var r := HeaderBytes(h, hcrc) + data;
            && r[..4] == Htonl(MAGIC) && r[4..8] == Htonl(hcrc) && r[24..28] == Htonl(h.dcrc)
            && r[HEADER..] == data && Blanked(r) == HeaderBytes(h, 0)
  {
    LayoutFields(Htonl(MAGIC), Htonl(hcrc), Htonl(h.time) + Htonl(h.size) + Htonl(h.load) + Htonl(h.ep),
                 Htonl(h.dcrc), [h.os, h.arch, h.kind, h.comp] + NameField(h.name), data);
    assert Htonl(0) == ZeroBytes(4);
  }

  /** Every image is accepted, however the checksums are computed. */
  lemma ImageIsGood(h: Header, data: Bytes, crc: Summing)
    requires h.dcrc == crc(data)
    ensures Check(Image(h, data, crc), crc) == Good
  {
    var hcrc := crc(HeaderBytes(h, 0));
    ImageFields(h, data, hcrc);
    NtohlHtonl(hcrc);
    NtohlHtonl(h.dcrc);
    NtohlHtonl(MAGIC);
  }

  /** The numbers in an image_header_t, each at its offset. */
  predicate HoldsWords(b: Bytes, h: Header, hcrc: Word)
    requires |b| >= 64
  {
    && Ntohl(b[4..8]) == hcrc && Ntohl(b[24..28]) == h.dcrc
    && Ntohl(b[8..12]) == h.time % 0x1_0000_0000 && Ntohl(b[12..16]) == h.size % 0x1_0000_0000
    && Ntohl(b[16..20]) == h.load % 0x1_0000_0000 && Ntohl(b[20..24]) == h.ep % 0x1_0000_0000
  }

  /** The name, filled up with zeros or cut. */
  predicate HoldsName(b: Bytes, name: Bytes)
    requires |b| >= 64
  {
    forall i | 0 <= i < 32 :: b[32..64][i] == if i < |name| then name[i] else 0
  }

  /** All fields of an image_header_t. */
  predicate Holds(b: Bytes, h: Header, hcrc: Word) {
    && |b| >= 64 && b[0] == 0x27 && b[1] == 0x05 && b[2] == 0x19 && b[3] == 0x56 && HoldsWords(b, h, hcrc)
    && b[28] == h.os && b[29] == h.arch && b[30] == h.kind && b[31] == h.comp && HoldsName(b, h.name)
  }

  lemma MiddleFields(time: Bytes, size: Bytes, load: Bytes, ep: Bytes)
    requires |time| == |size| == |load| == |ep| == 4
    ensures var m := time + size + load + ep;
            && |m| == 16 && m[..4] == time && m[4..8] == size && m[8..12] == load && m[12..] == ep
  {
  }

  lemma LayoutPlaces(magic: Bytes, hcrc: Bytes, middle: Bytes, dcrc: Bytes, last: Bytes, data: Bytes)
    requires |magic| == |hcrc| == |dcrc| == 4 && |middle| == 16 && |last| == 4 + NAME
    ensures var r := Layout(magic, hcrc, middle, dcrc, last) + data;
            && r[8..12] == middle[..4] && r[12..16] == middle[4..8] && r[16..20] == middle[8..12]
            && r[20..24] == middle[12..] && r[28..64] == last
  {
  }

  /** Where the bytes of each field are. */
  predicate Places(b: Bytes, h: Header, hcrc: Word) {
    && |b| >= 64 && b[..4] == Htonl(MAGIC) && b[4..8] == Htonl(hcrc) && b[24..28] == Htonl(h.dcrc)
    && b[8..12] == Htonl(h.time) && b[12..16] == Htonl(h.size) && b[16..20] == Htonl(h.load) && b[20..24] == Htonl(h.ep)
    && b[28..64] == [h.os, h.arch, h.kind, h.comp] + NameField(h.name)
  }

  lemma HeaderPlaces(h: Header, hcrc: Word, data: Bytes)
    ensures Places(HeaderBytes(h, hcrc) + data, h, hcrc)
  {
    var time, size, load, ep := Htonl(h.time), Htonl(h.size), Htonl(h.load), Htonl(h.ep);
    var last := [h.os, h.arch, h.kind, h.comp] + NameField(h.name);
    MiddleFields(time, size, load, ep);
    LayoutFields(Htonl(MAGIC), Htonl(hcrc), time + size + load + ep, Htonl(h.dcrc), last, data);
    LayoutPlaces(Htonl(MAGIC), Htonl(hcrc), time + size + load + ep, Htonl(h.dcrc), last, data);
  }

  lemma PlacesHoldSums(b: Bytes, h: Header, hcrc: Word)
    requires Places(b, h, hcrc)
    ensures Ntohl(b[4..8]) == hcrc && Ntohl(b[24..28]) == h.dcrc
  {
    NtohlHtonl(hcrc);
    NtohlHtonl(h.dcrc);
  }

  lemma PlacesHoldWords(b: Bytes, h: Header, hcrc: Word)
    requires Places(b, h, hcrc)
    ensures HoldsWords(b, h, hcrc)
  {
    PlacesHoldSums(b, h, hcrc);
    NtohlHtonl(h.time);
    NtohlHtonl(h.size);
    NtohlHtonl(h.load);
    NtohlHtonl(h.ep);
  }

  lemma PlacesHoldName(b: Bytes, h: Header, hcrc: Word)
    requires Places(b, h, hcrc)
    ensures b[28] == h.os && b[29] == h.arch && b[30] == h.kind && b[31] == h.comp && HoldsName(b, h.name)
  {
    assert b[28..64][0] == b[28] && b[28..64][1] == b[29] && b[28..64][2] == b[30] && b[28..64][3] == b[31];
    assert b[32..64] == b[28..64][4..] == NameField(h.name);
  }

  lemma PlacesHoldMagic(b: Bytes, h: Header, hcrc: Word)
    requires Places(b, h, hcrc)
    ensures b[0] == 0x27 && b[1] == 0x05 && b[2] == 0x19 && b[3] == 0x56
  {
    assert b[..4][0] == b[0] && b[..4][1] == b[1] && b[..4][2] == b[2] && b[..4][3] == b[3];
  }

  /** The bytes of a header hold its fields, whatever follows. */
  lemma HeaderHolds(h: Header, hcrc: Word, data: Bytes)
    ensures Holds(HeaderBytes(h, hcrc) + data, h, hcrc)
  {
    var b := HeaderBytes(h, hcrc) + data;
    HeaderPlaces(h, hcrc, data);
    PlacesHoldWords(b, h, hcrc);
    PlacesHoldName(b, h, hcrc);
    PlacesHoldMagic(b, h, hcrc);
  }

  /** Is every field one that its place in the header can hold? */
  predicate Narrow(h: Header) {
    && h.time < LIMIT && h.size < LIMIT && h.load < LIMIT && h.ep < LIMIT
    && |h.name| <= NAME && 0 !in h.name
  }

  lemma NotLonger(b: Bytes, m: Bytes, n: Bytes)
    requires |b| >= 64 && HoldsName(b, m) && HoldsName(b, n) && |n| <= NAME && 0 !in n
    ensures |n| <= |m|
  {
    if n != [] {
      assert b[32..64][|n| - 1] == n[|n| - 1] && n[|n| - 1] in n;
    }
  }

  lemma SameName(b: Bytes, m: Bytes, n: Bytes)
    requires |b| >= 64 && HoldsName(b, m) && HoldsName(b, n)
    requires |m| <= NAME && |n| <= NAME && 0 !in m && 0 !in n
    ensures m == n
  {
    NotLonger(b, m, n);
    NotLonger(b, n, m);
    forall i | 0 <= i < |m| ensures m[i] == n[i] {
      assert b[32..64][i] == m[i];
    }
  }

  lemma SmallMod(n: nat)
    requires n < LIMIT
    ensures n % 0x1_0000_0000 == n
  {
  }

  lemma SameWords(b: Bytes, g: Header, h: Header, gcrc: Word, hcrc: Word)
    requires |b| >= 64 && HoldsWords(b, g, gcrc) && HoldsWords(b, h, hcrc) && Narrow(g) && Narrow(h)
    ensures g.time == h.time && g.size == h.size && g.load == h.load && g.ep == h.ep
    ensures g.dcrc == h.dcrc && gcrc == hcrc
  {
    SmallMod(g.time);
    SmallMod(h.time);
    SmallMod(g.size);
    SmallMod(h.size);
    SmallMod(g.load);
    SmallMod(h.load);
    SmallMod(g.ep);
    SmallMod(h.ep);
  }

  lemma SameFields(b: Bytes, g: Header, h: Header, gcrc: Word, hcrc: Word)
    requires Holds(b, g, gcrc) && Holds(b, h, hcrc) && Narrow(g) && Narrow(h)
    ensures g == h && gcrc == hcrc
  {
    SameWords(b, g, h, gcrc, hcrc);
    SameName(b, g.name, h.name);
  }

  /** Different headers give different bytes. */
  lemma HeaderInjective(g: Header, h: Header, gcrc: Word, hcrc: Word)
    requires Narrow(g) && Narrow(h) && HeaderBytes(g, gcrc) == HeaderBytes(h, hcrc)
    ensures g == h && gcrc == hcrc
  {
    HeaderHolds(g, gcrc, []);
    HeaderHolds(h, hcrc, []);
    SameFields(HeaderBytes(g, gcrc) + [], g, h, gcrc, hcrc);
  }

  // ---------------------------------------------------------------- changed images

  /** The images differ at most from byte i to before byte j. */
  predicate SameOutside(a: Bytes, b: Bytes, i: nat, j: nat) {
    |a| == |b| && i <= j <= |a| && a[..i] == b[..i] && a[j..] == b[j..]
  }

  /** The way of summing tells apart what differs in at most four consecutive bytes. */
  ghost predicate DetectsFour(crc: Summing) {
    forall a, b, i: nat, j: nat {:trigger SameOutside(a, b, i, j), crc(a), crc(b)} ::
      SameOutside(a, b, i, j) && j <= i + 4 && crc(a) == crc(b) ==> a == b
  }

  lemma BlankedAt(image: Bytes, k: nat)
    requires |image| >= HEADER && k < HEADER
    ensures Blanked(image)[k] == if 4 <= k < 8 then 0 else image[k]
  {
  }

  lemma SameHeader(a: Bytes, b: Bytes, i: nat, j: nat, crc: Summing)
    requires DetectsFour(crc) && SameOutside(a, b, i, j) && j <= i + 4 && 8 <= i && |a| >= HEADER
    requires crc(Blanked(a)) == crc(Blanked(b))
    ensures a[..HEADER] == b[..HEADER]
  {
    var x, y := Blanked(a), Blanked(b);
    var i', j' := if i < HEADER then i else HEADER, if j < HEADER then j else HEADER;
    forall k | 0 <= k < HEADER && !(i' <= k < j') ensures x[k] == y[k] {
      BlankedAt(a, k);
      BlankedAt(b, k);
      assert k < i ==> a[..i][k] == b[..i][k];
      assert k >= j ==> a[j..][k - j] == b[j..][k - j];
    }
    assert x[..i'] == y[..i'] && x[j'..] == y[j'..];
    assert SameOutside(x, y, i', j');
    forall k | 0 <= k < HEADER ensures a[k] == b[k] {
      if k < 8 {
        assert a[..i][k] == b[..i][k];
      } else {
        BlankedAt(a, k);
        BlankedAt(b, k);
      }
    }
  }

  lemma SameData(a: Bytes, b: Bytes, i: nat, j: nat, crc: Summing)
    requires DetectsFour(crc) && SameOutside(a, b, i, j) && j <= i + 4 && |a| >= HEADER
    requires crc(a[HEADER..]) == crc(b[HEADER..])
    ensures a[HEADER..] == b[HEADER..]
  {
    var x, y := a[HEADER..], b[HEADER..];
    var i', j' := if i < HEADER then 0 else i - HEADER, if j < HEADER then 0 else j - HEADER;
    assert x[..i'] == y[..i'] by {
      if i > HEADER {
        assert x[..i'] == a[..i][HEADER..] && y[..i'] == b[..i][HEADER..];
      }
    }
    assert x[j'..] == y[j'..] by {
      if j >= HEADER {
        assert x[j'..] == a[j..] && y[j'..] == b[j..];
      } else {
        assert x[j'..] == a[j..][HEADER - j..] && y[j'..] == b[j..][HEADER - j..];
      }
    }
    assert SameOutside(x, y, i', j');
  }

  /** An accepted image is no longer accepted after a change within four consecutive bytes, on
      either side of the end of the header's checksum. */
  lemma ChangeRejected(a: Bytes, b: Bytes, i: nat, j: nat, crc: Summing)
    requires DetectsFour(crc) && Check(a, crc) == Good && Check(b, crc) == Good
    requires SameOutside(a, b, i, j) && j <= i + 4 && (j <= 8 || 8 <= i)
    ensures a == b
  {
    NtohlInjective(a[..4], b[..4]);
    if j <= 8 {
      assert a[8..] == a[j..][8 - j..] && b[8..] == b[j..][8 - j..];
      assert a[8..HEADER] == a[8..][..HEADER - 8] && b[8..HEADER] == b[8..][..HEADER - 8];
      NtohlInjective(a[4..8], b[4..8]);
      assert a == a[..4] + a[4..8] + a[8..] && b == b[..4] + b[4..8] + b[8..];
    } else {
      assert a[4..8] == a[..i][4..8] && b[4..8] == b[..i][4..8];
      SameHeader(a, b, i, j, crc);
      assert a[24..28] == a[..HEADER][24..28] && b[24..28] == b[..HEADER][24..28];
      SameData(a, b, i, j, crc);
      assert a == a[..HEADER] + a[HEADER..] && b == b[..HEADER] + b[HEADER..];
    }
  }

  // ---------------------------------------------------------------- the checksum of crc32.c

  function ToBits(b: Bytes): seq<R.Byte> {
    seq(|b|, i requires 0 <= i < |b| => b[i] as R.Byte)
  }

  /** The number with the given bits, the lowest first. */
  function BitsValue(bits: seq<bool>): nat {
    if bits == [] then 0 else (if bits[0] then 1 else 0) + 2 * BitsValue(bits[1..])
  }

  function Pow2(n: nat): nat { if n == 0 then 1 else 2 * Pow2(n - 1) }

  lemma Pow2Of32()
    ensures Pow2(32) == 0x1_0000_0000
  {
    assert Pow2(4) == 0x10;
    assert Pow2(8) == 0x100;
    assert Pow2(12) == 0x1000;
    assert Pow2(16) == 0x1_0000;
    assert Pow2(20) == 0x10_0000;
    assert Pow2(24) == 0x100_0000;
    assert Pow2(28) == 0x1000_0000;
  }

  lemma {:induction false} BitsValueBound(bits: seq<bool>)
    ensures BitsValue(bits) < Pow2(|bits|)
  {
    if bits != [] {
      BitsValueBound(bits[1..]);
    }
  }

  /** A register as a number. */
  function Number(c: bv32): Word {
    BitsValueBound(R.Coefficients(c));
    Pow2Of32();
    BitsValue(R.Coefficients(c))
  }

  function Sum(b: Bytes): Word {
    Number(R.Crc(0, ToBits(b)))
  }

  lemma {:induction false} BitsValueInjective(a: seq<bool>, b: seq<bool>)
    requires |a| == |b| && BitsValue(a) == BitsValue(b)
    ensures a == b
  {
    if a != [] {
      BitsValueInjective(a[1..], b[1..]);
      assert a == [a[0]] + a[1..] && b == [b[0]] + b[1..];
    }
  }

  lemma NumberInjective(c: bv32, d: bv32)
    requires Number(c) == Number(d)
    ensures c == d
  {
    BitsValueInjective(R.Coefficients(c), R.Coefficients(d));
    R.CoefficientsInjective(c, d);
  }

  lemma ToBitsInjective(a: Bytes, b: Bytes)
    requires ToBits(a) == ToBits(b)
    ensures a == b
  {
    assert |a| == |ToBits(a)| == |ToBits(b)| == |b|;
    forall k | 0 <= k < |a| ensures a[k] == b[k] {
      assert ToBits(a)[k] == ToBits(b)[k];
      C.ByteNumber(a[k]);
      C.ByteNumber(b[k]);
    }
  }

  lemma ToBitsSameOutside(a: Bytes, b: Bytes, i: nat, j: nat)
    requires SameOutside(a, b, i, j)
    ensures ToBits(a)[..i] == ToBits(b)[..i] && ToBits(a)[j..] == ToBits(b)[j..]
  {
    assert ToBits(a)[..i] == ToBits(a[..i]) && ToBits(b)[..i] == ToBits(b[..i]);
    assert ToBits(a)[j..] == ToBits(a[j..]) && ToBits(b)[j..] == ToBits(b[j..]);
  }

  lemma SumDetects(a: Bytes, b: Bytes, i: nat, j: nat)
    requires SameOutside(a, b, i, j) && j <= i + 4 && Sum(a) == Sum(b)
    ensures a == b
  {
    var x, y := ToBits(a), ToBits(b);
    NumberInjective(R.Crc(0, x), R.Crc(0, y));
    ToBitsSameOutside(a, b, i, j);
    C.FourBytesDetected(0, x, y, i, j);
    ToBitsInjective(a, b);
  }

  lemma SumDetectsFour()
    ensures DetectsFour(Sum)
  {
    forall a, b, i: nat, j: nat {:trigger SameOutside(a, b, i, j), Sum(a), Sum(b)} |
      SameOutside(a, b, i, j) && j <= i + 4 && Sum(a) == Sum(b)
      ensures a == b
    {
      SumDetects(a, b, i, j);
    }
  }

  /** An image holds its fields; its own checksum is of the header with zeros in its place. */
  lemma BuiltHolds(h: Header, data: Bytes)
    requires h.dcrc == Sum(data)
    ensures var image := Image(h, data, Sum);
            && |image| == HEADER + |data| && image[HEADER..] == data && Holds(image, h, Sum(Blanked(image)))
  {
    var hcrc := Sum(HeaderBytes(h, 0));
    ImageFields(h, data, hcrc);
    HeaderHolds(h, hcrc, data);
  }

  // ---------------------------------------------------------------- the program

  /** IH_TYPE_MULTI and IH_TYPE_SCRIPT */
  predicate IsMulti(kind: Octet) { kind == 4 || kind == 6 }

  function Payload(files: seq<Bytes>, kind: Octet): Bytes
    requires files != []
  {
    if IsMulti(kind) then Sizes(files) + Data(KeptAll(files)) else Kept(files[0])
  }

  lemma DataStep(files: seq<Bytes>)
    requires |files| > 1
    ensures Data(KeptAll(files)) == Padded(Kept(files[0])) + Data(KeptAll(files[1..]))
  {
    assert KeptAll(files)[1..] == KeptAll(files[1..]);
  }

  /** The payload as it is documented: several files that decode, or the beginning of one. */
  predicate IsPayload(d: Bytes, files: seq<Bytes>, kind: Octet)
    requires files != []
  {
    if kind == 4 || kind == 6 then Decode(d) == Some(files) <==> forall f | f in files :: |f| < LIMIT
    else d == files[0][..|files[0]| % LIMIT]
  }

  lemma PayloadIs(files: seq<Bytes>, kind: Octet)
    requires files != [] && (IsMulti(kind) ==> forall f | f in files :: Copies(f))
    ensures IsPayload(Payload(files, kind), files, kind)
  {
    PayloadDecodes(files);
  }

  /** The image of some files: accepted, with each field in its place and the payload after them. */
  ghost predicate IsImageOf(image: Bytes, files: seq<Bytes>, h: Header)
    requires files != []
  {
    && |image| >= 64 && Check(image, Sum) == Good && IsPayload(image[64..], files, h.kind)
    && Holds(image, h.(size := |image| - 64, dcrc := Sum(image[64..])), Sum(Blanked(image)))
  }

  lemma BuiltRight(files: seq<Bytes>, h: Header, data: Bytes, image: Bytes)
    requires files != [] && IsPayload(data, files, h.kind)
    requires h.size == |data| && h.dcrc == Sum(data) && image == Image(h, data, Sum)
    ensures IsImageOf(image, files, h)
  {
    ImageIsGood(h, data, Sum);
    BuiltHolds(h, data);
    assert h == h.(size := |image| - 64, dcrc := Sum(image[64..]));
  }

  lemma BuiltOf(files: seq<Bytes>, time: nat, load: nat, ep: nat, os: Octet, arch: Octet, kind: Octet, comp: Octet,
                name: Bytes, data: Bytes, image: Bytes)
    requires files != [] && IsPayload(data, files, kind)
    requires image == Image(Header(time, |data|, load, ep, Sum(data), os, arch, kind, comp, name), data, Sum)
    ensures IsImageOf(image, files, Header(time, 0, load, ep, 0, os, arch, kind, comp, name))
  {
    BuiltRight(files, Header(time, |data|, load, ep, Sum(data), os, arch, kind, comp, name), data, image);
  }

  method Checksum(b: Bytes) returns (c: Word)
    ensures c == Sum(b)
  {
    var buf := new R.Byte[|b|](i requires 0 <= i < |b| => b[i] as R.Byte);
    assert buf[..] == ToBits(b);
    var crc := C.Crc32(0, buf);
    c := Number(crc);
  }

  class Builder {
    /** The image file. */
    var image: Bytes

    constructor ()
      ensures image == []
    {
      image := [];
    }

    method Write(b: Bytes)
      modifies this
      ensures image == old(image) + b
    {
      image := image + b;
    }

    method CopyFile(file: Bytes, pad: bool) returns (ok: bool)
      modifies this
      ensures ok == Copies(file)
      ensures ok ==> image == old(image) + if pad then Padded(Kept(file)) else Kept(file)
    {
      if file == [] { return false; }
      var size := |file| % LIMIT;
      if size >= 0x8000_0000 { return false; }
      Write(file[..size]);
      var tail := size % 4;
      if pad && tail != 0 {
        Write(ZeroBytes(4 - tail));
      }
      ok := true;
    }

    method WriteSizes(files: seq<Bytes>)
      modifies this
      ensures image == old(image) + Sizes(files)
    {
      var rest := files;
      while rest != []
        invariant image + Sizes(rest) == old(image) + Sizes(files)
        decreases |rest|
      {
        Write(Htonl(|rest[0]|));
        rest := rest[1..];
      }
      Write(Htonl(0));
    }

    method CopyFiles(files: seq<Bytes>) returns (ok: bool)
      requires files != []
      modifies this
      ensures ok == forall f | f in files :: Copies(f)
      ensures ok ==> image == old(image) + Data(KeptAll(files))
    {
      var rest := files;
      while |rest| > 1
        invariant 0 < |rest| <= |files| && rest == files[|files| - |rest|..]
        invariant forall f | f in files[..|files| - |rest|] :: Copies(f)
        invariant image + Data(KeptAll(rest)) == old(image) + Data(KeptAll(files))
        decreases |rest|
      {
        ok := CopyFile(rest[0], true);
        assert rest[0] in files;
        if !ok { return; }
        DataStep(rest);
        assert files[..|files| - |rest| + 1] == files[..|files| - |rest|] + [rest[0]];
        rest := rest[1..];
      }
      assert files == files[..|files| - 1] + [rest[0]];
      ok := CopyFile(rest[0], false);
    }

    /** The end of main: the header takes the place of the dummy. */
    method WriteHeader(time: nat, load: nat, ep: nat, os: Octet, arch: Octet, kind: Octet, comp: Octet, name: Bytes,
                       ghost data: Bytes)
      requires image == ZeroBytes(HEADER) + data
      modifies this
      ensures image == Image(Header(time, |data|, load, ep, Sum(data), os, arch, kind, comp, name), data, Sum)
    {
      assert image[HEADER..] == data;
      var dcrc := Checksum(image[HEADER..]);
      var h := Header(time, |image| - HEADER, load, ep, dcrc, os, arch, kind, comp, name);
      image := HeaderBytes(h, 0) + image[HEADER..];
      assert image[..HEADER] == HeaderBytes(h, 0) && image[HEADER..] == data;
      var hcrc := Checksum(image[..HEADER]);
      image := HeaderBytes(h, hcrc) + image[HEADER..];
    }

    /** The data after a dummy header. */
    method WriteData(files: seq<Bytes>, kind: Octet) returns (ok: bool)
      requires files != []
      modifies this
      ensures ok == if kind == 4 || kind == 6 then forall f | f in files :: Copies(f) else Copies(files[0])
      ensures ok ==> image == ZeroBytes(HEADER) + Payload(files, kind) && IsPayload(Payload(files, kind), files, kind)
    {
      image := ZeroBytes(HEADER);
      if IsMulti(kind) {
        WriteSizes(files);
        ok := CopyFiles(files);
      } else {
        ok := CopyFile(files[0], false);
      }
      if ok { PayloadIs(files, kind); }
    }

    /** main, when it writes an image: the data after a dummy header, and then the header with the
        checksum of the data and its own. */
    method Build(files: seq<Bytes>, time: nat, load: nat, ep: nat, os: Octet, arch: Octet, kind: Octet,
                 comp: Octet, name: Bytes) returns (ok: bool)
      requires files != []
      modifies this
      ensures ok <==> forall f | f in if kind == 4 || kind == 6 then files else files[..1] ::
                        f != [] && |f| % 0x1_0000_0000 < 0x8000_0000
      ensures ok ==> IsImageOf(image, files, Header(time, 0, load, ep, 0, os, arch, kind, comp, name))
    {
      ok := WriteData(files, kind);
      if ok {
        ghost var data := Payload(files, kind);
        WriteHeader(time, load, ep, os, arch, kind, comp, name, data);
        BuiltOf(files, time, load, ep, os, arch, kind, comp, name, data, image);
      }
    }
  }
}
