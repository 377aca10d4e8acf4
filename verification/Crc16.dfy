/** The key hash of the cluster: `crc16` (redis-3.0.6/src/crc16.c).

    The table-driven loop is proved to compute the remainder of polynomial
    division over GF(2): the message, read as a polynomial and multiplied by
    x^16, divided by x^16 + x^12 + x^5 + 1.  A polynomial is the finite set of
    the exponents that occur in it. */
module Crc16 {
  import opened Basics

  // ----- The table and the loop of the source -----

  // Entry `index` of the 256-entry table, sixteen entries to a row.
  function Table(index: bv8): bv16 {
    var hi, lo := index >> 4, index & 0x0F;
    if hi == 0 then Row(lo, 0x0000, 0x1021, 0x2042, 0x3063, 0x4084, 0x50a5, 0x60c6, 0x70e7,
      0x8108, 0x9129, 0xa14a, 0xb16b, 0xc18c, 0xd1ad, 0xe1ce, 0xf1ef)
    else if hi == 1 then Row(lo, 0x1231, 0x0210, 0x3273, 0x2252, 0x52b5, 0x4294, 0x72f7, 0x62d6,
      0x9339, 0x8318, 0xb37b, 0xa35a, 0xd3bd, 0xc39c, 0xf3ff, 0xe3de)
    else if hi == 2 then Row(lo, 0x2462, 0x3443, 0x0420, 0x1401, 0x64e6, 0x74c7, 0x44a4, 0x5485,
      0xa56a, 0xb54b, 0x8528, 0x9509, 0xe5ee, 0xf5cf, 0xc5ac, 0xd58d)
    else if hi == 3 then Row(lo, 0x3653, 0x2672, 0x1611, 0x0630, 0x76d7, 0x66f6, 0x5695, 0x46b4,
      0xb75b, 0xa77a, 0x9719, 0x8738, 0xf7df, 0xe7fe, 0xd79d, 0xc7bc)
    else if hi == 4 then Row(lo, 0x48c4, 0x58e5, 0x6886, 0x78a7, 0x0840, 0x1861, 0x2802, 0x3823,
      0xc9cc, 0xd9ed, 0xe98e, 0xf9af, 0x8948, 0x9969, 0xa90a, 0xb92b)
    else if hi == 5 then Row(lo, 0x5af5, 0x4ad4, 0x7ab7, 0x6a96, 0x1a71, 0x0a50, 0x3a33, 0x2a12,
      0xdbfd, 0xcbdc, 0xfbbf, 0xeb9e, 0x9b79, 0x8b58, 0xbb3b, 0xab1a)
    else if hi == 6 then Row(lo, 0x6ca6, 0x7c87, 0x4ce4, 0x5cc5, 0x2c22, 0x3c03, 0x0c60, 0x1c41,
      0xedae, 0xfd8f, 0xcdec, 0xddcd, 0xad2a, 0xbd0b, 0x8d68, 0x9d49)
    else if hi == 7 then Row(lo, 0x7e97, 0x6eb6, 0x5ed5, 0x4ef4, 0x3e13, 0x2e32, 0x1e51, 0x0e70,
      0xff9f, 0xefbe, 0xdfdd, 0xcffc, 0xbf1b, 0xaf3a, 0x9f59, 0x8f78)
    else if hi == 8 then Row(lo, 0x9188, 0x81a9, 0xb1ca, 0xa1eb, 0xd10c, 0xc12d, 0xf14e, 0xe16f,
      0x1080, 0x00a1, 0x30c2, 0x20e3, 0x5004, 0x4025, 0x7046, 0x6067)
    else if hi == 9 then Row(lo, 0x83b9, 0x9398, 0xa3fb, 0xb3da, 0xc33d, 0xd31c, 0xe37f, 0xf35e,
      0x02b1, 0x1290, 0x22f3, 0x32d2, 0x4235, 0x5214, 0x6277, 0x7256)
    else if hi == 10 then Row(lo, 0xb5ea, 0xa5cb, 0x95a8, 0x8589, 0xf56e, 0xe54f, 0xd52c, 0xc50d,
      0x34e2, 0x24c3, 0x14a0, 0x0481, 0x7466, 0x6447, 0x5424, 0x4405)
    else if hi == 11 then Row(lo, 0xa7db, 0xb7fa, 0x8799, 0x97b8, 0xe75f, 0xf77e, 0xc71d, 0xd73c,
      0x26d3, 0x36f2, 0x0691, 0x16b0, 0x6657, 0x7676, 0x4615, 0x5634)
    else if hi == 12 then Row(lo, 0xd94c, 0xc96d, 0xf90e, 0xe92f, 0x99c8, 0x89e9, 0xb98a, 0xa9ab,
      0x5844, 0x4865, 0x7806, 0x6827, 0x18c0, 0x08e1, 0x3882, 0x28a3)
    else if hi == 13 then Row(lo, 0xcb7d, 0xdb5c, 0xeb3f, 0xfb1e, 0x8bf9, 0x9bd8, 0xabbb, 0xbb9a,
      0x4a75, 0x5a54, 0x6a37, 0x7a16, 0x0af1, 0x1ad0, 0x2ab3, 0x3a92)
    else if hi == 14 then Row(lo, 0xfd2e, 0xed0f, 0xdd6c, 0xcd4d, 0xbdaa, 0xad8b, 0x9de8, 0x8dc9,
      0x7c26, 0x6c07, 0x5c64, 0x4c45, 0x3ca2, 0x2c83, 0x1ce0, 0x0cc1)
    else Row(lo, 0xef1f, 0xff3e, 0xcf5d, 0xdf7c, 0xaf9b, 0xbfba, 0x8fd9, 0x9ff8,
      0x6e17, 0x7e36, 0x4e55, 0x5e74, 0x2e93, 0x3eb2, 0x0ed1, 0x1ef0)
  }

  // One turn of the loop.
  function TableStep(crc: bv16, b: bv8): bv16 {
    Xor(crc << 8, Table(Index(crc, b)))
  }

  // ----- Division one bit at a time -----

  function Xor(x: bv16, y: bv16): bv16 { x ^ y }
  function Double(r: bv16): bv16 { r << 1 }
  predicate TopSet(r: bv16) { r & 0x8000 != 0 }

  // Multiply the remainder by x and reduce it by the generator.
  function TimesX(r: bv16): bv16 {
    if TopSet(r) then Xor(Double(r), 0x1021) else Double(r)
  }

  function TimesXn(r: bv16, n: nat): bv16 {
    if n == 0 then r else TimesX(TimesXn(r, n - 1))
  }

  // Bring in the next bit of the message.
  function DivStep(r: bv16, bit: bool): bv16 { TimesX(Xor(r, Place(bit, 0))) }

  function Divide(r: bv16, bits: seq<bool>): bv16 {
    if bits == [] then r else DivStep(Divide(r, bits[..|bits| - 1]), bits[|bits| - 1])
  }

  // The bits of a byte, most significant first.
  predicate Bit(b: bv8, k: nat) {
    b & (if k == 0 then 0x80 else if k == 1 then 0x40 else if k == 2 then 0x20 else if k == 3 then 0x10
         else if k == 4 then 0x08 else if k == 5 then 0x04 else if k == 6 then 0x02 else 0x01) != 0
  }

  function BitsOf(b: bv8): seq<bool> { seq(8, k requires 0 <= k < 8 => Bit(b, k)) }

  function Bits(s: seq<bv8>): seq<bool> {
    if s == [] then [] else Bits(s[..|s| - 1]) + BitsOf(s[|s| - 1])
  }

  // A message bit at distance k from the top of the register.
  function Place(bit: bool, k: nat): bv16 {
    if !bit then 0
    else if k == 0 then 0x8000 else if k == 1 then 0x4000 else if k == 2 then 0x2000 else if k == 3 then 0x1000
    else if k == 4 then 0x0800 else if k == 5 then 0x0400 else if k == 6 then 0x0200 else 0x0100
  }

  // ----- The table step is eight division steps -----

  lemma XorTop(x: bv16, y: bv16)
    ensures TopSet(Xor(x, y)) == (TopSet(x) != TopSet(y))
  {
  }

  lemma XorDouble(x: bv16, y: bv16)
    ensures Double(Xor(x, y)) == Xor(Double(x), Double(y))
  {
  }

  lemma XorGroup(x: bv16, y: bv16, g: bv16)
    ensures Xor(Xor(x, y), g) == Xor(Xor(x, g), y)
    ensures Xor(Xor(x, y), g) == Xor(x, Xor(y, g))
    ensures Xor(x, y) == Xor(Xor(x, g), Xor(y, g))
  {
  }

  lemma TimesXLinear(x: bv16, y: bv16)
    ensures TimesX(Xor(x, y)) == Xor(TimesX(x), TimesX(y))
  {
    hide TopSet, Xor, Double;
    XorTop(x, y);
    XorDouble(x, y);
    XorGroup(Double(x), Double(y), 0x1021);
  }

  lemma {:induction false} TimesXnLinear(x: bv16, y: bv16, n: nat)
    ensures TimesXn(Xor(x, y), n) == Xor(TimesXn(x, n), TimesXn(y, n))
  {
    hide Xor, TimesX;
    if n != 0 {
      TimesXnLinear(x, y, n - 1);
      TimesXLinear(TimesXn(x, n - 1), TimesXn(y, n - 1));
    }
  }

  lemma {:induction false} PlaceMoves(bit: bool, k: nat)
    requires k <= 7
    ensures TimesXn(Place(bit, k), k) == Place(bit, 0)
  {
    PlaceMovesTo(bit, k, k);
  }

  lemma {:induction false} PlaceMovesTo(bit: bool, k: nat, n: nat)
    requires n <= k <= 7
    ensures TimesXn(Place(bit, k), n) == Place(bit, k - n)
  {
    if n != 0 {
      PlaceMovesTo(bit, k, n - 1);
    }
  }

  // Bringing a bit in after k steps is the same as placing it k below the top at the start.
  lemma BringIn(r: bv16, k: nat, bit: bool)
    requires k <= 7
    ensures DivStep(TimesXn(r, k), bit) == TimesXn(Xor(r, Place(bit, k)), k + 1)
  {
    hide Xor, TimesX, Place;
    PlaceMoves(bit, k);
    TimesXnLinear(r, Place(bit, k), k);
  }

  function Placed(r: bv16, bits: seq<bool>): bv16
  {
    if bits == [] then r else Xor(Placed(r, bits[..|bits| - 1]), Place(bits[|bits| - 1], |bits| - 1))
  }

  lemma {:induction false} DivideAsPower(r: bv16, bits: seq<bool>)
    requires |bits| <= 8
    ensures Divide(r, bits) == TimesXn(Placed(r, bits), |bits|)
  {
    hide Xor, TimesX, Place, DivStep;
    if bits != [] {
      var k := |bits| - 1;
      DivideAsPower(r, bits[..k]);
      BringIn(Placed(r, bits[..k]), k, bits[k]);
    }
  }

  // The k top bits of a byte.
  function TopBits(b: bv8, k: nat): bv8 {
    b & (if k == 0 then 0x00 else if k == 1 then 0x80 else if k == 2 then 0xC0 else if k == 3 then 0xE0
         else if k == 4 then 0xF0 else if k == 5 then 0xF8 else if k == 6 then 0xFC else if k == 7 then 0xFE else 0xFF)
  }

  function Aligned(b: bv8): bv16 { (b as bv16) << 8 }

  lemma AlignedNext(b: bv8, k: nat)
    requires k < 8
    ensures Xor(Aligned(TopBits(b, k)), Place(Bit(b, k), k)) == Aligned(TopBits(b, k + 1))
  {
  }

  lemma XorAssociates(x: bv16, y: bv16, z: bv16)
    ensures Xor(Xor(x, y), z) == Xor(x, Xor(y, z))
  {
  }

  lemma AlignedEnds(r: bv16, b: bv8)
    ensures Xor(r, Aligned(TopBits(b, 0))) == r
    ensures TopBits(b, 8) == b
  {
  }

  lemma {:induction false} PlacedTop(r: bv16, b: bv8, k: nat)
    requires k <= 8
    ensures Placed(r, BitsOf(b)[..k]) == Xor(r, Aligned(TopBits(b, k)))
  {
    hide Xor, Place, Aligned, TopBits, Bit;
    var v := BitsOf(b);
    if k == 0 {
      AlignedEnds(r, b);
    } else {
      PlacedTop(r, b, k - 1);
      assert v[..k][..k - 1] == v[..k - 1];
      AlignedNext(b, k - 1);
      XorAssociates(r, Aligned(TopBits(b, k - 1)), Place(v[k - 1], k - 1));
    }
  }

  lemma DivideByte(r: bv16, b: bv8)
    ensures Divide(r, BitsOf(b)) == TimesXn(Xor(r, Aligned(b)), 8)
  {
    hide Xor, Aligned, TopBits, TimesX, TimesXn, Divide, Placed;
    DivideAsPower(r, BitsOf(b));
    PlacedTop(r, b, 8);
    AlignedEnds(r, b);
    assert BitsOf(b)[..8] == BitsOf(b);
  }

  function TimesX8(r: bv16): bv16 {
    TimesX(TimesX(TimesX(TimesX(TimesX(TimesX(TimesX(TimesX(r))))))))
  }

  lemma TimesXnEight(r: bv16)
    ensures TimesXn(r, 8) == TimesX8(r)
  {
    hide TimesX;
    assert TimesXn(r, 2) == TimesX(TimesX(TimesXn(r, 0)));
    assert TimesXn(r, 4) == TimesX(TimesX(TimesXn(r, 2)));
    assert TimesXn(r, 6) == TimesX(TimesX(TimesXn(r, 4)));
  }

  function Folded(i: bv8): bv16 { (i ^ (i >> 4)) as bv16 }
  function ByteRemainder(i: bv8): bv16 { (Folded(i) << 12) ^ (Folded(i) << 5) ^ Folded(i) }

  lemma TableIsByteRemainder(i: bv8)
    ensures Table(i) == ByteRemainder(i)
  {
  }

  lemma DivisionIsByteRemainder(i: bv8)
    ensures TimesX8(Aligned(i)) == ByteRemainder(i)
  {
  }

  // The 256 entries of the table are the remainders of the 256 bytes.
  lemma TableIsDivision(i: bv8)
    ensures Table(i) == TimesX8(Aligned(i))
  {
    hide Table, TimesX8, Aligned, ByteRemainder;
    TableIsByteRemainder(i);
    DivisionIsByteRemainder(i);
  }

  function LowByte(crc: bv16): bv16 { crc & 0xFF }
  function Index(crc: bv16, b: bv8): bv8 { ((crc >> 8) ^ (b as bv16)) as bv8 }

  lemma SplitRegister(crc: bv16, b: bv8)
    ensures Xor(crc, Aligned(b)) == Xor(LowByte(crc), Aligned(Index(crc, b)))
  {
  }

  lemma LowByteMoves(crc: bv16)
    ensures TimesX8(LowByte(crc)) == crc << 8
  {
  }

  // One turn of the table loop divides eight more bits.
  lemma TableStepDivides(crc: bv16, b: bv8)
    ensures TableStep(crc, b) == Divide(crc, BitsOf(b))
  {
    hide Xor, Aligned, Index, LowByte, Table, TimesX, Divide;
    DivideByte(crc, b);
    SplitRegister(crc, b);
    TimesXnLinear(LowByte(crc), Aligned(Index(crc, b)), 8);
    TimesXnEight(LowByte(crc));
    TimesXnEight(Aligned(Index(crc, b)));
    LowByteMoves(crc);
    TableIsDivision(Index(crc, b));
  }

  lemma {:induction false} DivideConcat(r: bv16, a: seq<bool>, b: seq<bool>)
    ensures Divide(r, a + b) == Divide(Divide(r, a), b)
  {
    hide DivStep;
    if b == [] {
      assert a + b == a;
    } else {
      DivideConcat(r, a, b[..|b| - 1]);
      assert (a + b)[..|a + b| - 1] == a + b[..|b| - 1];
    }
  }

  // The register after the whole message.
  function Crc(s: seq<bv8>): bv16 { Divide(0, Bits(s)) }

  method ComputeCrc(buf: seq<bv8>) returns (crc: bv16)
    ensures crc == Crc(buf)
  {
    crc := 0;
    for counter := 0 to |buf|
      invariant crc == Crc(buf[..counter])
    {
      hide TableStep, Divide, BitsOf;
      ghost var sofar := buf[..counter + 1];
      assert sofar[..counter] == buf[..counter];
      TableStepDivides(crc, buf[counter]);
      DivideConcat(0, Bits(buf[..counter]), BitsOf(buf[counter]));
      crc := TableStep(crc, buf[counter]);
    }
    assert buf[..|buf|] == buf;
  }
}
