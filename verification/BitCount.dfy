/** Counting the set bits of a string: `redisPopcount` (redis-3.0.6/src/bitops.c).

    The kernel reads unaligned bytes through a table, then takes 28 bytes at a
    time: seven 32-bit words are reduced to per-byte counts by shifts and masks,
    added lane by lane, and summed by one multiplication.  The specification is
    the plain sum of the bits of the string. */
module BitCount {
  import opened Basics

  // ----- The specification: one bit at a time -----

  function Bit(isSet: bool): nat { if isSet then 1 else 0 }

  function BitsOf(b: bv8): nat {
    Bit(b & 0x01 != 0) + Bit(b & 0x02 != 0) + Bit(b & 0x04 != 0) + Bit(b & 0x08 != 0) +
    Bit(b & 0x10 != 0) + Bit(b & 0x20 != 0) + Bit(b & 0x40 != 0) + Bit(b & 0x80 != 0)
  }

  function CountBits(s: seq<bv8>): nat {
    if s == [] then 0 else CountBits(s[..|s| - 1]) + BitsOf(s[|s| - 1])
  }

  // ----- The byte table of the source -----

  // Entry b of the 256-entry table, sixteen entries to a row.
  function BitsInByte(b: bv8): nat {
    var hi, lo := b >> 4, b & 0x0F;
    if hi == 0 then Row(lo, 0,1,1,2,1,2,2,3,1,2,2,3,2,3,3,4)
    else if hi == 1 then Row(lo, 1,2,2,3,2,3,3,4,2,3,3,4,3,4,4,5)
    else if hi == 2 then Row(lo, 1,2,2,3,2,3,3,4,2,3,3,4,3,4,4,5)
    else if hi == 3 then Row(lo, 2,3,3,4,3,4,4,5,3,4,4,5,4,5,5,6)
    else if hi == 4 then Row(lo, 1,2,2,3,2,3,3,4,2,3,3,4,3,4,4,5)
    else if hi == 5 then Row(lo, 2,3,3,4,3,4,4,5,3,4,4,5,4,5,5,6)
    else if hi == 6 then Row(lo, 2,3,3,4,3,4,4,5,3,4,4,5,4,5,5,6)
    else if hi == 7 then Row(lo, 3,4,4,5,4,5,5,6,4,5,5,6,5,6,6,7)
    else if hi == 8 then Row(lo, 1,2,2,3,2,3,3,4,2,3,3,4,3,4,4,5)
    else if hi == 9 then Row(lo, 2,3,3,4,3,4,4,5,3,4,4,5,4,5,5,6)
    else if hi == 10 then Row(lo, 2,3,3,4,3,4,4,5,3,4,4,5,4,5,5,6)
    else if hi == 11 then Row(lo, 3,4,4,5,4,5,5,6,4,5,5,6,5,6,6,7)
    else if hi == 12 then Row(lo, 2,3,3,4,3,4,4,5,3,4,4,5,4,5,5,6)
    else if hi == 13 then Row(lo, 3,4,4,5,4,5,5,6,4,5,5,6,5,6,6,7)
    else if hi == 14 then Row(lo, 3,4,4,5,4,5,5,6,4,5,5,6,5,6,6,7)
    else Row(lo, 4,5,5,6,5,6,6,7,5,6,6,7,6,7,7,8)
  }

  lemma TableIsBitSum(b: bv8)
    ensures BitsInByte(b) == BitsOf(b)
  {
  }

  // ----- The parallel add, lane by lane -----

  function Word(b0: bv8, b1: bv8, b2: bv8, b3: bv8): bv32 {
    (b0 as bv32) | ((b1 as bv32) << 8) | ((b2 as bv32) << 16) | ((b3 as bv32) << 24)
  }

  // The three reduction steps of one word, as the source writes them.
  function Pairs(w: bv32): bv32 { w - ((w >> 1) & 0x55555555) }
  function Nibbles(w: bv32): bv32 { (w & 0x33333333) + ((w >> 2) & 0x33333333) }
  function Octets(w: bv32): bv32 { (w + (w >> 4)) & 0x0F0F0F0F }
  function Reduce(w: bv32): bv32 { Octets(Nibbles(Pairs(w))) }

  // The same steps on a single byte.
  function PairsByte(b: bv8): bv8 { (b & 0x55) + ((b >> 1) & 0x55) }
  function NibblesByte(b: bv8): bv8 { (b & 0x33) + ((b >> 2) & 0x33) }
  function OctetsByte(b: bv8): bv8 { (b + (b >> 4)) & 0x0F }
  function CountByte(b: bv8): bv8 { OctetsByte(NibblesByte(PairsByte(b))) }

  lemma PairsAdd(w: bv32)
    ensures Pairs(w) == (w & 0x55555555) + ((w >> 1) & 0x55555555)
  {
  }

  lemma PairsWordByAdd(b0: bv8, b1: bv8, b2: bv8, b3: bv8)
    ensures var w := Word(b0, b1, b2, b3);
            (w & 0x55555555) + ((w >> 1) & 0x55555555) ==
            Word(PairsByte(b0), PairsByte(b1), PairsByte(b2), PairsByte(b3))
  {
  }

  lemma PairsWord(b0: bv8, b1: bv8, b2: bv8, b3: bv8)
    ensures Pairs(Word(b0, b1, b2, b3)) == Word(PairsByte(b0), PairsByte(b1), PairsByte(b2), PairsByte(b3))
  {
    hide Word, Pairs, PairsByte;
    PairsAdd(Word(b0, b1, b2, b3));
    PairsWordByAdd(b0, b1, b2, b3);
  }

  lemma NibblesWord(b0: bv8, b1: bv8, b2: bv8, b3: bv8)
    ensures Nibbles(Word(b0, b1, b2, b3)) ==
            Word(NibblesByte(b0), NibblesByte(b1), NibblesByte(b2), NibblesByte(b3))
  {
  }

  lemma OctetsWord(b0: bv8, b1: bv8, b2: bv8, b3: bv8)
    requires b0 & 0x88 == 0 && b1 & 0x88 == 0 && b2 & 0x88 == 0 && b3 & 0x88 == 0
    ensures Octets(Word(b0, b1, b2, b3)) == Word(OctetsByte(b0), OctetsByte(b1), OctetsByte(b2), OctetsByte(b3))
  {
  }

  lemma CountByteIsBitSum(b: bv8)
    ensures NibblesByte(PairsByte(b)) & 0x88 == 0
    ensures CountByte(b) <= 8
    ensures CountByte(b) as nat == BitsOf(b)
  {
  }

  // The word reduction leaves in every byte lane the bit count of that byte.
  lemma ReduceWord(b0: bv8, b1: bv8, b2: bv8, b3: bv8)
    ensures Reduce(Word(b0, b1, b2, b3)) == Word(CountByte(b0), CountByte(b1), CountByte(b2), CountByte(b3))
  {
    PairsWord(b0, b1, b2, b3);
    NibblesWord(PairsByte(b0), PairsByte(b1), PairsByte(b2), PairsByte(b3));
    CountByteIsBitSum(b0); CountByteIsBitSum(b1); CountByteIsBitSum(b2); CountByteIsBitSum(b3);
    OctetsWord(NibblesByte(PairsByte(b0)), NibblesByte(PairsByte(b1)),
               NibblesByte(PairsByte(b2)), NibblesByte(PairsByte(b3)));
  }

  // ----- Byte lanes as numbers -----

  // Byte and word addition under names of their own, so that sums keep their grouping.
  function Add(x: bv8, y: bv8): bv8 { x + y }
  function AddWords(x: bv32, y: bv32): bv32 { x + y }

  // The number a byte stands for, counted down one by one.
  function Value(x: bv8): nat { if x == 0 then 0 else 1 + Value(x - 1) }

  lemma Increment(x: bv8)
    requires x < 255
    ensures (x + 1) as nat == x as nat + 1
  {
  }

  lemma {:induction false} ValueIsNat(x: bv8)
    ensures Value(x) == x as nat
    decreases x
  {
    if x != 0 {
      ValueIsNat(x - 1);
      Increment(x - 1);
      assert x - 1 + 1 == x;
    }
  }

  lemma AddOneLess(x: bv8, y: bv8)
    requires y != 0 && y <= 255 - x
    ensures Add(x, y) - 1 == Add(x, y - 1) && Add(x, y) != 0 && y - 1 <= 255 - x
  {
  }

  // Byte addition is number addition as long as the byte does not overflow.
  lemma {:induction false} ValueOfSum(x: bv8, y: bv8)
    requires y <= 255 - x
    ensures Value(Add(x, y)) == Value(x) + Value(y)
    decreases y
  {
    if y != 0 {
      AddOneLess(x, y);
      ValueOfSum(x, y - 1);
    }
  }

  lemma CountByteValue(b: bv8)
    ensures CountByte(b) <= 8
    ensures Value(CountByte(b)) == BitsOf(b)
  {
    CountByteIsBitSum(b);
    ValueIsNat(CountByte(b));
  }

  // ----- One block of 28 bytes -----

  function Load(s: seq<bv8>, p: nat): bv32
    requires p + 4 <= |s|
  {
    Word(s[p], s[p + 1], s[p + 2], s[p + 3])
  }

  // The sum of the first k reduced words.
  function BlockSum(s: seq<bv8>, k: nat): bv32
    requires 4 * k <= |s|
  {
    if k == 0 then 0 else AddWords(BlockSum(s, k - 1), Reduce(Load(s, 4 * (k - 1))))
  }

  // Byte lane i of that sum, and the number of bits it should hold.
  function Lane(s: seq<bv8>, k: nat, i: nat): bv8
    requires 4 * k <= |s| && i < 4
  {
    if k == 0 then 0 else Add(Lane(s, k - 1, i), CountByte(s[4 * (k - 1) + i]))
  }

  function LaneBits(s: seq<bv8>, k: nat, i: nat): nat
    requires 4 * k <= |s| && i < 4
  {
    if k == 0 then 0 else LaneBits(s, k - 1, i) + BitsOf(s[4 * (k - 1) + i])
  }

  // 8, 16, ..., 56: what a lane can hold after k words.
  function Bound(k: nat): bv8 {
    if k == 0 then 0 else if k == 1 then 8 else if k == 2 then 16 else if k == 3 then 24
    else if k == 4 then 32 else if k == 5 then 40 else if k == 6 then 48 else 56
  }

  lemma AddBound(a: bv8, c: bv8, bound: bv8)
    requires bound <= 48 && a <= bound && c <= 8
    ensures Add(a, c) <= bound + 8
    ensures c <= 255 - a
  {
  }

  // A lane never overflows, so it holds the exact number of bits.
  lemma {:induction false} LaneExact(s: seq<bv8>, k: nat, i: nat)
    requires 4 * k <= |s| && k <= 7 && i < 4
    ensures Lane(s, k, i) <= Bound(k)
    ensures Value(Lane(s, k, i)) == LaneBits(s, k, i)
  {
    hide Add, CountByte, BitsOf;
    if k != 0 {
      LaneExact(s, k - 1, i);
      var b := s[4 * (k - 1) + i];
      CountByteValue(b);
      AddBound(Lane(s, k - 1, i), CountByte(b), Bound(k - 1));
      ValueOfSum(Lane(s, k - 1, i), CountByte(b));
    }
  }

  lemma PlusWord(a0: bv8, a1: bv8, a2: bv8, a3: bv8, b0: bv8, b1: bv8, b2: bv8, b3: bv8)
    requires a0 <= 48 && a1 <= 48 && a2 <= 48 && a3 <= 48
    requires b0 <= 8 && b1 <= 8 && b2 <= 8 && b3 <= 8
    ensures AddWords(Word(a0, a1, a2, a3), Word(b0, b1, b2, b3)) ==
            Word(Add(a0, b0), Add(a1, b1), Add(a2, b2), Add(a3, b3))
  {
  }

  lemma PlusReduced(a0: bv8, a1: bv8, a2: bv8, a3: bv8, b0: bv8, b1: bv8, b2: bv8, b3: bv8)
    requires a0 <= 48 && a1 <= 48 && a2 <= 48 && a3 <= 48
    ensures AddWords(Word(a0, a1, a2, a3), Reduce(Word(b0, b1, b2, b3))) ==
            Word(Add(a0, CountByte(b0)), Add(a1, CountByte(b1)), Add(a2, CountByte(b2)), Add(a3, CountByte(b3)))
  {
    hide Word, Reduce, CountByte, Add, AddWords, Value, BitsOf;
    ReduceWord(b0, b1, b2, b3);
    CountByteValue(b0); CountByteValue(b1); CountByteValue(b2); CountByteValue(b3);
    PlusWord(a0, a1, a2, a3, CountByte(b0), CountByte(b1), CountByte(b2), CountByte(b3));
  }

  lemma LanesSmall(s: seq<bv8>, k: nat, bound: bv8)
    requires 4 * k <= |s| && k <= 7 && Bound(k) <= bound
    ensures Lane(s, k, 0) <= bound && Lane(s, k, 1) <= bound && Lane(s, k, 2) <= bound && Lane(s, k, 3) <= bound
  {
    hide Lane, LaneBits, Value;
    LaneExact(s, k, 0); LaneExact(s, k, 1); LaneExact(s, k, 2); LaneExact(s, k, 3);
  }

  lemma ZeroWord()
    ensures Word(0, 0, 0, 0) == 0
  {
  }

  // Adding reduced words adds lane by lane: no carry crosses a lane.
  lemma {:induction false} BlockSumLanes(s: seq<bv8>, k: nat)
    requires 4 * k <= |s| && k <= 7
    ensures BlockSum(s, k) == Word(Lane(s, k, 0), Lane(s, k, 1), Lane(s, k, 2), Lane(s, k, 3))
  {
    hide Word, Reduce, CountByte, Add, AddWords;
    if k == 0 {
      ZeroWord();
    } else {
      var p := 4 * (k - 1);
      BlockSumLanes(s, k - 1);
      LanesSmall(s, k - 1, 48);
      PlusReduced(Lane(s, k - 1, 0), Lane(s, k - 1, 1), Lane(s, k - 1, 2), Lane(s, k - 1, 3),
                  s[p], s[p + 1], s[p + 2], s[p + 3]);
    }
  }

  lemma CountNext(s: seq<bv8>, p: nat)
    requires p < |s|
    ensures CountBits(s[..p + 1]) == CountBits(s[..p]) + BitsOf(s[p])
  {
    hide BitsOf;
    assert s[..p + 1][..p] == s[..p];
  }

  lemma CountWord(s: seq<bv8>, p: nat)
    requires p + 4 <= |s|
    ensures CountBits(s[..p + 4]) ==
            CountBits(s[..p]) + BitsOf(s[p]) + BitsOf(s[p + 1]) + BitsOf(s[p + 2]) + BitsOf(s[p + 3])
  {
    hide BitsOf, CountBits;
    CountNext(s, p); CountNext(s, p + 1); CountNext(s, p + 2); CountNext(s, p + 3);
  }

  lemma LaneBitsStep(s: seq<bv8>, k: nat)
    requires 4 * k + 4 <= |s|
    ensures var p := 4 * k;
            LaneBits(s, k + 1, 0) + LaneBits(s, k + 1, 1) + LaneBits(s, k + 1, 2) + LaneBits(s, k + 1, 3) ==
            LaneBits(s, k, 0) + LaneBits(s, k, 1) + LaneBits(s, k, 2) + LaneBits(s, k, 3) +
            BitsOf(s[p]) + BitsOf(s[p + 1]) + BitsOf(s[p + 2]) + BitsOf(s[p + 3])
  {
    hide BitsOf;
  }

  lemma {:induction false} LanesTotal(s: seq<bv8>, k: nat)
    requires 4 * k <= |s|
    ensures LaneBits(s, k, 0) + LaneBits(s, k, 1) + LaneBits(s, k, 2) + LaneBits(s, k, 3) == CountBits(s[..4 * k])
  {
    hide BitsOf, CountBits, LaneBits;
    if k == 0 {
      LanesNone(s);
    } else {
      LanesTotal(s, k - 1);
      LaneBitsStep(s, k - 1);
      CountWord(s, 4 * (k - 1));
    }
  }

  lemma LanesNone(s: seq<bv8>)
    ensures LaneBits(s, 0, 0) == LaneBits(s, 0, 1) == LaneBits(s, 0, 2) == LaneBits(s, 0, 3) == CountBits(s[..0]) == 0
  {
  }

  // ----- The final multiplication -----

  function Spread(w: bv32): bv32 { (w * 0x01010101) >> 24 }

  lemma SpreadLow(a0: bv8, a1: bv8, a2: bv8, a3: bv8)
    requires a0 <= 56 && a1 <= 56 && a2 <= 56 && a3 <= 56
    ensures Word(a0, a1, a2, a3) + (Word(a0, a1, a2, a3) << 8) ==
            Word(a0, Add(a0, a1), Add(a1, a2), Add(a2, a3))
  {
  }

  lemma SpreadHigh(a0: bv8, a1: bv8, a2: bv8, a3: bv8)
    requires a0 <= 56 && a1 <= 56 && a2 <= 56 && a3 <= 56
    ensures (Word(a0, a1, a2, a3) << 16) + (Word(a0, a1, a2, a3) << 24) == Word(0, 0, a0, Add(a0, a1))
  {
  }

  lemma SpreadTop(a0: bv8, a1: bv8, a2: bv8, a3: bv8, b2: bv8, b3: bv8)
    requires a2 <= 112 && b2 <= 56
    ensures TopByte(Word(a0, a1, a2, a3), Word(0, 0, b2, b3)) == Add(a3, b3) as bv32
  {
  }

  function TopByte(x: bv32, y: bv32): bv32 { (x + y) >> 24 }

  lemma SpreadShifts(w: bv32)
    ensures Spread(w) == TopByte(w + (w << 8), (w << 16) + (w << 24))
  {
  }

  lemma AddPair(a: bv8, b: bv8)
    requires a <= 56 && b <= 56
    ensures Add(a, b) <= 112 && b <= 255 - a
  {
  }

  lemma SumOfLanes(a0: bv8, a1: bv8, a2: bv8, a3: bv8)
    requires a0 <= 56 && a1 <= 56 && a2 <= 56 && a3 <= 56
    ensures Value(Add(Add(a2, a3), Add(a0, a1))) == Value(a0) + Value(a1) + Value(a2) + Value(a3)
  {
    hide Add, Value;
    AddPair(a0, a1);
    AddPair(a2, a3);
    ValueOfSum(a0, a1);
    ValueOfSum(a2, a3);
    ValueOfSum(Add(a2, a3), Add(a0, a1));
  }

  lemma WidenNat(x: bv8)
    ensures (x as bv32) as nat == Value(x)
  {
    ValueIsNat(x);
  }

  // At most 56 in a lane and 224 in all: the top byte of the product is the
  // exact sum of the four lanes.
  lemma SpreadSums(a0: bv8, a1: bv8, a2: bv8, a3: bv8)
    requires a0 <= 56 && a1 <= 56 && a2 <= 56 && a3 <= 56
    ensures Spread(Word(a0, a1, a2, a3)) as nat == Value(a0) + Value(a1) + Value(a2) + Value(a3)
  {
    hide Word, Spread, Add, Value, TopByte;
    SpreadShifts(Word(a0, a1, a2, a3));
    SpreadLow(a0, a1, a2, a3);
    SpreadHigh(a0, a1, a2, a3);
    AddPair(a1, a2);
    SpreadTop(a0, Add(a0, a1), Add(a1, a2), Add(a2, a3), a0, Add(a0, a1));
    SumOfLanes(a0, a1, a2, a3);
    WidenNat(Add(Add(a2, a3), Add(a0, a1)));
  }

  lemma BlockIsBitSum(s: seq<bv8>)
    requires |s| == 28
    ensures Spread(BlockSum(s, 7)) as nat == CountBits(s)
  {
    hide Word, Spread, CountBits, BlockSum, Lane, LaneBits, Value;
    BlockSumLanes(s, 7);
    LanesSmall(s, 7, 56);
    LaneExact(s, 7, 0); LaneExact(s, 7, 1); LaneExact(s, 7, 2); LaneExact(s, 7, 3);
    SpreadSums(Lane(s, 7, 0), Lane(s, 7, 1), Lane(s, 7, 2), Lane(s, 7, 3));
    LanesTotal(s, 7);
    assert s[..28] == s;
  }

  // ----- The kernel -----

  // The expression of the source for seven loaded words.
  function BlockCount(w1: bv32, w2: bv32, w3: bv32, w4: bv32, w5: bv32, w6: bv32, w7: bv32): bv32 {
    Spread(AddWords(AddWords(AddWords(AddWords(AddWords(AddWords(
      Reduce(w1), Reduce(w2)), Reduce(w3)), Reduce(w4)), Reduce(w5)), Reduce(w6)), Reduce(w7)))
  }

  lemma AddToZero(x: bv32)
    ensures AddWords(0, x) == x
  {
  }

  lemma BlockCountIsBitSum(s: seq<bv8>, p: nat)
    requires p + 28 <= |s|
    ensures BlockCount(Load(s, p), Load(s, p + 4), Load(s, p + 8), Load(s, p + 12),
                       Load(s, p + 16), Load(s, p + 20), Load(s, p + 24)) as nat == CountBits(s[p..p + 28])
  {
    hide Word, Reduce, AddWords, Spread, CountBits;
    var t := s[p..p + 28];
    BlockIsBitSum(t);
    AddToZero(Reduce(Load(t, 0)));
    BlockUnrolled(t);
    assert forall q | 0 <= q <= 24 :: Load(t, q) == Load(s, p + q);
  }

  lemma BlockUnrolled(t: seq<bv8>)
    requires |t| == 28
    ensures BlockSum(t, 7) == AddWords(AddWords(AddWords(AddWords(AddWords(AddWords(AddWords(
              0, Reduce(Load(t, 0))), Reduce(Load(t, 4))), Reduce(Load(t, 8))), Reduce(Load(t, 12))),
              Reduce(Load(t, 16))), Reduce(Load(t, 20))), Reduce(Load(t, 24)))
  {
    hide Word, Reduce, AddWords;
    assert BlockSum(t, 1) == AddWords(0, Reduce(Load(t, 0)));
    assert BlockSum(t, 2) == AddWords(AddWords(0, Reduce(Load(t, 0))), Reduce(Load(t, 4)));
    assert BlockSum(t, 4) == AddWords(AddWords(BlockSum(t, 2), Reduce(Load(t, 8))), Reduce(Load(t, 12)));
    assert BlockSum(t, 6) == AddWords(AddWords(BlockSum(t, 4), Reduce(Load(t, 16))), Reduce(Load(t, 20)));
  }

  lemma {:induction false} CountConcat(s: seq<bv8>, p: nat, q: nat)
    requires p <= q <= |s|
    ensures CountBits(s[..q]) == CountBits(s[..p]) + CountBits(s[p..q])
    decreases q
  {
    hide BitsOf;
    if p < q {
      CountConcat(s, p, q - 1);
      CountNext(s, q - 1);
      assert s[p..q][..q - 1 - p] == s[p..q - 1];
    }
  }

  // `s` is the string and `addr` the address of its first byte; only the
  // residue of the address matters.
  method RedisPopcount(s: seq<bv8>, addr: nat) returns (bits: nat)
    ensures bits == CountBits(s)
  {
    hide BitsOf, CountBits, BitsInByte, BlockCount, Load;
    bits := 0;
    var p, count := 0, |s|;
    EmptyCount(s);
    while (addr + p) % 4 != 0 && count != 0
      invariant 0 <= count && p + count == |s|
      invariant bits == CountBits(s[..p])
      decreases count
    {
      CountNext(s, p);
      TableIsBitSum(s[p]);
      bits := bits + BitsInByte(s[p]);
      p, count := p + 1, count - 1;
    }
    while count >= 28
      invariant 0 <= count && p + count == |s|
      invariant bits == CountBits(s[..p])
      decreases count
    {
      BlockCountIsBitSum(s, p);
      CountConcat(s, p, p + 28);
      var aux1, aux2, aux3 := Load(s, p), Load(s, p + 4), Load(s, p + 8);
      var aux4, aux5, aux6 := Load(s, p + 12), Load(s, p + 16), Load(s, p + 20);
      var aux7 := Load(s, p + 24);
      bits := bits + BlockCount(aux1, aux2, aux3, aux4, aux5, aux6, aux7) as nat;
      p, count := p + 28, count - 28;
    }
    while count != 0
      invariant 0 <= count && p + count == |s|
      invariant bits == CountBits(s[..p])
      decreases count
    {
      CountNext(s, p);
      TableIsBitSum(s[p]);
      bits := bits + BitsInByte(s[p]);
      p, count := p + 1, count - 1;
    }
    assert s[..p] == s;
  }

  lemma EmptyCount(s: seq<bv8>)
    ensures CountBits(s[..0]) == 0
  {
  }
}
