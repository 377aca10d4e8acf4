/** What the hash slot of a key is as a number (redis-3.0.6/src/cluster.c): the low fourteen
    coefficients of the CRC's remainder, read in binary.  Every slot is the slot of some key. */
module SlotNumber {
  import opened Basics
  import opened Crc16
  import opened Crc16Division
  import opened KeySlot

  // The number whose binary digits below 2^n are the coefficients of a polynomial.
  function NumberOf(p: Poly, n: nat): nat {
    if n == 0 then 0 else NumberOf(p, n - 1) + if n - 1 in p then Power(2, n - 1) else 0
  }

  // The digits of a number, by their masks.
  lemma LowDigits(x: bv16)
    ensures (x & 0x007F) as nat ==
      (if x & 0x0001 != 0 then 1 else 0) + (if x & 0x0002 != 0 then 2 else 0) + (if x & 0x0004 != 0 then 4 else 0) +
      (if x & 0x0008 != 0 then 8 else 0) + (if x & 0x0010 != 0 then 16 else 0) +
      (if x & 0x0020 != 0 then 32 else 0) + (if x & 0x0040 != 0 then 64 else 0)
  {
  }

  lemma HighDigits(x: bv16)
    ensures (x & 0x3FFF) as nat == (x & 0x007F) as nat +
      (if x & 0x0080 != 0 then 128 else 0) + (if x & 0x0100 != 0 then 256 else 0) + (if x & 0x0200 != 0 then 512 else 0) +
      (if x & 0x0400 != 0 then 1024 else 0) + (if x & 0x0800 != 0 then 2048 else 0) + (if x & 0x1000 != 0 then 4096 else 0) +
      (if x & 0x2000 != 0 then 8192 else 0)
  {
  }

  lemma TopDigits(x: bv16)
    ensures x as nat == (x & 0x3FFF) as nat + (if x & 0x4000 != 0 then 16384 else 0) + (if x & 0x8000 != 0 then 32768 else 0)
    ensures (x & 0x3FFF) as nat < SLOTS
  {
  }

  // The same by named parts, out of the solver's sight of bit-vectors.
  function Value(x: bv16): nat { x as nat }
  function Low(x: bv16): nat { (x & 0x007F) as nat }
  function Digit(x: bv16, k: nat, weight: nat): nat { if Has(x, k) then weight else 0 }

  lemma LowByDigits(x: bv16)
    ensures Low(x) == Digit(x, 0, 1) + Digit(x, 1, 2) + Digit(x, 2, 4) + Digit(x, 3, 8) +
      Digit(x, 4, 16) + Digit(x, 5, 32) + Digit(x, 6, 64)
  {
    LowDigits(x);
  }

  lemma SlotByDigits(x: bv16)
    ensures Slot(x) == Low(x) + Digit(x, 7, 128) + Digit(x, 8, 256) + Digit(x, 9, 512) +
      Digit(x, 10, 1024) + Digit(x, 11, 2048) + Digit(x, 12, 4096) + Digit(x, 13, 8192)
  {
    HighDigits(x);
  }

  lemma ValueByDigits(x: bv16)
    ensures Value(x) == Slot(x) + Digit(x, 14, 16384) + Digit(x, 15, 32768) && Slot(x) < SLOTS
  {
    TopDigits(x);
  }

  lemma SlotIsRest(crc: bv16)
    ensures Slot(crc) == Value(crc) % SLOTS
  {
    hide Slot, Value, Has;
    ValueByDigits(crc);
  }

  lemma Seven(p: Poly, n: nat)
    ensures NumberOf(p, n + 7) == NumberOf(p, n) +
      Weight(p, n) + Weight(p, n + 1) + Weight(p, n + 2) + Weight(p, n + 3) +
      Weight(p, n + 4) + Weight(p, n + 5) + Weight(p, n + 6)
  {
    hide Power;
    assert NumberOf(p, n + 2) == NumberOf(p, n) + Weight(p, n) + Weight(p, n + 1);
    assert NumberOf(p, n + 4) == NumberOf(p, n + 2) + Weight(p, n + 2) + Weight(p, n + 3);
    assert NumberOf(p, n + 6) == NumberOf(p, n + 4) + Weight(p, n + 4) + Weight(p, n + 5);
  }

  function Weight(p: Poly, k: nat): nat { if k in p then Power(2, k) else 0 }

  lemma Powers()
    ensures Power(2, 0) == 1 && Power(2, 1) == 2 && Power(2, 2) == 4 && Power(2, 3) == 8 && Power(2, 4) == 16
    ensures Power(2, 5) == 32 && Power(2, 6) == 64 && Power(2, 7) == 128 && Power(2, 8) == 256 && Power(2, 9) == 512
    ensures Power(2, 10) == 1024 && Power(2, 11) == 2048 && Power(2, 12) == 4096 && Power(2, 13) == 8192
  {
  }

  // The slot of a CRC is its polynomial below x^14, read in binary.
  lemma SlotIsNumber(crc: bv16)
    ensures Slot(crc) == NumberOf(PolyOfRegister(crc), 14)
  {
    var p := PolyOfRegister(crc);
    Powers();
    Seven(p, 0);
    Seven(p, 7);
    DigitIsWeight(crc, 0); DigitIsWeight(crc, 1); DigitIsWeight(crc, 2); DigitIsWeight(crc, 3); DigitIsWeight(crc, 4);
    DigitIsWeight(crc, 5); DigitIsWeight(crc, 6); DigitIsWeight(crc, 7); DigitIsWeight(crc, 8); DigitIsWeight(crc, 9);
    DigitIsWeight(crc, 10); DigitIsWeight(crc, 11); DigitIsWeight(crc, 12); DigitIsWeight(crc, 13);
    assert NumberOf(p, 0) == 0;
    hide *;
    LowByDigits(crc);
    SlotByDigits(crc);
  }

  lemma DigitIsWeight(crc: bv16, k: nat)
    requires k < 16
    ensures Digit(crc, k, Power(2, k)) == Weight(PolyOfRegister(crc), k)
  {
    InRegister(crc, k);
    hide Power, Has, PolyOfRegister;
  }

  lemma HashedOnce(key: Key, part: Key)
    requires Hashed(key, part)
    ensures part == HashedPart(key)
  {
    HashedPartIsHashed(key);
    hide HashedPart;
    if tag: Key :| tag != [] && Tagged(key, tag) {
      TagIsHashed(key, part);
    }
  }

  /** The slot of a key: divide the hashed part, times x^16, by x^16 + x^12 + x^5 + 1, and read the coefficients
      of the remainder below x^14 in binary. */
  lemma SlotIsRemainder(key: Key, part: Key, q: Poly, r: Poly)
    requires Hashed(key, part) && Reduced(r) && Divides(PolyOfBits(Bits(part)), q, r)
    ensures KeyHashSlot(key) == NumberOf(r, 14) == Value(Crc(part)) % SLOTS
  {
    HashedOnce(key, part);
    hide Hashed, Divides, Crc, NumberOf, Slot, Value, HashedPart;
    CrcIsTheRemainder(part, q, r);
    SlotIsNumber(Crc(part));
    SlotIsRest(Crc(part));
  }

  // ----- Every slot is used -----

  lemma TableFormula(i: bv8)
    ensures Table(i) == Formula(i)
  {
  }

  function Folded(i: bv8): bv8 { i ^ (i >> 4) }

  function Formula(i: bv8): bv16 {
    var x := Folded(i) as bv16;
    (x << 12) ^ (x << 5) ^ x
  }

  // The table index whose entry has a given low byte.
  function Inverse(b: bv8): bv8 { Folded(b ^ (b << 5)) }

  lemma InverseLow(b: bv8)
    ensures LowByte(Formula(Inverse(b))) == b as bv16
  {
  }

  // A register with a given value.
  lemma EvenOdd(x: bv16)
    requires x as nat < 32768
    ensures (x << 1) as nat == 2 * (x as nat) && ((x << 1) | 1) as nat == 2 * (x as nat) + 1
  {
  }

  lemma {:induction false} RegisterOf(n: nat) returns (r: bv16)
    requires n < 65536
    ensures r as nat == n
  {
    if n == 0 {
      r := 0;
    } else {
      var half := RegisterOf(n / 2);
      EvenOdd(half);
      r := if n % 2 == 0 then half << 1 else (half << 1) | 1;
    }
  }

  lemma CrcStep(s: seq<bv8>, b: bv8)
    ensures Crc(s + [b]) == TableStep(Crc(s), b)
  {
    hide TableStep, Divide, BitsOf;
    assert (s + [b])[..|s|] == s;
    TableStepDivides(Crc(s), b);
    DivideConcat(0, Bits(s), BitsOf(b));
  }

  lemma CrcTwo(a: bv8, b: bv8)
    ensures Crc([a, b]) == TableStep(TableStep(0, a), b)
  {
    CrcNone();
    hide Crc, TableStep;
    CrcStep([], a);
    CrcStep([a], b);
    assert [] + [a] == [a] && [a] + [b] == [a, b];
  }

  lemma CrcNone()
    ensures Crc([]) == 0
  {
  }

  lemma FirstIndex(b: bv8)
    ensures Index(0, b) == b && Xor(0 << 8, Table(b)) == Table(b)
  {
    hide Table;
  }

  function HighByte(x: bv16): bv8 { (x >> 8) as bv8 }
  function LastByte(x: bv16): bv8 { (x & 0xFF) as bv8 }

  // The byte that leads to table entry i.
  function Towards(crc: bv16, i: bv8): bv8 { i ^ HighByte(crc) }

  lemma TowardsIndex(crc: bv16, i: bv8)
    ensures Index(crc, Towards(crc, i)) == i
  {
  }

  // Two registers that agree in both bytes are the same.
  lemma Assemble(r: bv16, t: bv16, c: bv16)
    requires LowByte(t) == LastByte(r) as bv16 && LowByte(c) == HighByte(Xor(r, t)) as bv16
    ensures Xor(c << 8, t) == r
  {
  }

  // Two bytes reach any register.
  lemma AnyCrc(r: bv16) returns (a: bv8, b: bv8)
    ensures Crc([a, b]) == r
  {
    hide Table, Inverse, LowByte, LastByte, HighByte, Xor, Index, Towards, Crc;
    var i := Inverse(LastByte(r));
    EntryLow(LastByte(r));
    var t := Table(i);
    a := Inverse(HighByte(Xor(r, t)));
    EntryLow(HighByte(Xor(r, t)));
    var c := Table(a);
    b := Towards(c, i);
    Assemble(r, t, c);
    FirstIndex(a);
    TowardsIndex(c, i);
    CrcTwo(a, b);
  }

  lemma EntryLow(b: bv8)
    ensures LowByte(Table(Inverse(b))) == b as bv16
  {
    hide Table, Formula, Inverse, LowByte;
    TableFormula(Inverse(b));
    InverseLow(b);
  }

  // A key of two bytes is hashed whole.
  lemma TwoBytesWhole(key: Key)
    requires |key| == 2
    ensures HashedPart(key) == key
  {
    FindRange(key, OPEN, 0);
    var s := Find(key, OPEN, 0);
    if s < |key| { FindRange(key, CLOSE, s + 1); }
    hide Find;
  }

  /** Every slot is the slot of some key. */
  lemma EverySlotUsed(slot: nat) returns (key: Key)
    requires slot < SLOTS
    ensures KeyHashSlot(key) == slot
  {
    var r := RegisterOf(slot);
    var a, b := AnyCrc(r);
    key := [a, b];
    TwoBytesWhole(key);
    SlotIsRest(r);
    assert Value(r) == slot;
    hide Crc, Slot, Value, HashedPart;
  }

  // The digits "123456789" and the CRC given for them in the source, step by step.
  lemma CheckSteps()
    ensures TableStep(0x0000, 0x31) == 0x2672
    ensures TableStep(0x2672, 0x32) == 0x20B5
    ensures TableStep(0x20B5, 0x33) == 0x9752
    ensures TableStep(0x9752, 0x34) == 0xD789
    ensures TableStep(0xD789, 0x35) == 0x546C
    ensures TableStep(0x546C, 0x36) == 0x20E4
    ensures TableStep(0x20E4, 0x37) == 0x86D6
    ensures TableStep(0x86D6, 0x38) == 0x9015
    ensures TableStep(0x9015, 0x39) == 0x31C3
  {
  }

  lemma CheckValue()
    ensures Crc([0x31, 0x32, 0x33, 0x34, 0x35, 0x36, 0x37, 0x38, 0x39]) == 0x31C3
  {
    CheckSteps();
    CrcNone();
    hide Crc, TableStep;
    var all: Key := [0x31, 0x32, 0x33, 0x34, 0x35, 0x36, 0x37, 0x38, 0x39];
    for k := 0 to 9
      invariant Crc(all[..k]) == CheckAt(k)
    {
      CrcStep(all[..k], all[k]);
      assert all[..k] + [all[k]] == all[..k + 1];
    }
    assert all[..9] == all;
  }

  function CheckAt(k: nat): bv16 {
    if k == 0 then 0 else if k == 1 then 0x2672 else if k == 2 then 0x20B5 else if k == 3 then 0x9752 else if k == 4 then 0xD789
    else if k == 5 then 0x546C else if k == 6 then 0x20E4 else if k == 7 then 0x86D6 else if k == 8 then 0x9015 else 0x31C3
  }
}
