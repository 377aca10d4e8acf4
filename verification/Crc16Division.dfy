/** What the remainder of `Crc16` means: polynomial division over GF(2).

    A polynomial is the finite set of its exponents, addition is symmetric
    difference, and multiplication by x^k adds k to every exponent. */
module Crc16Division {
  import opened Crc16

  type Poly = set<nat>

  function Plus(p: Poly, q: Poly): Poly { (p - q) + (q - p) }

  function Shift(p: Poly, k: nat): Poly { set e | e in p :: e + k }

  // Multiplication by the generator x^16 + x^12 + x^5 + 1.
  function TimesGenerator(q: Poly): Poly {
    Plus(Plus(Shift(q, 16), Shift(q, 12)), Plus(Shift(q, 5), q))
  }

  function Unit(bit: bool, e: nat): Poly { if bit then {e} else {} }

  // The polynomial of a bit string, most significant coefficient first.
  function PolyOfBits(bits: seq<bool>): Poly {
    if bits == [] then {}
    else Plus(Shift(PolyOfBits(bits[..|bits| - 1]), 1), Unit(bits[|bits| - 1], 0))
  }

  // ----- The register as a polynomial of degree below 16 -----

  function Mask(i: nat): bv16 {
    if i == 0 then 0x0001 else if i == 1 then 0x0002 else if i == 2 then 0x0004 else if i == 3 then 0x0008
    else if i == 4 then 0x0010 else if i == 5 then 0x0020 else if i == 6 then 0x0040 else if i == 7 then 0x0080
    else if i == 8 then 0x0100 else if i == 9 then 0x0200 else if i == 10 then 0x0400 else if i == 11 then 0x0800
    else if i == 12 then 0x1000 else if i == 13 then 0x2000 else if i == 14 then 0x4000 else 0x8000
  }

  function And(x: bv16, y: bv16): bv16 { x & y }

  predicate Has(r: bv16, i: nat) { And(r, Mask(i)) != 0 }

  function PolyOfRegister(r: bv16): Poly { set i | 0 <= i < 16 && Has(r, i) }

  lemma SingleBit(r: bv16, i: nat)
    ensures Mask(i) != 0
    ensures And(r, Mask(i)) == 0 || And(r, Mask(i)) == Mask(i)
  {
  }

  lemma MaskXor(x: bv16, y: bv16, m: bv16)
    ensures And(Xor(x, y), m) == Xor(And(x, m), And(y, m))
  {
  }

  lemma XorSelf(m: bv16)
    ensures Xor(0, 0) == 0 && Xor(m, m) == 0 && Xor(0, m) == m && Xor(m, 0) == m
  {
  }

  lemma HasXor(x: bv16, y: bv16, i: nat)
    ensures Has(Xor(x, y), i) == (Has(x, i) != Has(y, i))
  {
    hide Xor, And, Mask;
    var m := Mask(i);
    MaskXor(x, y, m);
    SingleBit(x, i);
    SingleBit(y, i);
    XorSelf(m);
  }

  lemma DoubleIsEven(r: bv16)
    ensures And(Double(r), Mask(0)) == 0
  {
  }

  lemma MaskDouble(i: nat)
    requires 0 < i < 16
    ensures Mask(i) == Double(Mask(i - 1))
    ensures Double(0) == 0
  {
  }

  lemma DoubleAnd(r: bv16, m: bv16)
    ensures And(Double(r), Double(m)) == Double(And(r, m))
  {
  }

  lemma HasDouble(r: bv16, i: nat)
    requires i < 16
    ensures Has(Double(r), i) == (i > 0 && Has(r, i - 1))
  {
    hide Double, And, Mask;
    if i == 0 {
      DoubleIsEven(r);
    } else {
      MaskDouble(i);
      DoubleAnd(r, Mask(i - 1));
      SingleBit(r, i - 1);
      SingleBit(r, i);
    }
  }

  lemma HasGenerator(i: nat)
    requires i < 16
    ensures Has(0x1021, i) == (i == 12 || i == 5 || i == 0)
  {
  }

  lemma HasPlace(bit: bool, i: nat)
    requires i < 16
    ensures Has(Place(bit, 0), i) == (bit && i == 15)
  {
  }

  lemma HasTop(r: bv16)
    ensures TopSet(r) == Has(r, 15)
  {
  }

  // Bit i of the register after one division step.
  lemma HasDivStep(r: bv16, bit: bool, i: nat)
    requires i < 16
    ensures Has(DivStep(r, bit), i) ==
            ((i > 0 && Has(r, i - 1)) != ((Has(r, 15) != bit) && (i == 12 || i == 5 || i == 0)))
  {
    hide Has, Xor, Double, Place, TopSet;
    var u := Xor(r, Place(bit, 0));
    HasXor(r, Place(bit, 0), 15);
    HasPlace(bit, 15);
    HasTop(u);
    HasDouble(u, i);
    if i > 0 {
      HasXor(r, Place(bit, 0), i - 1);
      HasPlace(bit, i - 1);
    }
    HasXor(Double(u), 0x1021, i);
    HasGenerator(i);
  }

  // ----- Algebra of exponent sets -----

  lemma InPlus(p: Poly, q: Poly, e: nat)
    ensures e in Plus(p, q) <==> ((e in p) != (e in q))
  {
  }

  lemma InShift(p: Poly, k: nat, e: nat)
    ensures e in Shift(p, k) <==> e >= k && e - k in p
  {
    if e >= k && e - k in p {
      assert (e - k) + k == e;
    }
  }

  lemma InTimesGenerator(q: Poly, e: nat)
    ensures e in TimesGenerator(q) <==>
            (((e >= 16 && e - 16 in q) != (e >= 12 && e - 12 in q)) != ((e >= 5 && e - 5 in q) != (e in q)))
  {
    hide Plus, Shift;
    InPlus(Plus(Shift(q, 16), Shift(q, 12)), Plus(Shift(q, 5), q), e);
    InPlus(Shift(q, 16), Shift(q, 12), e);
    InPlus(Shift(q, 5), q, e);
    InShift(q, 16, e); InShift(q, 12, e); InShift(q, 5, e);
  }

  // ----- The division theorem -----

  // The quotient that the division steps build up.
  function Quotient(bits: seq<bool>): Poly {
    if bits == [] then {}
    else
      var front := bits[..|bits| - 1];
      Plus(Shift(Quotient(front), 1), Unit(Has(Divide(0, front), 15) != bits[|bits| - 1], 0))
  }

  predicate Divides(message: Poly, quotient: Poly, remainder: Poly) {
    Shift(message, 16) == Plus(TimesGenerator(quotient), remainder)
  }

  lemma InUnit(bit: bool, k: nat, e: nat)
    ensures e in Unit(bit, k) <==> bit && e == k
  {
  }

  lemma InRegister(r: bv16, e: nat)
    ensures e in PolyOfRegister(r) <==> e < 16 && Has(r, e)
  {
  }

  // The membership form of the division equation at one exponent.
  predicate EquationAt(message: Poly, q: Poly, r: bv16, e: nat) {
    (e >= 16 && e - 16 in message) ==
    ((((e >= 16 && e - 16 in q) != (e >= 12 && e - 12 in q)) != ((e >= 5 && e - 5 in q) != (e in q))) !=
     (e < 16 && Has(r, e)))
  }

  lemma EquationIff(message: Poly, q: Poly, r: bv16, e: nat)
    ensures EquationAt(message, q, r, e) <==>
            (e in Shift(message, 16) <==> e in Plus(TimesGenerator(q), PolyOfRegister(r)))
  {
    hide Plus, Shift, TimesGenerator, Has, PolyOfRegister;
    InShift(message, 16, e);
    InPlus(TimesGenerator(q), PolyOfRegister(r), e);
    InTimesGenerator(q, e);
    InRegister(r, e);
  }

  lemma EquationStep(message: Poly, q: Poly, r: bv16, bit: bool, e: nat)
    requires e == 0 || EquationAt(message, q, r, e - 1)
    ensures var carry := Has(r, 15) != bit;
            EquationAt(Plus(Shift(message, 1), Unit(bit, 0)), Plus(Shift(q, 1), Unit(carry, 0)), DivStep(r, bit), e)
  {
    hide Plus, Shift, Unit, Has, DivStep;
    var carry := Has(r, 15) != bit;
    if e < 16 { HasDivStep(r, bit, e); }
    if e >= 16 { InNext(message, bit, e - 16); InNext(q, carry, e - 16); }
    if e >= 12 { InNext(q, carry, e - 12); }
    if e >= 5 { InNext(q, carry, e - 5); }
    InNext(q, carry, e);
  }

  lemma InNext(p: Poly, bit: bool, e: nat)
    ensures e in Plus(Shift(p, 1), Unit(bit, 0)) <==> (if e == 0 then bit else e - 1 in p)
  {
    hide Plus, Shift, Unit;
    InPlus(Shift(p, 1), Unit(bit, 0), e);
    InShift(p, 1, e);
    InUnit(bit, 0, e);
  }

  lemma {:induction false} EquationHolds(bits: seq<bool>, e: nat)
    ensures EquationAt(PolyOfBits(bits), Quotient(bits), Divide(0, bits), e)
  {
    hide Plus, Shift, Unit, Has, DivStep;
    if bits == [] {
      HasNothing(e);
    } else {
      var front := bits[..|bits| - 1];
      if e != 0 { EquationHolds(front, e - 1); }
      EquationStep(PolyOfBits(front), Quotient(front), Divide(0, front), bits[|bits| - 1], e);
    }
  }

  lemma HasNothing(i: nat)
    ensures !Has(0, i)
  {
  }

  // The register is the remainder of message * x^16 by the generator.
  lemma RegisterIsRemainder(bits: seq<bool>)
    ensures Divides(PolyOfBits(bits), Quotient(bits), PolyOfRegister(Divide(0, bits)))
  {
    hide Plus, Shift, TimesGenerator, PolyOfRegister, EquationAt;
    var m, q, r := PolyOfBits(bits), Quotient(bits), Divide(0, bits);
    forall e: nat
      ensures e in Shift(m, 16) <==> e in Plus(TimesGenerator(q), PolyOfRegister(r))
    {
      EquationHolds(bits, e);
      EquationIff(m, q, r, e);
    }
  }

  // ----- The remainder is unique -----

  predicate Reduced(r: Poly) { forall e | e in r :: e < 16 }

  lemma TimesGeneratorPlus(p: Poly, q: Poly)
    ensures TimesGenerator(Plus(p, q)) == Plus(TimesGenerator(p), TimesGenerator(q))
  {
    hide Plus, TimesGenerator;
    forall e: nat
      ensures e in TimesGenerator(Plus(p, q)) <==> e in Plus(TimesGenerator(p), TimesGenerator(q))
    {
      InTimesGenerator(Plus(p, q), e);
      InPlus(TimesGenerator(p), TimesGenerator(q), e);
      InTimesGenerator(p, e);
      InTimesGenerator(q, e);
      InPlus(p, q, e);
      if e >= 5 { InPlus(p, q, e - 5); }
      if e >= 12 { InPlus(p, q, e - 12); }
      if e >= 16 { InPlus(p, q, e - 16); }
    }
  }

  lemma {:induction false} Degree(p: Poly) returns (d: nat)
    requires p != {}
    ensures d in p && forall e | e in p :: e <= d
    decreases |p|
  {
    var x :| x in p;
    if p == {x} {
      d := x;
    } else {
      assert p == (p - {x}) + {x};
      d := Degree(p - {x});
      if d < x { d := x; }
    }
  }

  // A nonzero multiple of the generator has degree at least 16.
  lemma MultipleNotReduced(q: Poly)
    requires q != {}
    ensures !Reduced(TimesGenerator(q))
  {
    hide TimesGenerator;
    var d := Degree(q);
    InTimesGenerator(q, d + 16);
    assert d + 16 in TimesGenerator(q);
  }

  lemma RemainderUnique(m: Poly, q: Poly, q': Poly, r: Poly, r': Poly)
    requires Reduced(r) && Reduced(r')
    requires Divides(m, q, r) && Divides(m, q', r')
    ensures q == q' && r == r'
  {
    hide TimesGenerator, Shift;
    TimesGeneratorPlus(q, q');
    forall e: nat
      ensures e in TimesGenerator(Plus(q, q')) <==> e in Plus(r, r')
    {
      InPlus(TimesGenerator(q), r, e);
      InPlus(TimesGenerator(q'), r', e);
    }
    if Plus(q, q') != {} {
      MultipleNotReduced(Plus(q, q'));
    }
  }

  // The table-driven CRC is the one remainder of degree below 16.
  lemma CrcIsTheRemainder(s: seq<bv8>, q: Poly, r: Poly)
    requires Reduced(r) && Divides(PolyOfBits(Bits(s)), q, r)
    ensures r == PolyOfRegister(Crc(s))
  {
    hide Divides;
    RegisterIsRemainder(Bits(s));
    RemainderUnique(PolyOfBits(Bits(s)), q, Quotient(Bits(s)), r, PolyOfRegister(Crc(s)));
  }
}
