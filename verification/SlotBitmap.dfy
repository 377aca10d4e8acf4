/** The slot bitmaps of cluster nodes (redis-3.0.6/src/cluster.c): bit `pos` is
    bit `pos & 7`, least significant first, of byte `pos / 8`. */
module SlotBitmap {

  function Mask(bit: nat): bv8
    requires bit < 8
  {
    if bit == 0 then 0x01 else if bit == 1 then 0x02 else if bit == 2 then 0x04 else if bit == 3 then 0x08
    else if bit == 4 then 0x10 else if bit == 5 then 0x20 else if bit == 6 then 0x40 else 0x80
  }

  predicate BitOf(b: bv8, bit: nat)
    requires bit < 8
  {
    b & Mask(bit) != 0
  }

  predicate Bit(bitmap: seq<bv8>, pos: nat)
    requires pos < 8 * |bitmap|
  {
    BitOf(bitmap[pos / 8], pos % 8)
  }

  // Bits are counted from the least significant one.
  lemma LowestFirst(b: bv8, bit: nat)
    requires bit < 8
    ensures BitOf(b, bit) <==> (b >> bit) & 1 == 1
  {
  }

  // The positions of the bits that are set.
  ghost function Bits(bitmap: seq<bv8>): set<nat> {
    set pos | 0 <= pos < 8 * |bitmap| && Bit(bitmap, pos)
  }

  function With(b: bv8, bit: nat): bv8
    requires bit < 8
  {
    b | Mask(bit)
  }

  function Without(b: bv8, bit: nat): bv8
    requires bit < 8
  {
    b & !Mask(bit)
  }

  lemma ByteSet(b: bv8, bit: nat, other: nat)
    requires bit < 8 && other < 8
    ensures BitOf(With(b, bit), other) == (other == bit || BitOf(b, other))
  {
  }

  lemma ByteCleared(b: bv8, bit: nat, other: nat)
    requires bit < 8 && other < 8
    ensures BitOf(Without(b, bit), other) == (other != bit && BitOf(b, other))
  {
  }

  lemma SamePlace(p: nat, q: nat)
    ensures p / 8 == q / 8 && p % 8 == q % 8 <==> p == q
  {
  }

  lemma BitsSet(bitmap: seq<bv8>, pos: nat)
    requires pos < 8 * |bitmap|
    ensures Bits(bitmap[pos / 8 := With(bitmap[pos / 8], pos % 8)]) == Bits(bitmap) + {pos}
  {
    hide With, BitOf;
    var after := bitmap[pos / 8 := With(bitmap[pos / 8], pos % 8)];
    forall p | 0 <= p < 8 * |bitmap| ensures Bit(after, p) == (p == pos || Bit(bitmap, p)) {
      ByteSet(bitmap[pos / 8], pos % 8, p % 8);
      SamePlace(p, pos);
    }
  }

  lemma BitsCleared(bitmap: seq<bv8>, pos: nat)
    requires pos < 8 * |bitmap|
    ensures Bits(bitmap[pos / 8 := Without(bitmap[pos / 8], pos % 8)]) == Bits(bitmap) - {pos}
  {
    hide Without, BitOf;
    var after := bitmap[pos / 8 := Without(bitmap[pos / 8], pos % 8)];
    forall p | 0 <= p < 8 * |bitmap| ensures Bit(after, p) == (p != pos && Bit(bitmap, p)) {
      ByteCleared(bitmap[pos / 8], pos % 8, p % 8);
      SamePlace(p, pos);
    }
  }

  method TestBit(bitmap: array<bv8>, pos: nat) returns (on: bool)
    requires pos < 8 * bitmap.Length
    ensures on == (pos in Bits(bitmap[..]))
    ensures on == ((bitmap[pos / 8] >> (pos % 8)) & 1 == 1)
  {
    LowestFirst(bitmap[pos / 8], pos % 8);
    on := bitmap[pos / 8] & Mask(pos % 8) != 0;
  }

  method SetBit(bitmap: array<bv8>, pos: nat)
    requires pos < 8 * bitmap.Length
    modifies bitmap
    ensures Bits(bitmap[..]) == old(Bits(bitmap[..])) + {pos}
  {
    hide Bits, Mask;
    ghost var was := bitmap[..];
    BitsSet(was, pos);
    bitmap[pos / 8] := bitmap[pos / 8] | Mask(pos % 8);
    assert bitmap[..] == was[pos / 8 := With(was[pos / 8], pos % 8)];
  }

  method ClearBit(bitmap: array<bv8>, pos: nat)
    requires pos < 8 * bitmap.Length
    modifies bitmap
    ensures Bits(bitmap[..]) == old(Bits(bitmap[..])) - {pos}
  {
    hide Bits, Mask;
    ghost var was := bitmap[..];
    BitsCleared(was, pos);
    bitmap[pos / 8] := bitmap[pos / 8] & !Mask(pos % 8);
    assert bitmap[..] == was[pos / 8 := Without(was[pos / 8], pos % 8)];
  }
}
