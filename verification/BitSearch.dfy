/** Finding the first set or clear bit: `redisBitpos` (redis-3.0.6/src/bitops.c).

    Bits are numbered from the most significant bit of the first byte.  The
    kernel skips whole bytes up to an aligned address, then whole 64-bit words,
    and scans one last word that it assembles byte by byte, padded with zeros. */
module BitSearch {

  // ----- The specification: one bit at a time -----

  function Mask(k: nat): bv8 {
    if k == 0 then 0x80 else if k == 1 then 0x40 else if k == 2 then 0x20 else if k == 3 then 0x10
    else if k == 4 then 0x08 else if k == 5 then 0x04 else if k == 6 then 0x02 else 0x01
  }

  predicate Has(b: bv8, k: nat) { b & Mask(k) != 0 }

  predicate BitAt(s: seq<bv8>, i: nat)
    requires i < 8 * |s|
  {
    Has(s[i / 8], i % 8)
  }

  // No bit of s before position n equals `bit`.
  ghost predicate NoneBefore(s: seq<bv8>, bit: bool, n: nat)
    requires n <= 8 * |s|
  {
    forall i: nat | i < n :: BitAt(s, i) != bit
  }

  // What the caller is promised.
  ghost predicate IsFirst(s: seq<bv8>, bit: bool, pos: int) {
    if 0 <= pos < 8 * |s| then BitAt(s, pos) == bit && NoneBefore(s, bit, pos)
    else NoneBefore(s, bit, 8 * |s|) && pos == (if bit then -1 else 8 * |s|)
  }

  // ----- Words -----

  // The byte m at byte position k of a word, position 0 being the most significant.
  function PlaceByte(m: bv8, k: nat): bv64 {
    if k == 0 then (m as bv64) << 56 else if k == 1 then (m as bv64) << 48 else if k == 2 then (m as bv64) << 40
    else if k == 3 then (m as bv64) << 32 else if k == 4 then (m as bv64) << 24 else if k == 5 then (m as bv64) << 16
    else if k == 6 then (m as bv64) << 8 else m as bv64
  }

  // The byte at position k.
  function ByteOf(w: bv64, k: nat): bv8 {
    ((if k == 0 then w >> 56 else if k == 1 then w >> 48 else if k == 2 then w >> 40 else if k == 3 then w >> 32
      else if k == 4 then w >> 24 else if k == 5 then w >> 16 else if k == 6 then w >> 8 else w) & 0xFF) as bv8
  }

  // One step of loading the last word.
  function Append(w: bv64, b: bv8): bv64 { (w << 8) | (b as bv64) }

  // A word with the one bit i set.
  function One(i: nat): bv64 { if i < 64 then PlaceByte(Mask(i % 8), i / 8) else 0 }

  function And(x: bv64, y: bv64): bv64 { x & y }
  function Half(w: bv64): bv64 { w >> 1 }

  lemma HalfByte(m: bv8, k: nat)
    requires m & 1 == 0
    ensures Half(PlaceByte(m, k)) == PlaceByte(m >> 1, k)
  {
  }

  lemma HalfMask(r: nat)
    requires r < 7
    ensures Mask(r) & 1 == 0 && Mask(r) >> 1 == Mask(r + 1)
  {
  }

  lemma NextByte(k: nat)
    ensures k < 7 ==> Half(PlaceByte(Mask(7), k)) == PlaceByte(Mask(0), k + 1)
    ensures Half(PlaceByte(Mask(7), 7)) == 0
  {
  }

  lemma OneNext(i: nat)
    requires i < 64
    ensures One(i + 1) == Half(One(i))
  {
    hide PlaceByte, Half, Mask;
    var q, r := i / 8, i % 8;
    NextByte(q);
    if r < 7 {
      assert (i + 1) / 8 == q && (i + 1) % 8 == r + 1;
      HalfMask(r);
      HalfByte(Mask(r), q);
    } else if q < 7 {
      assert (i + 1) / 8 == q + 1 && (i + 1) % 8 == 0;
    }
  }

  lemma AndPlace(w: bv64, m: bv8, k: nat)
    ensures (And(w, PlaceByte(m, k)) != 0) == (ByteOf(w, k) & m != 0)
  {
  }

  lemma OneNonzero(i: nat)
    requires i < 64
    ensures One(i) != 0
  {
  }

  // Testing bit i of a word tests the bit in its byte.
  lemma AndOne(w: bv64, i: nat)
    requires i < 64
    ensures (And(w, One(i)) != 0) == Has(ByteOf(w, i / 8), i % 8)
  {
    hide PlaceByte, And, Mask, ByteOf;
    AndPlace(w, Mask(i % 8), i / 8);
  }

  lemma ByteOfAppend(w: bv64, b: bv8, k: nat)
    requires k < 8
    ensures ByteOf(Append(w, b), k) == (if k == 7 then b else ByteOf(w, k + 1))
  {
  }

  lemma ByteOfZero(k: nat)
    ensures ByteOf(0, k) == 0
  {
  }

  lemma ZeroBytes(w: bv64)
    requires ByteOf(w, 0) == 0 && ByteOf(w, 1) == 0 && ByteOf(w, 2) == 0 && ByteOf(w, 3) == 0
    requires ByteOf(w, 4) == 0 && ByteOf(w, 5) == 0 && ByteOf(w, 6) == 0 && ByteOf(w, 7) == 0
    ensures w == 0
  {
  }

  // The eight bytes at an address, read as one word of memory.
  function Load(s: seq<bv8>, p: nat): bv64
    requires p + 8 <= |s|
  {
    Word(s[p], s[p + 1], s[p + 2], s[p + 3], s[p + 4], s[p + 5], s[p + 6], s[p + 7])
  }

  function Word(b0: bv8, b1: bv8, b2: bv8, b3: bv8, b4: bv8, b5: bv8, b6: bv8, b7: bv8): bv64 {
    ((b7 as bv64) << 56) | ((b6 as bv64) << 48) | ((b5 as bv64) << 40) | ((b4 as bv64) << 32) |
    ((b3 as bv64) << 24) | ((b2 as bv64) << 16) | ((b1 as bv64) << 8) | (b0 as bv64)
  }

  function SkipByte(bit: bool): bv8 { if bit then 0 else 0xFF }
  function SkipWord(bit: bool): bv64 { if bit then 0 else 0xFFFF_FFFF_FFFF_FFFF }

  lemma SkipWordBytes(bit: bool, b0: bv8, b1: bv8, b2: bv8, b3: bv8, b4: bv8, b5: bv8, b6: bv8, b7: bv8)
    ensures Word(b0, b1, b2, b3, b4, b5, b6, b7) == SkipWord(bit) <==>
            var v := SkipByte(bit);
            b0 == v && b1 == v && b2 == v && b3 == v && b4 == v && b5 == v && b6 == v && b7 == v
  {
  }

  // A byte is the skip value exactly when none of its bits is the wanted one.
  lemma SkipByteBits(bit: bool, b: bv8)
    ensures b == SkipByte(bit) <==>
            Has(b, 0) != bit && Has(b, 1) != bit && Has(b, 2) != bit && Has(b, 3) != bit &&
            Has(b, 4) != bit && Has(b, 5) != bit && Has(b, 6) != bit && Has(b, 7) != bit
  {
  }

  // ----- Gluing words to positions -----

  // A byte of the last word: what is left of s, then zeros.
  function Padded(s: seq<bv8>, c: nat, k: nat): bv8 { if c + k < |s| then s[c + k] else 0 }

  lemma SkipByteNone(s: seq<bv8>, bit: bool, c: nat)
    requires c < |s| && NoneBefore(s, bit, 8 * c) && s[c] == SkipByte(bit)
    ensures NoneBefore(s, bit, 8 * (c + 1))
  {
    hide Has, SkipByte;
    SkipByteBits(bit, s[c]);
    forall i: nat | i < 8 * (c + 1) ensures BitAt(s, i) != bit {
      if i >= 8 * c {
        assert i / 8 == c;
        assert i % 8 == i - 8 * c;
      }
    }
  }

  lemma {:induction false} SkipBytesNone(s: seq<bv8>, bit: bool, c: nat, n: nat)
    requires c <= n <= |s| && NoneBefore(s, bit, 8 * c)
    requires forall j | c <= j < n :: s[j] == SkipByte(bit)
    ensures NoneBefore(s, bit, 8 * n)
    decreases n - c
  {
    hide NoneBefore, SkipByte;
    if c < n {
      SkipByteNone(s, bit, c);
      SkipBytesNone(s, bit, c + 1, n);
    }
  }

  lemma LoadSkip(s: seq<bv8>, bit: bool, p: nat)
    requires p + 8 <= |s|
    ensures Load(s, p) == SkipWord(bit) <==> forall j | p <= j < p + 8 :: s[j] == SkipByte(bit)
  {
    hide Word, SkipWord, SkipByte;
    SkipWordBytes(bit, s[p], s[p + 1], s[p + 2], s[p + 3], s[p + 4], s[p + 5], s[p + 6], s[p + 7]);
    if Load(s, p) == SkipWord(bit) {
      forall j | p <= j < p + 8 ensures s[j] == SkipByte(bit) {
        assert j == p || j == p + 1 || j == p + 2 || j == p + 3 || j == p + 4 || j == p + 5 || j == p + 6 || j == p + 7;
      }
    }
  }

  // The last word holds the padded bytes, and is not a word the skip loop would have taken.
  ghost predicate LastWord(s: seq<bv8>, bit: bool, c: nat, word: bv64) {
    && c <= |s|
    && (forall k: nat | k < 8 :: ByteOf(word, k) == Padded(s, c, k))
    && (c + 8 <= |s| ==> exists k: nat :: k < 8 && Padded(s, c, k) != SkipByte(bit))
  }

  lemma ScanHit(s: seq<bv8>, bit: bool, c: nat, word: bv64, i: nat)
    requires LastWord(s, bit, c, word) && NoneBefore(s, bit, 8 * c) && i < 64
    requires forall q: nat | q < i :: Has(Padded(s, c, q / 8), q % 8) != bit
    requires Has(Padded(s, c, i / 8), i % 8) == bit
    ensures IsFirst(s, bit, 8 * c + i)
  {
    hide Has, ByteOf, SkipByte;
    PadHasNoBit();
    if 8 * c + i <= 8 * |s| {
      forall j: nat | j < 8 * c + i ensures BitAt(s, j) != bit {
        if j >= 8 * c {
          var q := j - 8 * c;
          assert Has(Padded(s, c, q / 8), q % 8) != bit;
          assert j / 8 == c + q / 8 && j % 8 == q % 8;
        }
      }
    }
    if 8 * c + i < 8 * |s| {
      assert (8 * c + i) / 8 == c + i / 8 && (8 * c + i) % 8 == i % 8;
    } else {
      var q := 8 * (|s| - c);
      assert q / 8 == |s| - c && q % 8 == 0;
      assert Padded(s, c, q / 8) == 0 && !Has(Padded(s, c, q / 8), q % 8);
      assert c + i / 8 >= |s|;
      assert Padded(s, c, i / 8) == 0;
    }
  }

  lemma PadHasNoBit()
    ensures forall k: nat :: !Has(0, k)
  {
  }

  // A zero last word means that no set bit is left.
  lemma ZeroWordNone(s: seq<bv8>, c: nat, word: bv64)
    requires LastWord(s, true, c, word) && NoneBefore(s, true, 8 * c) && word == 0
    ensures NoneBefore(s, true, 8 * |s|)
  {
    hide ByteOf, NoneBefore;
    forall k: nat | k < 8 ensures Padded(s, c, k) == 0 {
      ByteOfZero(k);
    }
    forall j | c <= j < |s| ensures s[j] == SkipByte(true) {
      assert j - c < 8;
      assert Padded(s, c, j - c) == 0;
    }
    SkipBytesNone(s, true, c, |s|);
  }

  // Some bit of the last word is the wanted one: the scan cannot run off its end.
  lemma ScanFinds(s: seq<bv8>, bit: bool, c: nat, word: bv64)
    requires LastWord(s, bit, c, word) && (bit ==> word != 0)
    ensures exists i: nat :: i < 64 && Has(Padded(s, c, i / 8), i % 8) == bit
  {
    hide ByteOf, Has;
    assert c + 8 > |s| ==> Padded(s, c, 7) == 0;
    if forall i: nat | i < 64 :: Has(Padded(s, c, i / 8), i % 8) != bit {
      forall k: nat | k < 8 ensures Padded(s, c, k) == SkipByte(bit) {
        var b := Padded(s, c, k);
        forall r: nat | r < 8 ensures Has(b, r) != bit {
          var i := 8 * k + r;
          assert i / 8 == k && i % 8 == r;
          assert Has(Padded(s, c, i / 8), i % 8) != bit;
        }
        SkipByteBits(bit, b);
      }
      if bit {
        assert ByteOf(word, 0) == 0 && ByteOf(word, 1) == 0 && ByteOf(word, 2) == 0 && ByteOf(word, 3) == 0;
        ZeroBytes(word);
      }
    }
  }

  // ----- The kernel -----

  method LoadPadded(s: seq<bv8>, c: nat) returns (word: bv64)
    requires c <= |s|
    ensures forall k: nat | k < 8 :: ByteOf(word, k) == Padded(s, c, k)
  {
    hide ByteOf, Append;
    word := 0;
    var p, count := c, |s| - c;
    for j := 0 to 8
      invariant c <= p <= |s| && p + count == |s|
      invariant p == if c + j <= |s| then c + j else |s|
      invariant forall k: nat | 8 - j <= k < 8 :: ByteOf(word, k) == Padded(s, c, k - (8 - j))
    {
      ghost var old_word := word;
      var b := if count != 0 then s[p] else 0;
      word := Append(word, b);
      forall k: nat | 8 - (j + 1) <= k < 8 ensures ByteOf(word, k) == Padded(s, c, k - (8 - (j + 1))) {
        ByteOfAppend(old_word, b, k);
      }
      if count != 0 { p, count := p + 1, count - 1; }
    }
  }

  method RedisBitpos(s: seq<bv8>, addr: nat, bit: bool) returns (pos: int)
    ensures IsFirst(s, bit, pos)
  {
    hide Has, Load, ByteOf, One, And, Half, NoneBefore;
    var c, count := 0, |s|;
    pos := 0;
    assert NoneBefore(s, bit, 0) by { NoneBeforeStart(s, bit); }
    while (addr + c) % 8 != 0 && count != 0
      invariant 0 <= count && c + count == |s| && pos == 8 * c
      invariant NoneBefore(s, bit, 8 * c)
      decreases count
    {
      if s[c] != SkipByte(bit) { break; }
      SkipByteNone(s, bit, c);
      c, count, pos := c + 1, count - 1, pos + 8;
    }
    while count >= 8
      invariant 0 <= count && c + count == |s| && pos == 8 * c
      invariant NoneBefore(s, bit, 8 * c)
      decreases count
    {
      LoadSkip(s, bit, c);
      if Load(s, c) != SkipWord(bit) { break; }
      SkipBytesNone(s, bit, c, c + 8);
      c, count, pos := c + 8, count - 8, pos + 64;
    }
    assert count >= 8 ==> Load(s, c) != SkipWord(bit);
    var word := LoadPadded(s, c);
    assert LastWord(s, bit, c, word) by {
      if c + 8 <= |s| {
        LoadSkip(s, bit, c);
        var j :| c <= j < c + 8 && s[j] != SkipByte(bit);
        assert Padded(s, c, j - c) != SkipByte(bit);
      }
    }
    if bit && word == 0 {
      ZeroWordNone(s, c, word);
      return -1;
    }
    pos := ScanWord(s, bit, c, word);
  }

  lemma NoneBeforeStart(s: seq<bv8>, bit: bool)
    ensures NoneBefore(s, bit, 0)
  {
  }

  // The top bit alone: all bits set, shifted right once and inverted.
  function Top(): bv64 { !Half(0xFFFF_FFFF_FFFF_FFFF) }

  lemma TopBit()
    ensures Top() == One(0)
  {
  }

  lemma AndOnePadded(s: seq<bv8>, bit: bool, c: nat, word: bv64, i: nat)
    requires LastWord(s, bit, c, word) && i < 64
    ensures (And(One(i), word) != 0) == Has(Padded(s, c, i / 8), i % 8)
  {
    AndOne(word, i);
    AndCommutes(One(i), word);
    hide Has, ByteOf, One, And;
  }

  // The bit by bit scan of the last word; `c` is the position of the word in s.
  method ScanWord(ghost s: seq<bv8>, bit: bool, c: nat, word: bv64) returns (pos: int)
    requires LastWord(s, bit, c, word) && NoneBefore(s, bit, 8 * c) && (bit ==> word != 0)
    ensures IsFirst(s, bit, pos)
  {
    hide Has, ByteOf, One, And, Half, Top, NoneBefore, IsFirst, LastWord, Padded;
    pos := 8 * c;
    var one := Top();
    TopBit();
    ghost var i := 0;
    OneEnds();
    while one != 0
      invariant 0 <= i <= 64 && one == One(i) && pos == 8 * c + i
      invariant forall q: nat | q < i :: Has(Padded(s, c, q / 8), q % 8) != bit
      decreases 64 - i
    {
      AndOnePadded(s, bit, c, word, i);
      if (And(one, word) != 0) == bit {
        ScanHit(s, bit, c, word, i);
        return;
      }
      OneNext(i);
      pos := pos + 1;
      one := Half(one);
      i := i + 1;
    }
    ScanEnds(s, bit, c, word, i);
    assert false;
  }

  // The scan does not run off the end of the word.
  lemma ScanEnds(s: seq<bv8>, bit: bool, c: nat, word: bv64, i: nat)
    requires LastWord(s, bit, c, word) && (bit ==> word != 0) && i <= 64
    requires forall q: nat | q < i :: Has(Padded(s, c, q / 8), q % 8) != bit
    ensures One(i) != 0
  {
    hide Has, ByteOf, One, LastWord, Padded;
    if i < 64 {
      OneNonzero(i);
    } else {
      ScanFinds(s, bit, c, word);
      assert false;
    }
  }

  lemma OneEnds()
    ensures One(64) == 0
  {
  }

  lemma AndCommutes(x: bv64, y: bv64)
    ensures And(x, y) == And(y, x)
  {
  }
}
