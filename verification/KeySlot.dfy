/** The hash slot of a key: `keyHashSlot` (redis-3.0.6/src/cluster.c). */
module KeySlot {
  import opened Crc16

  type Key = seq<bv8>

  const SLOTS: nat := 16384
  const OPEN: bv8 := 0x7B   // '{'
  const CLOSE: bv8 := 0x7D  // '}'

  // The 14 low bits of a CRC.
  function Slot(crc: bv16): nat { (crc & 0x3FFF) as nat }

  lemma SlotBound(crc: bv16)
    ensures Slot(crc) < SLOTS
  {
  }

  // `tag` stands between the first '{' of the key, at s, and the first '}' after it, at e.
  predicate TaggedAt(key: Key, tag: Key, s: nat, e: nat) {
    && s < e < |key|
    && key[s] == OPEN && OPEN !in key[..s]
    && key[e] == CLOSE && CLOSE !in key[s + 1..e]
    && tag == key[s + 1..e]
  }

  ghost predicate Tagged(key: Key, tag: Key) { exists s: nat, e: nat :: TaggedAt(key, tag, s, e) }

  // What is hashed: the tag if there is a nonempty one, else the whole key.
  ghost predicate Hashed(key: Key, part: Key) {
    if exists tag: Key :: tag != [] && Tagged(key, tag)
    then part != [] && Tagged(key, part)
    else part == key
  }

  // The first position of `c` in `key` from `from` on, or |key|.
  function Find(key: Key, c: bv8, from: nat): nat
    requires from <= |key|
    decreases |key| - from
  {
    if from == |key| || key[from] == c then from else Find(key, c, from + 1)
  }

  function HashedPart(key: Key): Key {
    var s := Find(key, OPEN, 0);
    FindRange(key, OPEN, 0);
    if s == |key| then key
    else
      var e := Find(key, CLOSE, s + 1);
      FindRange(key, CLOSE, s + 1);
      if e == |key| || e == s + 1 then key else key[s + 1..e]
  }

  function KeyHashSlot(key: Key): (slot: nat)
    ensures slot < SLOTS
  {
    SlotBound(Crc(HashedPart(key)));
    Slot(Crc(HashedPart(key)))
  }

  lemma {:induction false} FindRange(key: Key, c: bv8, from: nat)
    requires from <= |key|
    ensures from <= Find(key, c, from) <= |key|
    ensures Find(key, c, from) < |key| ==> key[Find(key, c, from)] == c
    ensures forall i | from <= i < Find(key, c, from) :: key[i] != c
    decreases |key| - from
  {
    if from != |key| && key[from] != c {
      FindRange(key, c, from + 1);
    }
  }

  lemma TaggedFind(key: Key, tag: Key, s: nat, e: nat)
    requires TaggedAt(key, tag, s, e)
    ensures s == Find(key, OPEN, 0) && e == Find(key, CLOSE, s + 1)
  {
    FindRange(key, OPEN, 0);
    FindRange(key, CLOSE, s + 1);
  }

  // The part that is hashed is exactly the first nonempty brace tag, or the key.
  lemma HashedPartIsHashed(key: Key)
    ensures Hashed(key, HashedPart(key))
  {
    FindRange(key, OPEN, 0);
    var s := Find(key, OPEN, 0);
    forall tag: Key, i: nat, j: nat | TaggedAt(key, tag, i, j)
      ensures i == s && s < |key| && j == Find(key, CLOSE, s + 1)
    {
      TaggedFind(key, tag, i, j);
    }
    if s < |key| {
      FindRange(key, CLOSE, s + 1);
      var e := Find(key, CLOSE, s + 1);
      if e < |key| {
        assert TaggedAt(key, key[s + 1..e], s, e);
        assert Tagged(key, key[s + 1..e]);
      }
    }
  }

  lemma TagIsHashed(key: Key, tag: Key)
    requires tag != [] && Tagged(key, tag)
    ensures HashedPart(key) == tag
  {
    hide Find;
    var s: nat, e: nat :| TaggedAt(key, tag, s, e);
    TaggedFind(key, tag, s, e);
  }

  // Keys with the same nonempty tag share a slot.
  lemma SameTagSameSlot(a: Key, b: Key, tag: Key)
    requires tag != [] && Tagged(a, tag) && Tagged(b, tag)
    ensures KeyHashSlot(a) == KeyHashSlot(b)
  {
    hide Slot, Crc, HashedPart, Tagged;
    TagIsHashed(a, tag);
    TagIsHashed(b, tag);
  }

  method ComputeKeyHashSlot(key: Key) returns (slot: nat)
    ensures slot == KeyHashSlot(key)
  {
    var s := 0;
    while s < |key|
      invariant 0 <= s <= |key|
      invariant Find(key, OPEN, 0) == Find(key, OPEN, s)
    {
      if key[s] == OPEN { break; }
      s := s + 1;
    }
    if s == |key| {
      var crc := ComputeCrc(key);
      return Slot(crc);
    }
    var e := s + 1;
    while e < |key|
      invariant s + 1 <= e <= |key|
      invariant Find(key, CLOSE, s + 1) == Find(key, CLOSE, e)
    {
      if key[e] == CLOSE { break; }
      e := e + 1;
    }
    if e == |key| || e == s + 1 {
      var crc := ComputeCrc(key);
      return Slot(crc);
    }
    var crc := ComputeCrc(key[s + 1..e]);
    return Slot(crc);
  }
}
