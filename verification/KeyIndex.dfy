/** The keyspace of database 0 in cluster mode (redis-3.0.6/src/db.c): the main
    dictionary, the expires dictionary and the slot-to-keys index, changed
    together by every operation. */
module KeyIndex {
  import opened KeySlot
  import opened SlotIndex

  // What the index must hold: one entry per key, under the key's hash slot.
  ghost predicate Agrees<V>(dict: map<Key, V>, index: seq<Entry>) {
    && Sorted(index)
    && forall e :: e in index <==> e.key in dict && e.slot == KeyHashSlot(e.key)
  }

  function EntryOf(key: Key): Entry { Entry(KeyHashSlot(key), key) }

  lemma AddAgrees<V>(dict: map<Key, V>, index: seq<Entry>, key: Key, val: V)
    requires Agrees(dict, index) && key !in dict
    ensures Agrees(dict[key := val], Insert(index, EntryOf(key)))
  {
    hide KeyHashSlot, Insert, Sorted;
    InsertSorted(index, EntryOf(key));
  }

  lemma DeleteAgrees<V>(dict: map<Key, V>, index: seq<Entry>, key: Key)
    requires Agrees(dict, index)
    ensures Agrees(dict - {key}, Delete(index, EntryOf(key)))
  {
    hide KeyHashSlot, Delete, Sorted;
    DeleteSorted(index, EntryOf(key));
  }

  // The dictionary determines the index.
  lemma IndexDetermined<V>(dict: map<Key, V>, s: seq<Entry>, t: seq<Entry>)
    requires Agrees(dict, s) && Agrees(dict, t)
    ensures s == t
  {
    hide KeyHashSlot, Sorted;
    SortedUnique(s, t);
  }

  datatype RenameReply = SameObject | NoKey | Exists | Renamed

  // The key's time has passed, and nothing forbids acting on it.
  predicate Due(expires: map<Key, int>, key: Key, now: int, loading: bool) {
    key in expires && 0 <= expires[key] < now && !loading
  }

  // The expires dictionary after src was renamed to dst.
  function MoveExpire(expires: map<Key, int>, src: Key, dst: Key): map<Key, int> {
    if src in expires && expires[src] != -1 then (expires - {src})[dst := expires[src]]
    else expires - {src, dst}
  }

  // Keys that stand one after the other in the index, all in one slot.
  ghost predicate Part(index: seq<Entry>, slot: nat, from: nat, keys: seq<Key>) {
    from + |keys| <= |index| && forall i | 0 <= i < |keys| :: index[from..][i] == Entry(slot, keys[i])
  }

  lemma PartNone(index: seq<Entry>, slot: nat, from: nat)
    requires from <= |index|
    ensures Part(index, slot, from, [])
  {
  }

  lemma PartNext(index: seq<Entry>, slot: nat, from: nat, keys: seq<Key>)
    requires Part(index, slot, from, keys) && from + |keys| < |index| && index[from + |keys|].slot == slot
    ensures Part(index, slot, from, keys + [index[from + |keys|].key])
  {
    assert index[from..][|keys|] == index[from + |keys|];
  }

  lemma PartAt(index: seq<Entry>, slot: nat, from: nat, keys: seq<Key>, i: nat)
    requires Part(index, slot, from, keys) && i < |keys|
    ensures index[from + i] == Entry(slot, keys[i])
  {
    assert index[from..][i] == index[from + i];
  }

  class Db<V> {
    var dict: map<Key, V>
    var expires: map<Key, int>
    var slotsToKeys: seq<Entry>

    ghost predicate Valid()
      reads this
    {
      Agrees(dict, slotsToKeys) && expires.Keys <= dict.Keys
    }

    constructor ()
      ensures Valid() && dict == map[] && expires == map[]
    {
      dict, expires, slotsToKeys := map[], map[], [];
    }

    // The program aborts if the key is already there.
    method DbAdd(key: Key, val: V)
      requires Valid() && key !in dict
      modifies this
      ensures Valid() && dict == old(dict)[key := val] && expires == old(expires)
    {
      hide KeyHashSlot, Agrees;
      AddAgrees(dict, slotsToKeys, key, val);
      dict := dict[key := val];
      slotsToKeys := Insert(slotsToKeys, EntryOf(key));
    }

    // The program aborts if the key is not there.
    method DbOverwrite(key: Key, val: V)
      requires Valid() && key in dict
      modifies this
      ensures Valid() && dict == old(dict)[key := val] && expires == old(expires)
    {
      hide KeyHashSlot, Sorted;
      dict := dict[key := val];
    }

    method DbDelete(key: Key) returns (deleted: bool)
      requires Valid()
      modifies this
      ensures Valid() && dict == old(dict) - {key} && expires == old(expires) - {key}
      ensures deleted == (key in old(dict))
    {
      hide KeyHashSlot, Agrees;
      DeleteAgrees(dict, slotsToKeys, key);
      if |expires| > 0 { expires := expires - {key}; }
      if key in dict {
        dict := dict - {key};
        slotsToKeys := Delete(slotsToKeys, EntryOf(key));
        deleted := true;
      } else {
        deleted := false;
      }
    }

    // Delete the key if its time has passed; `loading` and `isSlave` turn that off.
    method ExpireIfNeeded(key: Key, now: int, loading: bool, isSlave: bool) returns (expired: bool)
      requires Valid()
      modifies this
      ensures Valid()
      ensures var due := Due(old(expires), key, now, loading);
              && expired == due
              && dict == (if due && !isSlave then old(dict) - {key} else old(dict))
              && expires == (if due && !isSlave then old(expires) - {key} else old(expires))
      ensures expired <==> key in old(expires) && 0 <= old(expires)[key] < now && !loading
    {
      hide Agrees;
      if key !in expires || expires[key] < 0 || loading { return false; }
      if isSlave { return now > expires[key]; }
      if now <= expires[key] { return false; }
      expired := DbDelete(key);
    }

    // Set a key whatever it held before; any expire is cleared.
    method SetKey(key: Key, val: V, now: int, loading: bool, isSlave: bool)
      requires Valid()
      modifies this
      ensures Valid() && dict == old(dict)[key := val] && expires == old(expires) - {key}
    {
      hide Agrees;
      var _ := ExpireIfNeeded(key, now, loading, isSlave);
      if key !in dict { DbAdd(key, val); } else { DbOverwrite(key, val); }
      var _ := RemoveExpire(key);
    }

    method RemoveExpire(key: Key) returns (removed: bool)
      requires Valid() && key in dict
      modifies this
      ensures Valid() && dict == old(dict) && expires == old(expires) - {key}
      ensures removed == (key in old(expires))
    {
      hide Agrees;
      removed := key in expires;
      expires := expires - {key};
    }

    method SetExpire(key: Key, when: int)
      requires Valid() && key in dict
      modifies this
      ensures Valid() && dict == old(dict) && expires == old(expires)[key := when]
    {
      hide Agrees;
      expires := expires[key := when];
    }

    // Rename a key, taking its expire along; with `nx` an existing target is kept.
    // Keys found to be past their time are dropped first, as on any lookup.
    method RenameGeneric(src: Key, dst: Key, nx: bool, now: int, loading: bool, isSlave: bool) returns (r: RenameReply)
      requires Valid()
      modifies this
      ensures Valid()
      ensures r == SameObject <==> src == dst
      ensures r == SameObject ==> dict == old(dict) && expires == old(expires)
      ensures var due := set key | key in {src, dst} && Due(old(expires), key, now, loading) && !isSlave;
              && (r == NoKey ==> src !in old(dict) - due &&
                                 dict == old(dict) - (due * {src}) && expires == old(expires) - (due * {src}))
              && (r == Exists ==> nx && src in dict && dst in dict && dict == old(dict) - due && expires == old(expires) - due)
              && (r == Renamed ==> src in old(dict) - due && (nx ==> dst !in old(dict) - due) &&
                                   dict == (old(dict) - {src})[dst := old(dict)[src]] &&
                                   expires == MoveExpire(old(expires), src, dst))
      ensures r == Renamed ==> src !in dict && src !in expires && dst in dict && dict[dst] == old(dict)[src]
      ensures r == Renamed ==> if src in old(expires) && old(expires)[src] != -1
                               then dst in expires && expires[dst] == old(expires)[src] else dst !in expires
      ensures r == Renamed ==> forall k | k != src && k != dst ::
                (k in expires <==> k in old(expires)) && (k in expires ==> expires[k] == old(expires)[k])
      ensures r in {NoKey, Exists} && !isSlave && !loading ==>
                forall k | k in {src, dst} && k in old(expires) && 0 <= old(expires)[k] < now ::
                  k !in dict || (r == NoKey && k == dst)
    {
      hide Agrees;
      if src == dst { return SameObject; }
      var _ := ExpireIfNeeded(src, now, loading, isSlave);
      if src !in dict { return NoKey; }
      var o := dict[src];
      var expire := if src in expires then expires[src] else -1;
      var _ := ExpireIfNeeded(dst, now, loading, isSlave);
      if dst in dict {
        if nx { return Exists; }
      }
      Move(src, dst, o, expire);
      r := Renamed;
    }

    // The second half of RENAME: the target is replaced and the source removed.
    method Move(src: Key, dst: Key, o: V, expire: int)
      requires Valid() && src != dst && src in dict && dict[src] == o
      requires expire == if src in expires then expires[src] else -1
      modifies this
      ensures Valid()
      ensures dict == (old(dict) - {src})[dst := o]
      ensures expires == MoveExpire(old(expires), src, dst)
    {
      hide Agrees;
      if dst in dict {
        var _ := DbDelete(dst);
      }
      DbAdd(dst, o);
      if expire != -1 { SetExpire(dst, expire); }
      var _ := DbDelete(src);
    }

    method Flush()
      requires Valid()
      modifies this
      ensures Valid() && dict == map[] && expires == map[]
    {
      dict, expires, slotsToKeys := map[], map[], [];
    }

    // ----- Slot queries -----

    ghost function KeysInSlot(slot: nat): set<Key>
      reads this
    {
      set key | key in dict && KeyHashSlot(key) == slot
    }

    // Up to `count` keys of the slot, in index order.
    method GetKeysInSlot(slot: nat, count: nat) returns (keys: seq<Key>)
      requires Valid()
      ensures |keys| <= count && forall key | key in keys :: key in KeysInSlot(slot)
      ensures forall i, j | 0 <= i < j < |keys| :: keys[i] != keys[j]
      ensures |keys| < count ==> forall key | key in KeysInSlot(slot) :: key in keys
    {
      hide KeyHashSlot, Sorted, First, Part;
      var n := First(slotsToKeys, slot);
      PartNone(slotsToKeys, slot, n);
      var left := count;
      keys := [];
      ghost var from := n;
      while n < |slotsToKeys| && slotsToKeys[n].slot == slot && left != 0
        invariant 0 <= left && from <= n <= |slotsToKeys| && n - from == |keys| && left + |keys| == count
        invariant Part(slotsToKeys, slot, from, keys)
      {
        PartNext(slotsToKeys, slot, from, keys);
        keys := keys + [slotsToKeys[n].key];
        n, left := n + 1, left - 1;
      }
      SlotPart(slot, from, n, keys);
    }

    // Keys read from a stretch of the index inside one slot's range.
    lemma SlotPart(slot: nat, from: nat, n: nat, keys: seq<Key>)
      requires Valid() && from == First(slotsToKeys, slot) && from <= n <= |slotsToKeys| && |keys| == n - from
      requires Part(slotsToKeys, slot, from, keys)
      ensures forall key | key in keys :: key in KeysInSlot(slot)
      ensures forall i, j | 0 <= i < j < |keys| :: keys[i] != keys[j]
      ensures (n == |slotsToKeys| || slotsToKeys[n].slot != slot) ==> forall key | key in KeysInSlot(slot) :: key in keys
    {
      hide KeyHashSlot, KeyLess, First;
      SlotRange(slotsToKeys, slot);
      forall key | key in keys ensures key in KeysInSlot(slot) {
        var i :| 0 <= i < |keys| && keys[i] == key;
        PartAt(slotsToKeys, slot, from, keys, i);
        assert slotsToKeys[from + i] in slotsToKeys;
      }
      forall i, j | 0 <= i < j < |keys| ensures keys[i] != keys[j] {
        PartAt(slotsToKeys, slot, from, keys, i);
        PartAt(slotsToKeys, slot, from, keys, j);
        assert Less(slotsToKeys[from + i], slotsToKeys[from + j]);
        LessIrreflexive(slotsToKeys[from + i]);
      }
      if n == |slotsToKeys| || slotsToKeys[n].slot != slot {
        forall key | key in KeysInSlot(slot) ensures key in keys {
          assert EntryOf(key) in slotsToKeys;
          var i :| 0 <= i < |slotsToKeys| && slotsToKeys[i] == EntryOf(key);
          PartAt(slotsToKeys, slot, from, keys, i - from);
          assert keys[i - from] == key;
        }
      }
    }

    // The rank arithmetic of the source: ranks count from one.
    method CountKeysInSlot(slot: nat) returns (count: int)
      requires Valid()
      ensures count == |KeysInSlot(slot)|
    {
      hide KeyHashSlot, First, KeyLess;
      var zsl := slotsToKeys;
      SlotRange(zsl, slot);
      var first := First(zsl, slot);
      count := 0;
      if first < |zsl| && zsl[first].slot == slot {
        var rank := Position(zsl, zsl[first]) + 1;
        PositionOf(zsl, first);
        count := |zsl| - (rank - 1);
        var last := First(zsl, slot + 1) - 1;
        if 0 <= last && zsl[last].slot == slot {
          rank := Position(zsl, zsl[last]) + 1;
          PositionOf(zsl, last);
          count := count - (|zsl| - rank);
        }
      }
      SlotCount(slot);
    }

    lemma SlotCount(slot: nat)
      requires Valid()
      ensures |KeysInSlot(slot)| == First(slotsToKeys, slot + 1) - First(slotsToKeys, slot)
    {
      hide KeyHashSlot, First, KeyLess;
      SlotRange(slotsToKeys, slot);
      var p, q := First(slotsToKeys, slot), First(slotsToKeys, slot + 1);
      var part := slotsToKeys[p..q];
      CountOfKeys(part, slot);
      forall key ensures key in KeysInSlot(slot) <==> key in KeysOf(part) {
        if key in KeysInSlot(slot) {
          assert EntryOf(key) in slotsToKeys;
          var i :| 0 <= i < |slotsToKeys| && slotsToKeys[i] == EntryOf(key);
          assert part[i - p] == EntryOf(key);
        }
        if key in KeysOf(part) {
          var e :| e in part && e.key == key;
          assert e in slotsToKeys;
        }
      }
      assert KeysInSlot(slot) == KeysOf(part);
    }

    // Delete every key of the slot: the next index node is taken before its
    // predecessor goes, so in the sequence the position stays where it is.
    method DelKeysInSlot(slot: nat) returns (j: nat)
      requires Valid()
      modifies this
      ensures Valid()
      ensures dict == old(dict) - old(KeysInSlot(slot)) && expires == old(expires) - old(KeysInSlot(slot))
      ensures j == |old(KeysInSlot(slot))|
    {
      hide KeyHashSlot, First, Agrees, Valid;
      var n := First(slotsToKeys, slot);
      j := 0;
      ghost var gone := {};
      while n < |slotsToKeys| && slotsToKeys[n].slot == slot
        invariant Valid() && n == First(slotsToKeys, slot)
        invariant gone <= old(KeysInSlot(slot)) && j == |gone|
        invariant dict == old(dict) - gone && expires == old(expires) - gone
        decreases |slotsToKeys|
      {
        ghost var key := DelFirst(slot);
        gone := gone + {key};
        j := j + 1;
      }
      SlotEmpty(slot);
      assert gone == old(KeysInSlot(slot)) by {
        forall key | key in old(KeysInSlot(slot)) ensures key in gone {
          assert key !in KeysInSlot(slot);
        }
      }
    }

    method DelFirst(slot: nat) returns (ghost key: Key)
      requires Valid() && First(slotsToKeys, slot) < |slotsToKeys|
      requires slotsToKeys[First(slotsToKeys, slot)].slot == slot
      modifies this
      ensures Valid() && key in old(KeysInSlot(slot))
      ensures dict == old(dict) - {key} && expires == old(expires) - {key}
      ensures |slotsToKeys| < |old(slotsToKeys)| && First(slotsToKeys, slot) == First(old(slotsToKeys), slot)
    {
      hide KeyHashSlot, Sorted, First;
      var k := slotsToKeys[First(slotsToKeys, slot)].key;
      key := k;
      DeleteFirst(slot);
      ghost var index := slotsToKeys;
      var _ := DbDelete(k);
      IndexDetermined(dict, slotsToKeys, Delete(index, EntryOf(key)));
    }

    lemma DeleteFirst(slot: nat)
      requires Valid()
      requires First(slotsToKeys, slot) < |slotsToKeys| && slotsToKeys[First(slotsToKeys, slot)].slot == slot
      ensures var e := slotsToKeys[First(slotsToKeys, slot)];
              && e == EntryOf(e.key) && e.key in KeysInSlot(slot)
              && |Delete(slotsToKeys, e)| == |slotsToKeys| - 1
              && First(Delete(slotsToKeys, e), slot) == First(slotsToKeys, slot)
              && Agrees(dict - {e.key}, Delete(slotsToKeys, e))
    {
      hide KeyHashSlot, First, Less;
      var s, p := slotsToKeys, First(slotsToKeys, slot);
      var e := s[p];
      assert e in s;
      PositionOf(s, p);
      DeleteSorted(s, e);
      NextSlot(s, p);
      FirstUnique(Delete(s, e), slot, p);
      DeleteAgrees(dict, s, e.key);
    }

    lemma SlotEmpty(slot: nat)
      requires Valid()
      requires var p := First(slotsToKeys, slot); p < |slotsToKeys| ==> slotsToKeys[p].slot != slot
      ensures KeysInSlot(slot) == {}
    {
      hide KeyHashSlot, First, Less, KeysInSlot;
      SlotRange(slotsToKeys, slot);
      SlotCount(slot);
    }
  }
}
