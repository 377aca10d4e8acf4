/** The slot-to-keys skiplist of redis-3.0.6/src/db.c as what it stands for: a
    sequence of (slot, key) pairs in strictly ascending order. */
module SlotIndex {
  import opened KeySlot

  // memcmp order on keys, the shorter first when one is a prefix of the other.
  predicate KeyLess(a: Key, b: Key) {
    b != [] && (a == [] || a[0] < b[0] || (a[0] == b[0] && KeyLess(a[1..], b[1..])))
  }

  lemma {:induction false} KeyLessIrreflexive(a: Key)
    ensures !KeyLess(a, a)
  {
    if a != [] { KeyLessIrreflexive(a[1..]); }
  }

  lemma {:induction false} KeyLessTransitive(a: Key, b: Key, c: Key)
    requires KeyLess(a, b) && KeyLess(b, c)
    ensures KeyLess(a, c)
  {
    if a != [] && a[0] == b[0] && b[0] == c[0] { KeyLessTransitive(a[1..], b[1..], c[1..]); }
  }

  lemma {:induction false} KeyLessTotal(a: Key, b: Key)
    requires a != b
    ensures KeyLess(a, b) || KeyLess(b, a)
  {
    if a != [] && b != [] && a[0] == b[0] {
      assert a == [a[0]] + a[1..] && b == [b[0]] + b[1..];
      KeyLessTotal(a[1..], b[1..]);
    }
  }

  datatype Entry = Entry(slot: nat, key: Key)

  predicate Less(e: Entry, f: Entry) { e.slot < f.slot || (e.slot == f.slot && KeyLess(e.key, f.key)) }

  lemma LessIrreflexive(e: Entry)
    ensures !Less(e, e)
  {
    KeyLessIrreflexive(e.key);
  }

  lemma LessTransitive(e: Entry, f: Entry, g: Entry)
    requires Less(e, f) && Less(f, g)
    ensures Less(e, g)
  {
    hide KeyLess;
    if e.slot == f.slot == g.slot { KeyLessTransitive(e.key, f.key, g.key); }
  }

  lemma LessTotal(e: Entry, f: Entry)
    requires e != f
    ensures Less(e, f) || Less(f, e)
  {
    hide KeyLess;
    if e.slot == f.slot { KeyLessTotal(e.key, f.key); }
  }

  ghost predicate Sorted(s: seq<Entry>) { forall i, j | 0 <= i < j < |s| :: Less(s[i], s[j]) }

  // Where the search stops: after the last element below e.
  function Position(s: seq<Entry>, e: Entry): (p: nat)
    ensures p <= |s|
    ensures forall i | 0 <= i < p :: Less(s[i], e)
    ensures p < |s| ==> !Less(s[p], e)
  {
    if s == [] || !Less(s[0], e) then 0
    else
      var p := Position(s[1..], e);
      assert forall i | 1 <= i < p + 1 :: s[i] == s[1..][i - 1];
      p + 1
  }

  function Insert(s: seq<Entry>, e: Entry): seq<Entry> {
    var p := Position(s, e);
    s[..p] + [e] + s[p..]
  }

  function Delete(s: seq<Entry>, e: Entry): seq<Entry> {
    var p := Position(s, e);
    if p < |s| && s[p] == e then s[..p] + s[p + 1..] else s
  }

  lemma AfterPosition(s: seq<Entry>, e: Entry, i: nat)
    requires Sorted(s) && Position(s, e) <= i < |s|
    ensures s[i] == e || Less(e, s[i])
  {
    hide Less, Position;
    var p := Position(s, e);
    if s[p] != e { LessTotal(s[p], e); }
    if p < i && s[p] != e { LessTransitive(e, s[p], s[i]); }
  }

  lemma PositionOf(s: seq<Entry>, i: nat)
    requires Sorted(s) && i < |s|
    ensures Position(s, s[i]) == i
  {
    hide Less, Position;
    LessIrreflexive(s[i]);
  }

  lemma InsertSorted(s: seq<Entry>, e: Entry)
    requires Sorted(s) && e !in s
    ensures Sorted(Insert(s, e))
    ensures forall f :: f in Insert(s, e) <==> f in s || f == e
  {
    hide Less, Position;
    var p, r := Position(s, e), Insert(s, e);
    forall i, j | 0 <= i < j < |r| ensures Less(r[i], r[j]) {
      if i == p {
        AfterPosition(s, e, j - 1);
        assert r[j] == s[j - 1];
      }
    }
    assert s == s[..p] + s[p..];
  }

  lemma DeleteSorted(s: seq<Entry>, e: Entry)
    requires Sorted(s)
    ensures Sorted(Delete(s, e))
    ensures forall f :: f in Delete(s, e) <==> f in s && f != e
    ensures |Delete(s, e)| == |s| - (if e in s then 1 else 0)
  {
    hide Less, Position;
    if e in s {
      var i :| 0 <= i < |s| && s[i] == e;
      PositionOf(s, i);
      LessIrreflexive(e);
      var d := Delete(s, e);
      assert forall j | 0 <= j < |s| && j != i :: s[j] != e;
      forall f | f in s && f != e ensures f in d {
        var j :| 0 <= j < |s| && s[j] == f;
        assert d[if j < i then j else j - 1] == f;
      }
    }
  }

  // A strictly sorted sequence is determined by its elements.
  lemma {:induction false} SortedUnique(s: seq<Entry>, t: seq<Entry>)
    requires Sorted(s) && Sorted(t) && forall e :: e in s <==> e in t
    ensures s == t
    decreases |s|
  {
    hide Less;
    assert t != [] ==> t[0] in t;
    if s != [] {
      assert s[0] in t && t[0] in s;
      if s[0] != t[0] {
        LessIrreflexive(s[0]);
        LessTransitive(s[0], t[0], s[0]);
      }
      forall e ensures e in s[1..] <==> e in t[1..] { TailElements(s, e); TailElements(t, e); }
      SortedUnique(s[1..], t[1..]);
      assert s == [s[0]] + s[1..] && t == [t[0]] + t[1..];
    }
  }

  lemma TailElements(s: seq<Entry>, e: Entry)
    requires Sorted(s) && s != []
    ensures e in s[1..] <==> e in s && e != s[0]
  {
    hide Less;
    LessIrreflexive(s[0]);
    assert s == [s[0]] + s[1..];
  }

  // ----- The entries of one slot -----

  // The first position with a slot not below `slot`.
  function First(s: seq<Entry>, slot: nat): (p: nat)
    ensures p <= |s|
    ensures forall i | 0 <= i < p :: s[i].slot < slot
    ensures p < |s| ==> s[p].slot >= slot
  {
    if s == [] || s[0].slot >= slot then 0
    else
      var p := First(s[1..], slot);
      assert forall i | 1 <= i < p + 1 :: s[i] == s[1..][i - 1];
      p + 1
  }

  lemma NextSlot(s: seq<Entry>, p: nat)
    requires Sorted(s) && p < |s|
    ensures p + 1 < |s| ==> s[p + 1].slot >= s[p].slot
  {
    hide KeyLess;
    if p + 1 < |s| { assert Less(s[p], s[p + 1]); }
  }

  lemma FirstUnique(s: seq<Entry>, slot: nat, p: nat)
    requires Sorted(s) && p <= |s|
    requires forall i | 0 <= i < p :: s[i].slot < slot
    requires p < |s| ==> s[p].slot >= slot
    ensures First(s, slot) == p
  {
    hide First, KeyLess;
  }

  // The entries of a slot are contiguous: they run from First(slot) to First(slot + 1).
  lemma SlotRange(s: seq<Entry>, slot: nat)
    requires Sorted(s)
    ensures First(s, slot) <= First(s, slot + 1)
    ensures forall i | 0 <= i < |s| :: s[i].slot == slot <==> First(s, slot) <= i < First(s, slot + 1)
  {
    hide First, KeyLess;
    var p, q := First(s, slot), First(s, slot + 1);
    forall i | 0 <= i < |s| ensures s[i].slot == slot <==> p <= i < q {
      if p < i { assert Less(s[p], s[i]); }
      if q < i { assert Less(s[q], s[i]); }
    }
  }

  ghost function KeysOf(s: seq<Entry>): set<Key> { set e | e in s :: e.key }

  // Distinct entries of one slot have distinct keys.
  lemma {:induction false} CountOfKeys(s: seq<Entry>, slot: nat)
    requires Sorted(s) && forall e | e in s :: e.slot == slot
    ensures |KeysOf(s)| == |s|
  {
    if s != [] {
      var front, last := s[..|s| - 1], s[|s| - 1];
      CountOfKeys(front, slot);
      assert s == front + [last];
      assert KeysOf(s) == KeysOf(front) + {last.key};
      if last.key in KeysOf(front) {
        var e :| e in front && e.key == last.key;
        LessIrreflexive(last);
      }
    }
  }
}
