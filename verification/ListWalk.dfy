/** Walking an `AdList` with its iterator while deleting nodes it returned
    (redis-3.0.6/src/adlist.c): every node is returned once, in order, whichever of them are deleted. */
module ListWalk {
  import opened AdList

  function Reversed<V>(s: seq<V>): seq<V> {
    if s == [] then [] else [s[|s| - 1]] + Reversed(s[..|s| - 1])
  }

  lemma {:induction false} ReversedConcat<V>(a: seq<V>, b: seq<V>)
    ensures Reversed(a + b) == Reversed(b) + Reversed(a)
  {
    if b == [] {
      assert a + b == a;
    } else {
      assert (a + b)[..|a + b| - 1] == a + b[..|b| - 1];
      ReversedConcat(a, b[..|b| - 1]);
    }
  }

  lemma {:induction false} ReversedTwice<V>(s: seq<V>)
    ensures Reversed(Reversed(s)) == s
  {
    if s != [] {
      var last := [s[|s| - 1]];
      ReversedConcat(last, Reversed(s[..|s| - 1]));
      ReversedTwice(s[..|s| - 1]);
      assert last[..0] == [];
      assert Reversed(last) == last + Reversed(last[..0]);
    }
  }

  // What is left of the values visited when visit number i of value v drops it if drop(i, v).
  function Kept<V>(visited: seq<V>, drop: (nat, V) -> bool): seq<V> {
    if visited == [] then []
    else
      var m := |visited| - 1;
      Kept(visited[..m], drop) + if drop(m, visited[m]) then [] else [visited[m]]
  }

  lemma KeptNext<V>(visited: seq<V>, x: V, drop: (nat, V) -> bool)
    ensures Kept(visited + [x], drop) == if drop(|visited|, x) then Kept(visited, drop) else Kept(visited, drop) + [x]
  {
    assert (visited + [x])[..|visited|] == visited;
    assert Kept(visited, drop) + [] == Kept(visited, drop);
  }

  lemma ReversedNext<V>(s: seq<V>, x: V)
    ensures Reversed(s + [x]) == [x] + Reversed(s)
  {
    assert (s + [x])[..|s|] == s;
  }

  // The walk stands at position k of the values v: behind it is what was kept of the visited, before it the rest.
  ghost predicate Progress<V>(dir: Direction, v: seq<V>, k: int, before: seq<V>, visited: seq<V>, drop: (nat, V) -> bool) {
    if dir == FromHead then
      0 <= k <= |v| && v[..k] == Kept(visited, drop) && before == visited + v[k..]
    else
      -1 <= k < |v| && v[k + 1..] == Reversed(Kept(visited, drop)) && before == v[..k + 1] + Reversed(visited)
  }

  function Cut<V>(v: seq<V>, k: nat): seq<V>
    requires k < |v|
  {
    v[..k] + v[k + 1..]
  }

  // The next position: from the head, a deleted node's place is taken by its successor.
  function Onward(dir: Direction, k: int, dropped: bool): int {
    if dir == FromTail then k - 1 else if dropped then k else k + 1
  }

  lemma ProgressNext<V>(dir: Direction, v: seq<V>, k: nat, before: seq<V>, visited: seq<V>, drop: (nat, V) -> bool)
    requires Progress(dir, v, k, before, visited, drop) && k < |v|
    ensures var d := drop(|visited|, v[k]);
      Progress(dir, if d then Cut(v, k) else v, Onward(dir, k, d), before, visited + [v[k]], drop)
  {
    hide Progress;
    if dir == FromHead {
      FromHeadNext(v, k, before, visited, drop);
    } else {
      FromTailNext(v, k, before, visited, drop);
    }
  }

  lemma FromHeadNext<V>(v: seq<V>, k: nat, before: seq<V>, visited: seq<V>, drop: (nat, V) -> bool)
    requires Progress(FromHead, v, k, before, visited, drop) && k < |v|
    ensures var d := drop(|visited|, v[k]);
      Progress(FromHead, if d then Cut(v, k) else v, if d then k else k + 1, before, visited + [v[k]], drop)
  {
    var x := v[k];
    KeptNext(visited, x, drop);
    hide Kept, Reversed;
    assert v[k..] == [x] + v[k + 1..];
    assert before == (visited + [x]) + v[k + 1..];
    if drop(|visited|, x) {
      assert Cut(v, k)[..k] == v[..k] && Cut(v, k)[k..] == v[k + 1..];
    } else {
      assert v[..k + 1] == v[..k] + [x];
    }
  }

  lemma FromTailNext<V>(v: seq<V>, k: nat, before: seq<V>, visited: seq<V>, drop: (nat, V) -> bool)
    requires Progress(FromTail, v, k, before, visited, drop) && k < |v|
    ensures Progress(FromTail, if drop(|visited|, v[k]) then Cut(v, k) else v, k - 1, before, visited + [v[k]], drop)
  {
    var x := v[k];
    KeptNext(visited, x, drop);
    ReversedNext(visited, x);
    hide Kept, Reversed;
    assert v[..k + 1] == v[..k] + [x];
    assert before == v[..k] + ([x] + Reversed(visited));
    if drop(|visited|, x) {
      assert Cut(v, k)[..k] == v[..k] && Cut(v, k)[k..] == v[k + 1..];
    } else {
      ReversedNext(Kept(visited, drop), x);
      assert v[k..] == [x] + v[k + 1..];
    }
  }

  // What a whole walk has returned, and what it leaves.
  ghost predicate Walked<V>(dir: Direction, before: seq<V>, visited: seq<V>, after: seq<V>, drop: (nat, V) -> bool) {
    if dir == FromHead then visited == before && after == Kept(before, drop)
    else visited == Reversed(before) && after == Reversed(Kept(Reversed(before), drop))
  }

  lemma ProgressEnds<V>(dir: Direction, v: seq<V>, before: seq<V>, visited: seq<V>, drop: (nat, V) -> bool)
    ensures Progress(dir, before, if dir == FromHead then 0 else |before| - 1, before, [], drop)
    ensures Progress(dir, v, if dir == FromHead then |v| else -1, before, visited, drop) ==> Walked(dir, before, visited, v, drop)
  {
    assert Kept<V>([], drop) == [] && Reversed<V>([]) == [];
    assert before[0..] == before && before[..|before|] == before && before + [] == before && [] + before == before;
    hide Kept, Reversed;
    assert v[|v|..] == [] && v[..|v|] == v && v[0..] == v && v[..0] == [];
    assert visited + [] == visited && [] + Reversed(visited) == Reversed(visited);
    ReversedTwice(visited);
  }

  // The iterator has returned the node at position k, and stands at its neighbour.
  ghost predicate Stands<V>(l: List<V>, li: Iter<V>, ln: Node?<V>, k: int)
    reads l, li
  {
    && -1 <= k <= |l.nodes| && (if li.direction == FromHead then 0 <= k else k < |l.nodes|)
    && ln == At(l.nodes, k)
    && (ln != null ==> li.next == At(l.nodes, if li.direction == FromHead then k + 1 else k - 1))
  }

  // listNext of an iterator that stands at position k.
  method StepOn<V>(l: List<V>, li: Iter<V>, ghost k: int) returns (ln: Node?<V>)
    requires l.Valid() && -1 <= k <= |l.nodes| && li.next == At(l.nodes, k)
    modifies li
    ensures ln == At(l.nodes, k) && li.direction == old(li.direction)
    ensures li.next == At(l.nodes, if 0 <= k < |l.nodes| then (if li.direction == FromHead then k + 1 else k - 1) else k)
  {
    hide Distinct;
    ln := li.Next();
  }

  // The node just returned is deleted or not; either way the iterator goes on with its neighbour.
  method VisitOne<V>(l: List<V>, li: Iter<V>, ln: Node<V>, dropped: bool, ghost k: nat) returns (next: Node?<V>)
    requires l.Valid() && k < |l.nodes| && Stands(l, li, ln, k)
    modifies l, l.nodes`prev, l.nodes`next, li
    ensures l.Valid() && li.direction == old(li.direction)
    ensures l.Values() == if dropped then Cut(old(l.Values()), k) else old(l.Values())
    ensures |l.nodes| == |l.Values()| && forall i | 0 <= i < |l.nodes| :: l.nodes[i] in old(l.nodes)
    ensures Stands(l, li, next, Onward(li.direction, k, dropped))
  {
    hide Linked, ValuesOf;
    if dropped { l.DelNode(ln, k); }
    next := StepOn(l, li, Onward(li.direction, k, dropped));
  }

  // One turn of the walk.
  method Turn<V>(l: List<V>, li: Iter<V>, ln: Node<V>, drop: (nat, V) -> bool, visited: seq<V>,
                 ghost before: seq<V>, ghost k: int)
    returns (next: Node?<V>, more: seq<V>, ghost k': int)
    requires l.Valid() && Stands(l, li, ln, k) && Progress(li.direction, l.Values(), k, before, visited, drop)
    modifies l, l.nodes`prev, l.nodes`next, li
    ensures l.Valid() && li.direction == old(li.direction) && Stands(l, li, next, k')
    ensures Progress(li.direction, l.Values(), k', before, more, drop) && |more| == |visited| + 1
    ensures if li.direction == FromHead then |l.nodes| - k' < |old(l.nodes)| - k else k' < k
    ensures forall i | 0 <= i < |l.nodes| :: l.nodes[i] in old(l.nodes)
  {
    hide Linked, ValuesOf, Progress;
    ProgressNext(li.direction, l.Values(), k, before, visited, drop);
    var x := ln.value;
    assert x == l.Values()[k];
    more := visited + [x];
    k' := Onward(li.direction, k, drop(|visited|, x));
    next := VisitOne(l, li, ln, drop(|visited|, x), k);
  }

  /** The walk: from either end, with any choice of which returned nodes to delete, every value is returned
      exactly once, in order, and what remains is exactly what was not deleted, in its old order. */
  method Walk<V>(l: List<V>, dir: Direction, drop: (nat, V) -> bool) returns (visited: seq<V>)
    requires l.Valid()
    modifies l, l.nodes`prev, l.nodes`next
    ensures l.Valid() && Walked(dir, old(l.Values()), visited, l.Values(), drop)
    ensures forall n | n in l.nodes :: n in old(l.nodes)
  {
    hide Linked, ValuesOf, Progress, Walked;
    ghost var before, was := l.Values(), l.nodes;
    visited := [];
    ProgressEnds(dir, [], before, visited, drop);
    var li := l.GetIterator(dir);
    ghost var k := if dir == FromHead then 0 else |l.nodes| - 1;
    var ln := StepOn(l, li, k);
    while ln != null
      invariant l.Valid() && fresh(li) && li.direction == dir && Stands(l, li, ln, k)
      invariant Progress(dir, l.Values(), k, before, visited, drop)
      invariant forall i | 0 <= i < |l.nodes| :: l.nodes[i] in was
      decreases if dir == FromHead then |l.nodes| - k else k + 1
    {
      ln, visited, k := Turn(l, li, ln, drop, visited, before, k);
    }
    ProgressEnds(dir, l.Values(), before, visited, drop);
  }
}
