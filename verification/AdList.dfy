/** The doubly linked list of redis-3.0.6/src/adlist.c, with its iterator.

    The ghost field `nodes` is the chain from head to tail; every operation is
    specified by what it does to that sequence and to the values in it. */
module AdList {

  class Node<V> {
    var prev: Node?<V>
    var next: Node?<V>
    var value: V

    constructor (value: V)
      ensures this.value == value && prev == null && next == null
    {
      this.value := value;
      prev, next := null, null;
    }
  }

  datatype Direction = FromHead | FromTail

  class Iter<V> {
    var next: Node?<V>
    var direction: Direction

    constructor (next: Node?<V>, direction: Direction)
      ensures this.next == next && this.direction == direction
    {
      this.next, this.direction := next, direction;
    }

    // The node the iterator stands on, after moving past it.
    method Next() returns (current: Node?<V>)
      modifies this
      ensures current == old(next) && direction == old(direction)
      ensures current == null ==> next == null
      ensures current != null ==> next == if direction == FromHead then current.next else current.prev
    {
      current := next;
      if current != null {
        if direction == FromHead { next := current.next; } else { next := current.prev; }
      }
    }
  }

  // The node at a position of a chain, or null past either end.
  ghost function At<V>(nodes: seq<Node<V>>, i: int): Node?<V> {
    if 0 <= i < |nodes| then nodes[i] else null
  }

  ghost predicate Distinct<V>(nodes: seq<Node<V>>) {
    forall i, j | 0 <= i < j < |nodes| :: nodes[i] != nodes[j]
  }

  ghost predicate Linked<V>(nodes: seq<Node<V>>)
    reads nodes
  {
    && Distinct(nodes)
    && (forall i {:trigger nodes[i].prev} | 0 <= i < |nodes| :: nodes[i].prev == At(nodes, i - 1))
    && (forall i {:trigger nodes[i].next} | 0 <= i < |nodes| :: nodes[i].next == At(nodes, i + 1))
  }

  // Make the neighbours of a new node point to it.
  method LinkIn<V>(node: Node<V>, ghost nodes: seq<Node<V>>, ghost at: nat)
    requires Linked(nodes) && at <= |nodes| && node !in nodes
    requires node.prev == At(nodes, at - 1) && node.next == At(nodes, at)
    modifies nodes`prev, nodes`next
    ensures forall i {:trigger nodes[i].next} | 0 <= i < |nodes| ::
              nodes[i].next == if i == at - 1 then node else At(nodes, i + 1)
    ensures forall i {:trigger nodes[i].prev} | 0 <= i < |nodes| ::
              nodes[i].prev == if i == at then node else At(nodes, i - 1)
  {
    hide Distinct;
    if at > 0 { OnlyAt(nodes, at - 1); }
    if at < |nodes| { OnlyAt(nodes, at); }
    if node.prev != null { node.prev.next := node; }
    if node.next != null { node.next.prev := node; }
  }

  ghost function ValuesOf<V>(nodes: seq<Node<V>>): (vs: seq<V>)
    reads nodes
    ensures |vs| == |nodes| && forall i | 0 <= i < |nodes| :: vs[i] == nodes[i].value
  {
    seq(|nodes|, i requires 0 <= i < |nodes| reads nodes => nodes[i].value)
  }

  lemma ValuesWith<V>(nodes: seq<Node<V>>, at: nat, node: Node<V>)
    requires at <= |nodes|
    ensures ValuesOf(nodes[..at] + [node] + nodes[at..]) == ValuesOf(nodes)[..at] + [node.value] + ValuesOf(nodes)[at..]
  {
  }

  lemma ValuesWithout<V>(nodes: seq<Node<V>>, k: nat)
    requires k < |nodes|
    ensures ValuesOf(nodes[..k] + nodes[k + 1..]) == ValuesOf(nodes)[..k] + ValuesOf(nodes)[k + 1..]
  {
  }

  lemma OnlyAt<V>(nodes: seq<Node<V>>, k: nat)
    requires Distinct(nodes) && k < |nodes|
    ensures forall i | 0 <= i < |nodes| && i != k :: nodes[i] != nodes[k]
  {
  }

  lemma DistinctWith<V>(nodes: seq<Node<V>>, k: nat, node: Node<V>)
    requires Distinct(nodes) && k <= |nodes| && node !in nodes
    ensures Distinct(nodes[..k] + [node] + nodes[k..])
  {
  }

  lemma DistinctWithout<V>(nodes: seq<Node<V>>, k: nat)
    requires Distinct(nodes) && k < |nodes|
    ensures Distinct(nodes[..k] + nodes[k + 1..])
    ensures nodes[k] !in nodes[..k] + nodes[k + 1..]
  {
  }

  class List<V(==)> {
    var head: Node?<V>
    var tail: Node?<V>
    var len: nat
    ghost var nodes: seq<Node<V>>

    ghost predicate Valid()
      reads this, nodes
    {
      && len == |nodes|
      && head == At(nodes, 0) && tail == At(nodes, |nodes| - 1)
      && Linked(nodes)
    }

    ghost function Values(): (vs: seq<V>)
      reads this, nodes
      ensures |vs| == |nodes|
    {
      ValuesOf(nodes)
    }

    constructor ()
      ensures Valid() && nodes == []
    {
      head, tail, len, nodes := null, null, 0, [];
    }

    method AddNodeHead(value: V)
      requires Valid()
      modifies this, nodes`prev, nodes`next
      ensures Valid() && Values() == [value] + old(Values())
      ensures |nodes| == |old(nodes)| + 1 && fresh(nodes[0]) && nodes[1..] == old(nodes)
    {
      hide Distinct, ValuesOf;
      ghost var was := nodes;
      if len > 0 { OnlyAt(nodes, 0); }
      var node := new Node(value);
      if len == 0 {
        head, tail := node, node;
      } else {
        node.next := head;
        head.prev := node;
        head := node;
      }
      len := len + 1;
      nodes := was[..0] + [node] + was[0..];
      RelinkedWith(was, 0, node);
      ValuesWith(was, 0, node);
    }

    method AddNodeTail(value: V)
      requires Valid()
      modifies this, nodes`prev, nodes`next
      ensures Valid() && Values() == old(Values()) + [value]
      ensures |nodes| == |old(nodes)| + 1 && fresh(nodes[|nodes| - 1]) && nodes[..|nodes| - 1] == old(nodes)
    {
      hide Distinct, ValuesOf;
      ghost var was := nodes;
      if len > 0 { OnlyAt(nodes, len - 1); }
      var node := new Node(value);
      if len == 0 {
        head, tail := node, node;
      } else {
        node.prev := tail;
        tail.next := node;
        tail := node;
      }
      len := len + 1;
      nodes := was[..|was|] + [node] + was[|was|..];
      RelinkedWith(was, |was|, node);
      ValuesWith(was, |was|, node);
    }

    // The chain `nodes` with `at` skipped over or linked in is well formed.
    lemma RelinkedWithout(was: seq<Node<V>>, k: nat)
      requires Distinct(was) && k < |was| && nodes == was[..k] + was[k + 1..] && len == |nodes|
      requires head == (if k == 0 then At(was, 1) else was[0])
      requires tail == (if k == |was| - 1 then At(was, k - 1) else was[|was| - 1])
      requires forall i {:trigger was[i].next} | 0 <= i < |was| && i != k ::
                 was[i].next == At(was, if i == k - 1 then k + 1 else i + 1)
      requires forall i {:trigger was[i].prev} | 0 <= i < |was| && i != k ::
                 was[i].prev == At(was, if i == k + 1 then k - 1 else i - 1)
      ensures Valid()
    {
      DistinctWithout(was, k);
      hide Distinct;
      forall i | 0 <= i < |nodes| ensures nodes[i].next == At(nodes, i + 1) && nodes[i].prev == At(nodes, i - 1) {
        var j := if i < k then i else i + 1;
        assert nodes[i] == was[j];
        assert was[j].next == At(was, if j == k - 1 then k + 1 else j + 1);
        assert was[j].prev == At(was, if j == k + 1 then k - 1 else j - 1);
      }
    }

    lemma RelinkedWith(was: seq<Node<V>>, at: nat, node: Node<V>)
      requires Distinct(was) && at <= |was| && node !in was
      requires nodes == was[..at] + [node] + was[at..] && len == |nodes|
      requires head == (if at == 0 then node else was[0])
      requires tail == (if at == |was| then node else was[|was| - 1])
      requires node.prev == At(was, at - 1) && node.next == At(was, at)
      requires forall i {:trigger was[i].next} | 0 <= i < |was| ::
                 was[i].next == if i == at - 1 then node else At(was, i + 1)
      requires forall i {:trigger was[i].prev} | 0 <= i < |was| ::
                 was[i].prev == if i == at then node else At(was, i - 1)
      ensures Valid()
    {
      DistinctWith(was, at, node);
      hide Distinct;
      forall i | 0 <= i < |nodes| ensures nodes[i].next == At(nodes, i + 1) && nodes[i].prev == At(nodes, i - 1) {
        if i != at {
          var j := if i < at then i else i - 1;
          assert nodes[i] == was[j];
          assert was[j].next == if j == at - 1 then node else At(was, j + 1);
          assert was[j].prev == if j == at then node else At(was, j - 1);
        }
      }
    }

    // `k` is the position of the old node.
    method InsertNode(oldNode: Node<V>, value: V, after: bool, ghost k: nat)
      requires Valid() && k < |nodes| && nodes[k] == oldNode
      modifies this, nodes`prev, nodes`next
      ensures Valid()
      ensures var at := if after then k + 1 else k;
              && |nodes| == |old(nodes)| + 1 && fresh(nodes[at])
              && nodes == old(nodes)[..at] + [nodes[at]] + old(nodes)[at..]
              && Values() == old(Values())[..at] + [value] + old(Values())[at..]
    {
      hide Distinct, ValuesOf;
      OnlyAt(nodes, 0);
      OnlyAt(nodes, |nodes| - 1);
      var node := new Node(value);
      if after {
        node.prev := oldNode;
        node.next := oldNode.next;
        if tail == oldNode { tail := node; }
      } else {
        node.next := oldNode;
        node.prev := oldNode.prev;
        if head == oldNode { head := node; }
      }
      Attach(node, if after then k + 1 else k);
    }

    // The tail of InsertNode: the neighbours and the length.
    method Attach(node: Node<V>, ghost at: nat)
      requires Linked(nodes) && len == |nodes| && at <= |nodes| && node !in nodes
      requires node.prev == At(nodes, at - 1) && node.next == At(nodes, at)
      requires head == (if at == 0 then node else nodes[0])
      requires tail == (if at == |nodes| then node else nodes[|nodes| - 1])
      modifies this`len, this`nodes, nodes`prev, nodes`next
      ensures Valid()
      ensures nodes == old(nodes)[..at] + [node] + old(nodes)[at..]
      ensures Values() == old(Values())[..at] + [node.value] + old(Values())[at..]
    {
      hide Distinct, ValuesOf;
      ghost var was := nodes;
      LinkIn(node, was, at);
      len := len + 1;
      nodes := was[..at] + [node] + was[at..];
      RelinkedWith(was, at, node);
      ValuesWith(was, at, node);
    }

    method DelNode(node: Node<V>, ghost k: nat)
      requires Valid() && k < |nodes| && nodes[k] == node
      modifies this, nodes`prev, nodes`next
      ensures Valid()
      ensures nodes == old(nodes)[..k] + old(nodes)[k + 1..]
      ensures Values() == old(Values())[..k] + old(Values())[k + 1..]
    {
      hide Distinct, ValuesOf;
      if k > 0 { OnlyAt(nodes, k - 1); }
      if k + 1 < |nodes| { OnlyAt(nodes, k + 1); }
      if node.prev != null { node.prev.next := node.next; } else { head := node.next; }
      if node.next != null { node.next.prev := node.prev; } else { tail := node.prev; }
      len := len - 1;
      ghost var was := nodes;
      nodes := was[..k] + was[k + 1..];
      RelinkedWithout(was, k);
      ValuesWithout(was, k);
    }

    method GetIterator(direction: Direction) returns (iter: Iter<V>)
      requires Valid()
      ensures fresh(iter) && iter.direction == direction
      ensures iter.next == At(nodes, if direction == FromHead then 0 else |nodes| - 1)
    {
      iter := new Iter(if direction == FromHead then head else tail, direction);
    }

    // Position 0 is the head; -1 is the tail and so on down from it.
    method Index(index: int) returns (n: Node?<V>)
      requires Valid()
      ensures n == At(nodes, if index < 0 then |nodes| + index else index)
    {
      if index < 0 {
        var i := -index - 1;
        n := tail;
        ghost var p := |nodes| - 1;
        while i != 0 && n != null
          invariant 0 <= i && n == At(nodes, p) && -1 <= p < |nodes|
          invariant p >= 0 ==> p - i == |nodes| + index
          invariant p < 0 ==> |nodes| + index < 0
          decreases i
        {
          n := n.prev;
          i, p := i - 1, p - 1;
        }
      } else {
        var i := index;
        n := head;
        ghost var p := 0;
        while i != 0 && n != null
          invariant 0 <= i && n == At(nodes, p) && 0 <= p <= |nodes|
          invariant p + i == index || p == |nodes| <= index
          decreases i
        {
          n := n.next;
          i, p := i - 1, p + 1;
        }
      }
    }

    // The first node whose value matches `key`, searching from the head; `same` is the match function of the
    // list, or equality.
    method SearchKey(key: V, same: (V, V) -> bool) returns (n: Node?<V>, ghost k: nat)
      requires Valid()
      ensures k <= |nodes| && n == At(nodes, k)
      ensures forall i | 0 <= i < k :: !same(Values()[i], key)
      ensures if n == null then forall v | v in Values() :: !same(v, key) else same(n.value, key)
    {
      hide Distinct;
      var iter := GetIterator(FromHead);
      k := 0;
      n := iter.Next();
      while n != null
        invariant k <= |nodes| && n == At(nodes, k) && fresh(iter) && Valid()
        invariant iter.direction == FromHead && iter.next == At(nodes, k + 1)
        invariant forall i | 0 <= i < k :: !same(nodes[i].value, key)
        decreases |nodes| - k
      {
        if same(n.value, key) { return; }
        n := iter.Next();
        k := k + 1;
      }
    }

    // Move the tail node to the head.
    method Rotate()
      requires Valid()
      modifies this, nodes`prev, nodes`next
      ensures Valid()
      ensures |old(nodes)| <= 1 ==> nodes == old(nodes) && Values() == old(Values())
      ensures var n := |old(nodes)|;
              n > 1 ==> nodes == [old(nodes)[n - 1]] + old(nodes)[..n - 1] &&
                        Values() == [old(Values())[n - 1]] + old(Values())[..n - 1]
    {
      hide Distinct, ValuesOf;
      if len <= 1 { return; }
      var last := tail;
      ghost var was := nodes;
      OnlyAt(was, 0);
      OnlyAt(was, len - 1);
      OnlyAt(was, len - 2);
      tail := last.prev;
      tail.next := null;
      head.prev := last;
      last.prev := null;
      last.next := head;
      head := last;
      nodes := [last] + was[..|was| - 1];
      Rotated(was);
      ValuesRotated(was);
    }

    lemma Rotated(was: seq<Node<V>>)
      requires Distinct(was) && |was| > 1 && nodes == [was[|was| - 1]] + was[..|was| - 1] && len == |nodes|
      requires head == was[|was| - 1] && tail == was[|was| - 2]
      requires forall i {:trigger was[i].next} | 0 <= i < |was| ::
                 was[i].next == At(was, if i == |was| - 1 then 0 else if i == |was| - 2 then -1 else i + 1)
      requires forall i {:trigger was[i].prev} | 0 <= i < |was| ::
                 was[i].prev == At(was, if i == |was| - 1 then -1 else if i == 0 then |was| - 1 else i - 1)
      ensures Valid()
    {
      DistinctRotated(was);
      hide Distinct;
      forall i | 0 <= i < |nodes| ensures nodes[i].next == At(nodes, i + 1) && nodes[i].prev == At(nodes, i - 1) {
        var j := if i == 0 then |was| - 1 else i - 1;
        assert nodes[i] == was[j];
        assert was[j].next == At(was, if j == |was| - 1 then 0 else if j == |was| - 2 then -1 else j + 1);
        assert was[j].prev == At(was, if j == |was| - 1 then -1 else if j == 0 then |was| - 1 else j - 1);
      }
    }
  }

  lemma DistinctRotated<V>(nodes: seq<Node<V>>)
    requires Distinct(nodes) && nodes != []
    ensures Distinct([nodes[|nodes| - 1]] + nodes[..|nodes| - 1])
  {
  }

  lemma ValuesRotated<V>(nodes: seq<Node<V>>)
    requires nodes != []
    ensures ValuesOf([nodes[|nodes| - 1]] + nodes[..|nodes| - 1]) ==
            [ValuesOf(nodes)[|nodes| - 1]] + ValuesOf(nodes)[..|nodes| - 1]
  {
  }
}
