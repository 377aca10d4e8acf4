/** Failure reports of a cluster node (redis-3.0.6/src/cluster.c), kept in an
    `AdList`: one report per reporting node, stamped with the time it was last
    heard, and dropped while the list is being walked once it is too old. */
module FailReports {
  import opened AdList
  import opened ListWalk

  // REDIS_CLUSTER_FAIL_REPORT_VALIDITY_MULT
  const VALIDITY: int := 2

  type NodeId = nat
  datatype Report = Report(node: NodeId, time: int)

  predicate Fresh(r: Report, now: int, timeout: int) { now - r.time <= timeout * VALIDITY }

  // The reports that are still fresh, in order.
  function Keep(rs: seq<Report>, now: int, timeout: int): seq<Report> {
    if rs == [] then []
    else
      var front := Keep(rs[..|rs| - 1], now, timeout);
      if Fresh(rs[|rs| - 1], now, timeout) then front + [rs[|rs| - 1]] else front
  }

  // Exactly the fresh reports are kept.
  lemma {:induction false} KeepIsFresh(rs: seq<Report>, now: int, timeout: int, r: Report)
    ensures r in Keep(rs, now, timeout) <==> r in rs && Fresh(r, now, timeout)
    ensures r in Keep(rs, now, timeout) <==> r in rs && now - r.time <= 2 * timeout
  {
    assert Fresh(r, now, timeout) <==> now - r.time <= 2 * timeout;
    hide Fresh;
    if rs != [] {
      KeepIsFresh(rs[..|rs| - 1], now, timeout, r);
      assert rs == rs[..|rs| - 1] + [rs[|rs| - 1]];
    }
  }

  function TooOld(now: int, timeout: int): (nat, Report) -> bool { (_, r: Report) => now - r.time > timeout * VALIDITY }

  lemma {:induction false} KeptIsKeep(rs: seq<Report>, now: int, timeout: int)
    ensures Kept(rs, TooOld(now, timeout)) == Keep(rs, now, timeout)
  {
    if rs != [] {
      var front := rs[..|rs| - 1];
      KeptIsKeep(front, now, timeout);
      assert Keep(front, now, timeout) + [] == Keep(front, now, timeout);
    }
  }

  // Walk the list once, deleting the node just returned when it is too old.
  method CleanupFailureReports(l: List<Report>, now: int, timeout: int)
    requires l.Valid()
    modifies l, l.nodes`prev, l.nodes`next
    ensures l.Valid() && l.Values() == Keep(old(l.Values()), now, timeout)
    ensures forall n | n in l.nodes :: n in old(l.nodes)
  {
    hide Linked, ValuesOf, Keep, Kept;
    KeptIsKeep(l.Values(), now, timeout);
    var _ := Walk(l, FromHead, TooOld(now, timeout));
  }

  // ----- Adding, removing and counting reports -----

  ghost predicate OnePerNode(rs: seq<Report>) {
    forall i, j | 0 <= i < j < |rs| :: rs[i].node != rs[j].node
  }

  // The position of the first report from `sender`, or the length.
  function Find(rs: seq<Report>, sender: NodeId): (k: nat)
    ensures k <= |rs| && (k < |rs| ==> rs[k].node == sender) && forall i | 0 <= i < k :: rs[i].node != sender
  {
    if rs == [] || rs[0].node == sender then 0 else 1 + Find(rs[1..], sender)
  }

  function Added(rs: seq<Report>, sender: NodeId, now: int): seq<Report> {
    var k := Find(rs, sender);
    if k < |rs| then rs[k := Report(sender, now)] else rs + [Report(sender, now)]
  }

  function Removed(rs: seq<Report>, sender: NodeId): seq<Report> {
    var k := Find(rs, sender);
    if k < |rs| then rs[..k] + rs[k + 1..] else rs
  }

  method FindSender(l: List<Report>, sender: NodeId) returns (ln: Node?<Report>, ghost k: nat)
    requires l.Valid()
    ensures k == Find(l.Values(), sender) && ln == At(l.nodes, k)
  {
    hide Linked, ValuesOf, Find;
    var li := l.GetIterator(FromHead);
    k := 0;
    ln := StepOn(l, li, k);
    while ln != null
      invariant l.Valid() && fresh(li) && li.direction == FromHead
      invariant 0 <= k <= |l.nodes| && ln == At(l.nodes, k) && li.next == At(l.nodes, k + 1)
      invariant forall i | 0 <= i < k :: l.Values()[i].node != sender
      decreases |l.nodes| - k
    {
      if ln.value.node == sender { return; }
      k := k + 1;
      ln := StepOn(l, li, k);
    }
  }

  // A known reporter is only stamped again (false); a new one is added (true).
  method AddFailureReport(l: List<Report>, sender: NodeId, now: int) returns (added: bool)
    requires l.Valid()
    modifies l, l.nodes
    ensures l.Valid() && l.Values() == Added(old(l.Values()), sender, now)
    ensures added == (Find(old(l.Values()), sender) == |old(l.Values())|)
  {
    hide Distinct;
    var ln, k := FindSender(l, sender);
    if ln != null {
      OnlyAt(l.nodes, k);
      ln.value := Report(sender, now);
      return false;
    }
    l.AddNodeTail(Report(sender, now));
    return true;
  }

  method DelFailureReport(l: List<Report>, sender: NodeId, now: int, timeout: int) returns (found: bool)
    requires l.Valid()
    modifies l, l.nodes`prev, l.nodes`next
    ensures l.Valid() && found == (Find(old(l.Values()), sender) < |old(l.Values())|)
    ensures l.Values() == if found then Keep(Removed(old(l.Values()), sender), now, timeout) else old(l.Values())
  {
    hide Linked, ValuesOf, Keep;
    var ln, k := FindSender(l, sender);
    if ln == null { return false; }
    l.DelNode(ln, k);
    CleanupFailureReports(l, now, timeout);
    return true;
  }

  method FailureReportsCount(l: List<Report>, now: int, timeout: int) returns (count: nat)
    requires l.Valid()
    modifies l, l.nodes`prev, l.nodes`next
    ensures l.Valid() && l.Values() == Keep(old(l.Values()), now, timeout) && count == |l.Values()|
  {
    hide Linked, ValuesOf, Keep;
    CleanupFailureReports(l, now, timeout);
    count := l.len;
  }

  // ----- One report per reporting node, over every operation -----

  lemma AddedOnePerNode(rs: seq<Report>, sender: NodeId, now: int)
    requires OnePerNode(rs)
    ensures OnePerNode(Added(rs, sender, now))
    ensures Report(sender, now) in Added(rs, sender, now)
    ensures forall r | r in Added(rs, sender, now) :: r == Report(sender, now) || (r in rs && r.node != sender)
  {
    var k := Find(rs, sender);
    var a := Added(rs, sender, now);
    assert a[k] == Report(sender, now);
    forall i | 0 <= i < |a| ensures a[i] == Report(sender, now) || (a[i] in rs && a[i].node != sender) {
      if i != k { assert a[i] == rs[i]; }
    }
  }

  lemma RemovedOnePerNode(rs: seq<Report>, sender: NodeId)
    requires OnePerNode(rs)
    ensures OnePerNode(Removed(rs, sender))
    ensures forall r | r in Removed(rs, sender) :: r in rs && r.node != sender
  {
    var k := Find(rs, sender);
    var d := Removed(rs, sender);
    forall i | 0 <= i < |d| ensures d[i] in rs && d[i].node != sender {
      assert d[i] == if i < k then rs[i] else rs[i + 1];
    }
  }

  lemma {:induction false} KeepOnePerNode(rs: seq<Report>, now: int, timeout: int)
    requires OnePerNode(rs)
    ensures OnePerNode(Keep(rs, now, timeout))
  {
    hide Fresh;
    if rs != [] {
      var front, last := rs[..|rs| - 1], rs[|rs| - 1];
      KeepOnePerNode(front, now, timeout);
      forall r | r in Keep(front, now, timeout) ensures r.node != last.node {
        KeepIsFresh(front, now, timeout, r);
      }
    }
  }
}
