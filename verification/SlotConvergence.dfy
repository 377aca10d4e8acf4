/** How the slot table of a node converges (redis-3.0.6/src/cluster.c): masters
    claim slots under their configuration epochs, and the claims reach the node
    in PING/PONG and UPDATE packets in any order, any number of times.  The node
    imports no slot and makes no claim itself. */
module SlotConvergence {

  type NodeId = nat
  type Epoch = nat
  type Slot = nat

  datatype Claim = Claim(node: NodeId, epoch: Epoch, slots: set<Slot>)

  // What the node knows: who serves each assigned slot, and the greatest epoch heard of each node.
  datatype Table = Table(owner: map<Slot, NodeId>, epochs: map<NodeId, Epoch>)

  datatype Delivery = Ping(claim: Claim) | Update(claim: Claim)

  function EpochOf(t: Table, n: NodeId): Epoch { if n in t.epochs then t.epochs[n] else 0 }

  // The rule for one claimed slot: it is rebound if it is unassigned, or served under a smaller epoch.
  predicate Rebinds(claimed: bool, importing: bool, unassigned: bool, bySender: bool, ownerEpoch: Epoch, epoch: Epoch) {
    claimed && !bySender && !importing && (unassigned || ownerEpoch < epoch)
  }

  predicate Takes(t: Table, c: Claim, j: Slot) {
    var bound := j in t.owner;
    Rebinds(j in c.slots, false, !bound, bound && t.owner[j] == c.node,
            if bound then EpochOf(t, t.owner[j]) else 0, c.epoch)
  }

  function Reconcile(t: Table, c: Claim): Table {
    t.(owner := map j | j in t.owner.Keys + c.slots :: if Takes(t, c, j) || j !in t.owner then c.node else t.owner[j])
  }

  function Raise(t: Table, c: Claim): Table {
    if c.epoch > EpochOf(t, c.node) then t.(epochs := t.epochs[c.node := c.epoch]) else t
  }

  function Owned(t: Table, n: NodeId): set<Slot> { set j | j in t.owner && t.owner[j] == n }

  // A PING or PONG raises the sender's epoch; slots are looked at when the claim is not what is known.
  // An UPDATE is looked at only when its epoch is news.
  function Received(t: Table, d: Delivery): Table {
    match d
    case Ping(c) => if Owned(t, c.node) != c.slots then Reconcile(Raise(t, c), c) else Raise(t, c)
    case Update(c) => if EpochOf(t, c.node) >= c.epoch then t else Reconcile(Raise(t, c), c)
  }

  function After(ds: seq<Delivery>): Table {
    if ds == [] then Table(map[], map[]) else Received(After(ds[..|ds| - 1]), ds[|ds| - 1])
  }

  // ----- Claims -----

  ghost predicate DistinctEpochs(claims: set<Claim>) {
    forall c, d | c in claims && d in claims && c.epoch == d.epoch :: c == d
  }

  // Deliveries of these claims, each at least once in a PING or PONG.
  ghost predicate Delivers(claims: set<Claim>, ds: seq<Delivery>) {
    (forall d | d in ds :: d.claim in claims) && (forall c | c in claims :: Ping(c) in ds)
  }

  // The highest-epoch claim of a slot.
  ghost predicate Top(claims: set<Claim>, j: Slot, top: Claim) {
    top in claims && j in top.slots && forall c | c in claims && j in c.slots :: c.epoch <= top.epoch
  }

  // No other claimant of the slot makes any claim, of whatever slots, above the top claim.
  ghost predicate Unshadowed(claims: set<Claim>, j: Slot, top: Claim) {
    forall c, d | c in claims && d in claims && j in c.slots && c.node == d.node && c.node != top.node :: d.epoch < top.epoch
  }

  ghost predicate OneClaimEach(claims: set<Claim>) {
    forall c, d | c in claims && d in claims && c.node == d.node :: c == d
  }

  // ----- Deliveries of claims keep -----

  // Slots are owned by their claimants, and epochs are claimed epochs.
  ghost predicate Claimed(claims: set<Claim>, t: Table) {
    && (forall j | j in t.owner :: exists c :: c in claims && c.node == t.owner[j] && j in c.slots)
    && (forall n | n in t.epochs :: exists c :: c in claims && c.node == n && c.epoch == t.epochs[n])
  }

  lemma ReconcileClaimed(claims: set<Claim>, t: Table, c: Claim)
    requires Claimed(claims, t) && c in claims
    ensures Claimed(claims, Reconcile(t, c))
  {
  }

  lemma RaiseClaimed(claims: set<Claim>, t: Table, c: Claim)
    requires Claimed(claims, t) && c in claims
    ensures Claimed(claims, Raise(t, c))
  {
  }

  lemma ReceivedClaimed(claims: set<Claim>, t: Table, d: Delivery)
    requires Claimed(claims, t) && d.claim in claims
    ensures Claimed(claims, Received(t, d))
  {
    hide Claimed, Reconcile, Raise;
    RaiseClaimed(claims, t, d.claim);
    ReconcileClaimed(claims, Raise(t, d.claim), d.claim);
  }

  // The top claimant has the slot, and is known with at least the epoch of the top claim.
  ghost predicate Holds(t: Table, j: Slot, top: Claim) {
    j in t.owner && t.owner[j] == top.node && EpochOf(t, top.node) >= top.epoch
  }

  // Whoever else has the slot is known with a smaller epoch.
  lemma OthersBelow(claims: set<Claim>, t: Table, j: Slot, top: Claim)
    requires Claimed(claims, t) && Top(claims, j, top) && Unshadowed(claims, j, top)
    requires j in t.owner && t.owner[j] != top.node
    ensures EpochOf(t, t.owner[j]) < top.epoch
  {
    var c :| c in claims && c.node == t.owner[j] && j in c.slots;
    if t.owner[j] in t.epochs {
      var d :| d in claims && d.node == t.owner[j] && d.epoch == t.epochs[t.owner[j]];
    } else {
      assert c.epoch < top.epoch;
    }
  }

  lemma RaisedTop(claims: set<Claim>, t: Table, j: Slot, top: Claim, c: Claim)
    requires Holds(t, j, top)
    ensures Holds(Raise(t, c), j, top)
  {
  }

  lemma ReconcileKeeps(claims: set<Claim>, t: Table, j: Slot, top: Claim, c: Claim)
    requires Holds(t, j, top) && c in claims && Top(claims, j, top)
    ensures Holds(Reconcile(t, c), j, top)
  {
  }

  lemma ReconcileTakes(claims: set<Claim>, t: Table, j: Slot, top: Claim)
    requires Claimed(claims, t) && Top(claims, j, top) && Unshadowed(claims, j, top) && EpochOf(t, top.node) >= top.epoch
    ensures Holds(Reconcile(t, top), j, top)
  {
    hide Claimed, Unshadowed;
    if j in t.owner && t.owner[j] != top.node { OthersBelow(claims, t, j, top); }
  }

  lemma PingTakes(claims: set<Claim>, t: Table, j: Slot, top: Claim)
    requires Claimed(claims, t) && Top(claims, j, top) && Unshadowed(claims, j, top)
    ensures Holds(Received(t, Ping(top)), j, top)
  {
    hide Claimed, Unshadowed, Reconcile;
    RaiseClaimed(claims, t, top);
    ReconcileTakes(claims, Raise(t, top), j, top);
    if Owned(t, top.node) == top.slots {
      assert j in Owned(t, top.node);
    }
  }

  // So does an UPDATE whose epoch is news; one whose epoch is not changes nothing.
  lemma UpdateTakes(claims: set<Claim>, t: Table, j: Slot, top: Claim)
    requires Claimed(claims, t) && Top(claims, j, top) && Unshadowed(claims, j, top)
    ensures if EpochOf(t, top.node) < top.epoch then Holds(Received(t, Update(top)), j, top) else Received(t, Update(top)) == t
  {
    hide Claimed, Unshadowed, Reconcile;
    RaiseClaimed(claims, t, top);
    ReconcileTakes(claims, Raise(t, top), j, top);
  }

  lemma ReceivedKeeps(claims: set<Claim>, t: Table, j: Slot, top: Claim, d: Delivery)
    requires Holds(t, j, top) && d.claim in claims && Top(claims, j, top)
    ensures Holds(Received(t, d), j, top)
  {
    hide Holds, Raise, Reconcile, Top;
    RaisedTop(claims, t, j, top, d.claim);
    ReconcileKeeps(claims, Raise(t, d.claim), j, top, d.claim);
  }

  lemma {:induction false} RunHolds(claims: set<Claim>, ds: seq<Delivery>, j: Slot, top: Claim)
    requires (forall d | d in ds :: d.claim in claims) && Top(claims, j, top) && Unshadowed(claims, j, top)
    ensures Claimed(claims, After(ds)) && (Ping(top) in ds ==> Holds(After(ds), j, top))
  {
    hide Top, Unshadowed, Received, Holds;
    if ds != [] {
      var before, last := ds[..|ds| - 1], ds[|ds| - 1];
      assert ds == before + [last];
      RunHolds(claims, before, j, top);
      hide Claimed;
      ReceivedClaimed(claims, After(before), last);
      if last == Ping(top) {
        PingTakes(claims, After(before), j, top);
      } else if Ping(top) in ds {
        ReceivedKeeps(claims, After(before), j, top, last);
      }
    }
  }

  /** However the claims are delivered, a slot whose top claim is not shadowed ends
      with the node that made it. */
  lemma Converges(claims: set<Claim>, ds: seq<Delivery>, j: Slot, top: Claim)
    requires Delivers(claims, ds) && Top(claims, j, top) && Unshadowed(claims, j, top)
    ensures j in After(ds).owner && After(ds).owner[j] == top.node
  {
    hide After, Unshadowed;
    RunHolds(claims, ds, j, top);
  }

  // ----- And only then -----

  // A node with the slot that is known with an epoch above all claims to it keeps it.
  ghost predicate Keeps(t: Table, j: Slot, n: NodeId, top: Claim) {
    j in t.owner && t.owner[j] == n && EpochOf(t, n) >= top.epoch
  }

  lemma ReceivedKept(claims: set<Claim>, t: Table, j: Slot, n: NodeId, top: Claim, d: Delivery)
    requires Keeps(t, j, n, top) && d.claim in claims && Top(claims, j, top)
    ensures Keeps(Received(t, d), j, n, top)
  {
  }

  lemma {:induction false} RunKept(claims: set<Claim>, first: seq<Delivery>, rest: seq<Delivery>,
                                   j: Slot, n: NodeId, top: Claim)
    requires Keeps(After(first), j, n, top) && Top(claims, j, top) && forall d | d in rest :: d.claim in claims
    ensures Keeps(After(first + rest), j, n, top)
  {
    hide Keeps, Top, Received;
    if rest == [] {
      assert first + rest == first;
    } else {
      var before, last := rest[..|rest| - 1], rest[|rest| - 1];
      assert rest == before + [last];
      RunKept(claims, first, before, j, n, top);
      assert (first + rest)[..|first + rest| - 1] == first + before;
      ReceivedKept(claims, After(first + before), j, n, top, last);
    }
  }

  // The shadowing node is heard with its great epoch first, then with its claim of the slot.
  lemma ShadowFirst(j: Slot, c: Claim, d: Claim, top: Claim)
    requires c.node == d.node && j in c.slots && d.epoch >= top.epoch
    ensures Keeps(After([Ping(d), Ping(c)]), j, c.node, top)
  {
    AfterTwo(Ping(d), Ping(c));
    hide After, Received, Keeps;
    TwoPings(j, c, d, top);
  }

  lemma AfterTwo(a: Delivery, b: Delivery)
    ensures After([a, b]) == Received(Received(Table(map[], map[]), a), b)
  {
    hide Received;
    assert [a, b][..1] == [a];
    assert [a][..0] == [];
    assert After([a]) == Received(After([a][..0]), a);
  }

  lemma FirstPing(d: Claim)
    ensures var t := Received(Table(map[], map[]), Ping(d));
      EpochOf(t, d.node) >= d.epoch && forall j | j in t.owner :: t.owner[j] == d.node
  {
  }

  lemma TwoPings(j: Slot, c: Claim, d: Claim, top: Claim)
    requires c.node == d.node && j in c.slots && d.epoch >= top.epoch
    ensures Keeps(Received(Received(Table(map[], map[]), Ping(d)), Ping(c)), j, c.node, top)
  {
    FirstPing(d);
    var t := Received(Table(map[], map[]), Ping(d));
    SecondPing(t, j, c, top);
  }

  lemma SecondPing(t: Table, j: Slot, c: Claim, top: Claim)
    requires EpochOf(t, c.node) >= top.epoch && j in c.slots && forall j | j in t.owner :: t.owner[j] == c.node
    ensures Keeps(Received(t, Ping(c)), j, c.node, top)
  {
    assert Owned(t, c.node) == c.slots ==> j in Owned(t, c.node);
  }

  lemma {:induction false} AllPings(claims: set<Claim>) returns (ds: seq<Delivery>)
    ensures Delivers(claims, ds)
    decreases |claims|
  {
    if claims == {} {
      ds := [];
    } else {
      var c :| c in claims;
      ds := AllPings(claims - {c});
      assert claims == claims - {c} + {c};
      ds := ds + [Ping(c)];
    }
  }

  /** A shadowed slot does not converge: some deliveries of the same claims leave it
      with another node than the one of the top claim. */
  lemma Diverges(claims: set<Claim>, j: Slot, top: Claim) returns (ds: seq<Delivery>)
    requires Top(claims, j, top) && !Unshadowed(claims, j, top)
    ensures Delivers(claims, ds) && j in After(ds).owner && After(ds).owner[j] != top.node
  {
    var c, d :| c in claims && d in claims && j in c.slots && c.node == d.node && c.node != top.node && d.epoch >= top.epoch;
    var rest := AllPings(claims);
    hide After, Top, Unshadowed;
    ShadowFirst(j, c, d, top);
    RunKept(claims, [Ping(d), Ping(c)], rest, j, c.node, top);
    ds := [Ping(d), Ping(c)] + rest;
  }

  ghost predicate AlwaysConverges(claims: set<Claim>, j: Slot, top: Claim) {
    forall ds | Delivers(claims, ds) :: j in After(ds).owner && After(ds).owner[j] == top.node
  }

  /** Convergence, exactly: every delivery of the claims gives the slot to the node of
      its top claim if and only if that claim is not shadowed. */
  lemma ConvergesIffUnshadowed(claims: set<Claim>, j: Slot, top: Claim)
    requires Top(claims, j, top)
    ensures AlwaysConverges(claims, j, top) <==> Unshadowed(claims, j, top)
  {
    hide After, Top, Unshadowed, Delivers;
    if Unshadowed(claims, j, top) {
      forall ds | Delivers(claims, ds) ensures j in After(ds).owner && After(ds).owner[j] == top.node {
        Converges(claims, ds, j, top);
      }
    } else {
      var ds := Diverges(claims, j, top);
    }
  }

  /** When every node makes one claim, all under distinct epochs, every order and
      repetition of the deliveries converges to the same owners. */
  lemma OrderDoesNotMatter(claims: set<Claim>, ds: seq<Delivery>, es: seq<Delivery>)
    requires DistinctEpochs(claims) && OneClaimEach(claims) && Delivers(claims, ds) && Delivers(claims, es)
    ensures After(ds).owner == After(es).owner
  {
    hide After;
    forall j ensures j in After(ds).owner <==> j in After(es).owner
      ensures j in After(ds).owner ==> After(ds).owner[j] == After(es).owner[j]
    {
      SameOwner(claims, ds, es, j);
    }
  }

  lemma SameOwner(claims: set<Claim>, ds: seq<Delivery>, es: seq<Delivery>, j: Slot)
    requires DistinctEpochs(claims) && OneClaimEach(claims) && Delivers(claims, ds) && Delivers(claims, es)
    ensures j in After(ds).owner <==> j in After(es).owner
    ensures j in After(ds).owner ==> After(ds).owner[j] == After(es).owner[j]
  {
    hide After;
    if c :| c in claims && j in c.slots {
      var top := TopOf(claims, j, c);
      assert Unshadowed(claims, j, top);
      hide Top, Unshadowed, Delivers;
      Converges(claims, ds, j, top);
      Converges(claims, es, j, top);
    } else {
      NotOwned(claims, ds, j);
      NotOwned(claims, es, j);
    }
  }

  lemma {:induction false} NotOwned(claims: set<Claim>, ds: seq<Delivery>, j: Slot)
    requires (forall d | d in ds :: d.claim in claims) && forall c | c in claims :: j !in c.slots
    ensures j !in After(ds).owner
  {
    if ds != [] {
      var last := ds[|ds| - 1];
      assert last in ds;
      NotOwned(claims, ds[..|ds| - 1], j);
    }
  }

  lemma {:induction false} TopOf(claims: set<Claim>, j: Slot, c: Claim) returns (top: Claim)
    requires c in claims && j in c.slots
    ensures Top(claims, j, top)
    decreases |claims|
  {
    var rest := claims - {c};
    if d :| d in rest && j in d.slots {
      top := TopOf(rest, j, d);
      if top.epoch < c.epoch { top := c; }
    } else {
      top := c;
    }
  }

  // Distinct epochs alone are not enough: a node that moved from slots 1 and 2 under epoch 3 to slot 1 under
  // epoch 5 shadows the claim of slot 2 by another node under epoch 4.
  lemma DistinctEpochsDoNotSuffice()
    ensures var top := Claim(8, 4, {2}); var claims := {Claim(7, 3, {1, 2}), Claim(7, 5, {1}), top};
      DistinctEpochs(claims) && Top(claims, 2, top) && !AlwaysConverges(claims, 2, top)
  {
    var top := Claim(8, 4, {2});
    var claims := {Claim(7, 3, {1, 2}), Claim(7, 5, {1}), top};
    assert Top(claims, 2, top);
    assert Claim(7, 3, {1, 2}) in claims && Claim(7, 5, {1}) in claims;
    assert !Unshadowed(claims, 2, top);
    hide AlwaysConverges;
    ConvergesIffUnshadowed(claims, 2, top);
  }
}
