/** The slot table of a cluster node and the bitmaps of the nodes it knows
    (redis-3.0.6/src/cluster.c), kept in step by every operation on slots. */
module ClusterSlots {
  import opened SlotBitmap
  import SlotConvergence
  import KeySlot

  const SLOTS: nat := KeySlot.SLOTS

  class ClusterNode {
    const slots: array<bv8>
    var numslots: nat
    var configEpoch: nat
    var isMaster: bool
    var slaveof: ClusterNode?

    constructor (isMaster: bool)
      ensures Valid() && Served() == {} && configEpoch == 0 && this.isMaster == isMaster && slaveof == null && fresh(slots)
    {
      slots := new bv8[SLOTS / 8](_ => 0);
      numslots, configEpoch, this.isMaster, slaveof := 0, 0, isMaster, null;
      new;
      assert Bits(slots[..]) == {};
    }

    ghost predicate Valid()
      reads this, slots
    {
      slots.Length == SLOTS / 8 && numslots == |Bits(slots[..])|
    }

    ghost function Served(): set<nat>
      reads slots
    {
      Bits(slots[..])
    }

    method SetSlotBit(slot: nat) returns (was: bool)
      requires Valid() && slot < SLOTS
      modifies this`numslots, slots
      ensures Valid() && Served() == old(Served()) + {slot} && was == (slot in old(Served()))
    {
      hide Bits;
      was := TestBit(slots, slot);
      SetBit(slots, slot);
      if !was { numslots := numslots + 1; }
      assert was ==> old(Served()) + {slot} == old(Served());
    }

    method ClearSlotBit(slot: nat) returns (was: bool)
      requires Valid() && slot < SLOTS
      modifies this`numslots, slots
      ensures Valid() && Served() == old(Served()) - {slot} && was == (slot in old(Served()))
    {
      hide Bits;
      was := TestBit(slots, slot);
      ClearBit(slots, slot);
      assert !was ==> old(Served()) - {slot} == old(Served());
      assert was ==> old(Served()) - {slot} + {slot} == old(Served());
      if was { numslots := numslots - 1; }
    }
  }

  // The slots a table gives to a node.
  ghost function SlotsOf(table: seq<ClusterNode?>, n: ClusterNode): set<nat> {
    set j | 0 <= j < |table| && table[j] == n
  }

  lemma SlotsOfAdded(table: seq<ClusterNode?>, slot: nat, n: ClusterNode, m: ClusterNode)
    requires slot < |table| && table[slot] == null
    ensures SlotsOf(table[slot := n], m) == if m == n then SlotsOf(table, m) + {slot} else SlotsOf(table, m)
  {
  }

  lemma SlotsOfDeleted(table: seq<ClusterNode?>, slot: nat, m: ClusterNode)
    requires slot < |table|
    ensures SlotsOf(table[slot := null], m) == if table[slot] == m then SlotsOf(table, m) - {slot} else SlotsOf(table, m)
  {
  }

  class ClusterState {
    const myself: ClusterNode
    const slots: array<ClusterNode?>
    var importing: seq<ClusterNode?>
    var migrating: seq<ClusterNode?>
    var nodes: set<ClusterNode>

    constructor (me: ClusterNode)
      requires me.Valid() && me.Served() == {} && me.slaveof == null
      ensures Valid() && nodes == {me} && myself == me && forall j | 0 <= j < SLOTS :: slots[j] == null
    {
      myself := me;
      slots := new ClusterNode?[SLOTS](_ => null);
      importing, migrating := seq(SLOTS, _ => null), seq(SLOTS, _ => null);
      nodes := {me};
    }

    ghost function Bitmaps(): set<object>
      reads this, nodes
    {
      set n | n in nodes :: n.slots
    }

    ghost predicate Shape()
      reads this, nodes
    {
      && myself in nodes
      && slots.Length == |importing| == |migrating| == SLOTS
      && (forall m, n | m in nodes && n in nodes && m != n :: m.slots != n.slots)
    }

    // The table names nodes of the cluster, and each node's bitmap and count say what the table says.
    ghost predicate Coherent()
      reads this, nodes, Bitmaps(), slots
    {
      && (forall j | 0 <= j < slots.Length :: slots[j] == null || slots[j] in nodes)
      && (forall n | n in nodes :: n.Valid() && n.Served() == SlotsOf(slots[..], n))
    }

    ghost predicate Valid()
      reads this, nodes, Bitmaps(), slots
    {
      Shape() && Coherent()
    }

    // ----- One slot -----

    method AddSlot(n: ClusterNode, slot: nat) returns (ok: bool)
      requires Valid() && n in nodes && slot < SLOTS
      modifies slots, n`numslots, n.slots
      ensures Valid()
      ensures ok == (old(slots[slot]) == null)
      ensures slots[..] == if ok then old(slots[..])[slot := n] else old(slots[..])
    {
      if slots[slot] != null { return false; }
      var _ := n.SetSlotBit(slot);
      slots[slot] := n;
      assert slots[..] == old(slots[..])[slot := n];
      forall m | m in nodes ensures m.Valid() && m.Served() == SlotsOf(slots[..], m) {
        SlotsOfAdded(old(slots[..]), slot, n, m);
      }
      return true;
    }

    // The bit of an assigned slot is always set, so the assertion on it never fails.
    method DelSlot(slot: nat) returns (ok: bool)
      requires Valid() && slot < SLOTS
      modifies slots, nodes`numslots, Bitmaps()
      ensures Valid()
      ensures ok == (old(slots[slot]) != null)
      ensures slots[..] == old(slots[..])[slot := null]
    {
      var n := slots[slot];
      if n == null {
        assert slots[..] == old(slots[..])[slot := null];
        return false;
      }
      var was := n.ClearSlotBit(slot);
      assert was;
      slots[slot] := null;
      assert slots[..] == old(slots[..])[slot := null];
      forall m | m in nodes ensures m.Valid() && m.Served() == SlotsOf(slots[..], m) {
        SlotsOfDeleted(old(slots[..]), slot, m);
      }
      return true;
    }

    // A slot changes hands.
    method MoveSlot(n: ClusterNode, slot: nat)
      requires Valid() && n in nodes && slot < SLOTS
      modifies slots, nodes`numslots, Bitmaps()
      ensures Valid() && slots[..] == old(slots[..])[slot := n]
    {
      var _ := DelSlot(slot);
      var ok := AddSlot(n, slot);
      assert slots[..] == old(slots[..])[slot := null][slot := n];
    }

    // All slots of a node are unassigned; the result is the number of slots looked at.
    method DelNodeSlots(node: ClusterNode) returns (deleted: nat)
      requires Valid() && node in nodes
      modifies slots, nodes`numslots, Bitmaps()
      ensures Valid() && deleted == SLOTS
      ensures slots[..] == Replaced(old(slots[..]), node, null) && node.Served() == {} && node.numslots == 0
    {
      hide Coherent;
      ghost var was := slots[..];
      deleted := 0;
      var j := 0;
      while j < SLOTS
        invariant 0 <= j <= SLOTS && deleted == j
        invariant Valid()
        invariant Partly(was, slots[..], Replaced(was, node, null), j)
      {
        DropSlot(node, j, was);
        deleted := deleted + 1;
        j := j + 1;
      }
      NoSlots(node);
    }

    method DropSlot(node: ClusterNode, j: nat, ghost was: seq<ClusterNode?>)
      requires Valid() && node in nodes && j < SLOTS && Partly(was, slots[..], Replaced(was, node, null), j)
      modifies slots, nodes`numslots, Bitmaps()
      ensures Valid() && Partly(was, slots[..], Replaced(was, node, null), j + 1)
    {
      var on := TestBit(node.slots, j);
      assert on == (j in SlotsOf(slots[..], node));
      hide Coherent, SlotsOf;
      if on { var _ := DelSlot(j); }
    }

    lemma NoSlots(n: ClusterNode)
      requires Valid() && n in nodes
      ensures n.numslots == |SlotsOf(slots[..], n)| && n.Served() == SlotsOf(slots[..], n)
      ensures (forall j | 0 <= j < SLOTS :: slots[j] != n) <==> n.numslots == 0
    {
      var served := SlotsOf(slots[..], n);
      assert n.Served() == served;
      if served == {} {
        forall j | 0 <= j < SLOTS ensures slots[j] != n { assert j !in served; }
      } else {
        var j :| j in served;
        assert slots[j] == n;
      }
    }

    // ----- Failover -----

    // Only masters serve slots.
    ghost predicate MastersServe()
      reads this, slots, nodes
    {
      forall j | 0 <= j < slots.Length :: slots[j] in nodes ==> slots[j].isMaster
    }

    // The promoted slave gets exactly the slots of its master.
    method FailoverReplaceYourMaster()
      requires Valid() && MastersServe() && myself.slaveof != myself && (myself.slaveof != null ==> myself.slaveof in nodes)
      modifies slots, myself`isMaster, myself`slaveof, nodes`numslots, Bitmaps()
      ensures Valid() && MastersServe() && nodes == old(nodes)
      ensures old(myself.isMaster || myself.slaveof == null) ==>
        slots[..] == old(slots[..]) && myself.isMaster == old(myself.isMaster) && myself.slaveof == old(myself.slaveof)
      ensures !old(myself.isMaster || myself.slaveof == null) ==>
        myself.isMaster && myself.slaveof == null && slots[..] == Replaced(old(slots[..]), old(myself.slaveof), myself)
    {
      if myself.isMaster || myself.slaveof == null { return; }
      var oldmaster := myself.slaveof;
      myself.isMaster, myself.slaveof := true, null;
      ClaimSlots(oldmaster);
    }

    method ClaimSlot(oldmaster: ClusterNode, j: nat, ghost was: seq<ClusterNode?>)
      requires Valid() && oldmaster in nodes && oldmaster != myself && j < SLOTS
      requires Partly(was, slots[..], Replaced(was, oldmaster, myself), j)
      modifies slots, nodes`numslots, Bitmaps()
      ensures Valid() && Partly(was, slots[..], Replaced(was, oldmaster, myself), j + 1)
    {
      var on := TestBit(oldmaster.slots, j);
      assert on == (j in SlotsOf(slots[..], oldmaster));
      if on { MoveSlot(myself, j); }
    }

    method ClaimSlots(oldmaster: ClusterNode)
      requires Valid() && oldmaster in nodes && oldmaster != myself
      modifies slots, nodes`numslots, Bitmaps()
      ensures Valid() && slots[..] == Replaced(old(slots[..]), oldmaster, myself)
    {
      hide Coherent;
      ghost var was, goal := slots[..], Replaced(slots[..], oldmaster, myself);
      var j := 0;
      while j < SLOTS
        invariant 0 <= j <= SLOTS
        invariant Valid()
        invariant Partly(was, slots[..], goal, j)
      {
        ClaimSlot(oldmaster, j, was);
        j := j + 1;
      }
    }

    // ----- Reconciling a claim -----

    // Whether a claim takes a slot from its owner.
    ghost predicate Rebinds(sender: ClusterNode, epoch: nat, claimed: seq<bv8>, j: nat)
      requires Valid() && |claimed| == SLOTS / 8 && j < SLOTS
      reads this, nodes, Bitmaps(), slots
    {
      SlotConvergence.Rebinds(Bit(claimed, j), importing[j] != null, slots[j] == null, slots[j] == sender,
                              if slots[j] == null then 0 else slots[j].configEpoch, epoch)
    }

    ghost function Rebound(sender: ClusterNode, epoch: nat, claimed: seq<bv8>): (after: seq<ClusterNode?>)
      requires Valid() && |claimed| == SLOTS / 8
      reads this, nodes, Bitmaps(), slots
      ensures |after| == SLOTS
    {
      seq(SLOTS, j requires 0 <= j < SLOTS && Valid() reads this, nodes, Bitmaps(), slots =>
        if Rebinds(sender, epoch, claimed, j) then sender else slots[j])
    }

    method RebindSlot(sender: ClusterNode, epoch: nat, claimed: seq<bv8>, j: nat) returns (rebound: bool)
      requires Valid() && sender in nodes && |claimed| == SLOTS / 8 && j < SLOTS
      modifies slots, nodes`numslots, Bitmaps()
      ensures Valid()
      ensures rebound == old(Rebinds(sender, epoch, claimed, j))
      ensures rebound <==> Bit(claimed, j) && importing[j] == null && old(slots[j]) != sender &&
                           (old(slots[j]) == null || old(slots[j]).configEpoch < epoch)
      ensures slots[..] == if rebound then old(slots[..])[j := sender] else old(slots[..])
    {
      rebound := false;
      if Bit(claimed, j) {
        var owner := slots[j];
        if owner == sender { return; }
        if importing[j] != null { return; }
        if owner == null || owner.configEpoch < epoch {
          rebound := true;
          MoveSlot(sender, j);
        }
      }
    }

    // What reconciling a claim leaves in every slot: an importing slot stays as it is; any other is the sender's
    // if it was, or if it is claimed and was unassigned or served under a smaller epoch; the rest stays.
    lemma ReboundMeans(sender: ClusterNode, epoch: nat, claimed: seq<bv8>, j: nat)
      requires Valid() && |claimed| == SLOTS / 8 && j < SLOTS
      ensures var after := Rebound(sender, epoch, claimed)[j];
        && (importing[j] != null ==> after == slots[j])
        && (importing[j] == null ==>
              (after == sender <==>
                slots[j] == sender || (Bit(claimed, j) && (slots[j] == null || slots[j].configEpoch < epoch))))
        && (after != sender ==> after == slots[j])
    {
      hide Coherent;
    }

    // What is left to do of a pass over the table.
    ghost predicate Remaining(sender: ClusterNode, epoch: nat, claimed: seq<bv8>, goal: seq<ClusterNode?>, j: nat)
      requires Valid() && |claimed| == SLOTS / 8
      reads this, nodes, Bitmaps(), slots
    {
      && |goal| == SLOTS
      && forall k | j <= k < SLOTS :: goal[k] == if Rebinds(sender, epoch, claimed, k) then sender else slots[k]
    }

    method PassSlot(sender: ClusterNode, epoch: nat, claimed: seq<bv8>, j: nat,
                    ghost was: seq<ClusterNode?>, ghost goal: seq<ClusterNode?>)
      returns (owner: ClusterNode?, rebound: bool)
      requires Valid() && sender in nodes && |claimed| == SLOTS / 8 && j < SLOTS
      requires |was| == |goal| == SLOTS && Remaining(sender, epoch, claimed, goal, j) && Partly(was, slots[..], goal, j)
      modifies slots, nodes`numslots, Bitmaps()
      ensures Valid()
      ensures Remaining(sender, epoch, claimed, goal, j + 1) && Partly(was, slots[..], goal, j + 1)
      ensures owner == was[j] && rebound == (goal[j] != was[j])
    {
      hide Coherent, SlotConvergence.Rebinds, Bit;
      owner := slots[j];
      rebound := RebindSlot(sender, epoch, claimed, j);
      assert forall k | j < k < SLOTS :: slots[..][k] == slots[k] == old(slots[k]);
      assert forall k | j < k < SLOTS :: Rebinds(sender, epoch, claimed, k) == old(Rebinds(sender, epoch, claimed, k));
    }

    // The pass over the claimed slots, which also tells if the node's master lost a slot to the sender, and
    // which slots with keys the node lost itself.
    method RebindSlots(sender: ClusterNode, epoch: nat, claimed: seq<bv8>, keys: seq<nat>, curmaster: ClusterNode?)
      returns (newmaster: bool, dirty: seq<nat>)
      requires Valid() && sender in nodes && |claimed| == SLOTS / 8 && |keys| == SLOTS
      modifies slots, nodes`numslots, Bitmaps()
      ensures Valid() && slots[..] == old(Rebound(sender, epoch, claimed))
      ensures forall j | 0 <= j < SLOTS :: old(importing)[j] != null ==> slots[j] == old(slots[j])
      ensures forall j | 0 <= j < SLOTS ::
        old(importing)[j] == null ==>
          (slots[j] == sender <==>
            old(slots[j]) == sender ||
            (Bit(claimed, j) && (old(slots[j]) == null || old(slots[j]).configEpoch < epoch)))
      ensures forall j | 0 <= j < SLOTS :: slots[j] != sender ==> slots[j] == old(slots[j])
      ensures newmaster == Lost(old(slots[..]), slots[..], curmaster, SLOTS)
      ensures dirty == Dirty(old(slots[..]), slots[..], myself, keys, SLOTS)
    {
      hide Valid, Remaining, Rebound, Partly;
      ghost var was, goal := slots[..], Rebound(sender, epoch, claimed);
      AllRemains(sender, epoch, claimed);
      AllRebound(sender, epoch, claimed);
      newmaster, dirty := false, [];
      var j := 0;
      while j < SLOTS
        invariant 0 <= j <= SLOTS
        invariant Valid() && Remaining(sender, epoch, claimed, goal, j)
        invariant Partly(was, slots[..], goal, j)
        invariant newmaster == Lost(was, goal, curmaster, j)
        invariant dirty == Dirty(was, goal, myself, keys, j)
      {
        var owner, rebound := PassSlot(sender, epoch, claimed, j, was, goal);
        if rebound && owner == myself && keys[j] > 0 { dirty := dirty + [j]; }
        if rebound && owner == curmaster { newmaster := true; }
        j := j + 1;
      }
      PartlyDone(was, slots[..], goal);
      assert forall j | 0 <= j < SLOTS :: slots[j] == goal[j];
    }

    lemma AllRebound(sender: ClusterNode, epoch: nat, claimed: seq<bv8>)
      requires Valid() && |claimed| == SLOTS / 8
      ensures var after := Rebound(sender, epoch, claimed);
        && (forall j | 0 <= j < SLOTS :: importing[j] != null ==> after[j] == slots[j])
        && (forall j | 0 <= j < SLOTS ::
              importing[j] == null ==>
                (after[j] == sender <==>
                  slots[j] == sender || (Bit(claimed, j) && (slots[j] == null || slots[j].configEpoch < epoch))))
        && (forall j | 0 <= j < SLOTS :: after[j] != sender ==> after[j] == slots[j])
    {
      hide Coherent, Rebound;
      forall j | 0 <= j < SLOTS
        ensures var after := Rebound(sender, epoch, claimed)[j];
          && (importing[j] != null ==> after == slots[j])
          && (importing[j] == null ==>
                (after == sender <==>
                  slots[j] == sender || (Bit(claimed, j) && (slots[j] == null || slots[j].configEpoch < epoch))))
          && (after != sender ==> after == slots[j])
      {
        ReboundMeans(sender, epoch, claimed, j);
      }
    }

    lemma AllRemains(sender: ClusterNode, epoch: nat, claimed: seq<bv8>)
      requires Valid() && |claimed| == SLOTS / 8
      ensures |slots[..]| == SLOTS
      ensures Remaining(sender, epoch, claimed, Rebound(sender, epoch, claimed), 0)
      ensures Partly(slots[..], slots[..], Rebound(sender, epoch, claimed), 0)
    {
      hide Coherent, Rebinds;
    }

    // The node becomes a replica; it serves no slots, so the assertions on it never fail.
    method SetMaster(n: ClusterNode)
      requires Valid() && n in nodes && n != myself && forall j | 0 <= j < SLOTS :: slots[j] != myself
      modifies this`importing, this`migrating, myself`isMaster, myself`slaveof
      ensures Valid() && !myself.isMaster && myself.slaveof == n
      ensures if old(myself.isMaster) then forall j | 0 <= j < SLOTS :: importing[j] == null && migrating[j] == null
              else importing == old(importing) && migrating == old(migrating)
    {
      NoSlots(myself);
      assert n != myself && myself.numslots == 0;
      if myself.isMaster {
        myself.isMaster := false;
        importing, migrating := seq(SLOTS, _ => null), seq(SLOTS, _ => null);
      }
      myself.slaveof := n;
    }

    // The master of the node, or the node itself if it is one.
    ghost function CurMaster(): ClusterNode?
      reads this, myself
    {
      if myself.isMaster then myself else myself.slaveof
    }

    // A slave that knows no master takes a slot that nobody serves for one its master lost.
    ghost predicate FollowsNull(sender: ClusterNode, claimed: seq<bv8>)
      requires Valid() && |claimed| == SLOTS / 8
      reads this, nodes, Bitmaps(), slots
    {
      sender != myself && CurMaster() == null &&
      exists j :: 0 <= j < SLOTS && Bit(claimed, j) && slots[j] == null && importing[j] == null
    }

    lemma FollowsNullIffLost(sender: ClusterNode, epoch: nat, claimed: seq<bv8>)
      requires Valid() && |claimed| == SLOTS / 8 && sender != myself && CurMaster() == null
      ensures FollowsNull(sender, claimed) <==> Lost(slots[..], Rebound(sender, epoch, claimed), null, SLOTS)
    {
      hide Coherent;
      var was, now := slots[..], Rebound(sender, epoch, claimed);
      forall j | 0 <= j < SLOTS
        ensures (was[j] == null && now[j] != null) == (Bit(claimed, j) && slots[j] == null && importing[j] == null)
      {
      }
    }

    // A configuration of the sender is reconciled with the table.  The node follows the sender if its master
    // lost its last slot to it; otherwise the keys of the slots it lost itself are deleted.  The code crashes,
    // with the slots already rebound, exactly for a slave without master and a claimed slot that is free.
    method UpdateSlotsConfigWith(sender: ClusterNode, epoch: nat, claimed: seq<bv8>, keys: seq<nat>)
      returns (crashed: bool, demoted: bool, deleted: seq<nat>)
      requires Valid() && MastersServe() && (CurMaster() != null ==> CurMaster() in nodes)
      requires sender in nodes && sender.isMaster && |claimed| == SLOTS / 8 && |keys| == SLOTS
      modifies slots, nodes`numslots, Bitmaps(), this`importing, this`migrating, myself`isMaster, myself`slaveof
      ensures Valid() && MastersServe()
      ensures sender == myself ==> slots[..] == old(slots[..]) && !demoted && deleted == []
      ensures sender != myself ==> slots[..] == old(Rebound(sender, epoch, claimed))
      ensures forall j | 0 <= j < SLOTS :: old(importing)[j] != null ==> slots[j] == old(slots[j])
      ensures forall j | 0 <= j < SLOTS ::
        sender != myself && old(importing)[j] == null ==>
          (slots[j] == sender <==>
            old(slots[j]) == sender ||
            (Bit(claimed, j) && (old(slots[j]) == null || old(slots[j]).configEpoch < epoch)))
      ensures forall j | 0 <= j < SLOTS :: slots[j] != sender ==> slots[j] == old(slots[j])
      ensures if demoted && old(myself.isMaster) then forall j | 0 <= j < SLOTS :: importing[j] == null && migrating[j] == null
              else importing == old(importing) && migrating == old(migrating)
      ensures crashed == old(FollowsNull(sender, claimed))
      ensures demoted == (sender != myself && old(CurMaster()) != null &&
                          Lost(old(slots[..]), slots[..], old(CurMaster()), SLOTS) && old(CurMaster()).numslots == 0)
      ensures if demoted then !myself.isMaster && myself.slaveof == sender
              else myself.isMaster == old(myself.isMaster) && myself.slaveof == old(myself.slaveof)
      ensures !crashed ==> deleted == if demoted then [] else Dirty(old(slots[..]), slots[..], myself, keys, SLOTS)
    {
      crashed, demoted, deleted := false, false, [];
      var curmaster := if myself.isMaster then myself else myself.slaveof;
      if sender == myself {
        SameNotDirty(slots[..], myself, keys, SLOTS);
        return;
      }
      if curmaster == null { FollowsNullIffLost(sender, epoch, claimed); }
      hide FollowsNull;
      var newmaster, dirty := RebindSlots(sender, epoch, claimed, keys, curmaster);
      if newmaster {
        if curmaster == null {
          crashed := true;
          return;
        }
        if curmaster.numslots == 0 {
          demoted := true;
          NoSlots(curmaster);
          SetMaster(sender);
          return;
        }
      }
      deleted := dirty;
    }

    // A master that says it is a slave now loses its slots.
    method TurnIntoSlave(node: ClusterNode)
      requires Valid() && MastersServe() && node in nodes && node.isMaster
      modifies slots, nodes`numslots, Bitmaps(), node`isMaster
      ensures Valid() && MastersServe() && !node.isMaster
      ensures slots[..] == Replaced(old(slots[..]), node, null)
    {
      var _ := DelNodeSlots(node);
      node.isMaster := false;
    }

    // One slot of the pass that forgets a node.
    method ForgetSlot(node: ClusterNode, j: nat, ghost was: seq<ClusterNode?>,
                      ghost imp: seq<ClusterNode?>, ghost mig: seq<ClusterNode?>)
      requires Valid() && node in nodes && j < SLOTS && |was| == |imp| == |mig| == SLOTS
      requires Partly(was, slots[..], Replaced(was, node, null), j)
      requires Partly(imp, importing, Replaced(imp, node, null), j) && Partly(mig, migrating, Replaced(mig, node, null), j)
      modifies slots, nodes`numslots, Bitmaps(), this`importing, this`migrating
      ensures Valid()
      ensures Partly(was, slots[..], Replaced(was, node, null), j + 1)
      ensures Partly(imp, importing, Replaced(imp, node, null), j + 1)
      ensures Partly(mig, migrating, Replaced(mig, node, null), j + 1)
    {
      PartlyOn(imp, importing, node, null, j);
      PartlyOn(mig, migrating, node, null, j);
      PartlyOn(was, slots[..], node, null, j);
      hide Partly, Replaced, Coherent;
      ForgetMoves(node, j);
      if slots[j] == node { var _ := DelSlot(j); }
    }

    method ForgetMoves(node: ClusterNode, j: nat)
      requires Valid() && j < SLOTS
      modifies this`importing, this`migrating
      ensures Valid()
      ensures importing == if old(importing)[j] == node then old(importing)[j := null] else old(importing)
      ensures migrating == if old(migrating)[j] == node then old(migrating)[j := null] else old(migrating)
    {
      if importing[j] == node { importing := importing[j := null]; }
      if migrating[j] == node { migrating := migrating[j := null]; }
    }

    // A node is removed: nothing refers to it afterwards.
    method DelNode(delnode: ClusterNode)
      requires Valid() && delnode in nodes && delnode != myself
      modifies this`nodes, this`importing, this`migrating, slots, nodes`numslots, nodes`slaveof, Bitmaps()
      ensures Valid() && nodes == old(nodes) - {delnode}
      ensures slots[..] == Replaced(old(slots[..]), delnode, null)
      ensures importing == Replaced(old(importing), delnode, null) && migrating == Replaced(old(migrating), delnode, null)
      ensures forall n | n in nodes :: n.slaveof == if old(n.slaveof) == delnode then null else old(n.slaveof)
    {
      hide Coherent, Replaced;
      ForgetSlots(delnode);
      forall j | 0 <= j < SLOTS ensures slots[j] != delnode { ReplacedNone(old(slots[..]), delnode, j); }
      Orphan(delnode);
      Unlink(delnode);
    }

    method Orphan(delnode: ClusterNode)
      requires Valid()
      modifies nodes`slaveof
      ensures Valid() && forall n | n in nodes :: n.slaveof == if old(n.slaveof) == delnode then null else old(n.slaveof)
    {
      forall n | n in nodes && n.slaveof == delnode { n.slaveof := null; }
      assert slots[..] == old(slots[..]);
      forall n | n in nodes ensures n.Valid() && n.Served() == old(n.Served()) {
        assert n.slots[..] == old(n.slots[..]) && n.numslots == old(n.numslots);
      }
    }

    method Unlink(delnode: ClusterNode)
      requires Valid() && delnode != myself && forall j | 0 <= j < SLOTS :: slots[j] != delnode
      modifies this`nodes
      ensures Valid() && nodes == old(nodes) - {delnode}
    {
      nodes := nodes - {delnode};
    }

    method ForgetSlots(delnode: ClusterNode)
      requires Valid() && delnode in nodes
      modifies slots, nodes`numslots, Bitmaps(), this`importing, this`migrating
      ensures Valid() && slots[..] == Replaced(old(slots[..]), delnode, null)
      ensures importing == Replaced(old(importing), delnode, null) && migrating == Replaced(old(migrating), delnode, null)
    {
      hide Coherent, Replaced;
      ghost var was, imp, mig := slots[..], importing, migrating;
      var j := 0;
      while j < SLOTS
        invariant 0 <= j <= SLOTS && Valid()
        invariant Partly(was, slots[..], Replaced(was, delnode, null), j)
        invariant Partly(imp, importing, Replaced(imp, delnode, null), j)
        invariant Partly(mig, migrating, Replaced(mig, delnode, null), j)
      {
        ForgetSlot(delnode, j, was, imp, mig);
        j := j + 1;
      }
    }
  }

  lemma ReplacedNone(table: seq<ClusterNode?>, from: ClusterNode, j: nat)
    requires j < |table|
    ensures Replaced(table, from, null)[j] != from
  {
  }

  lemma PartlyOn(was: seq<ClusterNode?>, now: seq<ClusterNode?>, from: ClusterNode, to: ClusterNode?, j: nat)
    requires Partly(was, now, Replaced(was, from, to), j) && j < |was|
    ensures Partly(was, if now[j] == from then now[j := to] else now, Replaced(was, from, to), j + 1)
  {
  }

  lemma SameNotDirty(table: seq<ClusterNode?>, n: ClusterNode, keys: seq<nat>, j: nat)
    requires |table| == |keys| && j <= |table|
    ensures Dirty(table, table, n, keys, j) == []
  {
  }

  // The slots lost with keys are all such slots, once and in order.
  lemma {:induction false} DirtyIsLost(was: seq<ClusterNode?>, now: seq<ClusterNode?>, n: ClusterNode, keys: seq<nat>, j: nat)
    requires |was| == |now| == |keys| && j <= |was|
    ensures var d := Dirty(was, now, n, keys, j);
      && (forall k: nat :: k in d <==> k < j && was[k] == n && now[k] != n && keys[k] > 0)
      && (forall a, b | 0 <= a < b < |d| :: d[a] < d[b])
  {
    if j > 0 {
      DirtyIsLost(was, now, n, keys, j - 1);
      var before := Dirty(was, now, n, keys, j - 1);
      assert forall a | 0 <= a < |before| :: before[a] in before;
    }
  }

  lemma PartlyDone(was: seq<ClusterNode?>, now: seq<ClusterNode?>, goal: seq<ClusterNode?>)
    requires |was| == |goal| && Partly(was, now, goal, |was|)
    ensures now == goal
  {
  }

  ghost predicate Lost(was: seq<ClusterNode?>, now: seq<ClusterNode?>, n: ClusterNode?, j: nat)
    requires |was| == |now| && j <= |was|
  {
    exists k :: 0 <= k < j && was[k] == n && now[k] != n
  }

  // The slots below j that a node lost with keys in them, in order.
  ghost function Dirty(was: seq<ClusterNode?>, now: seq<ClusterNode?>, n: ClusterNode, keys: seq<nat>, j: nat): seq<nat>
    requires |was| == |now| == |keys| && j <= |was|
  {
    if j == 0 then []
    else Dirty(was, now, n, keys, j - 1) + if was[j - 1] == n && now[j - 1] != n && keys[j - 1] > 0 then [j - 1] else []
  }

  // What the move means for the bitmaps: nothing is lost, nothing is left, nobody else is touched.
  lemma ReplacedSlots(table: seq<ClusterNode?>, from: ClusterNode, to: ClusterNode, n: ClusterNode)
    requires from != to
    ensures SlotsOf(Replaced(table, from, to), n) ==
      if n == to then SlotsOf(table, to) + SlotsOf(table, from) else if n == from then {} else SlotsOf(table, n)
  {
  }

  // The table with every slot of one node given to another, or to none.
  ghost function Replaced(table: seq<ClusterNode?>, from: ClusterNode, to: ClusterNode?): (after: seq<ClusterNode?>)
    ensures |after| == |table|
  {
    seq(|table|, j requires 0 <= j < |table| => if table[j] == from then to else table[j])
  }

  // A pass over the table has come to slot j.
  ghost predicate Partly(was: seq<ClusterNode?>, now: seq<ClusterNode?>, goal: seq<ClusterNode?>, j: nat)
    requires |was| == |goal|
  {
    |now| == |was| && j <= |was| && now == goal[..j] + was[j..]
  }
}
