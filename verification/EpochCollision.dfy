/** Collisions of configuration epochs (redis-3.0.6/src/cluster.c): masters that
    find another master with their epoch and a greater name take a new epoch.

    Masters are numbered by name, the greatest name first.  Packets may be sent
    at any time, delivered to anybody in any order, repeated or lost; nothing
    else changes an epoch. */
module EpochCollision {
  import opened Basics

  type Epoch = nat

  // One master: its epochs, the greatest epoch it has seen of each master, and as history the epochs it
  // held, those it gave up, and how often it took a new one.
  datatype Master = Master(
    currentEpoch: Epoch, configEpoch: Epoch, seen: seq<Epoch>,
    held: set<Epoch>, collided: set<Epoch>, bumps: nat)

  datatype Packet = Packet(from: nat, currentEpoch: Epoch, configEpoch: Epoch)

  datatype State = State(masters: seq<Master>, net: set<Packet>)

  datatype Action = Send(from: nat) | Deliver(packet: Packet, to: nat)

  function Max(a: nat, b: nat): nat { if a < b then b else a }

  // ----- What a packet does to the master `me` that gets it -----

  function Heard(m: Master, p: Packet): Master
    requires p.from < |m.seen|
  {
    m.(currentEpoch := Max(m.currentEpoch, p.currentEpoch), seen := m.seen[p.from := Max(m.seen[p.from], p.configEpoch)])
  }

  predicate Collides(me: nat, m: Master, p: Packet)
    requires p.from < |m.seen|
  {
    p.configEpoch == m.configEpoch && m.seen[p.from] == m.configEpoch && p.from < me
  }

  function Bumped(m: Master): Master {
    m.(currentEpoch := m.currentEpoch + 1, configEpoch := m.currentEpoch + 1,
       held := m.held + {m.currentEpoch + 1}, collided := m.collided + {m.configEpoch}, bumps := m.bumps + 1)
  }

  function Received(me: nat, m: Master, p: Packet): Master
    requires p.from < |m.seen|
  {
    var h := Heard(m, p);
    if Collides(me, h, p) then Bumped(h) else h
  }

  // ----- The steps -----

  ghost predicate WellFormed(s: State) {
    && (forall i | 0 <= i < |s.masters| :: |s.masters[i].seen| == |s.masters|)
    && (forall p | p in s.net :: p.from < |s.masters|)
  }

  ghost predicate Enabled(s: State, a: Action) {
    && WellFormed(s)
    && match a
       case Send(i) => i < |s.masters|
       case Deliver(p, to) => p in s.net && to < |s.masters| && to != p.from
  }

  function Fresh(s: State, i: nat): Packet
    requires i < |s.masters|
  {
    Packet(i, s.masters[i].currentEpoch, s.masters[i].configEpoch)
  }

  ghost function Step(s: State, a: Action): State
    requires Enabled(s, a)
  {
    match a
    case Send(i) => s.(net := s.net + {Fresh(s, i)})
    case Deliver(p, to) => s.(masters := s.masters[to := Received(to, s.masters[to], p)])
  }

  ghost predicate Initial(s: State) {
    && WellFormed(s) && s.net == {}
    && (forall i | 0 <= i < |s.masters| :: Starting(s.masters[i]))
    && (forall i, j | 0 <= i < |s.masters| && 0 <= j < |s.masters| :: s.masters[i].seen[j] <= s.masters[j].configEpoch)
  }

  ghost predicate Starting(m: Master) {
    m.configEpoch <= m.currentEpoch && m.held == {m.configEpoch} && m.collided == {} && m.bumps == 0
  }

  // ----- What every step keeps -----

  // A master gives up an epoch once at most, and holds one more than it took.
  ghost predicate MasterOk(m: Master) {
    && m.configEpoch <= m.currentEpoch && m.configEpoch in m.held
    && (forall e | e in m.collided :: e < m.configEpoch)
    && |m.collided| == m.bumps && |m.held| <= m.bumps + 1
  }

  // A packet tells an epoch its sender held, not greater than its present one.
  ghost predicate PacketOk(p: Packet, sender: Master) {
    p.configEpoch in sender.held && p.configEpoch <= sender.configEpoch
  }

  // Epochs given up by master i were held by masters of greater names.
  ghost function HeldBefore(masters: seq<Master>, i: nat): set<Epoch>
    requires i <= |masters|
  {
    if i == 0 then {} else HeldBefore(masters, i - 1) + masters[i - 1].held
  }

  ghost predicate Inv(s: State) {
    && WellFormed(s)
    && (forall i | 0 <= i < |s.masters| :: MasterOk(s.masters[i]))
    && (forall p | p in s.net :: PacketOk(p, s.masters[p.from]))
    && (forall i, j | 0 <= i < |s.masters| && 0 <= j < |s.masters| :: s.masters[i].seen[j] <= s.masters[j].configEpoch)
    && (forall i | 0 <= i < |s.masters| :: s.masters[i].collided <= HeldBefore(s.masters, i))
  }

  lemma InitialInv(s: State)
    requires Initial(s)
    ensures Inv(s)
  {
  }

  lemma SendInv(s: State, i: nat)
    requires Inv(s) && i < |s.masters|
    ensures Inv(Step(s, Send(i)))
  {
  }

  // A packet of a master only raises its epochs, and what it held it has held.
  ghost predicate Grown(m: Master, n: Master) {
    && |m.seen| == |n.seen| && m.held <= n.held && m.configEpoch <= n.configEpoch
  }

  lemma ReceivedOk(me: nat, m: Master, p: Packet)
    requires MasterOk(m) && p.from < |m.seen|
    ensures var n := Received(me, m, p); MasterOk(n) && Grown(m, n)
    ensures var n := Received(me, m, p); n.collided == m.collided || (p.from < me && n.collided == m.collided + {p.configEpoch})
  {
  }

  lemma {:induction false} HeldBeforeGrows(masters: seq<Master>, to: nat, n: Master, i: nat)
    requires to < |masters| && i <= |masters| && masters[to].held <= n.held
    ensures HeldBefore(masters, i) <= HeldBefore(masters[to := n], i)
  {
    if i > 0 { HeldBeforeGrows(masters, to, n, i - 1); }
  }

  lemma {:induction false} HeldBeforeHas(masters: seq<Master>, j: nat, i: nat)
    requires j < i <= |masters|
    ensures masters[j].held <= HeldBefore(masters, i)
  {
    if j < i - 1 { HeldBeforeHas(masters, j, i - 1); }
  }

  lemma DeliverCollided(s: State, p: Packet, to: nat, i: nat)
    requires Inv(s) && Enabled(s, Deliver(p, to)) && i < |s.masters|
    ensures var t := Step(s, Deliver(p, to)); t.masters[i].collided <= HeldBefore(t.masters, i)
  {
    hide MasterOk, Grown, Received;
    var n := Received(to, s.masters[to], p);
    assert MasterOk(s.masters[to]) && PacketOk(p, s.masters[p.from]);
    ReceivedOk(to, s.masters[to], p);
    assert s.masters[to].held <= n.held;
    HeldBeforeGrows(s.masters, to, n, i);
    if i == to && p.from < to {
      HeldBeforeHas(s.masters, p.from, to);
    }
  }

  // Packets sent and epochs seen stay behind the masters' own epochs.
  lemma ReceivedSeen(me: nat, m: Master, p: Packet, j: nat)
    requires p.from < |m.seen| && j < |m.seen|
    ensures var n := Received(me, m, p);
      |n.seen| == |m.seen| && (n.seen[j] == m.seen[j] || (j == p.from && n.seen[j] == p.configEpoch))
  {
  }

  lemma DeliverSeen(s: State, p: Packet, to: nat, i: nat, j: nat)
    requires Inv(s) && Enabled(s, Deliver(p, to)) && i < |s.masters| && j < |s.masters|
    ensures var t := Step(s, Deliver(p, to));
      |t.masters[i].seen| == |t.masters| && t.masters[i].seen[j] <= t.masters[j].configEpoch
  {
    hide MasterOk, Received, HeldBefore;
    assert MasterOk(s.masters[to]) && PacketOk(p, s.masters[p.from]);
    ReceivedOk(to, s.masters[to], p);
    ReceivedSeen(to, s.masters[to], p, j);
  }

  lemma DeliverInv(s: State, p: Packet, to: nat)
    requires Inv(s) && Enabled(s, Deliver(p, to))
    ensures Inv(Step(s, Deliver(p, to)))
  {
    hide MasterOk, Received, HeldBefore;
    var t := Step(s, Deliver(p, to));
    assert MasterOk(s.masters[to]);
    ReceivedOk(to, s.masters[to], p);
    forall i | 0 <= i < |t.masters| ensures t.masters[i].collided <= HeldBefore(t.masters, i) {
      DeliverCollided(s, p, to, i);
    }
    forall i, j | 0 <= i < |t.masters| && 0 <= j < |t.masters|
      ensures |t.masters[i].seen| == |t.masters| && t.masters[i].seen[j] <= t.masters[j].configEpoch
    {
      DeliverSeen(s, p, to, i, j);
    }
  }

  // ----- Runs -----

  ghost predicate Possible(s: State, run: seq<Action>)
    decreases |run|, 0
  {
    run == [] || (Possible(s, run[..|run| - 1]) && Enabled(After(s, run[..|run| - 1]), run[|run| - 1]))
  }

  ghost function After(s: State, run: seq<Action>): State
    requires Possible(s, run)
    decreases |run|, 1
  {
    if run == [] then s else Step(After(s, run[..|run| - 1]), run[|run| - 1])
  }

  lemma {:induction false} RunInv(s: State, run: seq<Action>)
    requires Initial(s) && Possible(s, run)
    ensures Inv(After(s, run))
  {
    hide Inv, Enabled, Step, Initial;
    if run == [] {
      InitialInv(s);
    } else {
      var last := run[|run| - 1];
      RunInv(s, run[..|run| - 1]);
      StepInv(After(s, run[..|run| - 1]), last);
    }
  }

  lemma StepInv(s: State, a: Action)
    requires Inv(s) && Enabled(s, a)
    ensures Inv(Step(s, a))
  {
    hide Inv, Step;
    match a
    case Send(i) => SendInv(s, i);
    case Deliver(p, to) => DeliverInv(s, p, to);
  }

  // ----- Termination -----

  lemma UnionSize(a: set<Epoch>, b: set<Epoch>)
    ensures |a + b| <= |a| + |b|
  {
    assert a + b == a + (b - a);
    SubsetSize(b - a, b);
  }

  lemma OneMaster(s: State, i: nat)
    requires Inv(s) && i < |s.masters|
    ensures |s.masters[i].held| <= |HeldBefore(s.masters, i)| + 1 && s.masters[i].bumps <= |HeldBefore(s.masters, i)|
  {
    hide HeldBefore;
    assert MasterOk(s.masters[i]);
    SubsetSize(s.masters[i].collided, HeldBefore(s.masters, i));
  }

  // The masters of the i greatest names hold fewer than 2^i epochs between them.
  lemma {:induction false} HeldBeforeBound(s: State, i: nat)
    requires Inv(s) && i <= |s.masters|
    ensures |HeldBefore(s.masters, i)| <= Power(2, i) - 1
  {
    hide Inv;
    if i > 0 {
      HeldBeforeBound(s, i - 1);
      OneMaster(s, i - 1);
      UnionSize(HeldBefore(s.masters, i - 1), s.masters[i - 1].held);
    }
  }

  ghost function BumpsOf(masters: seq<Master>, k: nat): nat
    requires k <= |masters|
  {
    if k == 0 then 0 else BumpsOf(masters, k - 1) + masters[k - 1].bumps
  }

  // All the bumps of the masters of the k greatest names, in any run.
  lemma {:induction false} AllBumpsBounded(s: State, run: seq<Action>, k: nat)
    requires Initial(s) && Possible(s, run) && k <= |After(s, run).masters|
    ensures BumpsOf(After(s, run).masters, k) + k + 1 <= Power(2, k)
  {
    hide Initial, Possible, After;
    if k > 0 {
      AllBumpsBounded(s, run, k - 1);
      BumpsBounded(s, run, k - 1);
    }
  }

  /** In every run, the master ranked k from the greatest name takes a new epoch
      at most 2^k - 1 times. */
  lemma BumpsBounded(s: State, run: seq<Action>, k: nat)
    requires Initial(s) && Possible(s, run) && k < |After(s, run).masters|
    ensures After(s, run).masters[k].bumps <= Power(2, k) - 1
  {
    hide Initial, Possible, After;
    RunInv(s, run);
    HeldBeforeBound(After(s, run), k);
    OneMaster(After(s, run), k);
  }

  // A master's epoch strictly rises at every bump, and a bump is on an epoch held under a greater name.
  lemma BumpRises(s: State, p: Packet, to: nat)
    requires Inv(s) && Enabled(s, Deliver(p, to))
    ensures var m := s.masters[to]; var n := Step(s, Deliver(p, to)).masters[to];
      if n.bumps == m.bumps then n.configEpoch == m.configEpoch
      else n.bumps == m.bumps + 1 && n.configEpoch > m.configEpoch && n.configEpoch > p.currentEpoch &&
           p.from < to && m.configEpoch in s.masters[p.from].held &&
           n.configEpoch == n.currentEpoch == 1 + Max(m.currentEpoch, p.currentEpoch)
  {
    hide HeldBefore;
    assert MasterOk(s.masters[to]) && PacketOk(p, s.masters[p.from]);
  }

  // ----- Quiescence -----

  // No master would take a new epoch if every master's current epochs were delivered to it.
  ghost predicate Quiet(s: State)
    requires WellFormed(s)
  {
    forall i, j | 0 <= i < |s.masters| && 0 <= j < |s.masters| && i != j ::
      Received(j, s.masters[j], Fresh(s, i)).configEpoch == s.masters[j].configEpoch
  }

  ghost predicate Distinct(s: State) {
    forall i, j | 0 <= i < j < |s.masters| :: s.masters[i].configEpoch != s.masters[j].configEpoch
  }

  lemma Delivered(s: State, i: nat, j: nat)
    requires Inv(s) && i < |s.masters| && j < |s.masters| && i != j
    ensures Received(j, s.masters[j], Fresh(s, i)).configEpoch != s.masters[j].configEpoch <==>
            i < j && s.masters[i].configEpoch == s.masters[j].configEpoch
  {
    hide HeldBefore;
    assert MasterOk(s.masters[j]);
    assert s.masters[j].seen[i] <= s.masters[i].configEpoch;
  }

  /** Nothing is left to resolve exactly when all masters' epochs are distinct. */
  lemma QuietIffDistinct(s: State, run: seq<Action>)
    requires Initial(s) && Possible(s, run)
    ensures WellFormed(After(s, run)) && (Quiet(After(s, run)) <==> Distinct(After(s, run)))
  {
    hide Initial, Possible, After, HeldBefore, Received, MasterOk;
    RunInv(s, run);
    var t := After(s, run);
    forall i, j | 0 <= i < |t.masters| && 0 <= j < |t.masters| && i != j
      ensures Received(j, t.masters[j], Fresh(t, i)).configEpoch != t.masters[j].configEpoch <==>
              i < j && t.masters[i].configEpoch == t.masters[j].configEpoch
    {
      Delivered(t, i, j);
    }
  }

  // ----- The handler -----

  class MasterNode {
    const rank: nat
    var currentEpoch: Epoch
    var configEpoch: Epoch
    var seen: seq<Epoch>
    ghost var held: set<Epoch>
    ghost var collided: set<Epoch>
    ghost var bumps: nat

    constructor (rank: nat, currentEpoch: Epoch, configEpoch: Epoch, seen: seq<Epoch>)
      requires configEpoch <= currentEpoch
      ensures Starting(Contents()) && Contents().seen == seen && Contents().configEpoch == configEpoch
    {
      this.rank, this.currentEpoch, this.configEpoch, this.seen := rank, currentEpoch, configEpoch, seen;
      held, collided, bumps := {configEpoch}, {}, 0;
    }

    ghost function Contents(): Master
      reads this
    {
      Master(currentEpoch, configEpoch, seen, held, collided, bumps)
    }

    // The epoch part of packet processing.
    method ProcessPacket(p: Packet)
      requires p.from < |seen|
      modifies this
      ensures Contents() == Received(rank, old(Contents()), p)
      ensures seen == old(seen)[p.from := if p.configEpoch > old(seen)[p.from] then p.configEpoch else old(seen)[p.from]]
      ensures var heard := if p.currentEpoch > old(currentEpoch) then p.currentEpoch else old(currentEpoch);
        if old(configEpoch) == p.configEpoch && old(seen)[p.from] <= p.configEpoch && p.from < rank
        then currentEpoch == configEpoch == heard + 1
        else currentEpoch == heard && configEpoch == old(configEpoch)
    {
      if p.currentEpoch > currentEpoch { currentEpoch := p.currentEpoch; }
      if p.configEpoch > seen[p.from] { seen := seen[p.from := p.configEpoch]; }
      if p.configEpoch == configEpoch { HandleConfigEpochCollision(p.from); }
    }

    method HandleConfigEpochCollision(sender: nat)
      requires sender < |seen|
      modifies this
      ensures Contents() == if old(seen[sender]) == old(configEpoch) && sender < rank
                            then Bumped(old(Contents())) else old(Contents())
      ensures if old(seen[sender]) == old(configEpoch) && sender < rank then currentEpoch == configEpoch == old(currentEpoch) + 1
              else currentEpoch == old(currentEpoch) && configEpoch == old(configEpoch)
    {
      if seen[sender] != configEpoch { return; }
      if sender >= rank { return; }
      held, collided, bumps := held + {currentEpoch + 1}, collided + {configEpoch}, bumps + 1;
      currentEpoch := currentEpoch + 1;
      configEpoch := currentEpoch;
    }
  }
}
