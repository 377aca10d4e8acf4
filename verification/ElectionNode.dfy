/** The election handlers of one cluster node (redis-3.0.6/src/cluster.c), each
    proved to do to the node's fields what the protocol of `Election` says.
    Clocks, the random delay and the replication link are parameters. */
module ElectionNode {
  import opened Basics
  import opened Election
  import KeySlot

  // What a node knows of another node.
  datatype Peer = Peer(
    isMaster: bool, slaveof: Option<NodeId>, failed: bool, numslots: nat,
    configEpoch: Epoch, replOffset: int, slaves: seq<NodeId>, votedTime: int)

  // The header of a vote request.
  datatype Request = Request(currentEpoch: Epoch, configEpoch: Epoch, claimed: seq<bool>, forceAck: bool)

  // The replication link of a slave to its master, and the settings about its age; times are in seconds.
  datatype Link = Link(
    connected: bool, unixtime: int, lastInteraction: int, downSince: int, validityFactor: int, pingPeriod: int)

  // The data is older than allowed, not counting the node timeout; nodeTimeout is in milliseconds.
  predicate DataTooOld(l: Link, nodeTimeout: int) {
    var age := 1000 * (l.unixtime - if l.connected then l.lastInteraction else l.downSince);
    var counted := if age > nodeTimeout then age - nodeTimeout else age;
    l.validityFactor != 0 && counted > 1000 * l.pingPeriod + nodeTimeout * l.validityFactor
  }

  // The data is too old if the master was heard, or lost, longer ago than the limit; the node timeout comes on
  // top once it has passed.
  method CheckDataAge(l: Link, nodeTimeout: int) returns (tooOld: bool)
    ensures tooOld == DataTooOld(l, nodeTimeout)
    ensures l.validityFactor == 0 ==> !tooOld
    ensures var since := if l.connected then l.lastInteraction else l.downSince;
      var age, limit := 1000 * (l.unixtime - since), 1000 * l.pingPeriod + nodeTimeout * l.validityFactor;
      l.validityFactor != 0 ==> (tooOld <==> if age > nodeTimeout then age > limit + nodeTimeout else age > limit)
  {
    var age := if l.connected then (l.unixtime - l.lastInteraction) * 1000 else (l.unixtime - l.downSince) * 1000;
    if age > nodeTimeout { age := age - nodeTimeout; }
    tooOld := l.validityFactor != 0 && age > l.pingPeriod * 1000 + nodeTimeout * l.validityFactor;
  }

  // What a run of the failover handler did.
  datatype Outcome = NoReason | TooOld | Scheduling | Waiting | Expired | Asking | ShortOfVotes | Winning

  class Node {
    const myself: NodeId
    var currentEpoch: Epoch
    var lastVoteEpoch: Epoch
    var authTime: int
    var authCount: nat
    var authSent: bool
    var authRank: nat
    var authEpoch: Epoch
    var mfEnd: int
    var mfCanStart: bool
    var known: map<NodeId, Peer>
    var slots: seq<Option<NodeId>>

    constructor (id: NodeId, me: Peer)
      requires me.slaveof == None && me.slaves == []
      ensures Valid() && View() == Election.View(0, 0, 0, 0, false)
    {
      myself := id;
      currentEpoch, lastVoteEpoch, authEpoch := 0, 0, 0;
      authTime, authCount, authSent, authRank := 0, 0, false, 0;
      mfEnd, mfCanStart := 0, false;
      known := map[id := me];
      slots := seq(KeySlot.SLOTS, _ => None);
    }

    ghost predicate Valid()
      reads this
    {
      && myself in known && |slots| == KeySlot.SLOTS
      && (forall j | 0 <= j < |slots| :: slots[j].Some? ==> slots[j].value in known)
      && (forall n | n in known :: known[n].slaveof.Some? ==> known[n].slaveof.value in known)
      && (forall n | n in known :: Slaves(known, n))
    }

    ghost function View(): Election.View
      reads this
    {
      Election.View(currentEpoch, lastVoteEpoch, authEpoch, authCount, authSent)
    }

    // ----- The header of any packet from a known node -----

    method HearHeader(epoch: Epoch)
      requires Valid()
      modifies `currentEpoch
      ensures Valid() && View() == Heard(old(View()), epoch)
      ensures currentEpoch >= epoch && currentEpoch >= old(currentEpoch) && currentEpoch in {epoch, old(currentEpoch)}
    {
      if epoch > currentEpoch { currentEpoch := epoch; }
    }

    // ----- Voting -----

    // Every condition of a vote that is not about epochs of elections.
    ghost predicate Willing(from: NodeId, r: Request, now: int, nodeTimeout: int)
      requires Valid() && from in known && |r.claimed| == KeySlot.SLOTS
      reads this
    {
      && known[myself].isMaster && known[myself].numslots > 0
      && !known[from].isMaster && known[from].slaveof.Some?
      && (known[known[from].slaveof.value].failed || r.forceAck)
      && now - known[known[from].slaveof.value].votedTime >= nodeTimeout * 2
      && forall j | 0 <= j < KeySlot.SLOTS :: UpToDate(slots, known, r, j)
    }

    // The vote request handler.  It grants at most one vote per epoch, only to an up-to-date slave of a
    // failed master (or one asking by hand), and a granted vote is the protocol's.
    method SendFailoverAuthIfNeeded(from: NodeId, r: Request, now: int, nodeTimeout: int) returns (granted: bool)
      requires Valid() && from in known && |r.claimed| == KeySlot.SLOTS
      modifies `lastVoteEpoch, `known
      ensures Valid() && known.Keys == old(known.Keys)
      ensures granted == (old(Willing(from, r, now, nodeTimeout)) && MayVote(old(View()), r.currentEpoch))
      ensures View() == if granted then Voted(old(View())) else old(View())
      ensures known == if granted then VotedAt(old(known), from, now) else old(known)
      ensures lastVoteEpoch == if granted then currentEpoch else old(lastVoteEpoch)
      ensures granted <==>
        && old(known)[myself].isMaster && old(known)[myself].numslots > 0
        && r.currentEpoch >= currentEpoch && old(lastVoteEpoch) != currentEpoch
        && !old(known)[from].isMaster && old(known)[from].slaveof.Some?
        && var master := old(known)[from].slaveof.value;
           && (old(known)[master].failed || r.forceAck) && now - old(known)[master].votedTime >= 2 * nodeTimeout
           && forall j | 0 <= j < KeySlot.SLOTS && r.claimed[j] && slots[j].Some? ::
                old(known)[slots[j].value].configEpoch <= r.configEpoch
      ensures granted ==> known[old(known)[from].slaveof.value].votedTime == now
    {
      granted := false;
      if !known[myself].isMaster || known[myself].numslots == 0 { return; }
      if r.currentEpoch < currentEpoch { return; }
      if lastVoteEpoch == currentEpoch { return; }
      if known[from].isMaster || known[from].slaveof.None? { return; }
      var master := known[from].slaveof.value;
      if !known[master].failed && !r.forceAck { return; }
      if now - known[master].votedTime < nodeTimeout * 2 { return; }
      var upToDate := ClaimsUpToDate(r);
      if !upToDate { return; }
      granted := true;
      lastVoteEpoch := currentEpoch;
      known := known[master := known[master].(votedTime := now)];
    }

    // No claimed slot is served, as far as this node knows, under a greater epoch than the request's.
    method ClaimsUpToDate(r: Request) returns (all: bool)
      requires Valid() && |r.claimed| == KeySlot.SLOTS
      ensures all == forall j | 0 <= j < KeySlot.SLOTS :: UpToDate(slots, known, r, j)
      ensures all <==> forall j | 0 <= j < KeySlot.SLOTS && r.claimed[j] && slots[j].Some? ::
                         known[slots[j].value].configEpoch <= r.configEpoch
    {
      var j := 0;
      while j < KeySlot.SLOTS
        invariant 0 <= j <= KeySlot.SLOTS
        invariant forall i | 0 <= i < j :: UpToDate(slots, known, r, i)
        invariant forall i | 0 <= i < j && r.claimed[i] && slots[i].Some? :: known[slots[i].value].configEpoch <= r.configEpoch
      {
        if r.claimed[j] && slots[j].Some? && known[slots[j].value].configEpoch > r.configEpoch {
          assert !UpToDate(slots, known, r, j);
          return false;
        }
        j := j + 1;
      }
      return true;
    }

    // ----- Counting votes -----

    method ReceiveAck(from: NodeId, epoch: Epoch)
      requires Valid() && from in known
      modifies `authCount
      ensures Valid()
      ensures View() == if known[from].isMaster && known[from].numslots > 0 && Countable(old(View()), epoch)
                        then Counted(old(View())) else old(View())
      ensures authCount == old(authCount) +
        if known[from].isMaster && known[from].numslots > 0 && epoch >= authEpoch then 1 else 0
    {
      if known[from].isMaster && known[from].numslots > 0 && epoch >= authEpoch {
        authCount := authCount + 1;
      }
    }

    // ----- The failover of a slave -----

    // The number of other slaves of the same master that claim more data.
    ghost function Rank(offset: int): nat
      requires Valid() && known[myself].slaveof.Some?
      reads this
    {
      |Ahead(known, known[known[myself].slaveof.value].slaves, myself, offset)|
    }

    // The rank of a scheduled attempt: it only gets worse, while no vote was asked for and none by hand.
    ghost function LaterRank(offset: int): nat
      requires Valid() && known[myself].slaveof.Some?
      reads this
    {
      if !authSent && mfEnd == 0 && Rank(offset) > authRank then Rank(offset) else authRank
    }

    method SlaveRank(offset: int) returns (rank: nat)
      requires Valid() && known[myself].slaveof.Some?
      ensures rank == Rank(offset)
      ensures var slaves := known[known[myself].slaveof.value].slaves;
        rank == |set k | k in slaves && k != myself && known[k].replOffset > offset|
    {
      var slaves := known[known[myself].slaveof.value].slaves;
      assert Slaves(known, known[myself].slaveof.value);
      rank := 0;
      var j := 0;
      while j < |slaves|
        invariant 0 <= j <= |slaves|
        invariant rank == |Ahead(known, slaves[..j], myself, offset)|
      {
        AheadGrows(known, slaves, j, myself, offset);
        if slaves[j] != myself && known[slaves[j]].replOffset > offset { rank := rank + 1; }
        j := j + 1;
      }
      assert slaves[..j] == slaves;
      assert (set k | k in slaves && k != myself && known[k].replOffset > offset) == Ahead(known, slaves, myself, offset);
    }

    ghost predicate Manual() reads this { mfEnd != 0 && mfCanStart }

    // There is a master to replace: it failed or asked for it, and it serves slots.
    ghost predicate MasterLost()
      requires Valid()
      reads this
    {
      && !known[myself].isMaster && known[myself].slaveof.Some?
      && (known[known[myself].slaveof.value].failed || Manual())
      && known[known[myself].slaveof.value].numslots > 0
    }

    method CheckMaster() returns (lost: bool)
      requires Valid()
      ensures lost == MasterLost()
      ensures lost <==> && !known[myself].isMaster && known[myself].slaveof.Some?
                        && var master := known[known[myself].slaveof.value];
                           (master.failed || (mfEnd != 0 && mfCanStart)) && master.numslots > 0
    {
      if known[myself].isMaster || known[myself].slaveof.None? { return false; }
      var master := known[known[myself].slaveof.value];
      lost := (master.failed || (mfEnd != 0 && mfCanStart)) && master.numslots != 0;
    }

    // A new attempt is scheduled, later for a slave with less data, at once when asked for by hand.
    method ScheduleAttempt(now: int, jitter: int, offset: int)
      requires Valid() && MasterLost()
      modifies `authTime, `authCount, `authSent, `authRank
      ensures Valid() && View() == Scheduled(old(View()))
      ensures authTime == if mfEnd != 0 then now else now + 500 + jitter + authRank * 1000
      ensures authRank == if mfEnd != 0 then 0 else old(Rank(offset))
      ensures authCount == 0 && !authSent
    {
      authTime := now + 500 + jitter;
      authCount, authSent := 0, false;
      authRank := SlaveRank(offset);
      authTime := authTime + authRank * 1000;
      if mfEnd != 0 { authTime, authRank := now, 0; }
    }

    // A worse rank since then delays the attempt further; it is never brought forward.
    method UpdateRank(offset: int)
      requires Valid() && MasterLost()
      modifies `authTime, `authRank
      ensures Valid() && View() == old(View())
      ensures authRank == old(LaterRank(offset)) && authTime == old(authTime) + 1000 * (authRank - old(authRank))
      ensures authRank == if !authSent && mfEnd == 0 && old(Rank(offset) > authRank) then old(Rank(offset)) else old(authRank)
    {
      if !authSent && mfEnd == 0 {
        var newRank := SlaveRank(offset);
        if newRank > authRank {
          authTime := authTime + (newRank - authRank) * 1000;
          authRank := newRank;
        }
      }
    }

    // Votes are asked for under a new epoch.
    method StartAttempt()
      requires Valid()
      modifies `currentEpoch, `authEpoch, `authSent
      ensures Valid() && View() == Started(old(View()))
      ensures currentEpoch == old(currentEpoch) + 1 && authEpoch == currentEpoch && authSent
    {
      currentEpoch := currentEpoch + 1;
      authEpoch := currentEpoch;
      authSent := true;
    }

    // The winner's configuration epoch is the election's, or a greater one it had.
    method AdoptEpoch()
      requires Valid()
      modifies `known
      ensures Valid() && known == WithEpoch(old(known), myself, authEpoch)
      ensures var before := old(known)[myself];
        known == old(known)[myself := before.(configEpoch :=
                                              if before.configEpoch < authEpoch then authEpoch else before.configEpoch)]
    {
      if known[myself].configEpoch < authEpoch {
        known := known[myself := known[myself].(configEpoch := authEpoch)];
      }
    }

    // The failover handler, whose every outcome is no step or one step of the protocol: a new attempt, votes
    // asked for under a new epoch, or a win with a quorum of counted votes.
    method HandleSlaveFailover(now: int, nodeTimeout: int, jitter: int, link: Link, offset: int, size: nat)
      returns (outcome: Outcome)
      requires Valid() && 0 <= jitter < 500
      modifies `currentEpoch, `authTime, `authCount, `authSent, `authRank, `authEpoch, `known
      ensures Valid()
      ensures known == if outcome == Winning then WithEpoch(old(known), myself, authEpoch) else old(known)
      ensures outcome == Scheduling ==> View() == Scheduled(old(View()))
      ensures outcome == Asking ==> View() == Started(old(View()))
      ensures outcome !in {Scheduling, Asking} ==> View() == old(View())
      ensures outcome == NoReason <==> !old(MasterLost())
      ensures outcome in {NoReason, TooOld} ==> authRank == old(authRank) && authTime == old(authTime)
      ensures outcome == Scheduling ==> authRank == if mfEnd != 0 then 0 else old(Rank(offset))
      ensures outcome !in {NoReason, TooOld, Scheduling} ==>
        authRank == old(LaterRank(offset)) && authTime == old(authTime) + 1000 * (authRank - old(authRank))
      ensures outcome == Scheduling <==>
        && old(MasterLost()) && !(DataTooOld(link, nodeTimeout) && !Manual())
        && now - old(authTime) > 4 * nodeTimeout && now - old(authTime) > 4000
      ensures outcome == Scheduling ==>
        (if mfEnd != 0 then authTime == now else now + 500 <= authTime - 1000 * authRank < now + 1000)
      ensures outcome in {Asking, ShortOfVotes, Winning} ==>
        authTime <= now && (now - old(authTime) <= 2 * nodeTimeout || now - old(authTime) <= 2000)
      ensures outcome == Asking ==> !old(authSent)
      ensures outcome == Winning <==> outcome in {ShortOfVotes, Winning} && old(authSent) && authCount >= size / 2 + 1
      ensures outcome == ShortOfVotes ==> old(authSent)
      ensures outcome == TooOld <==> old(MasterLost()) && DataTooOld(link, nodeTimeout) && !Manual()
      ensures outcome == Waiting ==> now < authTime
      ensures outcome == Expired ==> authTime <= now && now - old(authTime) > 2 * nodeTimeout && now - old(authTime) > 2000
    {
      hide Valid, MasterLost, DataTooOld, Rank, LaterRank;
      var lost := CheckMaster();
      if !lost { return NoReason; }
      var tooOld := CheckDataAge(link, nodeTimeout);
      if tooOld && !(mfEnd != 0 && mfCanStart) { return TooOld; }
      outcome := Attempt(now, if nodeTimeout * 2 < 2000 then 2000 else nodeTimeout * 2, jitter, offset, size);
    }

    // The part of the handler that deals with the attempt; `timeout` is how long one is good for.
    method Attempt(now: int, timeout: int, jitter: int, offset: int, size: nat) returns (outcome: Outcome)
      requires Valid() && MasterLost() && 0 <= jitter < 500
      modifies `currentEpoch, `authTime, `authCount, `authSent, `authRank, `authEpoch, `known
      ensures Valid() && outcome !in {NoReason, TooOld}
      ensures known == if outcome == Winning then WithEpoch(old(known), myself, authEpoch) else old(known)
      ensures outcome == Scheduling ==> View() == Scheduled(old(View()))
      ensures outcome == Asking ==> View() == Started(old(View()))
      ensures outcome !in {Scheduling, Asking} ==> View() == old(View())
      ensures outcome == Scheduling <==> now - old(authTime) > 2 * timeout
      ensures outcome == Scheduling ==>
        && (authRank == if mfEnd != 0 then 0 else old(Rank(offset)))
        && (if mfEnd != 0 then authTime == now else now + 500 <= authTime - 1000 * authRank < now + 1000)
      ensures outcome != Scheduling ==>
        && authRank == old(LaterRank(offset)) && authTime == old(authTime) + 1000 * (authRank - old(authRank))
        && (outcome == Waiting <==> now < authTime)
        && (outcome == Expired <==> authTime <= now && now - old(authTime) > timeout)
        && (outcome == Asking <==> authTime <= now && now - old(authTime) <= timeout && !old(authSent))
        && (outcome == Winning ==> authCount >= size / 2 + 1)
        && (outcome == ShortOfVotes ==> authCount < size / 2 + 1)
    {
      hide Valid, MasterLost, Rank, LaterRank;
      var authAge := now - authTime;
      if authAge > timeout * 2 {
        ScheduleAttempt(now, jitter, offset);
        return Scheduling;
      }
      UpdateRank(offset);
      if now < authTime { return Waiting; }
      if authAge > timeout { return Expired; }
      if !authSent {
        StartAttempt();
        return Asking;
      }
      if authCount < size / 2 + 1 { return ShortOfVotes; }
      AdoptEpoch();
      return Winning;
    }
  }

  // The slaves of a node are known and listed once.
  ghost predicate Slaves(known: map<NodeId, Peer>, n: NodeId)
    requires n in known
  {
    var l := known[n].slaves;
    (forall k | k in l :: k in known) && (forall i, j | 0 <= i < j < |l| :: l[i] != l[j])
  }

  ghost predicate UpToDate(slots: seq<Option<NodeId>>, known: map<NodeId, Peer>, r: Request, j: nat)
    requires j < |slots| && j < |r.claimed| && (slots[j].Some? ==> slots[j].value in known)
  {
    r.claimed[j] && slots[j].Some? ==> known[slots[j].value].configEpoch <= r.configEpoch
  }

  ghost function VotedAt(known: map<NodeId, Peer>, from: NodeId, now: int): map<NodeId, Peer> {
    if from in known && known[from].slaveof.Some? && known[from].slaveof.value in known
    then known[known[from].slaveof.value := known[known[from].slaveof.value].(votedTime := now)]
    else known
  }

  ghost function WithEpoch(known: map<NodeId, Peer>, n: NodeId, epoch: Epoch): (after: map<NodeId, Peer>)
    ensures n in known ==> n in after && after[n].configEpoch >= epoch
  {
    if n in known && known[n].configEpoch < epoch then known[n := known[n].(configEpoch := epoch)] else known
  }

  ghost function Ahead(known: map<NodeId, Peer>, slaves: seq<NodeId>, me: NodeId, offset: int): set<NodeId> {
    set k | k in slaves && k in known && k != me && known[k].replOffset > offset
  }

  lemma AheadGrows(known: map<NodeId, Peer>, slaves: seq<NodeId>, j: nat, me: NodeId, offset: int)
    requires j < |slaves| && slaves[j] in known && forall i | 0 <= i < j :: slaves[i] != slaves[j]
    ensures |Ahead(known, slaves[..j + 1], me, offset)| == |Ahead(known, slaves[..j], me, offset)| +
      if slaves[j] != me && known[slaves[j]].replOffset > offset then 1 else 0
  {
    assert slaves[..j + 1] == slaves[..j] + [slaves[j]];
    var k := slaves[j];
    if k != me && known[k].replOffset > offset {
      assert Ahead(known, slaves[..j + 1], me, offset) == Ahead(known, slaves[..j], me, offset) + {k};
    } else {
      assert Ahead(known, slaves[..j + 1], me, offset) == Ahead(known, slaves[..j], me, offset);
    }
  }
}
