/** Slave elections of the cluster (redis-3.0.6/src/cluster.c) as a protocol:
    nodes, a bag of messages in flight, and steps.

    The voters are a fixed set of masters with slots that every node agrees on;
    no node restarts.  Messages are delayed, reordered and lost at will, but not
    duplicated.  Everything that may raise a node's epoch besides elections
    (gossip, resharding, collision handling) is one arbitrary step. */
module Election {
  import opened Basics

  type NodeId = nat
  type Epoch = nat

  // The election fields of the state of one node.
  datatype View = View(
    currentEpoch: Epoch, lastVoteEpoch: Epoch,
    authEpoch: Epoch, authCount: nat, authSent: bool)

  // ----- What each handler does to the fields -----

  // Any packet from a known node raises the epoch.
  function Heard(v: View, epoch: Epoch): View {
    if epoch > v.currentEpoch then v.(currentEpoch := epoch) else v
  }

  // The epoch conditions of a vote, after the header was heard.
  predicate MayVote(v: View, request: Epoch) {
    request >= v.currentEpoch && v.lastVoteEpoch != v.currentEpoch
  }

  function Voted(v: View): View { v.(lastVoteEpoch := v.currentEpoch) }

  predicate Countable(v: View, ack: Epoch) { ack >= v.authEpoch }

  function Counted(v: View): View { v.(authCount := v.authCount + 1) }

  // A new attempt is scheduled: the count is reset, the epoch is not.
  function Scheduled(v: View): View { v.(authCount := 0, authSent := false) }

  // The attempt starts: a new epoch, and votes are requested.
  function Started(v: View): View {
    v.(currentEpoch := v.currentEpoch + 1, authEpoch := v.currentEpoch + 1, authSent := true)
  }

  // ----- The protocol -----

  datatype Msg =
    | Request(from: NodeId, to: NodeId, epoch: Epoch)
    | Ack(from: NodeId, to: NodeId, epoch: Epoch)
    | Other(from: NodeId, to: NodeId, epoch: Epoch)

  datatype Vote = Vote(voter: NodeId, epoch: Epoch, candidate: NodeId)

  // A won election, with the number of late ACKs in its count.
  datatype Win = Win(node: NodeId, epoch: Epoch, late: nat)

  // The last four fields are history: who voted, whose ACKs are in the current
  // count of each node, how many of that count came before the request, who won.
  datatype State = State(
    nodes: map<NodeId, View>, net: multiset<Msg>,
    votes: set<Vote>, counted: map<NodeId, set<NodeId>>, late: map<NodeId, nat>, wins: set<Win>)

  datatype Action =
    | Rise(node: NodeId, epoch: Epoch)
    | Schedule(node: NodeId)
    | Start(node: NodeId, peers: seq<NodeId>)
    | Gossip(node: NodeId, to: NodeId)
    | Lose(msg: Msg)
    | DeliverOther(msg: Msg)
    | DeliverRequest(msg: Msg, willing: bool)
    | DeliverAck(msg: Msg)
    | Elect(node: NodeId)

  function Quorum(voters: set<NodeId>): nat { |voters| / 2 + 1 }

  function Requests(from: NodeId, epoch: Epoch, peers: seq<NodeId>): multiset<Msg> {
    if peers == [] then multiset{}
    else Requests(from, epoch, peers[1..]) + multiset{Request(from, peers[0], epoch)}
  }

  ghost predicate WellFormed(s: State) { s.counted.Keys == s.nodes.Keys && s.late.Keys == s.nodes.Keys }

  ghost predicate Enabled(voters: set<NodeId>, s: State, a: Action) {
    && WellFormed(s)
    && match a
       case Rise(n, e) => n in s.nodes && e >= s.nodes[n].currentEpoch
       case Schedule(n) => n in s.nodes && n !in voters
       case Start(n, _) => n in s.nodes && n !in voters && !s.nodes[n].authSent
       case Gossip(n, _) => n in s.nodes
       case Lose(m) => m in s.net
       case DeliverOther(m) => m in s.net && m.Other? && m.to in s.nodes
       case DeliverRequest(m, _) => m in s.net && m.Request? && m.to in s.nodes
       case DeliverAck(m) => m in s.net && m.Ack? && m.to in s.nodes
       case Elect(n) => n in s.nodes && n !in voters && s.nodes[n].authSent && s.nodes[n].authCount >= Quorum(voters)
  }

  // The building blocks of the steps.
  ghost function SetNode(s: State, n: NodeId, v: View): State { s.(nodes := s.nodes[n := v]) }
  ghost function Consume(s: State, m: Msg): State { s.(net := s.net - multiset{m}) }

  // A packet is taken from the net and its header is heard.
  ghost function Receive(s: State, m: Msg): State
    requires m.to in s.nodes
  {
    SetNode(Consume(s, m), m.to, Heard(s.nodes[m.to], m.epoch))
  }

  ghost function Grant(s: State, voter: NodeId, candidate: NodeId): State
    requires voter in s.nodes
  {
    var e := s.nodes[voter].currentEpoch;
    s.(nodes := s.nodes[voter := Voted(s.nodes[voter])],
       net := s.net + multiset{Ack(voter, candidate, e)},
       votes := s.votes + {Vote(voter, e, candidate)})
  }

  ghost function CountAck(s: State, n: NodeId, voter: NodeId): State
    requires WellFormed(s) && n in s.nodes
  {
    var t := SetNode(s, n, Counted(s.nodes[n]));
    if s.nodes[n].authSent then t.(counted := t.counted[n := t.counted[n] + {voter}])
    else t.(late := t.late[n := t.late[n] + 1])
  }

  ghost function Reschedule(s: State, n: NodeId): State
    requires n in s.nodes
  {
    s.(nodes := s.nodes[n := Scheduled(s.nodes[n])], counted := s.counted[n := {}], late := s.late[n := 0])
  }

  ghost function Launch(s: State, n: NodeId, peers: seq<NodeId>): State
    requires n in s.nodes
  {
    var v := Started(s.nodes[n]);
    s.(nodes := s.nodes[n := v], net := s.net + Requests(n, v.authEpoch, peers))
  }

  ghost function Step(voters: set<NodeId>, s: State, a: Action): State
    requires Enabled(voters, s, a)
  {
    match a
    case Rise(n, e) => SetNode(s, n, s.nodes[n].(currentEpoch := e))
    case Schedule(n) => Reschedule(s, n)
    case Start(n, peers) => Launch(s, n, peers)
    case Gossip(n, to) => s.(net := s.net + multiset{Other(n, to, s.nodes[n].currentEpoch)})
    case Lose(m) => Consume(s, m)
    case DeliverOther(m) => Receive(s, m)
    case DeliverRequest(m, willing) =>
      var t := Receive(s, m);
      if m.to in voters && MayVote(t.nodes[m.to], m.epoch) && willing then Grant(t, m.to, m.from) else t
    case DeliverAck(m) =>
      var t := Receive(s, m);
      if m.from in voters && Countable(t.nodes[m.to], m.epoch) then CountAck(t, m.to, m.from) else t
    case Elect(n) => s.(wins := s.wins + {Win(n, s.nodes[n].authEpoch, s.late[n])})
  }

  ghost predicate Initial(s: State) {
    && WellFormed(s) && s.net == multiset{} && s.votes == {} && s.wins == {}
    && forall n | n in s.nodes :: s.counted[n] == {} && s.late[n] == 0 && !s.nodes[n].authSent &&
                                  s.nodes[n].authCount == 0 &&
                                  s.nodes[n].lastVoteEpoch <= s.nodes[n].currentEpoch &&
                                  s.nodes[n].authEpoch <= s.nodes[n].currentEpoch
  }

  // ----- What every step keeps -----

  type Nodes = map<NodeId, View>

  // Epochs of a node: no vote and no attempt lies in its future.
  ghost predicate EpochsOrdered(nodes: Nodes) {
    forall n | n in nodes ::
      nodes[n].lastVoteEpoch <= nodes[n].currentEpoch && nodes[n].authEpoch <= nodes[n].currentEpoch
  }

  // Votes are by voters, and none after the last vote recorded.
  ghost predicate VotesPast(voters: set<NodeId>, nodes: Nodes, votes: set<Vote>) {
    forall x | x in votes :: x.voter in voters && x.voter in nodes && x.epoch <= nodes[x.voter].lastVoteEpoch
  }

  // At most one vote per voter and epoch.
  ghost predicate OneVotePerEpoch(votes: set<Vote>) {
    forall x, y | x in votes && y in votes && x.voter == y.voter && x.epoch == y.epoch :: x == y
  }

  // Requests and votes for a node carry epochs of its attempts, past or current.
  ghost predicate RequestsPast(nodes: Nodes, net: multiset<Msg>) {
    forall m | m in net && m.Request? :: m.from in nodes && m.epoch <= nodes[m.from].authEpoch
  }

  ghost predicate CandidatesPast(nodes: Nodes, votes: set<Vote>) {
    forall x | x in votes :: x.candidate in nodes && x.epoch <= nodes[x.candidate].authEpoch
  }

  // An ACK in flight is a vote not counted yet, and there is one of it.
  ghost predicate AckIsVote(nodes: Nodes, votes: set<Vote>, counted: map<NodeId, set<NodeId>>, m: Msg) {
    && Vote(m.from, m.epoch, m.to) in votes
    && m.to in nodes && m.to in counted
    && (m.epoch == nodes[m.to].authEpoch ==> m.from !in counted[m.to])
  }

  ghost predicate AcksAreVotes(nodes: Nodes, net: multiset<Msg>, votes: set<Vote>, counted: map<NodeId, set<NodeId>>) {
    forall m | m in net && m.Ack? :: net[m] == 1 && AckIsVote(nodes, votes, counted, m)
  }

  // The count is the genuine votes of this attempt plus the late ones.
  ghost predicate CountRight(v: View, n: NodeId, votes: set<Vote>, counted: set<NodeId>, late: nat) {
    && v.authCount == |counted| + late
    && (!v.authSent ==> counted == {})
    && forall k | k in counted :: Vote(k, v.authEpoch, n) in votes
  }

  ghost predicate CountsRight(nodes: Nodes, votes: set<Vote>, counted: map<NodeId, set<NodeId>>, late: map<NodeId, nat>) {
    forall n | n in nodes :: n in counted && n in late && CountRight(nodes[n], n, votes, counted[n], late[n])
  }

  ghost function Supporters(votes: set<Vote>, n: NodeId, e: Epoch): set<NodeId> {
    set x | x in votes && x.epoch == e && x.candidate == n :: x.voter
  }

  ghost predicate WinsBacked(voters: set<NodeId>, votes: set<Vote>, wins: set<Win>) {
    forall w | w in wins :: |Supporters(votes, w.node, w.epoch)| + w.late >= Quorum(voters)
  }

  ghost predicate Inv(voters: set<NodeId>, s: State) {
    && WellFormed(s) && EpochsOrdered(s.nodes)
    && VotesPast(voters, s.nodes, s.votes) && OneVotePerEpoch(s.votes)
    && RequestsPast(s.nodes, s.net) && CandidatesPast(s.nodes, s.votes)
    && AcksAreVotes(s.nodes, s.net, s.votes, s.counted)
    && CountsRight(s.nodes, s.votes, s.counted, s.late) && WinsBacked(voters, s.votes, s.wins)
  }

  lemma InitialInv(voters: set<NodeId>, s: State)
    requires Initial(s)
    ensures Inv(voters, s)
  {
  }

  lemma InRequests(from: NodeId, epoch: Epoch, peers: seq<NodeId>, m: Msg)
    requires m in Requests(from, epoch, peers)
    ensures m.Request? && m.from == from && m.epoch == epoch
  {
  }

  // ----- One lemma per building block -----

  lemma RiseInv(voters: set<NodeId>, s: State, n: NodeId, e: Epoch)
    requires Inv(voters, s) && n in s.nodes && e >= s.nodes[n].currentEpoch
    ensures Inv(voters, SetNode(s, n, s.nodes[n].(currentEpoch := e)))
  {
    hide OneVotePerEpoch, WinsBacked, Quorum;
  }

  lemma ConsumeInv(voters: set<NodeId>, s: State, m: Msg)
    requires Inv(voters, s)
    ensures Inv(voters, Consume(s, m))
  {
    hide OneVotePerEpoch, WinsBacked, Quorum, CountsRight, EpochsOrdered, VotesPast, CandidatesPast;
  }

  lemma SendOtherInv(voters: set<NodeId>, s: State, m: Msg)
    requires Inv(voters, s) && m.Other?
    ensures Inv(voters, s.(net := s.net + multiset{m}))
  {
    hide OneVotePerEpoch, WinsBacked, Quorum, CountsRight, EpochsOrdered, VotesPast, CandidatesPast;
  }

  lemma ReceiveInv(voters: set<NodeId>, s: State, m: Msg)
    requires Inv(voters, s) && m.to in s.nodes
    ensures Inv(voters, Receive(s, m))
  {
    hide Inv;
    ConsumeInv(voters, s, m);
    var e := Heard(s.nodes[m.to], m.epoch).currentEpoch;
    RiseInv(voters, Consume(s, m), m.to, e);
  }

  lemma RescheduleInv(voters: set<NodeId>, s: State, n: NodeId)
    requires Inv(voters, s) && n in s.nodes
    ensures Inv(voters, Reschedule(s, n))
  {
    hide OneVotePerEpoch, WinsBacked, Quorum;
  }

  lemma LaunchCounts(voters: set<NodeId>, s: State, n: NodeId)
    requires Inv(voters, s) && n in s.nodes && !s.nodes[n].authSent
    ensures CountsRight(s.nodes[n := Started(s.nodes[n])], s.votes, s.counted, s.late)
  {
    hide OneVotePerEpoch, WinsBacked, Quorum, AcksAreVotes;
    assert CountRight(s.nodes[n], n, s.votes, s.counted[n], s.late[n]);
  }

  lemma LaunchNet(voters: set<NodeId>, s: State, n: NodeId, peers: seq<NodeId>)
    requires Inv(voters, s) && n in s.nodes && !s.nodes[n].authSent
    ensures RequestsPast(Launch(s, n, peers).nodes, Launch(s, n, peers).net)
    ensures AcksAreVotes(Launch(s, n, peers).nodes, Launch(s, n, peers).net, s.votes, s.counted)
  {
    hide OneVotePerEpoch, WinsBacked, Quorum, CountsRight, Requests;
    var t := Launch(s, n, peers);
    forall m | m in Requests(n, t.nodes[n].authEpoch, peers)
      ensures m.Request? && m.from == n && m.epoch == t.nodes[n].authEpoch
    {
      InRequests(n, t.nodes[n].authEpoch, peers, m);
    }
  }

  lemma LaunchInv(voters: set<NodeId>, s: State, n: NodeId, peers: seq<NodeId>)
    requires Inv(voters, s) && n in s.nodes && !s.nodes[n].authSent
    ensures Inv(voters, Launch(s, n, peers))
  {
    hide OneVotePerEpoch, WinsBacked, Quorum, CountsRight, Requests, RequestsPast, AcksAreVotes;
    LaunchCounts(voters, s, n);
    LaunchNet(voters, s, n, peers);
  }

  // The votes of a candidate only grow.
  lemma SupportGrows(voters: set<NodeId>, votes: set<Vote>, more: set<Vote>, wins: set<Win>)
    requires WinsBacked(voters, votes, wins) && votes <= more
    ensures WinsBacked(voters, more, wins)
  {
    hide Quorum;
    forall w | w in wins ensures |Supporters(votes, w.node, w.epoch)| <= |Supporters(more, w.node, w.epoch)| {
      SubsetSize(Supporters(votes, w.node, w.epoch), Supporters(more, w.node, w.epoch));
    }
  }

  lemma GrantVotes(voters: set<NodeId>, s: State, voter: NodeId, candidate: NodeId)
    requires Inv(voters, s) && voter in s.nodes && voter in voters
    requires s.nodes[voter].lastVoteEpoch != s.nodes[voter].currentEpoch
    ensures VotesPast(voters, Grant(s, voter, candidate).nodes, Grant(s, voter, candidate).votes)
    ensures OneVotePerEpoch(Grant(s, voter, candidate).votes)
    ensures Vote(voter, s.nodes[voter].currentEpoch, candidate) !in s.votes
  {
    hide WinsBacked, Quorum, CountsRight, RequestsPast, AcksAreVotes, CandidatesPast;
  }

  lemma GrantAcks(voters: set<NodeId>, s: State, voter: NodeId, candidate: NodeId)
    requires Inv(voters, s) && voter in s.nodes && candidate in s.nodes
    requires Vote(voter, s.nodes[voter].currentEpoch, candidate) !in s.votes
    ensures var t := Grant(s, voter, candidate); AcksAreVotes(t.nodes, t.net, t.votes, t.counted)
    ensures var t := Grant(s, voter, candidate); RequestsPast(t.nodes, t.net)
  {
    hide WinsBacked, Quorum, VotesPast, OneVotePerEpoch, CandidatesPast, EpochsOrdered;
    assert CountRight(s.nodes[candidate], candidate, s.votes, s.counted[candidate], s.late[candidate]);
  }

  lemma GrantCounts(s: State, voter: NodeId, candidate: NodeId)
    requires CountsRight(s.nodes, s.votes, s.counted, s.late) && voter in s.nodes
    ensures var t := Grant(s, voter, candidate); CountsRight(t.nodes, t.votes, t.counted, t.late)
  {
  }

  lemma GrantInv(voters: set<NodeId>, s: State, voter: NodeId, candidate: NodeId, request: Epoch)
    requires Inv(voters, s) && voter in s.nodes && voter in voters && candidate in s.nodes
    requires MayVote(s.nodes[voter], request) && request <= s.nodes[candidate].authEpoch
    ensures Inv(voters, Grant(s, voter, candidate))
  {
    hide WinsBacked, Quorum, VotesPast, OneVotePerEpoch, AcksAreVotes, RequestsPast, CountsRight;
    GrantVotes(voters, s, voter, candidate);
    GrantAcks(voters, s, voter, candidate);
    GrantCounts(s, voter, candidate);
    SupportGrows(voters, s.votes, Grant(s, voter, candidate).votes, s.wins);
  }

  // An ACK that counts is of the current attempt, and its voter is not in the count yet.
  lemma CountAckCounts(s: State, m: Msg)
    requires WellFormed(s) && CountsRight(s.nodes, s.votes, s.counted, s.late) && CandidatesPast(s.nodes, s.votes)
    requires m.Ack? && AckIsVote(s.nodes, s.votes, s.counted, m) && Countable(s.nodes[m.to], m.epoch)
    ensures var t := CountAck(s, m.to, m.from); CountsRight(t.nodes, t.votes, t.counted, t.late)
  {
    assert CountRight(s.nodes[m.to], m.to, s.votes, s.counted[m.to], s.late[m.to]);
    var t := CountAck(s, m.to, m.from);
    assert CountRight(t.nodes[m.to], m.to, t.votes, t.counted[m.to], t.late[m.to]);
  }

  lemma CountAckAcks(s: State, m: Msg)
    requires WellFormed(s) && AcksAreVotes(s.nodes, s.net, s.votes, s.counted) && CandidatesPast(s.nodes, s.votes)
    requires m.Ack? && m !in s.net && AckIsVote(s.nodes, s.votes, s.counted, m) && Countable(s.nodes[m.to], m.epoch)
    ensures var t := CountAck(s, m.to, m.from); AcksAreVotes(t.nodes, t.net, t.votes, t.counted)
  {
  }

  lemma CountAckInv(voters: set<NodeId>, s: State, m: Msg)
    requires Inv(voters, s)
    requires m.Ack? && m !in s.net && AckIsVote(s.nodes, s.votes, s.counted, m) && Countable(s.nodes[m.to], m.epoch)
    ensures Inv(voters, CountAck(s, m.to, m.from))
  {
    hide WinsBacked, Quorum, OneVotePerEpoch, AcksAreVotes, CountsRight;
    CountAckCounts(s, m);
    CountAckAcks(s, m);
  }

  lemma ElectInv(voters: set<NodeId>, s: State, n: NodeId)
    requires Inv(voters, s) && n in s.nodes && s.nodes[n].authCount >= Quorum(voters)
    ensures Inv(voters, s.(wins := s.wins + {Win(n, s.nodes[n].authEpoch, s.late[n])}))
  {
    hide Quorum, OneVotePerEpoch, AcksAreVotes, EpochsOrdered, CandidatesPast, RequestsPast, VotesPast;
    assert CountRight(s.nodes[n], n, s.votes, s.counted[n], s.late[n]);
    var e := s.nodes[n].authEpoch;
    forall k | k in s.counted[n] ensures k in Supporters(s.votes, n, e) {
      assert Vote(k, e, n) in s.votes;
    }
    SubsetSize(s.counted[n], Supporters(s.votes, n, e));
  }

  lemma DeliverRequestInv(voters: set<NodeId>, s: State, m: Msg, willing: bool)
    requires Inv(voters, s) && Enabled(voters, s, DeliverRequest(m, willing))
    ensures Inv(voters, Step(voters, s, DeliverRequest(m, willing)))
  {
    assert m.from in s.nodes && m.epoch <= s.nodes[m.from].authEpoch;
    hide Inv;
    ReceiveInv(voters, s, m);
    var t := Receive(s, m);
    if m.to in voters && MayVote(t.nodes[m.to], m.epoch) && willing {
      GrantInv(voters, t, m.to, m.from, m.epoch);
    }
  }

  lemma ReceivedAck(voters: set<NodeId>, s: State, m: Msg)
    requires Inv(voters, s) && Enabled(voters, s, DeliverAck(m))
    ensures m !in Receive(s, m).net && m.to in Receive(s, m).nodes
    ensures AckIsVote(Receive(s, m).nodes, Receive(s, m).votes, Receive(s, m).counted, m)
  {
    assert s.net[m] == 1 && AckIsVote(s.nodes, s.votes, s.counted, m);
    hide Inv;
  }

  lemma DeliverAckInv(voters: set<NodeId>, s: State, m: Msg)
    requires Inv(voters, s) && Enabled(voters, s, DeliverAck(m))
    ensures Inv(voters, Step(voters, s, DeliverAck(m)))
  {
    hide Inv, AckIsVote, Receive;
    ReceivedAck(voters, s, m);
    ReceiveInv(voters, s, m);
    var t := Receive(s, m);
    if m.from in voters && Countable(t.nodes[m.to], m.epoch) {
      CountAckInv(voters, t, m);
    }
  }

  lemma StepInv(voters: set<NodeId>, s: State, a: Action)
    requires Inv(voters, s) && Enabled(voters, s, a)
    ensures Inv(voters, Step(voters, s, a))
  {
    hide Inv, Receive, Grant, CountAck, Quorum;
    match a
    case Rise(n, e) => RiseInv(voters, s, n, e);
    case Schedule(n) => RescheduleInv(voters, s, n);
    case Start(n, peers) => LaunchInv(voters, s, n, peers);
    case Gossip(n, to) => SendOtherInv(voters, s, Other(n, to, s.nodes[n].currentEpoch));
    case Lose(m) => ConsumeInv(voters, s, m);
    case DeliverOther(m) => ReceiveInv(voters, s, m);
    case DeliverRequest(m, willing) => DeliverRequestInv(voters, s, m, willing);
    case DeliverAck(m) => DeliverAckInv(voters, s, m);
    case Elect(n) => ElectInv(voters, s, n);
  }

  // ----- Runs -----

  ghost predicate Possible(voters: set<NodeId>, s: State, run: seq<Action>)
    decreases |run|, 0
  {
    run == [] || (Possible(voters, s, run[..|run| - 1]) && Enabled(voters, After(voters, s, run[..|run| - 1]), run[|run| - 1]))
  }

  ghost function After(voters: set<NodeId>, s: State, run: seq<Action>): State
    requires Possible(voters, s, run)
    decreases |run|, 1
  {
    if run == [] then s else Step(voters, After(voters, s, run[..|run| - 1]), run[|run| - 1])
  }

  lemma {:induction false} RunInv(voters: set<NodeId>, s: State, run: seq<Action>)
    requires Initial(s) && Possible(voters, s, run)
    ensures Inv(voters, After(voters, s, run))
  {
    hide Inv, Enabled, Step, Initial;
    if run == [] {
      InitialInv(voters, s);
    } else {
      RunInv(voters, s, run[..|run| - 1]);
      StepInv(voters, After(voters, s, run[..|run| - 1]), run[|run| - 1]);
    }
  }

  // The ACK that a step counts arrives while the attempt it answers is still on.
  ghost predicate Timely(voters: set<NodeId>, s: State, a: Action)
    requires Enabled(voters, s, a)
  {
    a.DeliverAck? && a.msg.from in voters && Countable(s.nodes[a.msg.to], a.msg.epoch) ==> s.nodes[a.msg.to].authSent
  }

  ghost predicate TimelyRun(voters: set<NodeId>, s: State, run: seq<Action>)
    requires Possible(voters, s, run)
  {
    run == [] || (TimelyRun(voters, s, run[..|run| - 1]) && Timely(voters, After(voters, s, run[..|run| - 1]), run[|run| - 1]))
  }

  ghost predicate NoneLate(s: State) {
    (forall n | n in s.late :: s.late[n] == 0) && (forall w | w in s.wins :: w.late == 0)
  }

  lemma StepNoneLate(voters: set<NodeId>, s: State, a: Action)
    requires NoneLate(s) && Enabled(voters, s, a) && Timely(voters, s, a)
    ensures NoneLate(Step(voters, s, a))
  {
    hide Quorum, Requests;
  }

  lemma {:induction false} RunNoneLate(voters: set<NodeId>, s: State, run: seq<Action>)
    requires Initial(s) && Possible(voters, s, run) && TimelyRun(voters, s, run)
    ensures NoneLate(After(voters, s, run))
  {
    hide Enabled, Step, NoneLate, Timely;
    if run == [] {
      StartNoneLate(s);
    } else {
      RunNoneLate(voters, s, run[..|run| - 1]);
      StepNoneLate(voters, After(voters, s, run[..|run| - 1]), run[|run| - 1]);
    }
  }

  lemma StartNoneLate(s: State)
    requires Initial(s)
    ensures NoneLate(s)
  {
  }

  // ----- Election safety -----

  lemma SupportersApart(voters: set<NodeId>, nodes: Nodes, votes: set<Vote>, m: NodeId, n: NodeId, e: Epoch)
    requires VotesPast(voters, nodes, votes) && OneVotePerEpoch(votes) && m != n
    ensures |Supporters(votes, m, e)| + |Supporters(votes, n, e)| <= |voters|
  {
    var a, b := Supporters(votes, m, e), Supporters(votes, n, e);
    assert a !! b;
    assert a + b <= voters;
    SubsetSize(a + b, voters);
  }

  // Two winners of one epoch need late ACKs to make up for the votes there are not.
  lemma TwoWinnersNeedLateAcks(voters: set<NodeId>, s: State, run: seq<Action>, v: Win, w: Win)
    requires Initial(s) && Possible(voters, s, run)
    requires v in After(voters, s, run).wins && w in After(voters, s, run).wins && v.epoch == w.epoch && v.node != w.node
    ensures v.late + w.late + |voters| >= 2 * Quorum(voters)
  {
    hide Enabled, Step, Initial, Possible, After, Supporters;
    RunInv(voters, s, run);
    var t := After(voters, s, run);
    SupportersApart(voters, t.nodes, t.votes, v.node, w.node, v.epoch);
  }

  /** Election safety: in every run in which no ACK outlives its attempt, at most
      one node wins any epoch. */
  lemma ElectionSafety(voters: set<NodeId>, s: State, run: seq<Action>, v: Win, w: Win)
    requires Initial(s) && Possible(voters, s, run) && TimelyRun(voters, s, run)
    requires v in After(voters, s, run).wins && w in After(voters, s, run).wins && v.epoch == w.epoch
    ensures v.node == w.node
  {
    hide Enabled, Step, Initial, Possible, After, TimelyRun;
    RunNoneLate(voters, s, run);
    if v.node != w.node {
      TwoWinnersNeedLateAcks(voters, s, run, v, w);
    }
  }

  // One vote per voter and epoch, over every run.
  lemma VoteOnce(voters: set<NodeId>, s: State, run: seq<Action>, x: Vote, y: Vote)
    requires Initial(s) && Possible(voters, s, run)
    requires x in After(voters, s, run).votes && y in After(voters, s, run).votes && x.voter == y.voter && x.epoch == y.epoch
    ensures x.candidate == y.candidate && x.voter in voters
  {
    hide Enabled, Step, Initial, Possible, After;
    RunInv(voters, s, run);
  }

  ghost predicate NotBehind(v: View, w: View) {
    v.currentEpoch <= w.currentEpoch && v.lastVoteEpoch <= w.lastVoteEpoch && v.authEpoch <= w.authEpoch
  }

  // Epochs never go back.
  lemma StepMonotone(voters: set<NodeId>, s: State, a: Action, n: NodeId)
    requires EpochsOrdered(s.nodes) && Enabled(voters, s, a) && n in s.nodes
    ensures n in Step(voters, s, a).nodes && NotBehind(s.nodes[n], Step(voters, s, a).nodes[n])
  {
    hide Quorum, Requests, EpochsOrdered, NotBehind;
    match a
    case DeliverRequest(m, willing) => RequestMonotone(voters, s, m, willing, n);
    case DeliverAck(m) => AckMonotone(voters, s, m, n);
    case _ => OtherMonotone(voters, s, a, n);
  }

  lemma OtherMonotone(voters: set<NodeId>, s: State, a: Action, n: NodeId)
    requires EpochsOrdered(s.nodes) && Enabled(voters, s, a) && n in s.nodes && !a.DeliverRequest? && !a.DeliverAck?
    ensures n in Step(voters, s, a).nodes && NotBehind(s.nodes[n], Step(voters, s, a).nodes[n])
  {
    hide Quorum, Requests;
  }

  lemma RequestMonotone(voters: set<NodeId>, s: State, m: Msg, willing: bool, n: NodeId)
    requires EpochsOrdered(s.nodes) && Enabled(voters, s, DeliverRequest(m, willing)) && n in s.nodes
    ensures var t := Step(voters, s, DeliverRequest(m, willing)); n in t.nodes && NotBehind(s.nodes[n], t.nodes[n])
  {
    hide Quorum;
  }

  lemma AckMonotone(voters: set<NodeId>, s: State, m: Msg, n: NodeId)
    requires EpochsOrdered(s.nodes) && Enabled(voters, s, DeliverAck(m)) && n in s.nodes
    ensures var t := Step(voters, s, DeliverAck(m)); n in t.nodes && NotBehind(s.nodes[n], t.nodes[n])
  {
    hide Quorum;
  }

  lemma {:induction false} RunMonotone(voters: set<NodeId>, s: State, run: seq<Action>, k: nat, n: NodeId)
    requires Initial(s) && Possible(voters, s, run) && k <= |run| && n in s.nodes
    ensures Possible(voters, s, run[..k])
    ensures var was := After(voters, s, run[..k]).nodes; var now := After(voters, s, run).nodes;
      n in was && n in now && NotBehind(was[n], now[n])
    decreases |run|
  {
    hide Enabled, Step, Initial;
    if k == |run| {
      assert run[..k] == run;
      if run != [] {
        RunMonotone(voters, s, run[..k - 1], k - 1, n);
        RunInv(voters, s, run[..k - 1]);
        StepMonotone(voters, After(voters, s, run[..k - 1]), run[k - 1], n);
      }
    } else {
      var before := run[..|run| - 1];
      assert before[..k] == run[..k];
      RunMonotone(voters, s, before, k, n);
      RunInv(voters, s, before);
      StepMonotone(voters, After(voters, s, before), run[|run| - 1], n);
    }
  }
}
