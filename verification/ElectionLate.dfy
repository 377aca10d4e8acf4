/** Elections when ACKs may outlive their attempt (redis-3.0.6/src/cluster.c): how many late
    ACKs it takes for two nodes to win one epoch, exactly, for every set of voters. */
module ElectionLate {
  import opened Basics
  import opened Election

  lemma Extend(voters: set<NodeId>, s: State, run: seq<Action>, a: Action)
    requires Possible(voters, s, run) && Enabled(voters, After(voters, s, run), a)
    ensures Possible(voters, s, run + [a]) && After(voters, s, run + [a]) == Step(voters, After(voters, s, run), a)
  {
    hide Enabled, Step;
    assert (run + [a])[..|run + [a]| - 1] == run;
  }

  // ----- One vote -----

  // The voter has not voted in the epoch and is not past it.
  predicate Free(v: View, e: Epoch) { v.currentEpoch <= e && v.lastVoteEpoch != e }

  lemma VoteStep(voters: set<NodeId>, s: State, c: NodeId, v: NodeId, e: Epoch)
    requires WellFormed(s) && v in voters && v in s.nodes && Request(c, v, e) in s.net && Free(s.nodes[v], e)
    ensures var a := DeliverRequest(Request(c, v, e), true);
      && Enabled(voters, s, a)
      && Step(voters, s, a) ==
         s.(nodes := s.nodes[v := s.nodes[v].(currentEpoch := e, lastVoteEpoch := e)],
            net := s.net - multiset{Request(c, v, e)} + multiset{Ack(v, c, e)},
            votes := s.votes + {Vote(v, e, c)})
  {
    var m := Request(c, v, e);
    var t := Receive(s, m);
    assert t.nodes[v].currentEpoch == e;
    assert t.nodes[v := Voted(t.nodes[v])] == s.nodes[v := s.nodes[v].(currentEpoch := e, lastVoteEpoch := e)];
  }

  // What counting an ACK changes, but for whose ACKs were counted.
  lemma AckStep(voters: set<NodeId>, s: State, c: NodeId, v: NodeId, e: Epoch)
    requires WellFormed(s) && v in voters && c in s.nodes && Ack(v, c, e) in s.net
    requires s.nodes[c].authEpoch <= e <= s.nodes[c].currentEpoch
    ensures Enabled(voters, s, DeliverAck(Ack(v, c, e)))
    ensures var t := Step(voters, s, DeliverAck(Ack(v, c, e)));
      && WellFormed(t) && t.nodes == s.nodes[c := Counted(s.nodes[c])] && t.net == s.net - multiset{Ack(v, c, e)}
      && t.late == (if s.nodes[c].authSent then s.late else s.late[c := s.late[c] + 1]) && t.wins == s.wins
  {
    var m := Ack(v, c, e);
    var t := Receive(s, m);
    assert t.nodes == s.nodes;
  }

  // ----- The votes of several voters -----

  // The voters r have voted in epoch e and nobody else's view changed but the candidate's.
  ghost predicate Voters(s: State, t: State, c: NodeId, e: Epoch, r: set<NodeId>) {
    && WellFormed(s) && WellFormed(t) && t.nodes.Keys == s.nodes.Keys && t.wins == s.wins && r <= s.nodes.Keys
    && (forall v | v in r :: t.nodes[v].currentEpoch == e && t.nodes[v].lastVoteEpoch == e)
    && (forall n | n in s.nodes && n !in r && n != c :: t.nodes[n] == s.nodes[n])
  }

  ghost predicate Asked(s: State, c: NodeId, e: Epoch, r: set<NodeId>) {
    WellFormed(s) && c in s.nodes && r <= s.nodes.Keys && forall v | v in r :: Request(c, v, e) in s.net && Free(s.nodes[v], e)
  }

  lemma VotersJoin(s: State, t: State, u: State, c: NodeId, e: Epoch, v: NodeId, r: set<NodeId>)
    requires Voters(s, t, c, e, {v}) && Voters(t, u, c, e, r - {v}) && v in r && v != c
    ensures Voters(s, u, c, e, r)
  {
  }

  // Votes are granted and their ACKs stay in flight.
  lemma {:induction false} GrantAll(voters: set<NodeId>, s0: State, run: seq<Action>, c: NodeId, e: Epoch, r: set<NodeId>)
    returns (more: seq<Action>)
    requires Possible(voters, s0, run) && r <= voters && c !in voters && Asked(After(voters, s0, run), c, e, r)
    ensures Possible(voters, s0, more)
    ensures var s, t := After(voters, s0, run), After(voters, s0, more);
      && Voters(s, t, c, e, r) && t.nodes[c] == s.nodes[c] && t.late == s.late
      && (forall v | v in r :: Ack(v, c, e) in t.net)
      && (forall m | m in s.net && m.Ack? :: m in t.net)
    decreases |r|
  {
    hide Possible, After;
    more := run;
    if r != {} {
      hide Voters, Asked;
      var v :| v in r;
      var one := GrantOne(voters, s0, run, c, e, r, v);
      more := GrantAll(voters, s0, one, c, e, r - {v});
      VotersJoin(After(voters, s0, run), After(voters, s0, one), After(voters, s0, more), c, e, v, r);
    }
  }

  lemma GrantOne(voters: set<NodeId>, s0: State, run: seq<Action>, c: NodeId, e: Epoch, r: set<NodeId>, v: NodeId)
    returns (more: seq<Action>)
    requires Possible(voters, s0, run) && v in r && r <= voters && c !in voters && Asked(After(voters, s0, run), c, e, r)
    ensures Possible(voters, s0, more)
    ensures var s, t := After(voters, s0, run), After(voters, s0, more);
      && Voters(s, t, c, e, {v}) && Asked(t, c, e, r - {v}) && t.nodes[c] == s.nodes[c] && t.late == s.late
      && Ack(v, c, e) in t.net && (forall m | m in s.net && m.Ack? :: m in t.net)
  {
    hide Possible, After, Enabled, Step;
    var a := DeliverRequest(Request(c, v, e), true);
    VoteStep(voters, After(voters, s0, run), c, v, e);
    Extend(voters, s0, run, a);
    more := run + [a];
  }

  // Votes are granted and counted at once, while the attempt is on.
  lemma {:induction false} PollAll(voters: set<NodeId>, s0: State, run: seq<Action>, c: NodeId, e: Epoch, r: set<NodeId>)
    returns (more: seq<Action>)
    requires Possible(voters, s0, run) && r <= voters && c !in voters && Asked(After(voters, s0, run), c, e, r)
    requires var v := After(voters, s0, run).nodes[c]; v.authSent && v.authEpoch == e == v.currentEpoch
    ensures Possible(voters, s0, more)
    ensures var s, t := After(voters, s0, run), After(voters, s0, more);
      && Voters(s, t, c, e, r) && t.late == s.late
      && t.nodes[c] == s.nodes[c].(authCount := s.nodes[c].authCount + |r|)
    decreases |r|
  {
    hide Possible, After;
    more := run;
    if r != {} {
      hide Voters, Asked;
      var v :| v in r;
      var one := PollOne(voters, s0, run, c, e, r, v);
      more := PollAll(voters, s0, one, c, e, r - {v});
      VotersJoin(After(voters, s0, run), After(voters, s0, one), After(voters, s0, more), c, e, v, r);
    }
  }

  lemma PollOne(voters: set<NodeId>, s0: State, run: seq<Action>, c: NodeId, e: Epoch, r: set<NodeId>, v: NodeId)
    returns (more: seq<Action>)
    requires Possible(voters, s0, run) && v in r && r <= voters && c !in voters && Asked(After(voters, s0, run), c, e, r)
    requires var v := After(voters, s0, run).nodes[c]; v.authSent && v.authEpoch == e == v.currentEpoch
    ensures Possible(voters, s0, more)
    ensures var s, t := After(voters, s0, run), After(voters, s0, more);
      && Voters(s, t, c, e, {v}) && Asked(t, c, e, r - {v}) && t.late == s.late && t.nodes[c] == Counted(s.nodes[c])
  {
    hide Possible, After, Enabled, Step;
    var s := After(voters, s0, run);
    assert v in s.nodes && Request(c, v, e) in s.net && Free(s.nodes[v], e);
    var a, b := DeliverRequest(Request(c, v, e), true), DeliverAck(Ack(v, c, e));
    VoteStep(voters, s, c, v, e);
    Extend(voters, s0, run, a);
    var t := Step(voters, s, a);
    AckStep(voters, t, c, v, e);
    Extend(voters, s0, run + [a], b);
    PolledOne(s, t, Step(voters, t, b), c, e, v, r);
    hide Voters, Asked;
    more := run + [a] + [b];
  }

  lemma PolledOne(s: State, t: State, u: State, c: NodeId, e: Epoch, v: NodeId, r: set<NodeId>)
    requires Asked(s, c, e, r) && v in r && v != c && WellFormed(u)
    requires t.nodes == s.nodes[v := s.nodes[v].(currentEpoch := e, lastVoteEpoch := e)] && t.wins == s.wins
    requires t.net == s.net - multiset{Request(c, v, e)} + multiset{Ack(v, c, e)}
    requires u.nodes == t.nodes[c := Counted(t.nodes[c])] && u.wins == t.wins && u.net == t.net - multiset{Ack(v, c, e)}
    ensures Voters(s, u, c, e, {v}) && (c !in r ==> Asked(u, c, e, r - {v}))
  {
  }

  // ACKs of an attempt given up are counted for the next one.
  lemma {:induction false} LateAll(voters: set<NodeId>, s0: State, run: seq<Action>, c: NodeId, e: Epoch, r: set<NodeId>)
    returns (more: seq<Action>)
    requires Possible(voters, s0, run) && r <= voters && WellFormed(After(voters, s0, run)) && c in After(voters, s0, run).nodes
    requires var v := After(voters, s0, run).nodes[c]; !v.authSent && v.authEpoch == e == v.currentEpoch
    requires forall v | v in r :: Ack(v, c, e) in After(voters, s0, run).net
    ensures Possible(voters, s0, more)
    ensures var s, t := After(voters, s0, run), After(voters, s0, more);
      && WellFormed(t) && t.wins == s.wins && t.late == s.late[c := s.late[c] + |r|]
      && t.nodes == s.nodes[c := s.nodes[c].(authCount := s.nodes[c].authCount + |r|)]
    decreases |r|
  {
    hide Possible, After, Enabled, Step;
    more := run;
    var s := After(voters, s0, run);
    if r == {} {
      assert s.late[c := s.late[c]] == s.late && s.nodes[c := s.nodes[c]] == s.nodes;
    } else {
      var v :| v in r;
      var a := DeliverAck(Ack(v, c, e));
      AckStep(voters, s, c, v, e);
      Extend(voters, s0, run, a);
      more := LateAll(voters, s0, run + [a], c, e, r - {v});
    }
  }

  // ----- Attempts -----

  lemma {:induction false} RequestsTo(from: NodeId, e: Epoch, peers: seq<NodeId>, v: NodeId)
    requires v in peers
    ensures Request(from, v, e) in Requests(from, e, peers)
  {
    if v != peers[0] { RequestsTo(from, e, peers[1..], v); }
  }

  // An attempt that asks all voters, those of r among them free to vote.
  lemma StartStep(voters: set<NodeId>, s: State, c: NodeId, peers: seq<NodeId>, r: set<NodeId>)
    requires WellFormed(s) && c in s.nodes && c !in voters && !s.nodes[c].authSent && r <= voters && r <= s.nodes.Keys
    requires forall v | v in r :: v in peers && Free(s.nodes[v], s.nodes[c].currentEpoch + 1)
    ensures Enabled(voters, s, Start(c, peers))
    ensures var t := Step(voters, s, Start(c, peers));
      && t == s.(nodes := s.nodes[c := Started(s.nodes[c])], net := t.net)
      && Asked(t, c, s.nodes[c].currentEpoch + 1, r)
  {
    hide Requests;
    var e := s.nodes[c].currentEpoch + 1;
    forall v | v in r ensures Request(c, v, e) in Requests(c, e, peers) { RequestsTo(c, e, peers, v); }
  }

  lemma ElectStep(voters: set<NodeId>, s: State, c: NodeId)
    requires WellFormed(s) && c in s.nodes && c !in voters && s.nodes[c].authSent && s.nodes[c].authCount >= Quorum(voters)
    ensures Enabled(voters, s, Elect(c))
    ensures Step(voters, s, Elect(c)) == s.(wins := s.wins + {Win(c, s.nodes[c].authEpoch, s.late[c])})
  {
  }

  // An attempt that asks everybody and gets the votes of r wins if these and what was counted before make a quorum.
  lemma Campaign(voters: set<NodeId>, s0: State, run: seq<Action>, c: NodeId, peers: seq<NodeId>, r: set<NodeId>)
    returns (more: seq<Action>)
    requires Possible(voters, s0, run)
    requires var s := After(voters, s0, run);
      && WellFormed(s) && c in s.nodes && c !in voters && !s.nodes[c].authSent && r <= voters && r <= s.nodes.Keys
      && (forall v | v in r :: v in peers && Free(s.nodes[v], s.nodes[c].currentEpoch + 1))
      && s.nodes[c].authCount + |r| >= Quorum(voters)
    ensures Possible(voters, s0, more)
    ensures var s, t := After(voters, s0, run), After(voters, s0, more);
      && WellFormed(t) && t.nodes.Keys == s.nodes.Keys && t.late == s.late
      && (forall n | n in s.nodes && n != c && n !in r :: t.nodes[n] == s.nodes[n])
      && t.wins == s.wins + {Win(c, s.nodes[c].currentEpoch + 1, s.late[c])}
  {
    hide Possible, After, Enabled, Step, Quorum, Asked;
    var s := After(voters, s0, run);
    var e := s.nodes[c].currentEpoch + 1;
    StartStep(voters, s, c, peers, r);
    Extend(voters, s0, run, Start(c, peers));
    more := PollAll(voters, s0, run + [Start(c, peers)], c, e, r);
    ElectStep(voters, After(voters, s0, more), c);
    Extend(voters, s0, more, Elect(c));
    more := more + [Elect(c)];
  }

  // ----- Two winners -----

  // The rival has heard of epoch 1.
  ghost function Beginning(voters: set<NodeId>, a: NodeId, b: NodeId): State {
    var all := voters + {a, b};
    State(map n | n in all :: View(if n == b then 1 else 0, 0, 0, 0, false), multiset{}, {},
          map n | n in all :: {}, map n | n in all :: 0, {})
  }

  // The slave is granted the votes of x, gives the attempt up, and counts their ACKs for the next one.
  ghost predicate HeadStart(t: State, voters: set<NodeId>, a: NodeId, b: NodeId, k: nat) {
    && WellFormed(t) && t.nodes.Keys == voters + {a, b} && t.wins == {}
    && t.nodes[a] == View(1, 0, 1, k, false) && t.nodes[b] == View(1, 0, 0, 0, false) && t.late[a] == k && t.late[b] == 0
    && forall v | v in voters :: Free(t.nodes[v], 2)
  }

  lemma LateVotes(voters: set<NodeId>, a: NodeId, b: NodeId, peers: seq<NodeId>, x: set<NodeId>) returns (run: seq<Action>)
    requires a != b && a !in voters && b !in voters && x <= voters && forall v | v in voters :: v in peers
    ensures Possible(voters, Beginning(voters, a, b), run)
    ensures HeadStart(After(voters, Beginning(voters, a, b), run), voters, a, b, |x|)
  {
    var s0 := Beginning(voters, a, b);
    var granted := EarlyVotes(voters, a, b, peers, x);
    hide Possible, After, Enabled, Step, Beginning;
    ScheduleStep(voters, After(voters, s0, granted), a);
    Extend(voters, s0, granted, Schedule(a));
    run := LateAll(voters, s0, granted + [Schedule(a)], a, 1, x);
  }

  // The votes of x are granted in the slave's first attempt, and their ACKs are in flight.
  lemma EarlyVotes(voters: set<NodeId>, a: NodeId, b: NodeId, peers: seq<NodeId>, x: set<NodeId>) returns (run: seq<Action>)
    requires a != b && a !in voters && b !in voters && x <= voters && forall v | v in voters :: v in peers
    ensures Possible(voters, Beginning(voters, a, b), run)
    ensures var t := After(voters, Beginning(voters, a, b), run);
      && WellFormed(t) && t.nodes.Keys == voters + {a, b} && t.wins == {} && t.late[b] == 0
      && t.nodes[a] == View(1, 0, 1, 0, true) && t.nodes[b] == View(1, 0, 0, 0, false)
      && (forall v | v in voters :: Free(t.nodes[v], 2)) && forall v | v in x :: Ack(v, a, 1) in t.net
  {
    var s0 := Beginning(voters, a, b);
    assert Possible(voters, s0, []) && After(voters, s0, []) == s0;
    hide Possible, After, Enabled, Step, Asked;
    StartStep(voters, s0, a, peers, x);
    Extend(voters, s0, [], Start(a, peers));
    run := GrantAll(voters, s0, [] + [Start(a, peers)], a, 1, x);
  }

  lemma ScheduleStep(voters: set<NodeId>, s: State, c: NodeId)
    requires WellFormed(s) && c in s.nodes && c !in voters
    ensures Enabled(voters, s, Schedule(c))
    ensures Step(voters, s, Schedule(c)) ==
      s.(nodes := s.nodes[c := Scheduled(s.nodes[c])], counted := s.counted[c := {}], late := s.late[c := 0])
  {
  }

  /** For every set of voters there is a run in which two nodes win one epoch, one of them
      with 2 * quorum - N late ACKs and the other with none. */
  lemma TwoWinners(voters: set<NodeId>) returns (s0: State, run: seq<Action>, v: Win, w: Win)
    requires voters != {}
    ensures Initial(s0) && Possible(voters, s0, run) && v in After(voters, s0, run).wins && w in After(voters, s0, run).wins
    ensures v.epoch == w.epoch && v.node != w.node && v.late + w.late + |voters| == 2 * Quorum(voters)
  {
    var a := Above(voters);
    var b := a + 1;
    var q, n := Quorum(voters), |voters|;
    var x := SubsetOfSize(voters, 2 * q - n);
    var r := SubsetOfSize(voters, n - q);
    var peers := Listed(voters + {a, b});
    s0 := Beginning(voters, a, b);
    BeginningInitial(voters, a, b);
    assert |voters - r| == q;
    hide Possible, After, Quorum, Beginning, Initial;
    run := BothWin(voters, a, b, peers, x, r);
    v, w := Win(a, 2, |x|), Win(b, 2, 0);
  }

  // The late votes of x and the votes of r for one, the votes of the others for the other.
  lemma BothWin(voters: set<NodeId>, a: NodeId, b: NodeId, peers: seq<NodeId>, x: set<NodeId>, r: set<NodeId>)
    returns (run: seq<Action>)
    requires a != b && a !in voters && b !in voters && x <= voters && r <= voters && forall v | v in voters :: v in peers
    requires |x| + |r| >= Quorum(voters) && |voters - r| >= Quorum(voters)
    ensures Possible(voters, Beginning(voters, a, b), run)
    ensures {Win(a, 2, |x|), Win(b, 2, 0)} <= After(voters, Beginning(voters, a, b), run).wins
  {
    var s0 := Beginning(voters, a, b);
    hide Possible, After, Quorum, Beginning;
    run := LateVotes(voters, a, b, peers, x);
    run := Campaign(voters, s0, run, a, peers, r);
    run := Campaign(voters, s0, run, b, peers, voters - r);
  }

  lemma BeginningInitial(voters: set<NodeId>, a: NodeId, b: NodeId)
    ensures Initial(Beginning(voters, a, b))
  {
  }

  // Runs in which two wins of one epoch have at most `allowed` late ACKs in their counts are safe.
  ghost predicate SafeUpTo(voters: set<NodeId>, allowed: nat) {
    forall s, run, v, w |
      && Initial(s) && Possible(voters, s, run)
      && v in After(voters, s, run).wins && w in After(voters, s, run).wins
      && v.epoch == w.epoch && v.late + w.late <= allowed :: v.node == w.node
  }

  /** Election safety, exactly: with that many late ACKs allowed at most one node wins an epoch if
      and only if they cannot make up for the votes that two quorums lack. */
  lemma SafeIffFewLateAcks(voters: set<NodeId>, allowed: nat)
    requires voters != {}
    ensures SafeUpTo(voters, allowed) <==> allowed + |voters| < 2 * Quorum(voters)
    ensures SafeUpTo(voters, allowed) <==> allowed == 0 || (allowed == 1 && |voters| % 2 == 0)
  {
    assert 2 * Quorum(voters) - |voters| == if |voters| % 2 == 0 then 2 else 1;
    hide Initial, Possible, After, Quorum;
    if allowed + |voters| < 2 * Quorum(voters) {
      forall s, run, v, w |
        && Initial(s) && Possible(voters, s, run)
        && v in After(voters, s, run).wins && w in After(voters, s, run).wins
        && v.epoch == w.epoch && v.late + w.late <= allowed
        ensures v.node == w.node
      {
        if v.node != w.node { TwoWinnersNeedLateAcks(voters, s, run, v, w); }
      }
    } else {
      var s, run, v, w := TwoWinners(voters);
    }
  }
}
