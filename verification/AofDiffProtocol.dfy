/** The background rewrite as a protocol of two processes (redis-3.0.6/src/aof.c):
    the parent keeps feeding differences and sends them through a pipe, the child
    writes the snapshot and collects them; two '!' messages agree on the end.
    A read of the data pipe comes back empty only when the pipe is empty. */
module AofDiffProtocol {

  // Where the child is: writing the snapshot, waiting for the ack, draining the pipe, drained, exited.
  datatype Phase = Rewriting | Asking | Draining | Drained | ExitedOk | ExitedBad

  datatype Outcome = Running | Replaced(file: string) | Aborted

  // `pending` is what the blocks of the rewrite buffer hold; `fed` is history.
  datatype State = State(
    snapshot: string, pending: string, pipe: string, childDiff: string, childFile: string,
    stopSending: bool, askInFlight: bool, ackInFlight: bool,
    phase: Phase, outcome: Outcome, fed: string)

  datatype Action =
    | Feed(data: string)
    | Send(n: nat)
    | Read(n: nat)
    | Ask
    | Agree(acked: bool)
    | GetAck
    | EndDrain
    | WriteFile
    | Fail
    | Finish(written: bool)

  function Forked(snapshot: string): State {
    State(snapshot, "", "", "", "", false, false, false, Rewriting, Running, "")
  }

  ghost predicate Enabled(s: State, a: Action) {
    && s.outcome == Running
    && match a
       case Feed(_) => true
       case Send(n) => !s.stopSending && 0 < n <= |s.pending|
       case Read(n) => s.phase in {Rewriting, Draining} && 0 < n <= |s.pipe|
       case Ask => s.phase == Rewriting
       case Agree(_) => s.askInFlight
       case GetAck => s.phase == Asking && s.ackInFlight
       case EndDrain => s.phase == Draining && s.pipe == ""
       case WriteFile => s.phase == Drained
       case Fail => s.phase !in {ExitedOk, ExitedBad}
       case Finish(_) => s.phase in {ExitedOk, ExitedBad}
  }

  ghost function Step(s: State, a: Action): State
    requires Enabled(s, a)
  {
    match a
    case Feed(data) => s.(pending := s.pending + data, fed := s.fed + data)
    case Send(n) => s.(pipe := s.pipe + s.pending[..n], pending := s.pending[n..])
    case Read(n) => s.(childDiff := s.childDiff + s.pipe[..n], pipe := s.pipe[n..])
    case Ask => s.(phase := Asking, askInFlight := true)
    case Agree(acked) => s.(stopSending := true, askInFlight := false, ackInFlight := acked)
    case GetAck => s.(phase := Draining, ackInFlight := false)
    case EndDrain => s.(phase := Drained)
    case WriteFile => s.(phase := ExitedOk, childFile := s.snapshot + s.childDiff)
    case Fail => s.(phase := ExitedBad)
    // The parent appends what it did not send; a failed write drops the new file.
    case Finish(written) =>
      if s.phase == ExitedOk && written then s.(outcome := Replaced(s.childFile + s.pending)) else s.(outcome := Aborted)
  }

  // ----- What every step keeps -----

  // No byte is lost, repeated or moved on the way from the parent to the child.
  ghost predicate Conserved(s: State) { s.fed == s.childDiff + s.pipe + s.pending }

  // From the ack on the parent sends nothing, and from the end of the drain the pipe is empty.
  ghost predicate Ordered(s: State) {
    && (s.ackInFlight || s.phase in {Draining, Drained, ExitedOk} ==> s.stopSending)
    && (s.phase in {Drained, ExitedOk} ==> s.pipe == "")
    && (s.phase == ExitedOk ==> s.childFile == s.snapshot + s.childDiff)
    && (s.outcome.Replaced? ==> s.outcome.file == s.snapshot + s.fed)
  }

  ghost predicate Inv(s: State) { Conserved(s) && Ordered(s) }

  lemma StepConserved(s: State, a: Action)
    requires Conserved(s) && Enabled(s, a)
    ensures Conserved(Step(s, a))
  {
    match a
    case Feed(data) =>
      assert s.childDiff + s.pipe + (s.pending + data) == (s.childDiff + s.pipe + s.pending) + data;
    case Send(n) =>
      assert s.pending == s.pending[..n] + s.pending[n..];
      assert s.childDiff + (s.pipe + s.pending[..n]) + s.pending[n..] ==
             s.childDiff + s.pipe + (s.pending[..n] + s.pending[n..]);
    case Read(n) =>
      assert s.pipe == s.pipe[..n] + s.pipe[n..];
      assert s.childDiff + s.pipe[..n] + s.pipe[n..] + s.pending == s.childDiff + (s.pipe[..n] + s.pipe[n..]) + s.pending;
    case _ =>
  }

  lemma StepOrdered(s: State, a: Action)
    requires Inv(s) && Enabled(s, a)
    ensures Ordered(Step(s, a))
  {
    if a.Finish? && s.phase == ExitedOk {
      assert s.childDiff + "" + s.pending == s.childDiff + s.pending;
      assert (s.snapshot + s.childDiff) + s.pending == s.snapshot + (s.childDiff + s.pending);
    }
  }

  // ----- Runs -----

  ghost predicate Possible(s: State, run: seq<Action>)
    decreases |run|, 0
  {
    run == [] || (Possible(s, run[..|run| - 1]) && Enabled(After(s, run[..|run| - 1]), run[|run| - 1]))
  }

  ghost function After(s: State, run: seq<Action>): State
    requires Possible(s, run)
    decreases |run|, 1
  {
    if run == [] then s else Step(After(s, run[..|run| - 1]), run[|run| - 1])
  }

  // The differences fed in a run.
  ghost function FedIn(run: seq<Action>): string {
    if run == [] then ""
    else FedIn(run[..|run| - 1]) + if run[|run| - 1].Feed? then run[|run| - 1].data else ""
  }

  lemma StepFed(s: State, a: Action)
    requires Enabled(s, a)
    ensures Step(s, a).fed == s.fed + (if a.Feed? then a.data else "") && Step(s, a).snapshot == s.snapshot
  {
    assert s.fed + "" == s.fed;
  }

  /** In every interleaving, at every point, the bytes fed since the fork are those the
      child has, those in the pipe and those in the blocks, in this order. */
  lemma {:induction false} RunConserves(snapshot: string, run: seq<Action>)
    requires Possible(Forked(snapshot), run)
    ensures var s := After(Forked(snapshot), run);
      Inv(s) && s.snapshot == snapshot && s.fed == FedIn(run) && FedIn(run) == s.childDiff + s.pipe + s.pending
  {
    hide Enabled, Step, Ordered;
    if run == [] {
      assert Ordered(Forked(snapshot)) by { ForkedOrdered(snapshot); }
    } else {
      var before, last := run[..|run| - 1], run[|run| - 1];
      RunConserves(snapshot, before);
      StepConserved(After(Forked(snapshot), before), last);
      StepOrdered(After(Forked(snapshot), before), last);
      StepFed(After(Forked(snapshot), before), last);
    }
  }

  lemma ForkedOrdered(snapshot: string)
    ensures Ordered(Forked(snapshot))
  {
  }

  /** A rewrite that succeeds leaves exactly the snapshot and then everything fed since
      the fork, whatever the interleaving. */
  lemma RewriteIsSnapshotAndDiff(snapshot: string, run: seq<Action>)
    requires Possible(Forked(snapshot), run) && After(Forked(snapshot), run).outcome.Replaced?
    ensures After(Forked(snapshot), run).outcome.file == snapshot + FedIn(run)
  {
    hide Possible, After, FedIn;
    RunConserves(snapshot, run);
  }

  // Once the child has drained the pipe after the ack it stays empty, so what the child has not got the parent
  // still has.
  lemma DrainedIsComplete(snapshot: string, run: seq<Action>)
    requires Possible(Forked(snapshot), run) && After(Forked(snapshot), run).phase in {Drained, ExitedOk}
    ensures var s := After(Forked(snapshot), run); s.pipe == "" && s.stopSending && FedIn(run) == s.childDiff + s.pending
  {
    hide Possible, After, FedIn;
    RunConserves(snapshot, run);
    var s := After(Forked(snapshot), run);
    assert s.childDiff + "" + s.pending == s.childDiff + s.pending;
  }

  // ----- Reading the pipe -----

  const READ_SIZE: nat := 65536

  // The child reads until nothing is left.  Read number i returns at most takes[i] bytes, at least one and no
  // more than the size of its buffer.
  method ReadDiffFromParent(childDiff: string, pipe: string, takes: nat -> nat) returns (diff: string, total: nat)
    ensures diff == childDiff + pipe && total == |pipe|
  {
    diff, total := childDiff, 0;
    var calls := 0;
    while total < |pipe|
      invariant 0 <= total <= |pipe| && diff == childDiff + pipe[..total]
    {
      var left := |pipe| - total;
      var n := if takes(calls) == 0 then 1 else takes(calls);
      n := if n > READ_SIZE then READ_SIZE else n;
      n := if n > left then left else n;
      assert pipe[..total + n] == pipe[..total] + pipe[total..total + n];
      diff := diff + pipe[total..total + n];
      total, calls := total + n, calls + 1;
    }
  }

  // ----- A rewrite can succeed -----

  lemma Extend(s: State, run: seq<Action>, a: Action) returns (more: seq<Action>)
    requires Possible(s, run) && Enabled(After(s, run), a)
    ensures more == run + [a] && Possible(s, more) && After(s, more) == Step(After(s, run), a)
  {
    hide Enabled, Step;
    more := run + [a];
    assert more[..|more| - 1] == run;
  }

  // What is fed before the child asks is sent and read; what is fed after the ack is written by the parent.
  lemma CanSucceed(snapshot: string, early: string, late: string) returns (run: seq<Action>)
    requires early != ""
    ensures Possible(Forked(snapshot), run) && After(Forked(snapshot), run).childDiff == early
    ensures After(Forked(snapshot), run).outcome == Replaced(snapshot + early + late)
  {
    var s := Forked(snapshot);
    assert Possible(s, []) && After(s, []) == s;
    hide Possible, After;
    run := Extend(s, [], Feed(early));
    run := Extend(s, run, Send(|early|));
    run := Extend(s, run, Read(|early|));
    run := Extend(s, run, Ask);
    run := Extend(s, run, Agree(true));
    run := Extend(s, run, GetAck);
    run := Extend(s, run, Feed(late));
    run := Extend(s, run, EndDrain);
    run := Extend(s, run, WriteFile);
    run := Extend(s, run, Finish(true));
  }
}
