/** A server with its append-only file over whole runs (redis-3.0.6/src/aof.c): the live
    databases, the stream of commands fed to the file, and the stream of a rewrite in
    progress.  Replaying either stream gives the live databases, but for keys that have
    expired and were not deleted yet.

    Every clock reading is its own: a command is run with one and fed with another, and
    the child of a rewrite reads the clock after the fork.  The theorems say exactly when
    that matters. */
module AofServer {
  import opened AofCodec
  import opened Dataset
  import opened AofSnapshot
  import opened AofRewrite
  import opened AofReplay
  import AofDiffProtocol

  // A file that is turned on waits for a rewrite first.
  datatype Mode = Off | Waiting | On

  // The live databases and the clock; the database last selected in the streams, -1 for none; the stream of the
  // file and its buffer, kept when the file is on; and during a rewrite the stream of the new file, which is fed
  // unless the file is off.
  datatype State = State(
    live: seq<Db>, now: int, selected: int,
    mode: Mode, aof: seq<Command>,
    rewriting: bool, rewrite: seq<Command>)

  datatype Action =
    | Tick(now: int)
    | Run(db: nat, request: Request, now: int, fed: int)
    | FlushAll(db: nat, now: int)
    | Expire(db: nat, key: string, now: int)
    | Fork(records: seq<seq<Record>>, now: int, child: int, k: nat, start: bool)
    | Finish
    | Abort
    | Stop

  ghost predicate Holds(records: seq<seq<Record>>, live: seq<Db>) {
    |records| == |live| && forall d | 0 <= d < |live| :: Keyed(records[d]) && DbOf(records[d]) == live[d]
  }

  // A command runs after the expired keys it looks up were deleted.
  ghost predicate Enabled(sem: Semantics, s: State, a: Action) {
    match a
    case Tick(now) => now >= s.now
    case Run(d, r, now, fed) =>
      && d < |s.live| && fed >= now >= s.now && Acceptable(r, now) && Acceptable(r, fed)
      && Current(s.live[d], TouchedBy(sem, r), now)
    case FlushAll(d, now) => d < |s.live| && now >= s.now
    case Expire(d, key, now) => d < |s.live| && now >= s.now && key in s.live[d] && ExpiredBefore(s.live[d][key].expire, now)
    case Fork(records, now, child, k, start) =>
      !s.rewriting && child >= now >= s.now && k >= 1 && Holds(records, s.live) && (start ==> s.mode == Off)
    case Finish => s.rewriting
    case Abort => s.rewriting
    case Stop => s.mode != Off
  }

  function Streamed(s: State, fed: seq<Command>): State {
    s.(aof := if s.mode == On then s.aof + fed else s.aof,
       rewrite := if s.rewriting then s.rewrite + fed else s.rewrite)
  }

  function Feed(s: State, d: nat, e: Effect, now: int): State
    requires d < |s.live|
  {
    var t := s.(live := s.live[d := e.db], now := now);
    if e.fed == [] || s.mode == Off then t else Streamed(t, Fed(s.selected, d, e.fed)).(selected := d)
  }

  const FLUSHING: Command := ["FLUSHALL"]

  ghost function Step(sem: Semantics, s: State, a: Action): State
    requires Enabled(sem, s, a)
  {
    match a
    case Tick(now) => s.(now := now)
    case Run(d, r, now, fed) => Feed(s, d, Performed(sem, s.live[d], r, now, fed), now)
    case FlushAll(d, now) =>
      var t := s.(live := Emptied(|s.live|), now := now);
      if s.mode == Off then t else Streamed(t, Fed(s.selected, d, [FLUSHING])).(selected := d)
    case Expire(d, key, now) => Feed(s, d, Effect(s.live[d] - {key}, [["DEL", key]]), now)
    // The child leaves out what has expired when it reads the clock; a file can be turned on with the fork.
    case Fork(records, now, child, k, start) =>
      s.(now := now, selected := -1, rewriting := true, rewrite := Snapshot(records, child, k),
         mode := if start then Waiting else s.mode)
    // The new file replaces the old one, and the buffer in front of that is dropped; a file that is off stays off.
    case Finish =>
      if s.mode == Off then s.(aof := s.rewrite, rewriting := false)
      else s.(selected := -1, mode := On, aof := s.rewrite, rewriting := false)
    case Abort => s.(rewriting := false)
    // The file is turned off and a child that runs is killed.
    case Stop => s.(selected := -1, mode := Off, rewriting := false)
  }

  ghost predicate Initial(s: State) {
    && 0 < |s.live| < LONG_LIMIT && !s.rewriting && s.selected == -1
    && (s.mode == On ==> s.aof == [] && s.live == Emptied(|s.live|))
  }

  // ----- Clock readings that agree well enough -----

  // No key expires between the two readings.
  ghost predicate NoneBetween(live: seq<Db>, parent: int, child: int) {
    forall d, k | 0 <= d < |live| && k in live[d] && ExpiredBefore(live[d][k].expire, child) ::
      ExpiredBefore(live[d][k].expire, parent)
  }

  ghost predicate Timely(sem: Semantics, s: State, a: Action)
    requires Enabled(sem, s, a)
  {
    match a
    case Run(d, r, now, fed) => Exact(s.live[d], r, now, fed)
    case Fork(_, now, child, _, _) => NoneBetween(s.live, now, child)
    case _ => true
  }

  // ----- What every timely step keeps -----

  ghost predicate Inv(sem: Semantics, s: State) {
    && 0 < |s.live| < LONG_LIMIT
    && (s.mode == On ==> Follows(sem, s.live, s.aof, s.selected, s.now))
    && (s.rewriting && s.mode != Off ==> Follows(sem, s.live, s.rewrite, s.selected, s.now))
  }

  lemma InitialInv(sem: Semantics, s: State)
    requires Initial(s)
    ensures Inv(sem, s)
  {
    NoneLeft(sem, Fresh(|s.live|));
  }

  lemma LaterFollows(sem: Semantics, live: seq<Db>, cmds: seq<Command>, selected: int, now: int, later: int)
    requires Follows(sem, live, cmds, selected, now) && now <= later
    ensures Follows(sem, live, cmds, selected, later) && Follows(sem, live, cmds, -1, later)
  {
    hide ExecAll;
  }

  // The effect of a step on an alike database is that of what it feeds.
  ghost predicate Mirrors(sem: Semantics, live: Db, e: Effect, now: int) {
    InOneDb(e.fed) && forall rep | Alike(live, rep, now) :: Alike(e.db, ApplyAll(sem, rep, e.fed), now)
  }

  lemma EffectFollows(sem: Semantics, live: seq<Db>, cmds: seq<Command>, selected: int, d: nat, e: Effect, now: int)
    requires Follows(sem, live, cmds, selected, now) && d < |live| < LONG_LIMIT && Mirrors(sem, live[d], e, now)
    ensures Follows(sem, live[d := e.db], cmds + Fed(selected, d, e.fed), d, now)
    ensures e.fed == [] ==> Follows(sem, live[d := e.db], cmds, selected, now)
  {
    var rep := ExecAll(sem, Fresh(|live|), cmds).dbs[d];
    assert Alike(live[d], rep, now);
    ApplyNone(sem, rep);
    hide ExecAll, ApplyAll, Fed, Alike, InOneDb;
    assert Alike(e.db, ApplyAll(sem, rep, e.fed), now);
    FeedFollows(sem, live, cmds, selected, d, e.db, e.fed, now);
  }

  lemma FeedInv(sem: Semantics, s: State, d: nat, e: Effect, now: int)
    requires Inv(sem, s) && d < |s.live| && now >= s.now && Mirrors(sem, s.live[d], e, now)
    ensures Inv(sem, Feed(s, d, e, now))
  {
    hide Follows, Mirrors, Fed;
    if s.mode == On {
      LaterFollows(sem, s.live, s.aof, s.selected, s.now, now);
      EffectFollows(sem, s.live, s.aof, s.selected, d, e, now);
    }
    if s.rewriting && s.mode != Off {
      LaterFollows(sem, s.live, s.rewrite, s.selected, s.now, now);
      EffectFollows(sem, s.live, s.rewrite, s.selected, d, e, now);
    }
  }

  lemma RunMirrors(sem: Semantics, live: Db, r: Request, now: int, fed: int)
    requires Current(live, TouchedBy(sem, r), now) && Acceptable(r, now) && Acceptable(r, fed) && Exact(live, r, now, fed)
    ensures Mirrors(sem, live, Performed(sem, live, r, now, fed), now)
  {
    hide Performed, Current, Acceptable, ApplyAll, InOneDb, TouchedBy, Exact;
    PerformedAlike(sem, live, live, r, now, fed);
    var e := Performed(sem, live, r, now, fed);
    forall rep | Alike(live, rep, now) ensures Alike(e.db, ApplyAll(sem, rep, e.fed), now) {
      hide Alike;
      PerformedAlike(sem, live, rep, r, now, fed);
    }
  }

  lemma ExpireMirrors(sem: Semantics, live: Db, key: string, now: int)
    ensures Mirrors(sem, live, Effect(live - {key}, [["DEL", key]]), now)
  {
    hide ApplyAll;
    forall rep ensures ApplyAll(sem, rep, [["DEL", key]]) == rep - {key} && InOneDb([["DEL", key]]) {
      ApplyDel(sem, rep, key);
    }
    DelName(key);
  }

  lemma FlushAllFollows(sem: Semantics, live: seq<Db>, cmds: seq<Command>, selected: int, d: nat, now: int)
    requires Follows(sem, live, cmds, selected, now) && d < |live| < LONG_LIMIT
    ensures Follows(sem, Emptied(|live|), cmds + Fed(selected, d, [FLUSHING]), d, now)
  {
    hide ExecAll, Selecting;
    var n := |live|;
    var r := ExecAll(sem, Fresh(n), cmds);
    ExecConcat(sem, Fresh(n), cmds, Fed(selected, d, [FLUSHING]));
    if d != selected {
      ExecConcat(sem, r, [Selecting(d)], [FLUSHING]);
      SelectRebuilt(sem, r, d);
      FlushAllEmpties(sem, r.(selected := d));
    } else {
      assert [] + [FLUSHING] == [FLUSHING];
      FlushAllEmpties(sem, r);
    }
  }

  lemma FlushAllEmpties(sem: Semantics, st: Replay)
    ensures ExecAll(sem, st, [FLUSHING]) == st.(dbs := Emptied(|st.dbs|))
  {
    ExecOne(sem, st, FLUSHING);
    assert |"FLUSHALL"| == 8;
  }

  lemma FlushAllInv(sem: Semantics, s: State, d: nat, now: int)
    requires Inv(sem, s) && Enabled(sem, s, FlushAll(d, now))
    ensures Inv(sem, Step(sem, s, FlushAll(d, now)))
  {
    hide Follows, Fed;
    if s.mode == On {
      LaterFollows(sem, s.live, s.aof, s.selected, s.now, now);
      FlushAllFollows(sem, s.live, s.aof, s.selected, d, now);
    }
    if s.rewriting && s.mode != Off {
      LaterFollows(sem, s.live, s.rewrite, s.selected, s.now, now);
      FlushAllFollows(sem, s.live, s.rewrite, s.selected, d, now);
    }
  }

  // What replaying the child's snapshot gives.
  lemma SnapshotReplayed(sem: Semantics, live: seq<Db>, records: seq<seq<Record>>, child: int, k: nat)
    requires Holds(records, live) && k >= 1 && 0 < |live| < LONG_LIMIT
    ensures var r := ExecAll(sem, Fresh(|live|), Snapshot(records, child, k));
      |r.dbs| == |live| && r.selected < |live| && forall d | 0 <= d < |live| :: r.dbs[d] == Unexpired(live[d], child)
  {
    hide ExecAll, Snapshot, DbOf, Keyed, Unexpired;
    SnapshotRebuilt(sem, |live|, records, child, k);
  }

  // The snapshot follows the parent's databases if no key expires between the two clock readings.
  lemma ForkFollows(sem: Semantics, live: seq<Db>, records: seq<seq<Record>>, now: int, child: int, k: nat)
    requires Holds(records, live) && k >= 1 && 0 < |live| < LONG_LIMIT && NoneBetween(live, now, child)
    ensures Follows(sem, live, Snapshot(records, child, k), -1, now)
  {
    hide ExecAll, Snapshot, Holds;
    SnapshotReplayed(sem, live, records, child, k);
  }

  lemma StepInv(sem: Semantics, s: State, a: Action)
    requires Inv(sem, s) && Enabled(sem, s, a) && Timely(sem, s, a)
    ensures Inv(sem, Step(sem, s, a))
  {
    hide Follows, Feed, Performed, Mirrors, Holds, Current, Acceptable, Snapshot, NoneBetween, Exact;
    match a
    case Tick(now) =>
      if s.mode == On { LaterFollows(sem, s.live, s.aof, s.selected, s.now, now); }
      if s.rewriting && s.mode != Off { LaterFollows(sem, s.live, s.rewrite, s.selected, s.now, now); }
    case Run(d, r, now, fed) =>
      RunMirrors(sem, s.live[d], r, now, fed);
      FeedInv(sem, s, d, Performed(sem, s.live[d], r, now, fed), now);
    case FlushAll(d, now) => FlushAllInv(sem, s, d, now);
    case Expire(d, key, now) =>
      ExpireMirrors(sem, s.live[d], key, now);
      FeedInv(sem, s, d, Effect(s.live[d] - {key}, [["DEL", key]]), now);
    case Fork(records, now, child, k, _) =>
      ForkFollows(sem, s.live, records, now, child, k);
      if s.mode == On { LaterFollows(sem, s.live, s.aof, s.selected, s.now, now); }
    case Finish =>
      if s.mode != Off { LaterFollows(sem, s.live, s.rewrite, s.selected, s.now, s.now); }
    case Abort =>
    case Stop =>
  }

  // ----- Runs -----

  ghost predicate Possible(sem: Semantics, s: State, run: seq<Action>)
    decreases |run|, 0
  {
    run == [] || (Possible(sem, s, run[..|run| - 1]) && Enabled(sem, After(sem, s, run[..|run| - 1]), run[|run| - 1]))
  }

  ghost function After(sem: Semantics, s: State, run: seq<Action>): State
    requires Possible(sem, s, run)
    decreases |run|, 1
  {
    if run == [] then s else Step(sem, After(sem, s, run[..|run| - 1]), run[|run| - 1])
  }

  // A run in which no clock difference matters.
  ghost predicate TimelyRun(sem: Semantics, s: State, run: seq<Action>)
    requires Possible(sem, s, run)
  {
    run == [] || (TimelyRun(sem, s, run[..|run| - 1]) && Timely(sem, After(sem, s, run[..|run| - 1]), run[|run| - 1]))
  }

  lemma {:induction false} RunInv(sem: Semantics, s: State, run: seq<Action>)
    requires Inv(sem, s) && Possible(sem, s, run) && TimelyRun(sem, s, run)
    ensures Inv(sem, After(sem, s, run))
  {
    hide Inv, Enabled, Step, Timely;
    if run != [] {
      RunInv(sem, s, run[..|run| - 1]);
      StepInv(sem, After(sem, s, run[..|run| - 1]), run[|run| - 1]);
    }
  }

  // ----- Every command of the streams can be loaded -----

  // The loader knows the commands the server makes up itself.
  ghost predicate Knows(known: string -> bool) { KnowsSnapshots(known) && known("DEL") && known("FLUSHALL") }

  // What a client sends, a key that expires and the data at a fork fit the loader's integers.
  ghost predicate Loadable(a: Action, known: string -> bool) {
    match a
    case Run(_, Plain(argv), _, _) => Storable(argv) && known(argv[0])
    case Run(_, SetExpire(_, key, _), _, _) => |key| < LONG_LIMIT
    case Run(_, SetEx(_, key, _, text), _, _) => |key| < LONG_LIMIT && |text| < LONG_LIMIT
    case Expire(_, key, _) => |key| < LONG_LIMIT
    case Fork(records, _, _, k, _) => ShortDbs(records) && 2 + 2 * k < INT_LIMIT
    case _ => true
  }

  ghost predicate StreamsStorable(s: State, known: string -> bool) {
    (s.mode == On ==> AllStorable(s.aof, known)) && (s.rewriting ==> AllStorable(s.rewrite, known))
  }

  lemma TwoStorable(name: string, key: string, known: string -> bool)
    requires |name| < LONG_LIMIT && |key| < LONG_LIMIT && known(name)
    ensures AllStorable([[name, key]], known)
  {
  }

  lemma FedStorable(selected: int, d: nat, cmds: seq<Command>, known: string -> bool)
    requires d < LONG_LIMIT && AllStorable(cmds, known) && known("SELECT")
    ensures AllStorable(Fed(selected, d, cmds), known)
  {
    SelectStorable(d, known);
    hide AllStorable;
    StorableConcat([Selecting(d)], cmds, known);
    assert [] + cmds == cmds;
  }

  lemma StreamedStorable(s: State, fed: seq<Command>, known: string -> bool)
    requires StreamsStorable(s, known) && AllStorable(fed, known)
    ensures StreamsStorable(Streamed(s, fed), known)
  {
    hide AllStorable;
    if s.mode == On { StorableConcat(s.aof, fed, known); }
    if s.rewriting { StorableConcat(s.rewrite, fed, known); }
  }

  lemma ExpireAtStorable(key: string, when: int, known: string -> bool)
    requires |key| < LONG_LIMIT && -LONG_LIMIT < when < LONG_LIMIT && known("PEXPIREAT")
    ensures AllStorable([ExpireAt(key, when)], known)
  {
    DecIntShort(when);
    hide DecInt;
    ThreeStorable("PEXPIREAT", key, DecInt(when), known);
  }

  lemma PerformedStorable(sem: Semantics, db: Db, d: nat, r: Request, now: int, fed: int, known: string -> bool)
    requires Knows(known) && Loadable(Run(d, r, now, fed), known) && Acceptable(r, fed)
    ensures AllStorable(Performed(sem, db, r, now, fed).fed, known)
  {
    NoneStorable(known);
    match r
    case Plain(argv) =>
    case SetExpire(kind, key, amount) =>
      hide AllStorable, ExpireAt;
      TwoStorable("DEL", key, known);
      ExpireAtStorable(key, When(kind, amount, fed), known);
    case SetEx(seconds, key, amount, text) =>
      hide AllStorable, ExpireAt;
      ThreeStorable("SET", key, text, known);
      var x := ExpireAt(key, When(SetExKind(seconds), amount, fed));
      ExpireAtStorable(key, When(SetExKind(seconds), amount, fed), known);
      StorableConcat([["SET", key, text]], [x], known);
      assert [["SET", key, text]] + [x] == [["SET", key, text], x];
  }

  lemma FeedStorable(s: State, d: nat, e: Effect, now: int, known: string -> bool)
    requires StreamsStorable(s, known) && AllStorable(e.fed, known) && d < |s.live| < LONG_LIMIT && Knows(known)
    ensures StreamsStorable(Feed(s, d, e, now), known)
  {
    FedStorable(s.selected, d, e.fed, known);
    hide AllStorable, Fed;
    StreamedStorable(s.(live := s.live[d := e.db], now := now), Fed(s.selected, d, e.fed), known);
  }

  lemma StepStorable(sem: Semantics, s: State, a: Action, known: string -> bool)
    requires StreamsStorable(s, known) && Enabled(sem, s, a) && Loadable(a, known) && Knows(known) && 0 < |s.live| < LONG_LIMIT
    ensures StreamsStorable(Step(sem, s, a), known) && |Step(sem, s, a).live| == |s.live|
  {
    hide AllStorable, Performed, Fed, Snapshot, Current, Acceptable;
    match a
    case Run(d, r, now, fed) =>
      PerformedStorable(sem, s.live[d], d, r, now, fed, known);
      FeedStorable(s, d, Performed(sem, s.live[d], r, now, fed), now, known);
    case FlushAll(d, now) =>
      FlushingStorable(known);
      FedStorable(s.selected, d, [FLUSHING], known);
      StreamedStorable(s.(live := Emptied(|s.live|), now := now), Fed(s.selected, d, [FLUSHING]), known);
    case Expire(d, key, now) =>
      TwoStorable("DEL", key, known);
      FeedStorable(s, d, Effect(s.live[d] - {key}, [["DEL", key]]), now, known);
    case Fork(records, now, child, k, _) => SnapshotStorable(records, child, k, known);
    case _ =>
  }

  lemma FlushingStorable(known: string -> bool)
    requires known("FLUSHALL")
    ensures AllStorable([FLUSHING], known)
  {
  }

  ghost predicate LoadableRun(run: seq<Action>, known: string -> bool) { forall a | a in run :: Loadable(a, known) }

  lemma {:induction false} RunStorable(sem: Semantics, s: State, run: seq<Action>, known: string -> bool)
    requires Initial(s) && Possible(sem, s, run) && LoadableRun(run, known) && Knows(known)
    ensures StreamsStorable(After(sem, s, run), known) && |After(sem, s, run).live| == |s.live|
  {
    hide Enabled, Step, Loadable, Knows;
    if run != [] {
      assert run[|run| - 1] in run;
      RunStorable(sem, s, run[..|run| - 1], known);
      hide StreamsStorable;
      StepStorable(sem, After(sem, s, run[..|run| - 1]), run[|run| - 1], known);
    }
  }

  // ----- What the file means -----

  /** In every timely run of commands, expirations and rewrites, loading the bytes of the file and
      its buffer gives the live databases, but for keys that have expired. */
  lemma FileMeansLive(sem: Semantics, s: State, run: seq<Action>, known: string -> bool)
    requires Initial(s) && Possible(sem, s, run) && TimelyRun(sem, s, run) && After(sem, s, run).mode == On
    requires LoadableRun(run, known) && Knows(known)
    ensures var t := After(sem, s, run);
      AllAlike(t.live, Restored(sem, |t.live|, EncodeAll(t.aof), known).dbs, t.now)
  {
    InitialInv(sem, s);
    RunStorable(sem, s, run, known);
    hide Initial, Possible, After, AllAlike, ExecAll, EncodeAll, Load, AllStorable, LoadableRun, Knows, TimelyRun;
    RunInv(sem, s, run);
    RoundTrip(After(sem, s, run).aof, known);
  }

  /** The file a rewrite leaves, in any interleaving of the two processes, loads to the live databases unless
      the file is off; so the buffer of the old file may be dropped.  See OneTimeRewrite for a file that is off. */
  lemma RewriteMeansLive(sem: Semantics, s: State, run: seq<Action>, known: string -> bool,
                         snapshot: seq<Command>, diff: seq<Command>, steps: seq<AofDiffProtocol.Action>)
    requires Initial(s) && Possible(sem, s, run) && TimelyRun(sem, s, run) && After(sem, s, run).rewriting
    requires LoadableRun(run, known) && Knows(known) && After(sem, s, run).rewrite == snapshot + diff
    requires AofDiffProtocol.Possible(AofDiffProtocol.Forked(EncodeAll(snapshot)), steps)
    requires AofDiffProtocol.After(AofDiffProtocol.Forked(EncodeAll(snapshot)), steps).outcome.Replaced?
    requires AofDiffProtocol.FedIn(steps) == EncodeAll(diff)
    ensures var t := After(sem, s, run);
      var file := AofDiffProtocol.After(AofDiffProtocol.Forked(EncodeAll(snapshot)), steps).outcome.file;
      t.mode != Off ==> AllAlike(t.live, Restored(sem, |t.live|, file, known).dbs, t.now)
  {
    InitialInv(sem, s);
    RunStorable(sem, s, run, known);
    hide Initial, Possible, After, AllAlike, ExecAll, EncodeAll, Load, AllStorable, LoadableRun, Knows, TimelyRun;
    hide AofDiffProtocol.Possible, AofDiffProtocol.After, AofDiffProtocol.FedIn, AofDiffProtocol.Forked;
    RunInv(sem, s, run);
    RoundTrip(snapshot + diff, known);
    AofDiffProtocol.RewriteIsSnapshotAndDiff(EncodeAll(snapshot), steps);
    EncodeConcat(snapshot, diff);
  }

  // A finished rewrite turns the file on exactly if it was not off.  The file is then the new one and follows the
  // live databases, nothing is being rewritten, and the next command fed to it starts with SELECT.
  lemma FinishTurnsOn(sem: Semantics, s: State, d: nat, e: Effect, now: int)
    requires Inv(sem, s) && s.rewriting && d < |s.live| && e.fed != []
    ensures var t := Step(sem, s, Finish);
      && (t.mode == On <==> s.mode != Off) && (s.mode == Off ==> t == s.(aof := s.rewrite, rewriting := false))
      && !t.rewriting && t.live == s.live && t.aof == s.rewrite
    ensures s.mode != Off ==>
      var t := Step(sem, s, Finish);
      && Follows(sem, t.live, t.aof, t.selected, t.now)
      && Feed(t, d, e, now).aof == s.rewrite + ([["SELECT", Dec(d)]] + e.fed) && Feed(t, d, e, now).selected == d
  {
    StepInv(sem, s, Finish);
    hide Follows, Inv;
  }

  // While the file is off nothing is fed, not even to a rewrite.
  lemma OffFeedsNothing(s: State, d: nat, e: Effect, now: int)
    requires s.mode == Off && d < |s.live|
    ensures var t := Feed(s, d, e, now);
      t.aof == s.aof && t.rewrite == s.rewrite && t.selected == s.selected && t.live == s.live[d := e.db]
  {
  }

  // An aborted rewrite leaves the file as it is.
  lemma AbortKeepsFile(sem: Semantics, s: State)
    requires Inv(sem, s) && s.rewriting
    ensures var t := Step(sem, s, Abort); !t.rewriting && t == s.(rewriting := false) && Inv(sem, t)
  {
    StepInv(sem, s, Abort);
  }

  // FLUSHDB empties its database, live and replayed; FLUSHALL empties all.
  lemma FlushesEmpty(sem: Semantics, db: Db, st: Replay, now: int, fed: int)
    ensures Performed(sem, db, Plain(["FLUSHDB"]), now, fed) == Effect(map[], [["FLUSHDB"]])
    ensures st.selected < |st.dbs| ==> Exec(sem, st, ["FLUSHDB"]) == st.(dbs := st.dbs[st.selected := map[]])
    ensures Exec(sem, st, ["FLUSHALL"]).dbs == seq(|st.dbs|, _ => map[]) && Exec(sem, st, ["FLUSHALL"]).selected == st.selected
  {
    assert |"FLUSHDB"| == 7 && |"FLUSHALL"| == 8;
  }

  // ----- When the clock moves between running and feeding -----

  /** A command keeps the file's stream following the live databases if and only if the clock reads the same when
      it runs and when it is fed, or it does not set a time relative to the clock. */
  lemma FeedExact(sem: Semantics, s: State, d: nat, r: Request, now: int, fed: int)
    requires Inv(sem, s) && s.mode == On && Enabled(sem, s, Run(d, r, now, fed))
    ensures var t := Step(sem, s, Run(d, r, now, fed));
      Follows(sem, t.live, t.aof, t.selected, t.now) <==> Exact(s.live[d], r, now, fed)
  {
    var a := Run(d, r, now, fed);
    if Exact(s.live[d], r, now, fed) {
      hide Follows;
      StepInv(sem, s, a);
    } else {
      FedInOneDb(sem, s.live[d], r, now, fed);
      hide Performed, Follows, Fed, Acceptable, Current;
      LaterFollows(sem, s.live, s.aof, s.selected, s.now, now);
      FedLate(sem, s.live, s.aof, s.selected, d, r, now, fed);
    }
  }

  lemma FedLate(sem: Semantics, live: seq<Db>, cmds: seq<Command>, selected: int, d: nat, r: Request, now: int, fed: int)
    requires Follows(sem, live, cmds, selected, now) && d < |live| < LONG_LIMIT && Current(live[d], TouchedBy(sem, r), now)
    requires Acceptable(r, now) && Acceptable(r, fed) && !Exact(live[d], r, now, fed)
    ensures var e := Performed(sem, live[d], r, now, fed);
      !Follows(sem, live[d := e.db], cmds + Fed(selected, d, e.fed), d, now)
  {
    var st := ExecAll(sem, Fresh(|live|), cmds);
    var e := Performed(sem, live[d], r, now, fed);
    FedInOneDb(sem, live[d], r, now, fed);
    hide ExecAll, ApplyAll, Alike, Current, Performed, Fed, Exact, Acceptable, SetsRelative, TouchedBy;
    ClockExact(sem, live[d], st.dbs[d], r, now, fed);
    ExecConcat(sem, Fresh(|live|), cmds, Fed(selected, d, e.fed));
    ExecFed(sem, st, selected, d, e.fed);
    var after := ExecAll(sem, Fresh(|live|), cmds + Fed(selected, d, e.fed));
    assert !Alike(live[d := e.db][d], after.dbs[d], now);
  }

  lemma FedInOneDb(sem: Semantics, db: Db, r: Request, now: int, fed: int)
    requires Acceptable(r, fed) && SetsRelative(db, r, now)
    ensures var e := Performed(sem, db, r, now, fed); e.fed != [] && InOneDb(e.fed)
  {
    hide ApplyAll, DecInt, NameOf;
    match r
    case SetExpire(kind, key, amount) => ApplyExpireAt(sem, db, key, When(kind, amount, fed));
    case SetEx(seconds, key, amount, text) =>
      ApplySet(sem, db, key, text);
      ApplyExpireAt(sem, db, key, When(SetExKind(seconds), amount, fed));
  }

  // ----- When the child reads the clock after the parent goes on -----

  ghost predicate RewriteFollows(sem: Semantics, s: State) {
    s.rewriting && Follows(sem, s.live, s.rewrite, s.selected, s.now)
  }

  // The rewrite goes on.
  ghost predicate Continues(run: seq<Action>) { forall a | a in run :: a.Tick? || a.Run? || a.FlushAll? || a.Expire? }

  // Whatever the parent does from here, once its clock has reached the child's reading the new file follows it.
  ghost predicate EndsWell(sem: Semantics, t: State, child: int) {
    forall run | Possible(sem, t, run) && TimelyRun(sem, t, run) && Continues(run) && After(sem, t, run).now >= child ::
      RewriteFollows(sem, After(sem, t, run))
  }

  lemma {:induction false} ContinuesRewriting(sem: Semantics, s: State, run: seq<Action>)
    requires Possible(sem, s, run) && s.rewriting && Continues(run)
    ensures After(sem, s, run).rewriting && After(sem, s, run).mode == s.mode
    ensures s.mode == Off ==> After(sem, s, run).rewrite == s.rewrite
  {
    hide Performed, Fed;
    if run != [] {
      assert run[|run| - 1] in run;
      ContinuesRewriting(sem, s, run[..|run| - 1]);
    }
  }

  lemma Extend(sem: Semantics, s: State, run: seq<Action>, a: Action)
    requires Possible(sem, s, run) && TimelyRun(sem, s, run)
    requires Enabled(sem, After(sem, s, run), a) && Timely(sem, After(sem, s, run), a)
    ensures Possible(sem, s, run + [a]) && TimelyRun(sem, s, run + [a])
    ensures After(sem, s, run + [a]) == Step(sem, After(sem, s, run), a)
  {
    hide Enabled, Step, Timely;
    assert (run + [a])[..|run + [a]| - 1] == run;
  }

  // The stream of a rewrite that lacks a key, and a parent that has it.
  ghost predicate Lacks(sem: Semantics, s: State, d: nat, key: string) {
    && s.rewriting && s.mode != Off && 0 < |s.live| < LONG_LIMIT && d < |s.live| && key in s.live[d]
    && var st := ExecAll(sem, Fresh(|s.live|), s.rewrite);
       st.selected < |st.dbs| == |s.live| && (s.selected != -1 ==> st.selected == s.selected) && key !in st.dbs[d]
  }

  function Prolong(key: string, when: int): Request { SetExpire(ExpireKind.PEXPIREAT, key, when) }

  // Prolonging the key does not bring it back.
  lemma StillLacks(sem: Semantics, s: State, d: nat, key: string, when: int, now: int)
    requires Lacks(sem, s, d, key) && -LONG_LIMIT < when < LONG_LIMIT && when > now
    ensures var t := Feed(s, d, Performed(sem, s.live[d], Prolong(key, when), now, now), now);
      Lacks(sem, t, d, key) && t.live[d][key].expire == At(when)
  {
    hide ExecAll, ApplyAll, Apply, NameOf, DecInt;
    var st := ExecAll(sem, Fresh(|s.live|), s.rewrite);
    var c := ExpireAt(key, when);
    ApplyExpireAt(sem, st.dbs[d], key, when);
    ApplyOne(sem, st.dbs[d], c);
    hide ExpireAt, Fed;
    ExecConcat(sem, Fresh(|s.live|), s.rewrite, Fed(s.selected, d, [c]));
    ExecFed(sem, st, s.selected, d, [c]);
  }

  lemma LackingNotFollowing(sem: Semantics, s: State, d: nat, key: string)
    requires Lacks(sem, s, d, key) && !ExpiredBefore(s.live[d][key].expire, s.now)
    ensures !RewriteFollows(sem, s)
  {
    hide ExecAll;
  }

  // Any key that expires between the two readings can be lost: the parent prolongs it after the fork.
  lemma LateChildLosesKey(sem: Semantics, t: State, d: nat, key: string, child: int) returns (run: seq<Action>)
    requires Lacks(sem, t, d, key) && 0 <= t.now <= child < LONG_LIMIT - 1 && !ExpiredBefore(t.live[d][key].expire, t.now)
    ensures Possible(sem, t, run) && TimelyRun(sem, t, run) && Continues(run) && After(sem, t, run).now >= child
    ensures !RewriteFollows(sem, After(sem, t, run))
  {
    var a, b := Run(d, Prolong(key, child + 1), t.now, t.now), Tick(child);
    assert Possible(sem, t, []) && TimelyRun(sem, t, []) && After(sem, t, []) == t;
    StillLacks(sem, t, d, key, child + 1, t.now);
    ProlongEnabled(sem, t, d, key, child + 1);
    hide Possible, TimelyRun, After, Lacks, Performed, RewriteFollows, Feed, Current, Acceptable, Exact;
    Extend(sem, t, [], a);
    var u := Step(sem, t, a);
    Extend(sem, t, [] + [a], b);
    LacksLater(sem, u, d, key, child);
    LackingNotFollowing(sem, Step(sem, u, b), d, key);
    run := [] + [a] + [b];
  }

  lemma ProlongEnabled(sem: Semantics, t: State, d: nat, key: string, when: int)
    requires d < |t.live| && key in t.live[d] && !ExpiredBefore(t.live[d][key].expire, t.now) && -LONG_LIMIT < when < LONG_LIMIT
    ensures var a := Run(d, Prolong(key, when), t.now, t.now);
      && Enabled(sem, t, a) && Timely(sem, t, a)
      && Step(sem, t, a) == Feed(t, d, Performed(sem, t.live[d], Prolong(key, when), t.now, t.now), t.now)
      && Step(sem, t, a).now == t.now
  {
    hide Performed, Fed;
  }

  lemma LacksLater(sem: Semantics, s: State, d: nat, key: string, now: int)
    requires Lacks(sem, s, d, key)
    ensures Lacks(sem, s.(now := now), d, key)
  {
    hide ExecAll;
  }

  // With the file off a rewrite can be left behind: the parent empties its databases and sets a key.
  lemma OffFallsBehind(sem: Semantics, t: State, child: int) returns (run: seq<Action>)
    requires t.rewriting && t.mode == Off && 0 < |t.live| < LONG_LIMIT && 0 <= t.now <= child < LONG_LIMIT - 1
    ensures Possible(sem, t, run) && TimelyRun(sem, t, run) && Continues(run) && After(sem, t, run).now >= child
    ensures !RewriteFollows(sem, After(sem, t, run))
  {
    var text := OtherText(sem, t, child + 1);
    var a, b, c := FlushAll(0, t.now), Run(0, Settle(text, child + 1 - t.now), t.now, t.now), Tick(child);
    assert Possible(sem, t, []) && TimelyRun(sem, t, []) && After(sem, t, []) == t;
    hide Possible, TimelyRun, After, RewriteFollows;
    Extend(sem, t, [], a);
    var u := Step(sem, t, a);
    SettleEnabled(sem, u, text, child + 1);
    hide Step, Enabled, Timely;
    Extend(sem, t, [] + [a], b);
    var v := Step(sem, u, b);
    TickStep(sem, v, child);
    Extend(sem, t, [] + [a] + [b], c);
    OtherNotFollowing(sem, Step(sem, v, c), text, child + 1);
    run := [] + [a] + [b] + [c];
  }

  function Settle(text: string, amount: int): Request { SetEx(false, "", amount, text) }

  function Settled(text: string, when: int): Entry { Entry(Str(text), At(when)) }

  // What the rewrite's stream replays to in the first database does not hold the text under the empty key.
  ghost predicate Other(sem: Semantics, t: State, text: string, when: int)
    requires |t.live| > 0
  {
    var st := ExecAll(sem, Fresh(|t.live|), t.rewrite);
    st.dbs == [] || "" !in st.dbs[0] || st.dbs[0][""] != Settled(text, when)
  }

  lemma OtherText(sem: Semantics, t: State, when: int) returns (text: string)
    requires |t.live| > 0
    ensures Other(sem, t, text, when)
  {
    hide ExecAll;
    text := if Other(sem, t, "", when) then "" else "x";
  }

  lemma OtherNotFollowing(sem: Semantics, s: State, text: string, when: int)
    requires |s.live| > 0 && Other(sem, s, text, when) && s.now < when
    requires "" in s.live[0] && s.live[0][""] == Settled(text, when)
    ensures !RewriteFollows(sem, s)
  {
    hide ExecAll;
  }

  lemma SettleEnabled(sem: Semantics, u: State, text: string, when: int)
    requires u.mode == Off && |u.live| > 0 && u.live[0] == map[] && 0 <= u.now < when < LONG_LIMIT
    ensures var a := Run(0, Settle(text, when - u.now), u.now, u.now);
      Enabled(sem, u, a) && Timely(sem, u, a) && Step(sem, u, a) == u.(live := u.live[0 := map["" := Settled(text, when)]])
  {
  }

  lemma TickStep(sem: Semantics, s: State, now: int)
    requires now >= s.now
    ensures Enabled(sem, s, Tick(now)) && Timely(sem, s, Tick(now)) && Step(sem, s, Tick(now)) == s.(now := now)
  {
  }

  /** A rewrite whose child reads the clock at `child` after a fork at `now` ends well, whatever the parent does
      meanwhile, if and only if the file is on or turned on and no key expires between the two readings. */
  lemma ForkExact(sem: Semantics, s: State, records: seq<seq<Record>>, now: int, child: int, k: nat, start: bool)
    requires Inv(sem, s) && Enabled(sem, s, Fork(records, now, child, k, start)) && 0 <= now && child < LONG_LIMIT - 1
    ensures EndsWell(sem, Step(sem, s, Fork(records, now, child, k, start)), child) <==>
      (s.mode != Off || start) && NoneBetween(s.live, now, child)
  {
    var a := Fork(records, now, child, k, start);
    var t := Step(sem, s, a);
    if t.mode == Off {
      hide Follows, Snapshot, Holds, ExecAll, Possible, TimelyRun, After, RewriteFollows;
      var run := OffFallsBehind(sem, t, child);
    } else if NoneBetween(s.live, now, child) {
      StepInv(sem, s, a);
      hide Inv, Step, Enabled, Follows, Possible, TimelyRun, After, NoneBetween;
      forall run | Possible(sem, t, run) && TimelyRun(sem, t, run) && Continues(run) && After(sem, t, run).now >= child
        ensures RewriteFollows(sem, After(sem, t, run))
      {
        RunEndsWell(sem, t, run);
      }
    } else {
      var d, key :| 0 <= d < |s.live| && key in s.live[d] && ExpiredBefore(s.live[d][key].expire, child) &&
        !ExpiredBefore(s.live[d][key].expire, now);
      hide Follows, Snapshot, Holds, ExecAll;
      SnapshotReplayed(sem, s.live, records, child, k);
      hide Possible, TimelyRun, After, RewriteFollows;
      var run := LateChildLosesKey(sem, t, d, key, child);
    }
  }

  /** With the file off a rewrite saves the databases as they were at the fork, whatever the parent does
      meanwhile, and the file stays off. */
  lemma OneTimeRewrite(sem: Semantics, s: State, records: seq<seq<Record>>, now: int, child: int, k: nat, run: seq<Action>)
    requires s.mode == Off && 0 < |s.live| < LONG_LIMIT && Enabled(sem, s, Fork(records, now, child, k, false))
    requires NoneBetween(s.live, now, child)
    requires Possible(sem, Step(sem, s, Fork(records, now, child, k, false)), run) && Continues(run)
    ensures var u := After(sem, Step(sem, s, Fork(records, now, child, k, false)), run);
      Enabled(sem, u, Finish) && Step(sem, u, Finish).mode == Off &&
      Follows(sem, s.live, Step(sem, u, Finish).aof, -1, now)
  {
    ForkFollows(sem, s.live, records, now, child, k);
    hide Follows, Snapshot, Holds, NoneBetween;
    ContinuesRewriting(sem, Step(sem, s, Fork(records, now, child, k, false)), run);
  }

  lemma RunEndsWell(sem: Semantics, t: State, run: seq<Action>)
    requires Inv(sem, t) && t.rewriting && t.mode != Off && Possible(sem, t, run) && TimelyRun(sem, t, run)
    requires Continues(run)
    ensures RewriteFollows(sem, After(sem, t, run))
  {
    hide Possible, TimelyRun, After, Follows;
    RunInv(sem, t, run);
    ContinuesRewriting(sem, t, run);
  }
}
