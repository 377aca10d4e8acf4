/** What is fed to the append-only file and what replaying it does (redis-3.0.6/src/aof.c): a
    command of a client is run with one clock reading and fed with another, and databases are
    compared but for keys that have expired. */
module AofReplay {
  import opened AofCodec
  import opened Basics
  import opened Dataset
  import opened AofSnapshot
  import opened AofRewrite

  // ----- Commands of clients and how they are fed -----

  datatype ExpireKind = EXPIRE | PEXPIRE | EXPIREAT | PEXPIREAT

  datatype Request =
    | Plain(argv: Command)
    | SetExpire(kind: ExpireKind, key: string, amount: int)
    | SetEx(seconds: bool, key: string, amount: int, text: string)

  // The absolute time an expire command means at a clock reading.
  function When(kind: ExpireKind, amount: int, clock: int): int {
    (if kind == EXPIRE || kind == EXPIREAT then 1000 * amount else amount)
    + (if kind == EXPIRE || kind == PEXPIRE then clock else 0)
  }

  function SetExKind(seconds: bool): ExpireKind { if seconds then EXPIRE else PEXPIRE }

  function ExpireAt(key: string, when: int): Command { ["PEXPIREAT", key, DecInt(when)] }

  // Relative times become absolute ones.
  function Translated(r: Request, clock: int): seq<Command> {
    match r
    case Plain(argv) => [argv]
    case SetExpire(kind, key, amount) => [ExpireAt(key, When(kind, amount, clock))]
    case SetEx(seconds, key, amount, text) =>
      [["SET", key, text], ExpireAt(key, When(SetExKind(seconds), amount, clock))]
  }

  // Commands are preceded by a SELECT if the last ones fed were for another database.
  function Fed(selected: int, db: nat, cmds: seq<Command>): seq<Command> {
    (if db != selected then [Selecting(db)] else []) + cmds
  }

  class Feeder {
    var selectedDb: int
    var aofBuf: string
    var diff: string
    var aofOn: bool
    var rewriting: bool

    constructor ()
      ensures selectedDb == -1 && aofBuf == "" && diff == "" && aofOn && !rewriting
    {
      selectedDb, aofBuf, diff, aofOn, rewriting := -1, "", "", true, false;
    }

    method FeedAppendOnlyFile(r: Request, db: nat, clock: int)
      modifies this`selectedDb, this`aofBuf, this`diff
      ensures selectedDb == db
      ensures aofBuf == old(aofBuf) + if aofOn then EncodeAll(Fed(old(selectedDb), db, Translated(r, clock))) else ""
      ensures diff == old(diff) + if rewriting then EncodeAll(Fed(old(selectedDb), db, Translated(r, clock))) else ""
    {
      var text := Translate(r, clock);
      if db != selectedDb {
        EncodeConcat([Selecting(db)], Translated(r, clock));
        EncodeOne(Selecting(db));
        text := Encode(Selecting(db)) + text;
        selectedDb := db;
      }
      hide EncodeAll, Encode, Translated, Selecting;
      assert [] + Translated(r, clock) == Translated(r, clock);
      if aofOn { aofBuf := aofBuf + text; }
      if rewriting { diff := diff + text; }
    }

    method Translate(r: Request, clock: int) returns (text: string)
      ensures text == EncodeAll(Translated(r, clock))
    {
      hide EncodeAll, Encode;
      match r {
        case Plain(argv) =>
          EncodeOne(argv);
          text := CatAppendOnlyGenericCommand("", argv);
          assert "" + Encode(argv) == Encode(argv);
        case SetExpire(kind, key, amount) =>
          text := ExpireText(key, kind, amount, clock);
        case SetEx(seconds, key, amount, value) =>
          var c := ["SET", key, value];
          EncodeOne(c);
          text := CatAppendOnlyGenericCommand("", c);
          assert "" + Encode(c) == Encode(c);
          var rest := ExpireText(key, SetExKind(seconds), amount, clock);
          var x := ExpireAt(key, When(SetExKind(seconds), amount, clock));
          EncodeConcat([c], [x]);
          assert [c] + [x] == [c, x];
          text := text + rest;
      }
    }

    method ExpireText(key: string, kind: ExpireKind, amount: int, clock: int) returns (text: string)
      ensures text == EncodeAll([ExpireAt(key, When(kind, amount, clock))])
      ensures var when := match kind
                          case EXPIRE => clock + 1000 * amount
                          case PEXPIRE => clock + amount
                          case EXPIREAT => 1000 * amount
                          case PEXPIREAT => amount;
        text == EncodeAll([["PEXPIREAT", key, DecInt(when)]])
    {
      hide EncodeAll, Encode, DecInt;
      var when := amount;
      if kind == EXPIRE || kind == EXPIREAT { when := 1000 * when; }
      if kind == EXPIRE || kind == PEXPIRE { when := when + clock; }
      var c := ["PEXPIREAT", key, DecInt(when)];
      EncodeOne(c);
      text := CatAppendOnlyGenericCommand("", c);
      assert "" + Encode(c) == Encode(c);
    }
  }

  // The commands fed for each kind of request, written out.
  lemma FedTexts(key: string, n: int, text: string, clock: int)
    ensures Translated(SetExpire(EXPIRE, key, n), clock) == [["PEXPIREAT", key, DecInt(clock + 1000 * n)]]
    ensures Translated(SetExpire(PEXPIRE, key, n), clock) == [["PEXPIREAT", key, DecInt(clock + n)]]
    ensures Translated(SetExpire(EXPIREAT, key, n), clock) == [["PEXPIREAT", key, DecInt(1000 * n)]]
    ensures Translated(SetExpire(ExpireKind.PEXPIREAT, key, n), clock) == [["PEXPIREAT", key, DecInt(n)]]
    ensures Translated(SetEx(true, key, n, text), clock) == [["SET", key, text], ["PEXPIREAT", key, DecInt(clock + 1000 * n)]]
    ensures Translated(SetEx(false, key, n, text), clock) == [["SET", key, text], ["PEXPIREAT", key, DecInt(clock + n)]]
    ensures forall argv :: Translated(Plain(argv), clock) == [argv]
  {
    hide DecInt;
  }

  // SELECT is fed exactly when the database changes.
  lemma FedSelects(selected: int, d: nat, cmds: seq<Command>)
    ensures Fed(selected, d, cmds) == if selected == d then cmds else [["SELECT", Dec(d)]] + cmds
  {
    assert [] + cmds == cmds;
  }

  // ----- Databases alike but for expired keys -----

  ghost predicate Alike(live: Db, rep: Db, now: int) {
    && (forall k | k in rep :: k in live && live[k] == rep[k])
    && (forall k | k in live && k !in rep :: ExpiredBefore(live[k].expire, now))
  }

  ghost predicate Current(db: Db, keys: set<string>, now: int) {
    forall k | k in keys && k in db :: !ExpiredBefore(db[k].expire, now)
  }

  lemma SameKey(live: Db, rep: Db, key: string, now: int)
    requires Alike(live, rep, now) && Current(live, {key}, now)
    ensures Get(live, key) == Get(rep, key)
  {
  }

  lemma PutAlike(live: Db, rep: Db, key: string, e: Option<Entry>, now: int)
    requires Alike(live, rep, now)
    ensures Alike(Put(live, key, e), Put(rep, key, e), now)
  {
  }

  lemma LocalAlike(live: Db, rep: Db, keys: set<string>, effect: Db -> Db, now: int)
    requires Alike(live, rep, now) && Current(live, keys, now)
    ensures Alike(Local(live, keys, effect), Local(rep, keys, effect), now)
  {
    assert (map k | k in live && k in keys :: live[k]) == (map k | k in rep && k in keys :: rep[k]);
  }

  lemma NoneAlike(now: int)
    ensures Alike(map[], map[], now)
  {
  }

  // A command that touches no expired key does the same to both.
  lemma ApplyAlike(sem: Semantics, live: Db, rep: Db, argv: Command, now: int)
    requires Alike(live, rep, now) && Current(live, Touched(sem, argv), now)
    ensures Alike(Apply(sem, live, argv), Apply(sem, rep, argv), now)
  {
    NameNeeds(argv);
    hide NameOf, KeyEffect, Alike, Current, Local, Put;
    if !OnOneDb(NameOf(argv)) {
    } else if NameOf(argv) == FLUSHDB {
      NoneAlike(now);
    } else if OnOneKey(NameOf(argv)) {
      SameKey(live, rep, argv[1], now);
      PutAlike(live, rep, argv[1], KeyEffect(argv, Get(live, argv[1])), now);
    } else {
      LocalAlike(live, rep, sem.keys(argv), part => sem.effect(argv, part), now);
    }
  }

  // ----- A stream that follows the live databases -----

  ghost predicate AllAlike(live: seq<Db>, rep: seq<Db>, now: int) {
    |live| == |rep| && forall d | 0 <= d < |live| :: Alike(live[d], rep[d], now)
  }

  // Replaying the stream gives the live databases, and leaves the database selected that the next command of
  // the stream is taken to be for.
  ghost predicate Follows(sem: Semantics, live: seq<Db>, cmds: seq<Command>, selected: int, now: int) {
    var r := ExecAll(sem, Fresh(|live|), cmds);
    AllAlike(live, r.dbs, now) && r.selected < |live| && (selected != -1 ==> r.selected == selected)
  }

  function ApplyAll(sem: Semantics, db: Db, cs: seq<Command>): Db {
    if cs == [] then db else Apply(sem, ApplyAll(sem, db, cs[..|cs| - 1]), cs[|cs| - 1])
  }

  ghost predicate InOneDb(cs: seq<Command>) { forall c | c in cs :: OnOneDb(NameOf(c)) }

  lemma {:induction false} ExecData(sem: Semantics, st: Replay, cs: seq<Command>)
    requires InOneDb(cs) && st.selected < |st.dbs|
    ensures ExecAll(sem, st, cs) == st.(dbs := st.dbs[st.selected := ApplyAll(sem, st.dbs[st.selected], cs)])
  {
    hide NameOf, Apply;
    if cs == [] {
      assert st.dbs[st.selected := st.dbs[st.selected]] == st.dbs;
    } else {
      ExecData(sem, st, cs[..|cs| - 1]);
      var last := cs[|cs| - 1];
      assert last in cs;
    }
  }

  // Where the replay stands after a feed: the database of the commands is selected.
  lemma ExecFed(sem: Semantics, st: Replay, selected: int, d: nat, cs: seq<Command>)
    requires st.selected < |st.dbs| && d < |st.dbs| < LONG_LIMIT && InOneDb(cs)
    requires selected != -1 ==> st.selected == selected
    ensures ExecAll(sem, st, Fed(selected, d, cs)) == Replay(st.dbs[d := ApplyAll(sem, st.dbs[d], cs)], d)
  {
    hide ExecAll, ApplyAll, Selecting;
    if d != selected {
      ExecConcat(sem, st, [Selecting(d)], cs);
      SelectRebuilt(sem, st, d);
      ExecData(sem, st.(selected := d), cs);
    } else {
      assert [] + cs == cs;
      ExecData(sem, st, cs);
    }
  }

  lemma FeedFollows(sem: Semantics, live: seq<Db>, cmds: seq<Command>, selected: int,
                    d: nat, after: Db, cs: seq<Command>, now: int)
    requires Follows(sem, live, cmds, selected, now) && d < |live| < LONG_LIMIT && InOneDb(cs)
    requires Alike(after, ApplyAll(sem, ExecAll(sem, Fresh(|live|), cmds).dbs[d], cs), now)
    ensures Follows(sem, live[d := after], cmds + Fed(selected, d, cs), d, now)
  {
    hide ExecAll, ApplyAll, Fed, Alike;
    var r := ExecAll(sem, Fresh(|live|), cmds);
    ExecConcat(sem, Fresh(|live|), cmds, Fed(selected, d, cs));
    ExecFed(sem, r, selected, d, cs);
  }

  // ----- What a client's command does -----

  function TouchedBy(sem: Semantics, r: Request): set<string> {
    match r
    case Plain(argv) => Touched(sem, argv)
    case SetExpire(_, key, _) => {key}
    case SetEx(_, key, _, _) => {key}
  }

  // The database after the command, and the commands it is fed as, if any.
  datatype Effect = Effect(db: Db, fed: seq<Command>)

  // The command runs with clock reading `now` and is fed with clock reading `fed`.
  function Performed(sem: Semantics, db: Db, r: Request, now: int, fed: int): Effect {
    match r
    case Plain(argv) => Effect(Apply(sem, db, argv), Translated(r, fed))
    case SetExpire(kind, key, amount) =>
      if key !in db then Effect(db, [])
      else if When(kind, amount, now) <= now then Effect(db - {key}, [["DEL", key]])
      else Effect(db[key := db[key].(expire := At(When(kind, amount, now)))], Translated(r, fed))
    case SetEx(seconds, key, amount, text) =>
      Effect(db[key := Entry(Str(text), At(When(SetExKind(seconds), amount, now)))], Translated(r, fed))
  }

  // Commands that are fed as they are; times are in range; SETEX needs a time to live.
  predicate Acceptable(r: Request, clock: int) {
    match r
    case Plain(argv) => OnOneDb(NameOf(argv)) && NameOf(argv) != Name.PEXPIREAT
    case SetExpire(kind, _, amount) => -LONG_LIMIT < When(kind, amount, clock) < LONG_LIMIT
    case SetEx(seconds, _, amount, _) => amount > 0 && -LONG_LIMIT < When(SetExKind(seconds), amount, clock) < LONG_LIMIT
  }

  // The command sets an expire time relative to the clock.
  predicate SetsRelative(db: Db, r: Request, now: int) {
    match r
    case Plain(_) => false
    case SetExpire(kind, key, amount) => (kind == EXPIRE || kind == PEXPIRE) && key in db && When(kind, amount, now) > now
    case SetEx(_, _, _, _) => true
  }

  // The clock did not move between running and feeding, or that does not matter.
  predicate Exact(db: Db, r: Request, now: int, fed: int) { fed == now || !SetsRelative(db, r, now) }

  lemma ApplyOne(sem: Semantics, db: Db, c: Command)
    ensures ApplyAll(sem, db, [c]) == Apply(sem, db, c)
  {
    hide Apply;
    assert [c][..0] == [];
    assert ApplyAll(sem, db, [c][..0]) == db;
  }

  lemma ApplyTwo(sem: Semantics, db: Db, c: Command, e: Command)
    ensures ApplyAll(sem, db, [c, e]) == Apply(sem, Apply(sem, db, c), e)
  {
    hide Apply;
    assert [c, e][..1] == [c];
    ApplyOne(sem, db, c);
  }

  lemma DelName(key: string)
    ensures NameOf(["DEL", key]) == DEL
  {
    assert "DEL" != "SELECT" && "DEL" != "SET";
  }

  lemma ApplyDel(sem: Semantics, db: Db, key: string)
    ensures ApplyAll(sem, db, [["DEL", key]]) == db - {key} && InOneDb([["DEL", key]])
  {
    DelName(key);
    hide NameOf;
    ApplyOne(sem, db, ["DEL", key]);
  }

  lemma ApplyExpireAt(sem: Semantics, db: Db, key: string, when: int)
    requires -LONG_LIMIT < when < LONG_LIMIT
    ensures NameOf(ExpireAt(key, when)) == Name.PEXPIREAT
    ensures Apply(sem, db, ExpireAt(key, when)) == if key in db then db[key := db[key].(expire := At(when))] else db - {key}
  {
    SetNames(key, DecInt(when));
    DecIntRead(when);
    hide NameOf, DecInt, StrToL;
  }

  lemma ApplySet(sem: Semantics, db: Db, key: string, text: string)
    ensures NameOf(["SET", key, text]) == SET && Apply(sem, db, ["SET", key, text]) == db[key := Entry(Str(text), Never)]
  {
    SetNames(key, text);
    hide NameOf;
  }

  // Replaying what a command is fed as does to an alike database what the command did.
  lemma PerformedAlike(sem: Semantics, live: Db, rep: Db, r: Request, now: int, fed: int)
    requires Alike(live, rep, now) && Current(live, TouchedBy(sem, r), now)
    requires Acceptable(r, now) && Acceptable(r, fed) && Exact(live, r, now, fed)
    ensures var e := Performed(sem, live, r, now, fed);
      InOneDb(e.fed) && Alike(e.db, ApplyAll(sem, rep, e.fed), now)
  {
    match r
    case Plain(argv) =>
      ApplyAlike(sem, live, rep, argv, now);
      ApplyOne(sem, rep, argv);
    case SetExpire(kind, key, amount) =>
      if key in live && When(kind, amount, now) > now {
        SetAlike(sem, live, rep, r, now, fed);
      } else {
        UnsetAlike(sem, live, rep, kind, key, amount, now, fed);
      }
    case SetEx(seconds, key, amount, text) => SetAlike(sem, live, rep, r, now, fed);
  }

  // An expire command on a missing key, or with a time that has passed.
  lemma UnsetAlike(sem: Semantics, live: Db, rep: Db, kind: ExpireKind, key: string, amount: int, now: int, fed: int)
    requires Alike(live, rep, now) && (key in live ==> When(kind, amount, now) <= now)
    ensures var e := Performed(sem, live, SetExpire(kind, key, amount), now, fed);
      InOneDb(e.fed) && Alike(e.db, ApplyAll(sem, rep, e.fed), now)
  {
    hide Apply, NameOf, When, ApplyAll;
    ApplyNone(sem, rep);
    ApplyDel(sem, rep, key);
  }

  // What the commands about expire times do to the live database, written out: the entry carries the time, and
  // the key is gone exactly if that time is not after now.
  lemma LiveExpire(sem: Semantics, db: Db, key: string, n: int, kind: ExpireKind, now: int, fed: int)
    ensures var when := match kind
                        case EXPIRE => now + 1000 * n
                        case PEXPIRE => now + n
                        case EXPIREAT => 1000 * n
                        case PEXPIREAT => n;
      var e := Performed(sem, db, SetExpire(kind, key, n), now, fed);
      && (forall k | k != key :: Get(e.db, k) == Get(db, k))
      && (key in e.db <==> key in db && when > now)
      && (key in e.db ==> e.db[key] == Entry(db[key].value, At(when)))
  {
  }

  lemma LiveSetEx(sem: Semantics, db: Db, key: string, n: int, text: string, now: int, fed: int)
    ensures Performed(sem, db, SetEx(true, key, n, text), now, fed).db == db[key := Entry(Str(text), At(now + 1000 * n))]
    ensures Performed(sem, db, SetEx(false, key, n, text), now, fed).db == db[key := Entry(Str(text), At(now + n))]
  {
  }

  // A command that sets an expire time, and the time it sets.
  ghost predicate Sets(db: Db, r: Request, now: int) {
    r.SetEx? || (r.SetExpire? && r.key in db && When(r.kind, r.amount, now) > now)
  }

  ghost function TimeSet(r: Request, clock: int): int
    requires !r.Plain?
  {
    if r.SetExpire? then When(r.kind, r.amount, clock) else When(SetExKind(r.seconds), r.amount, clock)
  }

  ghost function ValueSet(db: Db, r: Request): Value
    requires !r.Plain? && (r.SetExpire? ==> r.key in db)
  {
    if r.SetExpire? then db[r.key].value else Str(r.text)
  }

  lemma ReplayedSet(sem: Semantics, rep: Db, r: Request, fed: int)
    requires !r.Plain? && Acceptable(r, fed) && (r.SetExpire? ==> r.key in rep)
    ensures InOneDb(Translated(r, fed))
    ensures ApplyAll(sem, rep, Translated(r, fed)) == rep[r.key := Entry(ValueSet(rep, r), At(TimeSet(r, fed)))]
  {
    hide Apply, NameOf, When, ApplyAll, ExpireAt;
    var when := TimeSet(r, fed);
    if r.SetExpire? {
      ApplyOne(sem, rep, ExpireAt(r.key, when));
      ApplyExpireAt(sem, rep, r.key, when);
    } else {
      var setting := ["SET", r.key, r.text];
      ApplyTwo(sem, rep, setting, ExpireAt(r.key, when));
      ApplySet(sem, rep, r.key, r.text);
      ApplyExpireAt(sem, rep[r.key := Entry(Str(r.text), Never)], r.key, when);
      var e := Entry(Str(r.text), At(when));
      assert rep[r.key := Entry(Str(r.text), Never)][r.key := e] == rep[r.key := e];
    }
  }

  lemma LiveSet(sem: Semantics, live: Db, r: Request, now: int, fed: int)
    requires Sets(live, r, now)
    ensures var e := Performed(sem, live, r, now, fed);
      e.fed == Translated(r, fed) && e.db == live[r.key := Entry(ValueSet(live, r), At(TimeSet(r, now)))]
  {
    hide When;
  }

  lemma SetAlike(sem: Semantics, live: Db, rep: Db, r: Request, now: int, fed: int)
    requires Alike(live, rep, now) && Current(live, TouchedBy(sem, r), now) && Acceptable(r, fed)
    requires Sets(live, r, now) && Exact(live, r, now, fed)
    ensures var e := Performed(sem, live, r, now, fed);
      InOneDb(e.fed) && Alike(e.db, ApplyAll(sem, rep, e.fed), now)
  {
    hide Performed, Translated, ApplyAll;
    SameKey(live, rep, r.key, now);
    LiveSet(sem, live, r, now, fed);
    ReplayedSet(sem, rep, r, fed);
    assert TimeSet(r, now) == TimeSet(r, fed);
  }

  /** A command keeps live and replayed databases alike if and only if the clock reads the same when it runs and
      when it is fed, or it does not set a time relative to the clock. */
  lemma ClockExact(sem: Semantics, live: Db, rep: Db, r: Request, now: int, fed: int)
    requires Alike(live, rep, now) && Current(live, TouchedBy(sem, r), now) && Acceptable(r, now) && Acceptable(r, fed)
    ensures var e := Performed(sem, live, r, now, fed);
      Alike(e.db, ApplyAll(sem, rep, e.fed), now) <==> Exact(live, r, now, fed)
  {
    if Exact(live, r, now, fed) {
      PerformedAlike(sem, live, rep, r, now, fed);
    } else {
      hide Performed, Translated, ApplyAll;
      SameKey(live, rep, r.key, now);
      LiveSet(sem, live, r, now, fed);
      ReplayedSet(sem, rep, r, fed);
      assert TimeSet(r, fed) - TimeSet(r, now) == fed - now;
      hide TimeSet;
      var e := Performed(sem, live, r, now, fed);
      var after := ApplyAll(sem, rep, e.fed);
      assert r.key in after && after[r.key] != e.db[r.key];
    }
  }

  lemma ApplyNone(sem: Semantics, db: Db)
    ensures ApplyAll(sem, db, []) == db
  {
  }
}
