/** The keys of the server and what a command of the append-only file does to
    them when it is replayed.  Commands that rebuild values are spelled out;
    every other command is any function of the keys it touches. */
module Dataset {
  import opened AofCodec
  import opened Basics

  // Scores are their text.
  datatype Value =
    | Str(text: string)
    | List(items: seq<string>)
    | Set(members: set<string>)
    | ZSet(scores: map<string, string>)
    | Hash(fields: map<string, string>)

  datatype Expire = Never | At(when: int)

  datatype Entry = Entry(value: Value, expire: Expire)

  type Db = map<string, Entry>

  // The other commands: the keys each touches, and what it makes of them.
  datatype Semantics = Semantics(keys: Command -> set<string>, effect: (Command, Db) -> Db)

  // ----- Commands on one key -----

  function SetOf(args: seq<string>): set<string> { set a | a in args }

  // Pairs of arguments: the second element of each is the key for ZADD, the first for HMSET.
  function ZAdd(m: map<string, string>, args: seq<string>): map<string, string>
    decreases |args|
  {
    if |args| < 2 then m else ZAdd(m, args[..|args| - 2])[args[|args| - 1] := args[|args| - 2]]
  }

  function HMSet(m: map<string, string>, args: seq<string>): map<string, string>
    decreases |args|
  {
    if |args| < 2 then m else HMSet(m, args[..|args| - 2])[args[|args| - 2] := args[|args| - 1]]
  }

  function RPush(cur: Option<Entry>, args: seq<string>): Option<Entry> {
    if cur.None? then Some(Entry(List(args), Never))
    else if cur.value.value.List? then Some(cur.value.(value := List(cur.value.value.items + args)))
    else cur
  }

  function SAdd(cur: Option<Entry>, args: seq<string>): Option<Entry> {
    if cur.None? then Some(Entry(Set(SetOf(args)), Never))
    else if cur.value.value.Set? then Some(cur.value.(value := Set(cur.value.value.members + SetOf(args))))
    else cur
  }

  function ZAddTo(cur: Option<Entry>, args: seq<string>): Option<Entry> {
    if cur.None? then Some(Entry(ZSet(ZAdd(map[], args)), Never))
    else if cur.value.value.ZSet? then Some(cur.value.(value := ZSet(ZAdd(cur.value.value.scores, args))))
    else cur
  }

  function HMSetTo(cur: Option<Entry>, args: seq<string>): Option<Entry> {
    if cur.None? then Some(Entry(Hash(HMSet(map[], args)), Never))
    else if cur.value.value.Hash? then Some(cur.value.(value := Hash(HMSet(cur.value.value.fields, args))))
    else cur
  }

  // While loading, an expire time is set even if it has passed.
  function PExpireAt(cur: Option<Entry>, when: int): Option<Entry> {
    if cur.None? then None else Some(cur.value.(expire := At(when)))
  }

  datatype Name = SELECT | FLUSHALL | FLUSHDB | SET | RPUSH | SADD | ZADD | HMSET | PEXPIREAT | DEL | Other

  // The commands that are spelled out, told by their name and number of arguments.
  function NameOf(argv: Command): Name {
    if argv == [] then Other
    else if argv[0] == "SELECT" && |argv| == 2 then SELECT
    else if argv[0] == "SET" && |argv| == 3 then SET
    else if argv[0] == "RPUSH" && |argv| > 2 then RPUSH
    else if argv[0] == "SADD" && |argv| > 2 then SADD
    else if argv[0] == "ZADD" && |argv| > 3 && |argv| % 2 == 0 then ZADD
    else if argv[0] == "HMSET" && |argv| > 3 && |argv| % 2 == 0 then HMSET
    else if argv[0] == "PEXPIREAT" && |argv| == 3 then PEXPIREAT
    else if argv[0] == "DEL" && |argv| == 2 then DEL
    else if argv[0] == "FLUSHDB" && |argv| == 1 then FLUSHDB
    else if argv[0] == "FLUSHALL" && |argv| == 1 then FLUSHALL
    else Other
  }

  predicate OnOneKey(n: Name) { n != SELECT && n != FLUSHALL && n != FLUSHDB && n != Other }

  // Commands that only concern the selected database.
  predicate OnOneDb(n: Name) { n != SELECT && n != FLUSHALL }

  lemma NameNeeds(argv: Command)
    ensures NameOf(argv) == SELECT ==> |argv| == 2
    ensures OnOneKey(NameOf(argv)) ==> |argv| >= 2
    ensures NameOf(argv) in {SET, PEXPIREAT} ==> |argv| == 3
  {
  }

  function KeyEffect(argv: Command, cur: Option<Entry>): Option<Entry>
    requires OnOneKey(NameOf(argv))
  {
    NameNeeds(argv);
    match NameOf(argv)
    case SET => Some(Entry(Str(argv[2]), Never))
    case RPUSH => RPush(cur, argv[2..])
    case SADD => SAdd(cur, argv[2..])
    case ZADD => ZAddTo(cur, argv[2..])
    case HMSET => HMSetTo(cur, argv[2..])
    case PEXPIREAT => PExpireAt(cur, StrToL(argv[2]))
    case _ => None
  }

  // ----- Commands on a database -----

  function Get(db: Db, key: string): Option<Entry> { if key in db then Some(db[key]) else None }

  function Put(db: Db, key: string, e: Option<Entry>): Db {
    match e
    case Some(v) => db[key := v]
    case None => db - {key}
  }

  function Touched(sem: Semantics, argv: Command): set<string> {
    NameNeeds(argv);
    if OnOneKey(NameOf(argv)) then {argv[1]} else if NameOf(argv) == Other then sem.keys(argv) else {}
  }

  // A command sees and changes only the keys it touches.
  function Local(db: Db, keys: set<string>, effect: Db -> Db): Db {
    var after := effect(map k | k in db && k in keys :: db[k]);
    (db - keys) + (map k | k in after && k in keys :: after[k])
  }

  function Apply(sem: Semantics, db: Db, argv: Command): Db {
    NameNeeds(argv);
    if !OnOneDb(NameOf(argv)) then db
    else if NameOf(argv) == FLUSHDB then map[]
    else if OnOneKey(NameOf(argv)) then Put(db, argv[1], KeyEffect(argv, Get(db, argv[1])))
    else Local(db, sem.keys(argv), part => sem.effect(argv, part))
  }

  // ----- Replaying -----

  // The databases and the one selected.
  datatype Replay = Replay(dbs: seq<Db>, selected: nat)

  function Emptied(n: nat): seq<Db> { seq(n, _ => map[]) }

  function Exec(sem: Semantics, st: Replay, argv: Command): Replay {
    NameNeeds(argv);
    if NameOf(argv) == SELECT then
      var i := StrToL(argv[1]);
      if 0 <= i < |st.dbs| then st.(selected := i) else st
    else if NameOf(argv) == FLUSHALL then st.(dbs := Emptied(|st.dbs|))
    else if st.selected < |st.dbs| then
      st.(dbs := st.dbs[st.selected := Apply(sem, st.dbs[st.selected], argv)])
    else st
  }

  function ExecAll(sem: Semantics, st: Replay, cmds: seq<Command>): (r: Replay)
    ensures |r.dbs| == |st.dbs| && (st.selected < |st.dbs| ==> r.selected < |r.dbs|)
  {
    if cmds == [] then st else Exec(sem, ExecAll(sem, st, cmds[..|cmds| - 1]), cmds[|cmds| - 1])
  }

  lemma {:induction false} ExecConcat(sem: Semantics, st: Replay, a: seq<Command>, b: seq<Command>)
    ensures ExecAll(sem, st, a + b) == ExecAll(sem, ExecAll(sem, st, a), b)
  {
    hide Exec;
    if b == [] {
      assert a + b == a;
    } else {
      assert (a + b)[..|a + b| - 1] == a + b[..|b| - 1];
      ExecConcat(sem, st, a, b[..|b| - 1]);
    }
  }

  // Starting from empty databases, the first selected.
  function Fresh(n: nat): Replay { Replay(Emptied(n), 0) }

  // What a server that loads these bytes comes to hold.
  function Restored(sem: Semantics, n: nat, bytes: string, known: string -> bool): Replay {
    ExecAll(sem, Fresh(n), Load(bytes, known).executed)
  }
}
