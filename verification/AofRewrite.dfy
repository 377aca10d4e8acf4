/** The snapshot part of a rewritten append-only file (redis-3.0.6/src/aof.c): every
    database with keys is selected, and every key that has not expired is rebuilt. */
module AofRewrite {
  import opened AofCodec
  import opened Basics
  import opened Dataset
  import opened AofSnapshot

  // A value as it is stored, its items in the order in which they are visited.
  datatype Stored = Text(text: string) | Items(kind: Kind, items: seq<Command>)

  // A key of a database.
  datatype Record = Record(key: string, stored: Stored, expire: Expire)

  ghost predicate Sound(r: Record) {
    && (r.stored.Items? ==> r.stored.items != [] && AreItems(r.stored.kind, r.stored.items))
    && (r.expire.At? ==> -LONG_LIMIT < r.expire.when < LONG_LIMIT)
  }

  function ValueOf(v: Stored): Value {
    match v
    case Text(t) => Str(t)
    case Items(kind, items) => Build(kind, Joined(items))
  }

  function EntryOf(r: Record): Entry { Entry(ValueOf(r.stored), r.expire) }

  predicate ExpiredBefore(x: Expire, now: int) { x.At? && x.when < now }

  function DecInt(n: int): string { if n < 0 then "-" + Dec(-n) else Dec(n) }

  lemma DecIntRead(n: int)
    requires -LONG_LIMIT < n < LONG_LIMIT
    ensures StrToL(DecInt(n)) == n
  {
    if n < 0 {
      DigitsOfDec(-n, "");
      hide Dec, Digits;
      assert ("-" + Dec(-n))[1..] == Dec(-n) == Dec(-n) + "";
      assert SkipSpace("-" + Dec(-n)) == "-" + Dec(-n);
    } else {
      assert Dec(n) + "" == Dec(n);
      NumberRead(n, "");
    }
  }

  // ----- One key -----

  function ValueCommands(r: Record, k: nat): seq<Command>
    requires k >= 1
  {
    match r.stored
    case Text(t) => [["SET", r.key, t]]
    case Items(kind, items) => Chunks(kind, r.key, items, k, 0)
  }

  function KeyCommands(r: Record, k: nat): seq<Command>
    requires k >= 1
  {
    ValueCommands(r, k) + if r.expire.At? then [["PEXPIREAT", r.key, DecInt(r.expire.when)]] else []
  }

  lemma SetNames(key: string, t: string)
    ensures NameOf(["SET", key, t]) == SET && NameOf(["PEXPIREAT", key, t]) == PEXPIREAT
  {
    assert "SET" != "SELECT" && |"PEXPIREAT"| == 9;
  }

  lemma TextRebuilt(sem: Semantics, st: Replay, key: string, t: string)
    requires st.selected < |st.dbs|
    ensures ExecAll(sem, st, [["SET", key, t]]) == WithKey(st, key, Entry(Str(t), Never))
  {
    SetNames(key, t);
    hide NameOf, WithKey;
    ExecKey(sem, st, ["SET", key, t], Entry(Str(t), Never));
  }

  lemma ExpireRebuilt(sem: Semantics, st: Replay, key: string, v: Value, when: int)
    requires st.selected < |st.dbs| && -LONG_LIMIT < when < LONG_LIMIT
    ensures ExecAll(sem, WithKey(st, key, Entry(v, Never)), [["PEXPIREAT", key, DecInt(when)]]) ==
            WithKey(st, key, Entry(v, At(when)))
  {
    SetNames(key, DecInt(when));
    DecIntRead(when);
    var argv := ["PEXPIREAT", key, DecInt(when)];
    var mid := WithKey(st, key, Entry(v, Never));
    assert Get(mid.dbs[mid.selected], key) == Some(Entry(v, Never));
    hide NameOf, DecInt, StrToL;
    assert KeyEffect(argv, Some(Entry(v, Never))) == Some(Entry(v, At(when)));
    hide KeyEffect, WithKey;
    ExecKey(sem, mid, argv, Entry(v, At(when)));
    WithKeyTwice(st, key, Entry(v, Never), Entry(v, At(when)));
  }

  lemma ValueRebuilt(sem: Semantics, st: Replay, r: Record, k: nat)
    requires k >= 1 && Sound(r) && Absent(st, r.key)
    ensures ExecAll(sem, st, ValueCommands(r, k)) == WithKey(st, r.key, Entry(ValueOf(r.stored), Never))
  {
    hide WithKey, ExecAll, Build, Joined, Chunks;
    match r.stored
    case Text(t) => TextRebuilt(sem, st, r.key, t);
    case Items(kind, items) => ChunksRebuild(sem, st, kind, r.key, items, k, 0);
  }

  // The commands of a key rebuild it, with its expire time.
  lemma KeyRebuilt(sem: Semantics, st: Replay, r: Record, k: nat)
    requires k >= 1 && Sound(r) && Absent(st, r.key)
    ensures ExecAll(sem, st, KeyCommands(r, k)) == WithKey(st, r.key, EntryOf(r))
  {
    hide WithKey, ExecAll, ValueOf, ValueCommands, DecInt;
    ValueRebuilt(sem, st, r, k);
    var cmds := ValueCommands(r, k);
    if r.expire.At? {
      ExecConcat(sem, st, cmds, [["PEXPIREAT", r.key, DecInt(r.expire.when)]]);
      ExpireRebuilt(sem, st, r.key, ValueOf(r.stored), r.expire.when);
    } else {
      assert cmds + [] == cmds;
    }
  }

  // ----- One database -----

  function DbCommands(records: seq<Record>, now: int, k: nat): seq<Command>
    requires k >= 1
  {
    if records == [] then []
    else
      var r := records[|records| - 1];
      DbCommands(records[..|records| - 1], now, k) + if ExpiredBefore(r.expire, now) then [] else KeyCommands(r, k)
  }

  // The database the records stand for, and its part that has not expired.
  function DbOf(records: seq<Record>): Db {
    if records == [] then map[]
    else DbOf(records[..|records| - 1])[records[|records| - 1].key := EntryOf(records[|records| - 1])]
  }

  function Unexpired(db: Db, now: int): Db {
    map key | key in db && !ExpiredBefore(db[key].expire, now) :: db[key]
  }

  ghost predicate Keyed(records: seq<Record>) {
    && (forall i | 0 <= i < |records| :: Sound(records[i]))
    && (forall i, j | 0 <= i < j < |records| :: records[i].key != records[j].key)
  }

  lemma {:induction false} DbKeys(records: seq<Record>, key: string)
    requires key in DbOf(records)
    ensures exists i :: 0 <= i < |records| && records[i].key == key
  {
    hide EntryOf;
    if records[|records| - 1].key != key { DbKeys(records[..|records| - 1], key); }
  }

  lemma NextUnexpired(records: seq<Record>, now: int)
    requires Keyed(records) && records != []
    ensures var init, r := records[..|records| - 1], records[|records| - 1];
      && r.key !in DbOf(init)
      && Unexpired(DbOf(records), now) ==
         if ExpiredBefore(r.expire, now) then Unexpired(DbOf(init), now) else Unexpired(DbOf(init), now)[r.key := EntryOf(r)]
  {
    var init, r := records[..|records| - 1], records[|records| - 1];
    if r.key in DbOf(init) {
      DbKeys(init, r.key);
    }
    hide Keyed, Sound, ValueOf;
  }

  lemma {:induction false} DbRebuilt(sem: Semantics, st: Replay, records: seq<Record>, now: int, k: nat)
    requires k >= 1 && Keyed(records) && st.selected < |st.dbs| && st.dbs[st.selected] == map[]
    ensures ExecAll(sem, st, DbCommands(records, now, k)) ==
      st.(dbs := st.dbs[st.selected := Unexpired(DbOf(records), now)])
  {
    hide ExecAll, KeyCommands, EntryOf;
    if records == [] {
      NoneLeft(sem, st);
      assert Unexpired(DbOf(records), now) == map[];
      assert st.dbs[st.selected := map[]] == st.dbs;
    } else {
      var init, r := records[..|records| - 1], records[|records| - 1];
      DbRebuilt(sem, st, init, now, k);
      NextUnexpired(records, now);
      var mid := st.(dbs := st.dbs[st.selected := Unexpired(DbOf(init), now)]);
      if ExpiredBefore(r.expire, now) {
        assert DbCommands(init, now, k) + [] == DbCommands(init, now, k);
      } else {
        ExecConcat(sem, st, DbCommands(init, now, k), KeyCommands(r, k));
        KeyRebuilt(sem, mid, r, k);
      }
    }
  }

  // ----- All databases -----

  function Selecting(j: nat): Command { ["SELECT", Dec(j)] }

  function DbPart(records: seq<Record>, j: nat, now: int, k: nat): seq<Command>
    requires k >= 1
  {
    if records == [] then [] else [Selecting(j)] + DbCommands(records, now, k)
  }

  function Snapshot(dbs: seq<seq<Record>>, now: int, k: nat): seq<Command>
    requires k >= 1
  {
    if dbs == [] then [] else Snapshot(dbs[..|dbs| - 1], now, k) + DbPart(dbs[|dbs| - 1], |dbs| - 1, now, k)
  }

  lemma SelectRebuilt(sem: Semantics, st: Replay, j: nat)
    requires j < |st.dbs| && j < LONG_LIMIT
    ensures ExecAll(sem, st, [Selecting(j)]) == st.(selected := j)
  {
    assert Dec(j) + "" == Dec(j);
    NumberRead(j, "");
    hide Dec, StrToL;
    ExecOne(sem, st, Selecting(j));
  }

  lemma DbPartRebuilt(sem: Semantics, st: Replay, records: seq<Record>, j: nat, now: int, k: nat)
    requires k >= 1 && Keyed(records) && j < |st.dbs| && j < LONG_LIMIT && st.dbs[j] == map[] && st.selected < |st.dbs|
    ensures var r := ExecAll(sem, st, DbPart(records, j, now, k));
      r.dbs == st.dbs[j := Unexpired(DbOf(records), now)] && r.selected < |r.dbs|
  {
    hide ExecAll, DbCommands, Selecting;
    if records == [] {
      NoneLeft(sem, st);
      assert Unexpired(DbOf(records), now) == map[];
      assert st.dbs[j := map[]] == st.dbs;
    } else {
      ExecConcat(sem, st, [Selecting(j)], DbCommands(records, now, k));
      SelectRebuilt(sem, st, j);
      DbRebuilt(sem, st.(selected := j), records, now, k);
    }
  }

  /** Replaying a snapshot gives the keys that had not expired when it was taken. */
  lemma {:induction false} SnapshotRebuilt(sem: Semantics, n: nat, dbs: seq<seq<Record>>, now: int, k: nat)
    requires k >= 1 && |dbs| <= n < LONG_LIMIT && n > 0 && forall j | 0 <= j < |dbs| :: Keyed(dbs[j])
    ensures var r := ExecAll(sem, Fresh(n), Snapshot(dbs, now, k));
      && |r.dbs| == n && r.selected < n
      && forall j | 0 <= j < n :: r.dbs[j] == if j < |dbs| then Unexpired(DbOf(dbs[j]), now) else map[]
  {
    hide ExecAll, DbPart, DbOf, Unexpired, Keyed;
    if dbs == [] {
      NoneLeft(sem, Fresh(n));
    } else {
      var init, last := dbs[..|dbs| - 1], dbs[|dbs| - 1];
      SnapshotRebuilt(sem, n, init, now, k);
      var mid := ExecAll(sem, Fresh(n), Snapshot(init, now, k));
      ExecConcat(sem, Fresh(n), Snapshot(init, now, k), DbPart(last, |init|, now, k));
      DbPartRebuilt(sem, mid, last, |init|, now, k);
    }
  }

  // ----- The code that writes it -----

  lemma {:induction false} EncodeConcat(a: seq<Command>, b: seq<Command>)
    ensures EncodeAll(a + b) == EncodeAll(a) + EncodeAll(b)
  {
    hide Encode;
    if a == [] {
      assert a + b == b;
    } else {
      assert (a + b)[1..] == a[1..] + b;
      EncodeConcat(a[1..], b);
    }
  }

  lemma EncodeOne(c: Command)
    ensures EncodeAll([c]) == Encode(c)
  {
    hide Encode;
    assert [c][1..] == [];
    assert EncodeAll([c]) == Encode(c) + EncodeAll([c][1..]);
    assert Encode(c) + "" == Encode(c);
  }

  // The headers that are written as literals.
  lemma Literals()
    ensures "*" + Dec(2) + "\r\n" + Arg("SELECT") == "*2\r\n$6\r\nSELECT\r\n"
    ensures "*" + Dec(3) + "\r\n" + Arg("SET") == "*3\r\n$3\r\nSET\r\n"
    ensures "*" + Dec(3) + "\r\n" + Arg("PEXPIREAT") == "*3\r\n$9\r\nPEXPIREAT\r\n"
  {
    assert Dec(2) == "2" && Dec(3) == "3" && Dec(6) == "6" && Dec(9) == "9";
  }

  lemma EncodeTwo(a: string, b: string)
    ensures Encode([a, b]) == "*" + Dec(2) + "\r\n" + Arg(a) + Arg(b)
  {
    hide Arg, Dec;
    ArgsOne(a);
    assert [a, b][..1] == [a];
    Assoc("*" + Dec(2) + "\r\n", Arg(a), Arg(b));
  }

  lemma EncodeThree(a: string, b: string, c: string)
    ensures Encode([a, b, c]) == "*" + Dec(3) + "\r\n" + Arg(a) + (Arg(b) + Arg(c))
  {
    hide Arg, Dec;
    ArgsOne(a);
    ArgsOne(b);
    ArgsOne(c);
    ArgsConcat([a], [b] + [c]);
    ArgsConcat([b], [c]);
    assert [a] + ([b] + [c]) == [a, b, c];
    Assoc("*" + Dec(3) + "\r\n", Arg(a), Arg(b) + Arg(c));
  }

  lemma ArgsOne(a: string)
    ensures Args([a]) == Arg(a)
  {
    hide Arg;
    assert [a][..0] == [];
    assert Args([a]) == Args([a][..0]) + Arg(a);
    assert "" + Arg(a) == Arg(a);
  }

  method RewriteKey(r: Record, k: nat) returns (out: string)
    requires k >= 1 && Sound(r)
    ensures out == EncodeAll(KeyCommands(r, k))
  {
    hide Encode, EncodeAll, Chunks, DecInt, Arg, Dec;
    Literals();
    match r.stored {
      case Text(t) =>
        out := "*3\r\n$3\r\nSET\r\n" + (Arg(r.key) + Arg(t));
        EncodeThree("SET", r.key, t);
        EncodeOne(["SET", r.key, t]);
      case Items(kind, items) =>
        out := Emit(kind, r.key, items, k);
    }
    assert out == EncodeAll(ValueCommands(r, k));
    if r.expire.At? {
      var c := ["PEXPIREAT", r.key, DecInt(r.expire.when)];
      EncodeOne(c);
      EncodeConcat(ValueCommands(r, k), [c]);
      EncodeThree("PEXPIREAT", r.key, DecInt(r.expire.when));
      out := out + ("*3\r\n$9\r\nPEXPIREAT\r\n" + (Arg(r.key) + Arg(DecInt(r.expire.when))));
    } else {
      assert ValueCommands(r, k) + [] == ValueCommands(r, k);
    }
  }

  method RewriteDb(records: seq<Record>, now: int, k: nat) returns (out: string)
    requires k >= 1 && Keyed(records)
    ensures out == EncodeAll(DbCommands(records, now, k))
  {
    hide EncodeAll, KeyCommands, Sound;
    out := "";
    EncodeNone();
    var i := 0;
    assert records[..0] == [];
    while i < |records|
      invariant 0 <= i <= |records| && out == EncodeAll(DbCommands(records[..i], now, k))
    {
      var r := records[i];
      assert records[..i + 1][..i] == records[..i];
      ghost var before := DbCommands(records[..i], now, k);
      if !ExpiredBefore(r.expire, now) {
        var text := RewriteKey(r, k);
        EncodeConcat(before, KeyCommands(r, k));
        out := out + text;
      } else {
        assert before + [] == before;
      }
      i := i + 1;
    }
    assert records[..i] == records;
  }

  lemma EncodeNone()
    ensures EncodeAll([]) == ""
  {
  }

  method RewriteDbPart(records: seq<Record>, j: nat, now: int, k: nat) returns (out: string)
    requires k >= 1 && Keyed(records)
    ensures out == EncodeAll(DbPart(records, j, now, k))
  {
    hide EncodeAll, Encode, DbCommands, Keyed, Arg, Dec;
    EncodeNone();
    if |records| == 0 { return ""; }
    Literals();
    EncodeTwo("SELECT", Dec(j));
    out := "*2\r\n$6\r\nSELECT\r\n" + Arg(Dec(j));
    EncodeOne(Selecting(j));
    var text := RewriteDb(records, now, k);
    EncodeConcat([Selecting(j)], DbCommands(records, now, k));
    out := out + text;
  }

  // The snapshot as bytes.
  method RewriteAppendOnlyFile(dbs: seq<seq<Record>>, now: int, k: nat) returns (out: string)
    requires k >= 1 && forall j | 0 <= j < |dbs| :: Keyed(dbs[j])
    ensures out == EncodeAll(Snapshot(dbs, now, k))
  {
    hide EncodeAll, DbPart, Keyed;
    EncodeNone();
    out := "";
    var j := 0;
    assert dbs[..0] == [];
    while j < |dbs|
      invariant 0 <= j <= |dbs| && out == EncodeAll(Snapshot(dbs[..j], now, k))
    {
      assert dbs[..j + 1][..j] == dbs[..j];
      var text := RewriteDbPart(dbs[j], j, now, k);
      EncodeConcat(Snapshot(dbs[..j], now, k), DbPart(dbs[j], j, now, k));
      out := out + text;
      j := j + 1;
    }
    assert dbs[..j] == dbs;
  }

  // ----- The snapshot is well formed -----

  ghost predicate ShortRecord(r: Record) {
    |r.key| < LONG_LIMIT && match r.stored case Text(t) => |t| < LONG_LIMIT case Items(_, items) => ShortItems(items)
  }

  ghost predicate ShortDbs(dbs: seq<seq<Record>>) {
    forall j, i | 0 <= j < |dbs| && 0 <= i < |dbs[j]| :: ShortRecord(dbs[j][i])
  }

  ghost predicate KnowsSnapshots(known: string -> bool) {
    KnowsCollections(known) && known("SELECT") && known("SET") && known("PEXPIREAT")
  }

  lemma StorableConcat(a: seq<Command>, b: seq<Command>, known: string -> bool)
    requires AllStorable(a, known) && AllStorable(b, known)
    ensures AllStorable(a + b, known)
  {
    hide Storable;
  }

  lemma DecIntShort(n: int)
    requires -LONG_LIMIT < n < LONG_LIMIT
    ensures |DecInt(n)| < LONG_LIMIT
  {
    LongLength(if n < 0 then -n else n);
  }

  lemma ThreeStorable(name: string, key: string, text: string, known: string -> bool)
    requires |name| < LONG_LIMIT && |key| < LONG_LIMIT && |text| < LONG_LIMIT && known(name)
    ensures AllStorable([[name, key, text]], known)
  {
  }

  lemma SelectStorable(j: nat, known: string -> bool)
    requires j < LONG_LIMIT && known("SELECT")
    ensures AllStorable([Selecting(j)], known)
  {
    LongLength(j);
  }

  lemma KeyStorable(r: Record, k: nat, known: string -> bool)
    requires Sound(r) && ShortRecord(r) && KnowsSnapshots(known) && k >= 1 && 2 + 2 * k < INT_LIMIT
    ensures AllStorable(KeyCommands(r, k), known)
  {
    hide AllStorable, Chunks, DecInt;
    match r.stored {
      case Text(t) => ThreeStorable("SET", r.key, t, known);
      case Items(kind, items) => ChunksStorable(kind, r.key, items, k, 0, known);
    }
    if r.expire.At? {
      DecIntShort(r.expire.when);
      ThreeStorable("PEXPIREAT", r.key, DecInt(r.expire.when), known);
      StorableConcat(ValueCommands(r, k), [["PEXPIREAT", r.key, DecInt(r.expire.when)]], known);
    } else {
      assert ValueCommands(r, k) + [] == ValueCommands(r, k);
    }
  }

  lemma {:induction false} DbStorable(records: seq<Record>, now: int, k: nat, known: string -> bool)
    requires Keyed(records) && (forall i | 0 <= i < |records| :: ShortRecord(records[i]))
    requires KnowsSnapshots(known) && k >= 1 && 2 + 2 * k < INT_LIMIT
    ensures AllStorable(DbCommands(records, now, k), known)
  {
    hide KeyCommands, ShortRecord, Sound;
    if records != [] {
      var init, r := records[..|records| - 1], records[|records| - 1];
      DbStorable(init, now, k, known);
      KeyStorable(r, k, known);
      hide AllStorable;
      StorableConcat(DbCommands(init, now, k), KeyCommands(r, k), known);
      assert DbCommands(init, now, k) + [] == DbCommands(init, now, k);
    }
  }

  // Every command of a snapshot can be loaded.
  lemma {:induction false} SnapshotStorable(dbs: seq<seq<Record>>, now: int, k: nat, known: string -> bool)
    requires |dbs| < LONG_LIMIT && (forall j | 0 <= j < |dbs| :: Keyed(dbs[j])) && ShortDbs(dbs)
    requires KnowsSnapshots(known) && k >= 1 && 2 + 2 * k < INT_LIMIT
    ensures AllStorable(Snapshot(dbs, now, k), known)
  {
    hide DbCommands, Selecting, Keyed, ShortRecord;
    if dbs != [] {
      var init, last := dbs[..|dbs| - 1], dbs[|dbs| - 1];
      SnapshotStorable(init, now, k, known);
      DbStorable(last, now, k, known);
      SelectStorable(|init|, known);
      NoneStorable(known);
      hide AllStorable;
      StorableConcat([Selecting(|init|)], DbCommands(last, now, k), known);
      StorableConcat(Snapshot(init, now, k), DbPart(last, |init|, now, k), known);
    }
  }

  lemma NoneStorable(known: string -> bool)
    ensures AllStorable([], known)
  {
  }

  // Which keys a replayed snapshot has, written out.
  lemma SnapshotKeys(db: Db, now: int, key: string)
    ensures key in Unexpired(db, now) <==> key in db && (db[key].expire == Never || db[key].expire.when >= now)
    ensures key in Unexpired(db, now) ==> Unexpired(db, now)[key] == db[key]
  {
  }
}
