/** The commands that rebuild a value in a rewritten append-only file
    (redis-3.0.6/src/aof.c): the items of a collection, at most K to a command. */
module AofSnapshot {
  import opened AofCodec
  import opened Basics
  import opened Dataset

  datatype Kind = KList | KSet | KZSet | KHash

  function CommandOf(kind: Kind): string {
    match kind case KList => "RPUSH" case KSet => "SADD" case KZSet => "ZADD" case KHash => "HMSET"
  }

  // Arguments per item: a score and a member, a field and a value, or one.
  function Width(kind: Kind): nat { if kind == KList || kind == KSet then 1 else 2 }

  // Items are given by their arguments.
  ghost predicate AreItems(kind: Kind, items: seq<Command>) {
    forall i | 0 <= i < |items| :: |items[i]| == Width(kind)
  }

  function Joined(items: seq<Command>): seq<string> {
    if items == [] then [] else Joined(items[..|items| - 1]) + items[|items| - 1]
  }

  function ChunkEnd(n: nat, k: nat, b: nat): nat { if n - b > k then b + k else n }

  function Chunk(kind: Kind, key: string, items: seq<Command>): Command { [CommandOf(kind), key] + Joined(items) }

  // The commands for the items from b on.
  function Chunks(kind: Kind, key: string, items: seq<Command>, k: nat, b: nat): seq<Command>
    requires k >= 1 && b <= |items|
    decreases |items| - b
  {
    if b == |items| then []
    else
      var e := ChunkEnd(|items|, k, b);
      [Chunk(kind, key, items[b..e])] + Chunks(kind, key, items, k, e)
  }

  // ----- The emitter -----

  lemma {:induction false} ArgsConcat(a: Command, b: Command)
    ensures Args(a + b) == Args(a) + Args(b)
  {
    hide Arg;
    if b == [] {
      assert a + b == a;
    } else {
      assert (a + b)[..|a + b| - 1] == a + b[..|b| - 1];
      ArgsConcat(a, b[..|b| - 1]);
    }
  }

  lemma {:induction false} JoinedLength(kind: Kind, items: seq<Command>)
    requires AreItems(kind, items)
    ensures |Joined(items)| == Width(kind) * |items|
  {
    if items != [] { JoinedLength(kind, items[..|items| - 1]); }
  }

  lemma JoinedNext(items: seq<Command>, b: nat, i: nat)
    requires b <= i < |items|
    ensures Joined(items[b..i + 1]) == Joined(items[b..i]) + items[i]
  {
    var s := items[b..i + 1];
    assert s[..|s| - 1] == items[b..i] && s[|s| - 1] == items[i];
  }

  function Opening(kind: Kind, key: string, n: nat): string {
    "*" + Dec(2 + n * Width(kind)) + "\r\n" + Args([CommandOf(kind), key])
  }

  // What is written of the chunk that starts at b when item i is next.
  ghost function Begun(kind: Kind, key: string, items: seq<Command>, k: nat, b: nat, i: nat): string
    requires b <= i <= |items|
  {
    if i == b then "" else Opening(kind, key, ChunkEnd(|items|, k, b) - b) + Args(Joined(items[b..i]))
  }

  lemma ChunkWritten(kind: Kind, key: string, items: seq<Command>, k: nat, b: nat)
    requires AreItems(kind, items) && k >= 1 && b < |items|
    ensures var e := ChunkEnd(|items|, k, b); Begun(kind, key, items, k, b, e) == Encode(Chunk(kind, key, items[b..e]))
  {
    hide Args, Dec, Joined, CommandOf, Encode, Opening, ChunkEnd;
    var e := ChunkEnd(|items|, k, b);
    ChunkEndIn(|items|, k, b);
    JoinedLength(kind, items[b..e]);
    OpeningArgs(kind, key, e - b, Joined(items[b..e]));
  }

  lemma ChunkEndIn(n: nat, k: nat, b: nat)
    requires k >= 1 && b < n
    ensures b < ChunkEnd(n, k, b) <= n && ChunkEnd(n, k, b) - b <= k
  {
  }

  lemma Assoc(a: string, b: string, c: string)
    ensures (a + b) + c == a + (b + c)
  {
  }

  lemma OpeningArgs(kind: Kind, key: string, n: nat, args: Command)
    requires |args| == Width(kind) * n
    ensures Opening(kind, key, n) + Args(args) == Encode([CommandOf(kind), key] + args)
  {
    hide Args, Dec, CommandOf;
    var start := [CommandOf(kind), key];
    ArgsConcat(start, args);
    assert |start + args| == 2 + n * Width(kind);
    Assoc("*" + Dec(2 + n * Width(kind)) + "\r\n", Args(start), Args(args));
  }

  lemma ItemWritten(kind: Kind, key: string, items: seq<Command>, k: nat, b: nat, i: nat)
    requires b <= i < |items|
    ensures Begun(kind, key, items, k, b, i + 1) == Begun(kind, key, items, k, b, i) + Piece(kind, key, items, k, b, i)
  {
    hide Args, Joined, Opening;
    JoinedNext(items, b, i);
    ArgsConcat(Joined(items[b..i]), items[i]);
    if i == b {
      assert items[b..i] == [];
      JoinedNone();
      assert [] + items[i] == items[i];
      assert "" + Piece(kind, key, items, k, b, i) == Piece(kind, key, items, k, b, i);
    } else {
      var opening := Opening(kind, key, ChunkEnd(|items|, k, b) - b);
      Assoc(opening, Args(Joined(items[b..i])), Args(items[i]));
    }
  }

  // What is written for one item.
  ghost function Piece(kind: Kind, key: string, items: seq<Command>, k: nat, b: nat, i: nat): string
    requires b <= i < |items|
  {
    if i == b then Opening(kind, key, ChunkEnd(|items|, k, b) - b) + Args(items[i]) else Args(items[i])
  }

  lemma JoinedNone()
    ensures Joined([]) == []
  {
  }

  // The loop of the four emitters.  A command is opened at every K-th item, for as many items as are left or K.
  method Emit(kind: Kind, key: string, items: seq<Command>, k: nat) returns (out: string)
    requires AreItems(kind, items) && k >= 1
    ensures out == EncodeAll(Chunks(kind, key, items, k, 0))
  {
    hide Encode, Begun, Chunk, Chunks, EncodeAll, Joined, Args, AreItems, Opening;
    out := "";
    var count, left, i := 0, |items|, 0;
    ghost var b, done := 0, "";
    BegunNone(kind, key, items, k, 0);
    while i < |items|
      invariant b <= i <= |items| && left == |items| - i
      invariant i < |items| ==> count == i - b && (i == b || i < ChunkEnd(|items|, k, b))
      invariant i == |items| ==> b == i
      invariant out == done + Begun(kind, key, items, k, b, i)
      invariant EncodeAll(Chunks(kind, key, items, k, 0)) == done + EncodeAll(Chunks(kind, key, items, k, b))
    {
      ItemWritten(kind, key, items, k, b, i);
      var text := Args(items[i]);
      if count == 0 {
        var n := if left > k then k else left;
        text := Opening(kind, key, n) + text;
      }
      assert text == Piece(kind, key, items, k, b, i);
      Assoc(done, Begun(kind, key, items, k, b, i), text);
      out := out + text;
      count := count + 1;
      if count == k { count := 0; }
      left := left - 1;
      i := i + 1;
      if i == ChunkEnd(|items|, k, b) {
        ChunkWritten(kind, key, items, k, b);
        ChunkDone(kind, key, items, k, b, done);
        b, done := i, out;
        BegunNone(kind, key, items, k, i);
      }
    }
    BegunNone(kind, key, items, k, i);
    ChunksNone(kind, key, items, k);
  }

  lemma ChunksNone(kind: Kind, key: string, items: seq<Command>, k: nat)
    requires k >= 1
    ensures EncodeAll(Chunks(kind, key, items, k, |items|)) == ""
  {
  }

  lemma BegunNone(kind: Kind, key: string, items: seq<Command>, k: nat, b: nat)
    requires b <= |items|
    ensures Begun(kind, key, items, k, b, b) == ""
  {
  }

  lemma ChunkDone(kind: Kind, key: string, items: seq<Command>, k: nat, b: nat, done: string)
    requires k >= 1 && b < |items|
    ensures var e := ChunkEnd(|items|, k, b);
      done + EncodeAll(Chunks(kind, key, items, k, b)) ==
      done + Encode(Chunk(kind, key, items[b..e])) + EncodeAll(Chunks(kind, key, items, k, e))
  {
    hide Encode, Chunk;
    var e := ChunkEnd(|items|, k, b);
    var cs := Chunks(kind, key, items, k, b);
    assert cs[1..] == Chunks(kind, key, items, k, e);
  }

  // ----- What the commands mean -----

  function Build(kind: Kind, args: seq<string>): Value {
    match kind
    case KList => List(args)
    case KSet => Set(SetOf(args))
    case KZSet => ZSet(ZAdd(map[], args))
    case KHash => Hash(HMSet(map[], args))
  }

  lemma {:induction false} ZAddConcat(m: map<string, string>, a: seq<string>, b: seq<string>)
    requires |a| % 2 == 0 && |b| % 2 == 0
    ensures ZAdd(m, a + b) == ZAdd(ZAdd(m, a), b)
    decreases |b|
  {
    if b == [] {
      assert a + b == a;
    } else {
      assert (a + b)[..|a + b| - 2] == a + b[..|b| - 2];
      ZAddConcat(m, a, b[..|b| - 2]);
    }
  }

  lemma {:induction false} HMSetConcat(m: map<string, string>, a: seq<string>, b: seq<string>)
    requires |a| % 2 == 0 && |b| % 2 == 0
    ensures HMSet(m, a + b) == HMSet(HMSet(m, a), b)
    decreases |b|
  {
    if b == [] {
      assert a + b == a;
    } else {
      assert (a + b)[..|a + b| - 2] == a + b[..|b| - 2];
      HMSetConcat(m, a, b[..|b| - 2]);
    }
  }

  lemma SetConcat(a: seq<string>, b: seq<string>)
    ensures SetOf(a + b) == SetOf(a) + SetOf(b)
  {
  }

  lemma ChunkName(kind: Kind, key: string, args: seq<string>)
    requires args != [] && |args| % Width(kind) == 0
    ensures NameOf([CommandOf(kind), key] + args) ==
      match kind case KList => RPUSH case KSet => SADD case KZSet => ZADD case KHash => HMSET
  {
    var argv := [CommandOf(kind), key] + args;
    assert argv[0] == CommandOf(kind) && |argv| == 2 + |args|;
    assert |CommandOf(kind)| in {4, 5};
  }

  // A command adds its items to what the earlier ones built.
  lemma ChunkAdds(kind: Kind, key: string, a: seq<string>, b: seq<string>, x: Expire)
    requires b != [] && |a| % Width(kind) == 0 && |b| % Width(kind) == 0
    ensures var argv := [CommandOf(kind), key] + b;
      OnOneKey(NameOf(argv)) && KeyEffect(argv, Some(Entry(Build(kind, a), x))) == Some(Entry(Build(kind, a + b), x))
  {
    ChunkName(kind, key, b);
    var argv := [CommandOf(kind), key] + b;
    hide NameOf, ZAdd, HMSet, SetOf, CommandOf;
    assert argv[2..] == b;
    match kind
    case KList =>
    case KSet => SetConcat(a, b);
    case KZSet => ZAddConcat(map[], a, b);
    case KHash => HMSetConcat(map[], a, b);
  }

  lemma ChunkStarts(kind: Kind, key: string, b: seq<string>)
    requires b != [] && |b| % Width(kind) == 0
    ensures var argv := [CommandOf(kind), key] + b;
      OnOneKey(NameOf(argv)) && KeyEffect(argv, None) == Some(Entry(Build(kind, b), Never))
  {
    ChunkName(kind, key, b);
    var argv := [CommandOf(kind), key] + b;
    hide NameOf, ZAdd, HMSet, SetOf, CommandOf;
    assert argv[2..] == b;
  }

  // ----- Replaying the commands of a value -----

  function WithKey(st: Replay, key: string, e: Entry): Replay
    requires st.selected < |st.dbs|
  {
    st.(dbs := st.dbs[st.selected := st.dbs[st.selected][key := e]])
  }

  ghost predicate Absent(st: Replay, key: string) { st.selected < |st.dbs| && key !in st.dbs[st.selected] }

  lemma ExecOne(sem: Semantics, st: Replay, c: Command)
    ensures ExecAll(sem, st, [c]) == Exec(sem, st, c)
  {
    hide Exec;
    assert [c][..0] == [];
    assert ExecAll(sem, st, [c][..0]) == st;
  }

  // A command on one key that leaves an entry there.
  lemma ExecKey(sem: Semantics, st: Replay, argv: Command, e: Entry)
    requires st.selected < |st.dbs| && OnOneKey(NameOf(argv))
    requires |argv| >= 2 && KeyEffect(argv, Get(st.dbs[st.selected], argv[1])) == Some(e)
    ensures ExecAll(sem, st, [argv]) == WithKey(st, argv[1], e)
  {
    hide KeyEffect, NameOf;
    ExecOne(sem, st, argv);
  }

  lemma JoinedConcat(items: seq<Command>, b: nat, e: nat)
    requires b <= e <= |items|
    ensures Joined(items[..e]) == Joined(items[..b]) + Joined(items[b..e])
  {
    if b == e {
      assert items[b..e] == [];
      assert Joined(items[..b]) + [] == Joined(items[..b]);
    } else {
      JoinedConcat(items, b, e - 1);
      JoinedNext(items, 0, e - 1);
      JoinedNext(items, b, e - 1);
      assert items[0..e] == items[..e] && items[0..e - 1] == items[..e - 1];
    }
  }

  lemma JoinedWhole(kind: Kind, items: seq<Command>)
    requires AreItems(kind, items)
    ensures |Joined(items)| % Width(kind) == 0 && (items != [] ==> Joined(items) != [])
  {
    JoinedLength(kind, items);
  }

  ghost predicate BuiltTo(st: Replay, kind: Kind, key: string, items: seq<Command>, b: nat)
    requires b <= |items|
  {
    && st.selected < |st.dbs|
    && Get(st.dbs[st.selected], key) == if b == 0 then None else Some(Entry(Build(kind, Joined(items[..b])), Never))
  }

  lemma OneChunk(sem: Semantics, st: Replay, kind: Kind, key: string, items: seq<Command>, b: nat, e: nat)
    requires AreItems(kind, items) && b < e <= |items| && BuiltTo(st, kind, key, items, b)
    ensures ExecAll(sem, st, [Chunk(kind, key, items[b..e])]) ==
            WithKey(st, key, Entry(Build(kind, Joined(items[..e])), Never))
  {
    var args := Joined(items[b..e]);
    JoinedWhole(kind, items[b..e]);
    JoinedWhole(kind, items[..b]);
    JoinedConcat(items, b, e);
    if b == 0 {
      assert items[..b] == [] && items[b..e] == items[..e];
      ChunkStarts(kind, key, args);
    } else {
      ChunkAdds(kind, key, Joined(items[..b]), args, Never);
    }
    hide KeyEffect, NameOf, Joined, Build, WithKey;
    ExecKey(sem, st, Chunk(kind, key, items[b..e]), Entry(Build(kind, Joined(items[..e])), Never));
  }

  // The commands for the items from b on complete the value.
  lemma {:induction false} ChunksRebuild(sem: Semantics, st: Replay, kind: Kind, key: string,
                                         items: seq<Command>, k: nat, b: nat)
    requires AreItems(kind, items) && k >= 1 && b < |items| && BuiltTo(st, kind, key, items, b)
    ensures ExecAll(sem, st, Chunks(kind, key, items, k, b)) == WithKey(st, key, Entry(Build(kind, Joined(items)), Never))
    decreases |items| - b
  {
    hide Joined, Build, Chunk, ExecAll;
    var e := ChunkEnd(|items|, k, b);
    var c := Chunk(kind, key, items[b..e]);
    OneChunk(sem, st, kind, key, items, b, e);
    var mid := WithKey(st, key, Entry(Build(kind, Joined(items[..e])), Never));
    ExecConcat(sem, st, [c], Chunks(kind, key, items, k, e));
    if e == |items| {
      assert items[..e] == items;
      NoneLeft(sem, mid);
    } else {
      ChunksRebuild(sem, mid, kind, key, items, k, e);
      WithKeyTwice(st, key, Entry(Build(kind, Joined(items[..e])), Never), Entry(Build(kind, Joined(items)), Never));
    }
  }

  lemma NoneLeft(sem: Semantics, st: Replay)
    ensures ExecAll(sem, st, []) == st
  {
  }

  lemma WithKeyTwice(st: Replay, key: string, d: Entry, e: Entry)
    requires st.selected < |st.dbs|
    ensures WithKey(WithKey(st, key, d), key, e) == WithKey(st, key, e)
  {
    var db := st.dbs[st.selected];
    assert db[key := d][key := e] == db[key := e];
    assert st.dbs[st.selected := db[key := d]][st.selected := db[key := e]] == st.dbs[st.selected := db[key := e]];
  }

  // ----- The values themselves -----

  // An order in which the keys of a collection are visited, each once.
  ghost predicate Visits(order: seq<string>, keys: set<string>) {
    SetOf(order) == keys && forall i, j | 0 <= i < j < |order| :: order[i] != order[j]
  }

  ghost predicate Covers(order: seq<string>, m: map<string, string>) { forall a | a in order :: a in m }

  function Singles(order: seq<string>): seq<Command> { seq(|order|, i requires 0 <= i < |order| => [order[i]]) }

  // Score then member, as ZADD takes them.
  ghost function Scored(order: seq<string>, m: map<string, string>): seq<Command>
    requires Covers(order, m)
  {
    seq(|order|, i requires 0 <= i < |order| && order[i] in order => [m[order[i]], order[i]])
  }

  // Field then value, as HMSET takes them.
  ghost function Fielded(order: seq<string>, m: map<string, string>): seq<Command>
    requires Covers(order, m)
  {
    seq(|order|, i requires 0 <= i < |order| && order[i] in order => [order[i], m[order[i]]])
  }

  lemma {:induction false} JoinedSingles(order: seq<string>)
    ensures Joined(Singles(order)) == order && AreItems(KList, Singles(order)) && |Singles(order)| == |order|
  {
    if order != [] {
      var init := order[..|order| - 1];
      JoinedSingles(init);
      assert Singles(order)[..|order| - 1] == Singles(init);
      assert init + [order[|order| - 1]] == order;
    }
  }

  function Restricted(m: map<string, string>, keys: set<string>): map<string, string> {
    map a | a in m && a in keys :: m[a]
  }

  lemma RestrictedNext(m: map<string, string>, init: seq<string>, last: string)
    requires last in m
    ensures Restricted(m, SetOf(init + [last])) == Restricted(m, SetOf(init))[last := m[last]]
  {
  }

  lemma ScoredNext(order: seq<string>, m: map<string, string>, init: seq<string>, last: string)
    requires Covers(order, m) && order == init + [last]
    ensures last in m && Covers(init, m)
    ensures Joined(Scored(order, m)) == Joined(Scored(init, m)) + [m[last], last]
  {
    assert last in order;
    assert Scored(order, m)[..|order| - 1] == Scored(init, m);
  }

  lemma {:induction false} ScoredBuilds(order: seq<string>, m: map<string, string>)
    requires Covers(order, m)
    ensures ZAdd(map[], Joined(Scored(order, m))) == Restricted(m, SetOf(order))
    ensures AreItems(KZSet, Scored(order, m))
  {
    if order != [] {
      var init, last := order[..|order| - 1], order[|order| - 1];
      hide Joined, SetOf, Restricted, Scored;
      ScoredNext(order, m, init, last);
      ScoredBuilds(init, m);
      RestrictedNext(m, init, last);
      var args := Joined(Scored(init, m));
      assert order == init + [last] && (args + [m[last], last])[..|args|] == args;
    }
    ScoredItems(order, m);
  }

  lemma ScoredItems(order: seq<string>, m: map<string, string>)
    requires Covers(order, m)
    ensures AreItems(KZSet, Scored(order, m))
  {
  }

  lemma FieldedNext(order: seq<string>, m: map<string, string>, init: seq<string>, last: string)
    requires Covers(order, m) && order == init + [last]
    ensures last in m && Covers(init, m)
    ensures Joined(Fielded(order, m)) == Joined(Fielded(init, m)) + [last, m[last]]
  {
    assert last in order;
    assert Fielded(order, m)[..|order| - 1] == Fielded(init, m);
  }

  lemma {:induction false} FieldedBuilds(order: seq<string>, m: map<string, string>)
    requires Covers(order, m)
    ensures HMSet(map[], Joined(Fielded(order, m))) == Restricted(m, SetOf(order))
    ensures AreItems(KHash, Fielded(order, m))
  {
    if order != [] {
      var init, last := order[..|order| - 1], order[|order| - 1];
      hide Joined, SetOf, Restricted, Fielded;
      FieldedNext(order, m, init, last);
      FieldedBuilds(init, m);
      RestrictedNext(m, init, last);
      var args := Joined(Fielded(init, m));
      assert order == init + [last] && (args + [last, m[last]])[..|args|] == args;
    }
    FieldedItems(order, m);
  }

  lemma FieldedItems(order: seq<string>, m: map<string, string>)
    requires Covers(order, m)
    ensures AreItems(KHash, Fielded(order, m))
  {
  }

  /** Replayed where the key is absent, the commands emitted for a list, a set, a sorted
      set or a hash rebuild it, whatever the order of its items and the chunk size. */
  lemma ListRebuilt(sem: Semantics, st: Replay, key: string, l: seq<string>, k: nat)
    requires k >= 1 && l != [] && Absent(st, key)
    ensures ExecAll(sem, st, Chunks(KList, key, Singles(l), k, 0)) == WithKey(st, key, Entry(List(l), Never))
  {
    JoinedSingles(l);
    hide Singles, Joined, ExecAll, WithKey, Chunks;
    ChunksRebuild(sem, st, KList, key, Singles(l), k, 0);
  }

  lemma SetRebuilt(sem: Semantics, st: Replay, key: string, s: set<string>, order: seq<string>, k: nat)
    requires k >= 1 && s != {} && Visits(order, s) && Absent(st, key)
    ensures ExecAll(sem, st, Chunks(KSet, key, Singles(order), k, 0)) == WithKey(st, key, Entry(Set(s), Never))
  {
    JoinedSingles(order);
    assert SetOf(order) == s && s != {};
    hide Singles, Joined, ExecAll, WithKey, Chunks;
    ChunksRebuild(sem, st, KSet, key, Singles(order), k, 0);
  }

  lemma SortedSetRebuilt(sem: Semantics, st: Replay, key: string, m: map<string, string>, order: seq<string>, k: nat)
    requires k >= 1 && |order| > 0 && Visits(order, m.Keys) && Absent(st, key)
    ensures Covers(order, m)
    ensures ExecAll(sem, st, Chunks(KZSet, key, Scored(order, m), k, 0)) == WithKey(st, key, Entry(ZSet(m), Never))
  {
    Covered(order, m);
    ScoredBuilds(order, m);
    assert Restricted(m, SetOf(order)) == m;
    hide Joined, ExecAll, WithKey, Chunks, SetOf, ZAdd;
    ChunksRebuild(sem, st, KZSet, key, Scored(order, m), k, 0);
  }

  lemma Covered(order: seq<string>, m: map<string, string>)
    requires Visits(order, m.Keys)
    ensures Covers(order, m)
  {
    assert forall a | a in order :: a in SetOf(order);
  }

  lemma HashRebuilt(sem: Semantics, st: Replay, key: string, m: map<string, string>, order: seq<string>, k: nat)
    requires k >= 1 && |order| > 0 && Visits(order, m.Keys) && Absent(st, key)
    ensures Covers(order, m)
    ensures ExecAll(sem, st, Chunks(KHash, key, Fielded(order, m), k, 0)) == WithKey(st, key, Entry(Hash(m), Never))
  {
    Covered(order, m);
    FieldedBuilds(order, m);
    assert Restricted(m, SetOf(order)) == m;
    hide Joined, ExecAll, WithKey, Chunks, SetOf, HMSet;
    ChunksRebuild(sem, st, KHash, key, Fielded(order, m), k, 0);
  }

  // Every command names its key and carries at least one and at most k whole items.
  lemma {:induction false} ChunksBounded(kind: Kind, key: string, items: seq<Command>, k: nat, b: nat, c: Command)
    requires AreItems(kind, items) && k >= 1 && b <= |items| && c in Chunks(kind, key, items, k, b)
    ensures 2 + Width(kind) <= |c| <= 2 + Width(kind) * k && (|c| - 2) % Width(kind) == 0
    ensures c[0] == CommandOf(kind) && c[1] == key
    decreases |items| - b
  {
    hide Joined;
    var e := ChunkEnd(|items|, k, b);
    if c != Chunk(kind, key, items[b..e]) {
      ChunksBounded(kind, key, items, k, e, c);
    } else {
      JoinedLength(kind, items[b..e]);
    }
  }

  // ----- The commands are well formed -----

  ghost predicate Short(args: seq<string>) { forall a | a in args :: |a| < LONG_LIMIT }

  ghost predicate ShortItems(items: seq<Command>) { forall i | 0 <= i < |items| :: Short(items[i]) }

  // The loader knows the commands a snapshot is made of.
  ghost predicate KnowsCollections(known: string -> bool) {
    known("RPUSH") && known("SADD") && known("ZADD") && known("HMSET")
  }

  lemma {:induction false} JoinedShort(items: seq<Command>)
    requires ShortItems(items)
    ensures Short(Joined(items))
  {
    if items != [] {
      JoinedShort(items[..|items| - 1]);
      assert Short(items[|items| - 1]);
    }
  }

  lemma {:induction false} ChunksStorable(kind: Kind, key: string, items: seq<Command>, k: nat, b: nat, known: string -> bool)
    requires AreItems(kind, items) && ShortItems(items) && |key| < LONG_LIMIT && KnowsCollections(known)
    requires k >= 1 && 2 + Width(kind) * k < INT_LIMIT && b <= |items|
    ensures AllStorable(Chunks(kind, key, items, k, b), known)
    decreases |items| - b
  {
    hide Joined, Chunk;
    if b < |items| {
      var e := ChunkEnd(|items|, k, b);
      ChunkEndIn(|items|, k, b);
      ChunkStorable(kind, key, items[b..e], k, known);
      ChunksStorable(kind, key, items, k, e, known);
    }
  }

  lemma ChunkStorable(kind: Kind, key: string, items: seq<Command>, k: nat, known: string -> bool)
    requires AreItems(kind, items) && ShortItems(items) && |key| < LONG_LIMIT && KnowsCollections(known)
    requires |items| <= k && 2 + Width(kind) * k < INT_LIMIT
    ensures Storable(Chunk(kind, key, items)) && known(Chunk(kind, key, items)[0])
  {
    JoinedLength(kind, items);
    JoinedShort(items);
    var c := Chunk(kind, key, items);
    assert |CommandOf(kind)| <= 5;
    hide Joined;
    forall a | a in c ensures |a| < LONG_LIMIT {
      assert a == c[0] || a == c[1] || a in Joined(items);
    }
  }

  /** The bytes emitted for a collection parse as well-formed commands: they load, wholly, as the commands they
      are meant to be. */
  lemma EmittedParse(kind: Kind, key: string, items: seq<Command>, k: nat, known: string -> bool)
    requires AreItems(kind, items) && ShortItems(items) && |key| < LONG_LIMIT && KnowsCollections(known)
    requires k >= 1 && 2 + Width(kind) * k < INT_LIMIT
    ensures Load(EncodeAll(Chunks(kind, key, items, k, 0)), known) == Loaded(Chunks(kind, key, items, k, 0), "", Nothing)
  {
    hide Load, EncodeAll, Chunks;
    ChunksStorable(kind, key, items, k, 0, known);
    RoundTrip(Chunks(kind, key, items, k, 0), known);
  }

  // The order of arguments: one member of each kind of collection, written out.
  lemma OneItem(key: string, a: string, b: string, k: nat)
    requires k >= 1
    ensures Chunks(KList, key, Singles([a]), k, 0) == [["RPUSH", key, a]]
    ensures Chunks(KSet, key, Singles([a]), k, 0) == [["SADD", key, a]]
    ensures Chunks(KZSet, key, Scored([a], map[a := b]), k, 0) == [["ZADD", key, b, a]]
    ensures Chunks(KHash, key, Fielded([a], map[a := b]), k, 0) == [["HMSET", key, a, b]]
  {
    OneChunkOnly(KList, key, [a], k);
    OneChunkOnly(KSet, key, [a], k);
    OneChunkOnly(KZSet, key, [b, a], k);
    OneChunkOnly(KHash, key, [a, b], k);
    hide Chunks;
    assert Singles([a]) == [[a]];
    assert Scored([a], map[a := b]) == [[b, a]];
    assert Fielded([a], map[a := b]) == [[a, b]];
    assert ["RPUSH", key] + [a] == ["RPUSH", key, a] && ["SADD", key] + [a] == ["SADD", key, a];
    assert ["ZADD", key] + [b, a] == ["ZADD", key, b, a] && ["HMSET", key] + [a, b] == ["HMSET", key, a, b];
  }

  lemma OneChunkOnly(kind: Kind, key: string, item: Command, k: nat)
    requires k >= 1
    ensures Chunks(kind, key, [item], k, 0) == [[CommandOf(kind), key] + item]
  {
    assert [item][0..1] == [item] && [item][..0] == [];
    assert Joined([item]) == Joined([item][..0]) + item;
    assert [] + item == item;
    assert Chunks(kind, key, [item], k, 1) == [];
    assert ChunkEnd(1, k, 0) == 1;
    assert Chunks(kind, key, [item], k, 0) == [Chunk(kind, key, [item][0..1])] + [];
  }

  // Commands are full: the first takes K items or all that are left, and there are as few commands as can be.
  lemma {:induction false} ChunksFull(kind: Kind, key: string, items: seq<Command>, k: nat, b: nat)
    requires AreItems(kind, items) && k >= 1 && b < |items|
    ensures var cs := Chunks(kind, key, items, k, b);
      && cs != [] && |cs[0]| == 2 + Width(kind) * (if |items| - b > k then k else |items| - b)
      && (|cs| - 1) * k < |items| - b <= |cs| * k
    decreases |items| - b
  {
    hide Joined;
    var e := ChunkEnd(|items|, k, b);
    JoinedLength(kind, items[b..e]);
    var rest := Chunks(kind, key, items, k, e);
    if e < |items| {
      ChunksFull(kind, key, items, k, e);
      assert (|rest| + 1 - 1) * k == (|rest| - 1) * k + k;
      assert (|rest| + 1) * k == |rest| * k + k;
    }
  }
}
