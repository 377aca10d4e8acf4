/** The format of the append-only file (redis-3.0.6/src/aof.c): how commands are
    encoded and how the loader reads them back.  A byte is a char; a command is
    its arguments; commands are run without transactions. */
module AofCodec {
  import opened Basics

  type Command = seq<string>

  const INT_LIMIT: int := 0x8000_0000
  const LONG_LIMIT: int := 0x8000_0000_0000_0000

  // ----- Decimal numbers -----

  function Digit(d: nat): char
    requires d < 10
  {
    "0123456789"[d]
  }

  predicate IsDigit(c: char) { '0' <= c <= '9' }

  function DigitValue(c: char): nat
    requires IsDigit(c)
  {
    (c - '0') as nat
  }

  function Dec(n: nat): (s: string)
    ensures s != ""
  {
    if n < 10 then [Digit(n)] else Dec(n / 10) + [Digit(n % 10)]
  }

  // The number at the beginning of s, after the digits already read.
  function Digits(s: string, read: nat): nat {
    if s == "" || !IsDigit(s[0]) then read else Digits(s[1..], 10 * read + DigitValue(s[0]))
  }

  predicate IsSpace(c: char) { c == ' ' || '\t' <= c <= '\r' }

  function SkipSpace(s: string): string {
    if s != "" && IsSpace(s[0]) then SkipSpace(s[1..]) else s
  }

  // strtol: saturates at the limits of a 64-bit long.
  function StrToL(s: string): int {
    var t := SkipSpace(s);
    var v: int := if t != "" && t[0] == '-' then -(Digits(t[1..], 0) as int)
             else if t != "" && t[0] == '+' then Digits(t[1..], 0) else Digits(t, 0);
    if v >= LONG_LIMIT then LONG_LIMIT - 1 else if v < -LONG_LIMIT then -LONG_LIMIT else v
  }

  // atoi: the low 32 bits of strtol, as a signed number.
  function AToI(s: string): int {
    var low := StrToL(s) % (2 * INT_LIMIT);
    if low < INT_LIMIT then low else low - 2 * INT_LIMIT
  }

  // ----- Encoding -----

  function Arg(a: string): string { "$" + Dec(|a|) + "\r\n" + a + "\r\n" }

  function Args(argv: Command): string {
    if argv == [] then "" else Args(argv[..|argv| - 1]) + Arg(argv[|argv| - 1])
  }

  function Encode(argv: Command): string { "*" + Dec(|argv|) + "\r\n" + Args(argv) }

  function EncodeAll(cmds: seq<Command>): string {
    if cmds == [] then "" else Encode(cmds[0]) + EncodeAll(cmds[1..])
  }

  method CatAppendOnlyGenericCommand(dst: string, argv: Command) returns (r: string)
    ensures r == dst + Encode(argv)
  {
    r := dst + "*" + Dec(|argv|) + "\r\n";
    var j := 0;
    ghost var header := "*" + Dec(|argv|) + "\r\n";
    assert r == dst + header + Args(argv[..0]);
    while j < |argv|
      invariant 0 <= j <= |argv| && r == dst + header + Args(argv[..j])
    {
      ghost var before := r;
      r := r + "$" + Dec(|argv[j]|) + "\r\n";
      r := r + argv[j];
      r := r + "\r\n";
      assert r == before + Arg(argv[j]);
      assert argv[..j + 1][..j] == argv[..j];
      j := j + 1;
    }
    assert argv[..j] == argv;
    assert dst + header + Args(argv) == dst + (header + Args(argv));
  }

  // ----- Reading -----

  const LINE: nat := 127

  // The length of what fgets takes of s: up to a newline, LINE bytes or the end.
  function LineLength(s: string, limit: nat): (n: nat)
    ensures n <= |s| && n <= limit && (s != "" && limit > 0 ==> n > 0)
  {
    if s == "" || limit == 0 then 0 else if s[0] == '\n' then 1 else 1 + LineLength(s[1..], limit - 1)
  }

  // Why nothing was read: the end of the file, an end in the middle of a command, and errors.
  datatype Why = Nothing | CutShort | BadFormat | Unreadable | NoMemory | UnknownCommand

  datatype Read<T> = Got(value: T, rest: string) | Bad(why: Why)

  function ReadArg(s: string): Read<string> {
    if s == "" then Bad(CutShort)
    else
      var n := LineLength(s, LINE);
      if s[0] != '$' then Bad(BadFormat)
      else
        var len := StrToL(s[1..n]);
        if len < 0 then Bad(NoMemory)
        else if n + len + 2 > |s| then Bad(CutShort)
        else Got(s[n..n + len], s[n + len + 2..])
  }

  function ReadArgs(s: string, argc: nat): (r: Read<Command>)
    ensures r.Got? ==> |r.rest| <= |s| && |r.value| == argc
  {
    if argc == 0 then Got([], s)
    else
      match ReadArgs(s, argc - 1)
      case Bad(why) => Bad(why)
      case Got(argv, rest) =>
        match ReadArg(rest)
        case Bad(why) => Bad(why)
        case Got(a, last) => Got(argv + [a], last)
  }

  // A header that holds nothing but its first byte is a read error, at the end of the file an early end.
  function ReadCommand(s: string): (r: Read<Command>)
    ensures r.Got? ==> |r.rest| < |s| && |r.value| >= 1
  {
    if s == "" then Bad(Nothing)
    else
      var n := LineLength(s, LINE);
      if s[0] != '*' then Bad(BadFormat)
      else if n == 1 || s[1] == '\0' then Bad(if n == |s| && n < LINE && s[n - 1] != '\n' then CutShort else Unreadable)
      else
        var argc := AToI(s[1..n]);
        if argc < 1 then Bad(BadFormat) else ReadArgs(s[n..], argc)
  }

  // ----- What was written is read back -----

  lemma LineOf(h: string, rest: string, limit: nat)
    requires '\n' !in h && |h| < limit
    ensures LineLength(h + "\n" + rest, limit) == |h| + 1
  {
    var s := h + "\n" + rest;
    if h == "" {
      assert s[0] == '\n';
    } else {
      assert s[0] == h[0] && h[0] in h;
      assert s[1..] == h[1..] + "\n" + rest;
      LineOf(h[1..], rest, limit - 1);
    }
  }

  lemma LastLine(h: string, limit: nat)
    requires '\n' !in h && |h| <= limit
    ensures LineLength(h, limit) == |h|
  {
    if h != "" {
      assert h[0] in h;
      LastLine(h[1..], limit - 1);
    }
  }

  lemma {:induction false} DigitsOfDec(n: nat, t: string)
    requires t == "" || !IsDigit(t[0])
    ensures Digits(Dec(n) + t, 0) == n
  {
    DigitsOn(n, t);
    assert Digits(t, n) == n;
  }

  lemma {:induction false} DigitsOn(n: nat, t: string)
    ensures Digits(Dec(n) + t, 0) == Digits(t, n)
  {
    hide Digits, Digit;
    if n < 10 {
      DigitOn(n, 0, t);
    } else {
      var d := [Digit(n % 10)];
      assert Dec(n) + t == Dec(n / 10) + (d + t);
      DigitsOn(n / 10, d + t);
      DigitOn(n % 10, n / 10, t);
    }
  }

  lemma DigitOn(d: nat, read: nat, t: string)
    requires d < 10
    ensures Digits([Digit(d)] + t, read) == Digits(t, 10 * read + d)
  {
    assert ([Digit(d)] + t)[1..] == t;
    DigitRead(d);
  }

  lemma DigitRead(d: nat)
    requires d < 10
    ensures IsDigit(Digit(d)) && DigitValue(Digit(d)) == d
  {
  }

  lemma {:induction false} DecIsDigits(n: nat)
    ensures forall i | 0 <= i < |Dec(n)| :: IsDigit(Dec(n)[i])
  {
    if n >= 10 { DecIsDigits(n / 10); }
  }

  lemma {:induction false} DecLength(n: nat, k: nat)
    requires n < Power(10, k) && k > 0
    ensures |Dec(n)| <= k
  {
    if n >= 10 {
      assert Power(10, k) == 10 * Power(10, k - 1) && Power(10, 0) == 1;
      DecLength(n / 10, k - 1);
    }
  }

  lemma LongLength(n: nat)
    requires n < LONG_LIMIT
    ensures |Dec(n)| <= 19
  {
    assert Power(10, 2) == 100;
    assert Power(10, 4) == 1_0000;
    assert Power(10, 6) == 100_0000;
    assert Power(10, 8) == 1_0000_0000;
    assert Power(10, 10) == 100_0000_0000;
    assert Power(10, 12) == 1_0000_0000_0000;
    assert Power(10, 14) == 100_0000_0000_0000;
    assert Power(10, 16) == 1_0000_0000_0000_0000;
    assert Power(10, 18) == 100_0000_0000_0000_0000;
    assert Power(10, 19) == 10 * Power(10, 18);
    DecLength(n, 19);
  }

  // A beginning of a number is a number, not greater, and not zero unless the number is.
  lemma {:induction false} DecPrefix(n: nat, k: nat) returns (m: nat)
    requires 0 < k <= |Dec(n)|
    ensures Dec(n)[..k] == Dec(m) && m <= n && (n > 0 ==> m > 0)
  {
    if k == |Dec(n)| {
      m := n;
      assert Dec(n)[..k] == Dec(n);
    } else {
      assert Dec(n) == Dec(n / 10) + [Digit(n % 10)];
      m := DecPrefix(n / 10, k);
      assert Dec(n)[..k] == Dec(n / 10)[..k];
    }
  }

  // The text of a number, followed by anything but a digit.
  lemma NumberRead(n: nat, t: string)
    requires n < LONG_LIMIT && (t == "" || !IsDigit(t[0]))
    ensures StrToL(Dec(n) + t) == n
  {
    DecIsDigits(n);
    DigitsOfDec(n, t);
    hide Dec, Digits;
    assert IsDigit((Dec(n) + t)[0]);
    assert SkipSpace(Dec(n) + t) == Dec(n) + t;
  }

  lemma NumberNotNegative(s: string)
    requires s == "" || IsDigit(s[0])
    ensures StrToL(s) >= 0
  {
    hide Digits;
    assert SkipSpace(s) == s;
  }

  // ----- One argument -----

  // The header line of an argument or a command, without its newline.
  function Header(c: char, n: nat): string { [c] + Dec(n) + "\r" }

  lemma HeaderLine(c: char, n: nat)
    requires n < LONG_LIMIT && c != '\n'
    ensures '\n' !in Header(c, n) && 1 < |Header(c, n)| < LINE
    ensures Header(c, n)[0] == c && IsDigit(Header(c, n)[1]) && Header(c, n)[1..] == Dec(n) + "\r"
  {
    DecIsDigits(n);
    LongLength(n);
    hide Dec;
    assert Header(c, n)[1..] == Dec(n) + "\r";
  }

  lemma HeaderRead(c: char, n: nat, rest: string)
    requires n < LONG_LIMIT && c != '\n'
    ensures var s := Header(c, n) + "\n" + rest; var k := |Header(c, n)| + 1;
      LineLength(s, LINE) == k && s[..1] == [c] && IsDigit(s[1]) && StrToL(s[1..k]) == n && s[k..] == rest
  {
    HeaderLine(c, n);
    LineOf(Header(c, n), rest, LINE);
    var s := Header(c, n) + "\n" + rest;
    hide Dec, Header, StrToL;
    assert s[1..|Header(c, n)| + 1] == Dec(n) + "\r\n";
    NumberRead(n, "\r\n");
  }

  lemma HeaderCut(c: char, n: nat, k: nat)
    requires n < LONG_LIMIT && c != '\n' && 0 < k <= |Header(c, n)|
    ensures var s := Header(c, n)[..k]; LineLength(s, LINE) == k < LINE && s[0] == c && '\n' !in s && StrToL(s[1..]) >= 0
  {
    HeaderLine(c, n);
    hide Dec, Header, StrToL;
    var s := Header(c, n)[..k];
    LastLine(s, LINE);
    NumberNotNegative(s[1..]);
  }

  lemma ArgRead(a: string, rest: string)
    requires |a| < LONG_LIMIT
    ensures ReadArg(Arg(a) + rest) == Got(a, rest)
  {
    var s := Arg(a) + rest;
    var h := Header('$', |a|);
    var tail := a + "\r\n" + rest;
    assert s == h + "\n" + tail;
    hide Dec, Header, StrToL, LineLength, Arg;
    HeaderRead('$', |a|, tail);
    var n := |h| + 1;
    assert s[0] == s[..1][0];
    assert s[n..n + |a|] == tail[..|a|] == a;
    assert s[n + |a| + 2..] == tail[|a| + 2..] == rest;
  }

  lemma ArgCut(a: string, k: nat)
    requires |a| < LONG_LIMIT && k < |Arg(a)|
    ensures ReadArg(Arg(a)[..k]) == Bad(CutShort)
  {
    var h := Header('$', |a|);
    var s := Arg(a)[..k];
    assert Arg(a) == h + "\n" + (a + "\r\n");
    hide Dec, Header, StrToL, LineLength, Arg;
    if k == 0 {
    } else if k <= |h| {
      assert s == h[..k];
      HeaderCut('$', |a|, k);
      assert s[1..k] == s[1..];
    } else {
      var tail := (a + "\r\n")[..k - |h| - 1];
      assert s == h + "\n" + tail;
      HeaderRead('$', |a|, tail);
    }
  }

  // ----- All arguments -----

  lemma {:induction false} ArgsRead(argv: Command, rest: string)
    requires forall a | a in argv :: |a| < LONG_LIMIT
    ensures ReadArgs(Args(argv) + rest, |argv|) == Got(argv, rest)
  {
    hide Arg, ReadArg;
    if argv == [] {
      assert Args(argv) + rest == rest;
    } else {
      var init, last := argv[..|argv| - 1], argv[|argv| - 1];
      assert argv == init + [last];
      assert Args(argv) + rest == Args(init) + (Arg(last) + rest);
      ArgsRead(init, Arg(last) + rest);
      ArgRead(last, rest);
    }
  }

  lemma {:induction false} ArgsCut(argv: Command, k: nat)
    requires (forall a | a in argv :: |a| < LONG_LIMIT) && k < |Args(argv)|
    ensures ReadArgs(Args(argv)[..k], |argv|) == Bad(CutShort)
  {
    hide Arg, ReadArg;
    var init, last := argv[..|argv| - 1], argv[|argv| - 1];
    var s := Args(argv)[..k];
    assert argv == init + [last];
    if k < |Args(init)| {
      assert s == Args(init)[..k];
      ArgsCut(init, k);
    } else {
      var part := Arg(last)[..k - |Args(init)|];
      assert s == Args(init) + part;
      ArgsRead(init, part);
      ArgCut(last, k - |Args(init)|);
    }
  }

  lemma {:induction false} NoArgs(argc: nat)
    requires argc > 0
    ensures ReadArgs("", argc) == Bad(CutShort)
  {
    if argc > 1 { NoArgs(argc - 1); }
  }

  // ----- One command -----

  // A command that the loader takes: it has arguments, and their number and sizes fit its integers.
  ghost predicate Storable(argv: Command) {
    1 <= |argv| < INT_LIMIT && forall a | a in argv :: |a| < LONG_LIMIT
  }

  lemma SmallCount(s: string, n: nat)
    requires StrToL(s) == n < INT_LIMIT
    ensures AToI(s) == n
  {
    hide StrToL;
  }

  lemma CommandRead(argv: Command, rest: string)
    requires Storable(argv)
    ensures ReadCommand(Encode(argv) + rest) == Got(argv, rest)
  {
    var s := Encode(argv) + rest;
    var tail := Args(argv) + rest;
    assert s == Header('*', |argv|) + "\n" + tail;
    hide Dec, Header, StrToL, AToI, LineLength, Encode, Args, ReadArgs;
    HeaderRead('*', |argv|, tail);
    assert s[0] == s[..1][0];
    SmallCount(s[1..|Header('*', |argv|)| + 1], |argv|);
    ArgsRead(argv, rest);
  }

  // A number cut short in a header still asks for at least one argument.
  lemma CountCut(n: nat, k: nat)
    requires 0 < n < INT_LIMIT && 1 < k <= |Header('*', n)|
    ensures var c := AToI(Header('*', n)[..k][1..]); c >= 1
  {
    HeaderLine('*', n);
    var h := Header('*', n);
    var s := h[..k][1..];
    hide Dec, Header, StrToL, AToI;
    assert s == h[1..][..k - 1];
    if k == |h| {
      assert s == Dec(n) + "\r";
      NumberRead(n, "\r");
      SmallCount(s, n);
    } else {
      assert s == Dec(n)[..k - 1];
      var m := DecPrefix(n, k - 1);
      assert Dec(m) + "" == Dec(m);
      NumberRead(m, "");
      SmallCount(s, m);
    }
  }

  lemma CommandCut(argv: Command, k: nat)
    requires Storable(argv) && 0 < k < |Encode(argv)|
    ensures ReadCommand(Encode(argv)[..k]) == Bad(CutShort)
  {
    var h := Header('*', |argv|);
    var s := Encode(argv)[..k];
    assert Encode(argv) == h + "\n" + Args(argv);
    HeaderLine('*', |argv|);
    hide Dec, Header, StrToL, LineLength, Encode, Args, ReadArgs, AToI;
    if k <= |h| {
      assert s == h[..k];
      CommandCutInHeader(argv, k);
    } else {
      CommandCutInArgs(argv, k - |h| - 1);
      assert s == h + "\n" + Args(argv)[..k - |h| - 1];
    }
  }

  lemma CommandCutInHeader(argv: Command, k: nat)
    requires Storable(argv) && 0 < k <= |Header('*', |argv|)|
    ensures ReadCommand(Header('*', |argv|)[..k]) == Bad(CutShort)
  {
    var h := Header('*', |argv|);
    var s := h[..k];
    HeaderLine('*', |argv|);
    hide Dec, Header, StrToL, LineLength, Args, ReadArgs, AToI;
    HeaderCut('*', |argv|, k);
    if k > 1 {
      CountCut(|argv|, k);
      assert s[k..] == "" && s[1] == h[1] && s[1..k] == s[1..];
      NoArgs(AToI(s[1..]));
    }
  }

  lemma CommandCutInArgs(argv: Command, k: nat)
    requires Storable(argv) && k < |Args(argv)|
    ensures ReadCommand(Header('*', |argv|) + "\n" + Args(argv)[..k]) == Bad(CutShort)
  {
    var tail := Args(argv)[..k];
    var s := Header('*', |argv|) + "\n" + tail;
    hide Dec, Header, StrToL, AToI, LineLength, Args, ReadArgs;
    HeaderRead('*', |argv|, tail);
    assert s[0] == s[..1][0];
    SmallCount(s[1..|Header('*', |argv|)| + 1], |argv|);
    ArgsCut(argv, k);
  }

  // ----- Loading a file -----

  // The commands run, what is left behind the last of them, and why loading stopped there.
  datatype Loaded = Loaded(executed: seq<Command>, rest: string, why: Why)

  function Load(s: string, known: string -> bool): (r: Loaded)
    ensures |r.rest| <= |s|
    decreases |s|
  {
    match ReadCommand(s)
    case Bad(why) => Loaded([], s, why)
    case Got(argv, rest) =>
      if !known(argv[0]) then Loaded([], s, UnknownCommand)
      else var r := Load(rest, known); Loaded([argv] + r.executed, r.rest, r.why)
  }

  datatype Result = EmptyFile | LoadedOk | Exited(why: Why)

  // What becomes of a load: an early end is forgiven if asked for, and the file is cut to what was run.
  function Outcome(file: string, r: Loaded, loadTruncated: bool, canTruncate: bool): Result {
    if file == "" then EmptyFile
    else if r.why == Nothing || (r.why == CutShort && loadTruncated && canTruncate) then LoadedOk
    else Exited(r.why)
  }

  method LoadAppendOnlyFile(file: string, known: string -> bool, loadTruncated: bool, canTruncate: bool)
    returns (result: Result, executed: seq<Command>, validUpTo: nat)
    ensures var r := Load(file, known);
      && result == Outcome(file, r, loadTruncated, canTruncate)
      && executed == r.executed
      && validUpTo == if loadTruncated then |file| - |r.rest| else 0
  {
    executed, validUpTo := [], 0;
    if file == "" { return EmptyFile, [], 0; }
    var s := file;
    var why;
    assert Load(file, known) == Resumed(executed, Load(s, known));
    while true
      invariant |s| <= |file|
      invariant Load(file, known) == Resumed(executed, Load(s, known))
      invariant validUpTo == if loadTruncated then |file| - |s| else 0
      decreases |s|
    {
      var argv, rest;
      why, argv, rest := ReadOne(s);
      if why != Nothing || argv == [] { break; }
      if !known(argv[0]) {
        why := UnknownCommand;
        break;
      }
      LoadOn(executed, s, known, argv, rest);
      executed := executed + [argv];
      s := rest;
      if loadTruncated { validUpTo := |file| - |s|; }
    }
    result := if why == Nothing || (why == CutShort && loadTruncated && canTruncate) then LoadedOk else Exited(why);
  }

  // One command, argument by argument; no arguments and no error stand for the end of the file.
  method ReadOne(s: string) returns (why: Why, argv: Command, rest: string)
    ensures match ReadCommand(s)
      case Got(v, r) => why == Nothing && argv == v && rest == r
      case Bad(w) => why == w && argv == []
  {
    hide StrToL, AToI;
    argv, rest := [], s;
    if s == "" { return Nothing, [], s; }
    var n := LineLength(s, LINE);
    if s[0] != '*' { return BadFormat, [], s; }
    if n == 1 || s[1] == '\0' {
      return if n == |s| && n < LINE && s[n - 1] != '\n' then CutShort else Unreadable, [], s;
    }
    var argc := AToI(s[1..n]);
    if argc < 1 { return BadFormat, [], s; }
    why, argv, rest := ReadAll(s[n..], argc);
    if why != Nothing { argv := []; }
  }

  method ReadAll(s: string, argc: nat) returns (why: Why, argv: Command, rest: string)
    ensures match ReadArgs(s, argc)
      case Got(v, r) => why == Nothing && argv == v && rest == r
      case Bad(w) => why == w && w != Nothing
  {
    hide ReadArg;
    argv, rest := [], s;
    var j := 0;
    while j < argc
      invariant 0 <= j <= argc && ReadArgs(s, j) == Got(argv, rest)
    {
      match ReadArg(rest)
      case Bad(w) =>
        BadStays(s, j + 1, argc);
        ArgNotEnd(rest);
        return w, argv, rest;
      case Got(a, r) =>
        argv, rest := argv + [a], r;
      j := j + 1;
    }
    why := Nothing;
  }

  lemma ArgNotEnd(s: string)
    ensures ReadArg(s).Bad? ==> ReadArg(s).why != Nothing
  {
  }

  lemma {:induction false} BadStays(s: string, j: nat, argc: nat)
    requires j <= argc && ReadArgs(s, j).Bad?
    ensures ReadArgs(s, argc) == ReadArgs(s, j)
  {
    hide ReadArg;
    if j < argc { BadStays(s, j, argc - 1); }
  }

  ghost function Resumed(executed: seq<Command>, r: Loaded): Loaded { r.(executed := executed + r.executed) }

  lemma LoadOn(executed: seq<Command>, s: string, known: string -> bool, argv: Command, rest: string)
    requires ReadCommand(s) == Got(argv, rest) && known(argv[0])
    ensures Resumed(executed, Load(s, known)) == Resumed(executed + [argv], Load(rest, known))
  {
    hide ReadCommand;
    var r := Load(rest, known);
    assert executed + ([argv] + r.executed) == (executed + [argv]) + r.executed;
  }

  // ----- Round trip and recovery -----

  ghost predicate AllStorable(cmds: seq<Command>, known: string -> bool) {
    forall c | c in cmds :: Storable(c) && known(c[0])
  }

  // How many of the commands lie wholly in the first n bytes of their encoding.
  function Contained(cmds: seq<Command>, n: nat): (k: nat)
    ensures k <= |cmds|
  {
    if cmds == [] || n < |Encode(cmds[0])| then 0 else 1 + Contained(cmds[1..], n - |Encode(cmds[0])|)
  }

  // That is the greatest number whose encodings fit.
  lemma {:induction false} ContainedIsMost(cmds: seq<Command>, n: nat)
    requires n <= |EncodeAll(cmds)|
    ensures var k := Contained(cmds, n);
      |EncodeAll(cmds[..k])| <= n && (k < |cmds| ==> n < |EncodeAll(cmds[..k + 1])|)
  {
    hide Encode;
    var k := Contained(cmds, n);
    if cmds != [] && n >= |Encode(cmds[0])| {
      ContainedIsMost(cmds[1..], n - |Encode(cmds[0])|);
      assert cmds[..k][1..] == cmds[1..][..k - 1];
      if k < |cmds| { assert cmds[..k + 1][1..] == cmds[1..][..k]; }
    } else if cmds != [] {
      assert cmds[..1][1..] == [];
      assert EncodeAll(cmds[..1]) == Encode(cmds[0]) + EncodeAll(cmds[..1][1..]);
    }
  }

  /** However a file of commands is cut, loading it runs exactly the commands that lie
      wholly before the cut and stops at the end of the last of them; the cut is noticed
      unless it falls between two commands. */
  lemma {:induction false} PrefixRecovery(cmds: seq<Command>, n: nat, known: string -> bool)
    requires AllStorable(cmds, known) && n <= |EncodeAll(cmds)|
    ensures var k := Contained(cmds, n); var r := Load(EncodeAll(cmds)[..n], known);
      && r.executed == cmds[..k]
      && n - |r.rest| == |EncodeAll(cmds[..k])|
      && r.why == if n == |EncodeAll(cmds[..k])| then Nothing else CutShort
  {
    hide Encode, ReadCommand, Storable;
    var s := EncodeAll(cmds)[..n];
    if n == 0 {
      EmptyRead(s);
      if cmds != [] { EncodeNotEmpty(cmds[0]); }
    } else if n < |Encode(cmds[0])| {
      assert s == Encode(cmds[0])[..n];
      CommandCut(cmds[0], n);
    } else {
      var m := n - |Encode(cmds[0])|;
      assert s == Encode(cmds[0]) + EncodeAll(cmds[1..])[..m];
      CommandRead(cmds[0], EncodeAll(cmds[1..])[..m]);
      PrefixRecovery(cmds[1..], m, known);
      var k := Contained(cmds, n);
      assert cmds[..k][1..] == cmds[1..][..k - 1];
      assert cmds[..k] == [cmds[0]] + cmds[1..][..k - 1];
    }
  }

  lemma EmptyRead(s: string)
    requires s == ""
    ensures ReadCommand(s) == Bad(Nothing)
  {
  }

  lemma EncodeNotEmpty(argv: Command)
    ensures |Encode(argv)| > 0
  {
  }

  /** Loading the encoding of any commands runs those commands. */
  lemma RoundTrip(cmds: seq<Command>, known: string -> bool)
    requires AllStorable(cmds, known)
    ensures Load(EncodeAll(cmds), known) == Loaded(cmds, "", Nothing)
  {
    var n := |EncodeAll(cmds)|;
    hide Load, EncodeAll;
    PrefixRecovery(cmds, n, known);
    ContainedAll(cmds);
    assert EncodeAll(cmds)[..n] == EncodeAll(cmds);
    assert cmds[..|cmds|] == cmds;
  }

  lemma {:induction false} ContainedAll(cmds: seq<Command>)
    ensures Contained(cmds, |EncodeAll(cmds)|) == |cmds|
  {
    if cmds != [] { ContainedAll(cmds[1..]); }
  }

  // With truncated files allowed, every beginning of a file loads, and is cut to its whole commands.
  lemma TruncatedLoads(cmds: seq<Command>, n: nat, known: string -> bool)
    requires AllStorable(cmds, known) && 0 < n <= |EncodeAll(cmds)|
    ensures var file := EncodeAll(cmds)[..n]; var r := Load(file, known);
      Outcome(file, r, true, true) == LoadedOk && file[..|file| - |r.rest|] == EncodeAll(cmds[..Contained(cmds, n)])
  {
    hide Load, EncodeAll, Contained;
    PrefixRecovery(cmds, n, known);
    EncodePrefix(cmds, Contained(cmds, n));
    ContainedIsMost(cmds, n);
  }

  lemma {:induction false} EncodePrefix(cmds: seq<Command>, k: nat)
    requires k <= |cmds|
    ensures EncodeAll(cmds[..k]) <= EncodeAll(cmds)
  {
    if k > 0 {
      EncodePrefix(cmds[1..], k - 1);
      assert cmds[..k][1..] == cmds[1..][..k - 1];
    }
  }

  // ----- Any file at all -----

  lemma {:induction false} ArgsLeaveSuffix(s: string, argc: nat)
    ensures ReadArgs(s, argc).Got? ==> var rest := ReadArgs(s, argc).rest; |rest| <= |s| && rest == s[|s| - |rest|..]
  {
    hide ReadArg;
    if argc > 0 {
      ArgsLeaveSuffix(s, argc - 1);
      if ReadArgs(s, argc - 1).Got? { ArgLeavesSuffix(ReadArgs(s, argc - 1).rest); }
    }
  }

  lemma ArgLeavesSuffix(s: string)
    ensures ReadArg(s).Got? ==> var rest := ReadArg(s).rest; |rest| <= |s| && rest == s[|s| - |rest|..]
  {
    hide StrToL, LineLength;
  }

  lemma CommandLeavesSuffix(s: string)
    ensures ReadCommand(s).Got? ==> var rest := ReadCommand(s).rest; |rest| < |s| && rest == s[|s| - |rest|..]
    ensures ReadCommand(s) == Bad(Nothing) <==> s == ""
  {
    hide StrToL, AToI, ReadArgs;
    if s != "" {
      var n := LineLength(s, LINE);
      var argc := AToI(s[1..n]);
      if argc >= 1 {
        ArgsLeaveSuffix(s[n..], argc);
        ArgsNotEnd(s[n..], argc);
      }
    }
  }

  lemma {:induction false} ArgsNotEnd(s: string, argc: nat)
    ensures ReadArgs(s, argc) != Bad(Nothing)
  {
    hide ReadArg;
    if argc > 0 {
      ArgsNotEnd(s, argc - 1);
      if ReadArgs(s, argc - 1).Got? { ArgNotEnd(ReadArgs(s, argc - 1).rest); }
    }
  }

  /** Whatever a file holds, what is left unread is its end, and loading ends without an error
      exactly if nothing is left. */
  lemma {:induction false} LoadLeavesSuffix(s: string, known: string -> bool)
    ensures var r := Load(s, known); r.rest == s[|s| - |r.rest|..] && (r.why == Nothing <==> r.rest == "")
    decreases |s|
  {
    hide ReadCommand;
    CommandLeavesSuffix(s);
    match ReadCommand(s)
    case Bad(_) =>
    case Got(argv, rest) => LoadLeavesSuffix(rest, known);
  }

  // With truncated files not allowed a cut inside a command makes the server exit.
  lemma CutFilesExit(cmds: seq<Command>, n: nat, known: string -> bool, canTruncate: bool)
    requires AllStorable(cmds, known) && 0 < n <= |EncodeAll(cmds)|
    ensures var file := EncodeAll(cmds)[..n]; var r := Load(file, known);
      Outcome(file, r, false, canTruncate) ==
      if n == |EncodeAll(cmds[..Contained(cmds, n)])| then LoadedOk else Exited(CutShort)
  {
    hide Load, EncodeAll, Contained;
    PrefixRecovery(cmds, n, known);
  }

  // ----- The edges of the reader -----

  // A line that does not end within 127 bytes is cut there.
  lemma LongLine(s: string)
    requires |s| >= 127 && '\n' !in s[..127]
    ensures LineLength(s, LINE) == 127
  {
    LineCut(s, 127);
  }

  lemma {:induction false} LineCut(s: string, n: nat)
    requires |s| >= n && '\n' !in s[..n]
    ensures LineLength(s, n) == n
  {
    if n > 0 {
      assert s[0] in s[..n] && s[1..][..n - 1] == s[..n][1..];
      LineCut(s[1..], n - 1);
    }
  }

  // A number in a file is read as a 64-bit one that saturates, a count as its low 32 bits.
  lemma NumberLimits(s: string)
    ensures -0x8000_0000_0000_0000 <= StrToL(s) < 0x8000_0000_0000_0000
    ensures -0x8000_0000 <= AToI(s) < 0x8000_0000 && (AToI(s) - StrToL(s)) % 0x1_0000_0000 == 0
  {
    hide SkipSpace, Digits;
    var v := StrToL(s);
    assert v == (v / 0x1_0000_0000) * 0x1_0000_0000 + v % 0x1_0000_0000;
  }

  /** When any file loads: exactly if it is not empty and either nothing of it is left unread, or it ends early
      and early ends are allowed and can be cut off. */
  lemma LoadSucceeds(file: string, known: string -> bool, loadTruncated: bool, canTruncate: bool)
    ensures var r := Load(file, known);
      Outcome(file, r, loadTruncated, canTruncate) == LoadedOk <==>
      file != "" && (r.rest == "" || (r.why == CutShort && loadTruncated && canTruncate))
  {
    hide Load;
    LoadLeavesSuffix(file, known);
  }

  // What does not start like a command is a format error, and so is a command with no arguments; nothing of it runs.
  lemma NotACommand(s: string, known: string -> bool)
    requires s != "" && s[0] != '*'
    ensures Load(s, known) == Loaded([], s, BadFormat)
  {
  }

  lemma EmptyCommand(rest: string, known: string -> bool)
    ensures Load(Encode([]) + rest, known) == Loaded([], Encode([]) + rest, BadFormat)
  {
    var s := Encode([]) + rest;
    assert s == Header('*', 0) + "\n" + rest;
    hide Dec, Header, StrToL, AToI, LineLength, Encode, ReadArgs;
    HeaderRead('*', 0, rest);
    assert s[0] == s[..1][0];
    SmallCount(s[1..|Header('*', 0)| + 1], 0);
  }
}
