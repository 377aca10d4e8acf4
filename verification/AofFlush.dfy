/** The append-only file and the buffer in front of it (redis-3.0.6/src/aof.c):
    feeds append to the buffer, flushes write it out.  A write may fail, write
    less than asked, and its removal may fail too; each flush event carries the
    results of its system calls.  A byte is a char. */
module AofFlush {

  datatype Policy = No | Everysec | Always

  // The file on disk and the server's fields about it.
  datatype Log = Log(
    file: string, buf: string, currentSize: nat,
    writeOk: bool, postponedStart: int, delayed: nat, exited: bool)

  // What write and ftruncate returned: the bytes written or -1, and whether the file could be cut back.
  datatype Io = Io(nwritten: int, cutBack: bool)

  datatype Event = Feed(data: string) | Flush(force: bool, syncing: bool, now: int, io: Io)

  // A file of any contents, opened for appending.
  function Opened(file: string): Log { Log(file, "", |file|, true, 0, 0, false) }

  // ----- What a flush does -----

  // The flush waits for a background fsync, for two seconds at most.
  predicate Postponed(p: Policy, l: Log, force: bool, syncing: bool, now: int) {
    p == Everysec && !force && syncing && (l.postponedStart == 0 || now - l.postponedStart < 2)
  }

  // The file after the write and, if it was short, the attempt to cut it back.
  function FileAfter(l: Log, io: Io): string
    requires -1 <= io.nwritten <= |l.buf| && l.currentSize <= |l.file|
  {
    if io.nwritten == -1 then l.file
    else
      var written := l.file + l.buf[..io.nwritten];
      if io.nwritten != |l.buf| && io.cutBack then written[..l.currentSize] else written
  }

  function Written(p: Policy, l: Log, io: Io): Log
    requires -1 <= io.nwritten <= |l.buf| && l.currentSize <= |l.file|
  {
    var after := l.(file := FileAfter(l, io), postponedStart := 0);
    if io.nwritten == |l.buf| then after.(buf := "", currentSize := l.currentSize + |l.buf|, writeOk := true)
    else if p == Always then after.(exited := true)
    else if io.nwritten > 0 && !io.cutBack then
      after.(buf := l.buf[io.nwritten..], currentSize := l.currentSize + io.nwritten, writeOk := false)
    else after.(writeOk := false)
  }

  function Flushed(p: Policy, l: Log, force: bool, syncing: bool, now: int, io: Io): Log
    requires -1 <= io.nwritten <= |l.buf| && l.currentSize <= |l.file|
  {
    if l.buf == "" then l
    else if Postponed(p, l, force, syncing, now) then
      if l.postponedStart == 0 then l.(postponedStart := now) else l
    else
      Written(p, if p == Everysec && !force && syncing then l.(delayed := l.delayed + 1) else l, io)
  }

  // ----- Runs -----

  ghost predicate Enabled(l: Log, e: Event) {
    !l.exited && l.currentSize <= |l.file| && (e.Flush? ==> -1 <= e.io.nwritten <= |l.buf|)
  }

  ghost function Step(p: Policy, l: Log, e: Event): Log
    requires Enabled(l, e)
  {
    match e
    case Feed(data) => l.(buf := l.buf + data)
    case Flush(force, syncing, now, io) => Flushed(p, l, force, syncing, now, io)
  }

  ghost predicate Possible(p: Policy, l: Log, run: seq<Event>)
    decreases |run|, 0
  {
    run == [] || (Possible(p, l, run[..|run| - 1]) && Enabled(After(p, l, run[..|run| - 1]), run[|run| - 1]))
  }

  ghost function After(p: Policy, l: Log, run: seq<Event>): Log
    requires Possible(p, l, run)
    decreases |run|, 1
  {
    if run == [] then l else Step(p, After(p, l, run[..|run| - 1]), run[|run| - 1])
  }

  // Everything that was fed.
  ghost function Fed(run: seq<Event>): string {
    if run == [] then ""
    else Fed(run[..|run| - 1]) + if run[|run| - 1].Feed? then run[|run| - 1].data else ""
  }

  // The file and the buffer are the stream; a server that exited leaves a beginning of it in the file.
  ghost predicate Conserves(p: Policy, l: Log, stream: string) {
    if l.exited then p == Always && l.file <= stream
    else l.file + l.buf == stream && l.currentSize == |l.file|
  }

  lemma WrittenConserves(p: Policy, l: Log, io: Io, stream: string)
    requires -1 <= io.nwritten <= |l.buf| && !l.exited && Conserves(p, l, stream)
    ensures Conserves(p, Written(p, l, io), stream)
  {
    if io.nwritten >= 0 {
      assert l.buf == l.buf[..io.nwritten] + l.buf[io.nwritten..];
      assert (l.file + l.buf[..io.nwritten]) + l.buf[io.nwritten..] == stream;
      assert (l.file + l.buf[..io.nwritten])[..l.currentSize] == l.file;
    }
  }

  lemma StepConserves(p: Policy, l: Log, e: Event, stream: string)
    requires Enabled(l, e) && Conserves(p, l, stream)
    ensures Conserves(p, Step(p, l, e), stream + if e.Feed? then e.data else "")
  {
    hide Written;
    match e
    case Feed(data) => assert l.file + (l.buf + data) == (l.file + l.buf) + data;
    case Flush(force, syncing, now, io) =>
      assert stream + "" == stream;
      WrittenConserves(p, l, io, stream);
      WrittenConserves(p, l.(delayed := l.delayed + 1), io, stream);
  }

  /** Over every run of feeds and flushes, whatever the file held before and the system
      calls return, the file and the buffer hold the old contents and exactly what was
      fed, in order, and the recorded size is the file's.  A server that had to give up
      left a prefix of that. */
  lemma {:induction false} RunConserves(p: Policy, file: string, run: seq<Event>)
    requires Possible(p, Opened(file), run)
    ensures Conserves(p, After(p, Opened(file), run), file + Fed(run))
  {
    hide Step, Enabled;
    if run == [] {
    } else {
      var before, last := run[..|run| - 1], run[|run| - 1];
      RunConserves(p, file, before);
      StepConserves(p, After(p, Opened(file), before), last, file + Fed(before));
      var data := if last.Feed? then last.data else "";
      assert (file + Fed(before)) + data == file + (Fed(before) + data);
    }
  }

  // A forced flush whose write is complete leaves the whole stream in the file.
  lemma FlushedOut(p: Policy, file: string, run: seq<Event>, syncing: bool, now: int, cutBack: bool)
    requires Possible(p, Opened(file), run) && !After(p, Opened(file), run).exited
    ensures var l := After(p, Opened(file), run);
      l.currentSize <= |l.file| && Flushed(p, l, true, syncing, now, Io(|l.buf|, cutBack)).file == file + Fed(run)
  {
    hide Possible, After;
    RunConserves(p, file, run);
    var l := After(p, Opened(file), run);
    assert l.buf[..|l.buf|] == l.buf;
  }

  // ----- When a flush writes -----

  /** Exactly when a flush whose write is complete leaves the whole stream in the file: when it is forced, or
      the policy is not Everysec, or no fsync runs, or it has been postponed for two seconds.  Otherwise the
      file and the buffer stay, and the time of the first refusal is remembered. */
  lemma FlushWrites(p: Policy, file: string, run: seq<Event>, force: bool, syncing: bool, now: int, cutBack: bool)
    requires Possible(p, Opened(file), run) && !After(p, Opened(file), run).exited && After(p, Opened(file), run).buf != ""
    ensures After(p, Opened(file), run).currentSize <= |After(p, Opened(file), run).file|
    ensures var l := After(p, Opened(file), run);
      var t := Flushed(p, l, force, syncing, now, Io(|l.buf|, cutBack));
      if force || p != Everysec || !syncing || (l.postponedStart != 0 && now - l.postponedStart >= 2)
      then t.file == file + Fed(run) && t.buf == "" && t.postponedStart == 0 && t.writeOk &&
           t.delayed == l.delayed + if p == Everysec && !force && syncing then 1 else 0
      else t.file == l.file && t.buf == l.buf && t.postponedStart == if l.postponedStart == 0 then now else l.postponedStart
  {
    hide Possible, After;
    RunConserves(p, file, run);
    var l := After(p, Opened(file), run);
    assert l.buf[..|l.buf|] == l.buf;
  }

  /** What an incomplete write does to the server: it exits exactly under the policy Always; otherwise it stops
      taking writes, and waits for a complete one. */
  lemma IncompleteWrite(p: Policy, l: Log, io: Io)
    requires -1 <= io.nwritten <= |l.buf| && l.currentSize <= |l.file| && !l.exited
    ensures var t := Written(p, l, io);
      && (t.exited <==> p == Always && io.nwritten != |l.buf|)
      && (!t.exited ==> (t.writeOk <==> io.nwritten == |l.buf|))
  {
  }

  // The whole buffer is written by every flush that writes.
  ghost predicate Complete(l: Log, e: Event) { e.Flush? ==> e.io.nwritten == |l.buf| }

  ghost predicate CompleteRun(p: Policy, l: Log, run: seq<Event>)
    requires Possible(p, l, run)
  {
    run == [] || (CompleteRun(p, l, run[..|run| - 1]) && Complete(After(p, l, run[..|run| - 1]), run[|run| - 1]))
  }

  // The stream has reached the file, or a flush has been postponed since `start` at the latest.
  ghost predicate Underway(l: Log, stream: string, start: int) {
    !l.exited && l.currentSize == |l.file| &&
    (stream <= l.file || (l.postponedStart != 0 && l.postponedStart <= start && stream <= l.file + l.buf))
  }

  lemma StepUnderway(p: Policy, l: Log, e: Event, stream: string, start: int)
    requires Underway(l, stream, start) && Enabled(l, e) && Complete(l, e)
    ensures Underway(Step(p, l, e), stream, start)
  {
    if e.Feed? {
      assert l.file + (l.buf + e.data) == (l.file + l.buf) + e.data;
    } else {
      assert l.buf[..|l.buf|] == l.buf;
    }
  }

  lemma {:induction false} RunUnderway(p: Policy, l: Log, run: seq<Event>, stream: string, start: int)
    requires Underway(l, stream, start) && Possible(p, l, run) && CompleteRun(p, l, run)
    ensures Underway(After(p, l, run), stream, start)
  {
    hide Underway, Step, Enabled, Complete;
    if run != [] {
      RunUnderway(p, l, run[..|run| - 1], stream, start);
      StepUnderway(p, After(p, l, run[..|run| - 1]), run[|run| - 1], stream, start);
    }
  }

  // A flush that is refused was first refused by some flush of the run.
  lemma {:induction false} PostponedSince(p: Policy, file: string, run: seq<Event>, now: int)
    requires Possible(p, Opened(file), run) && now >= 0 && forall e | e in run && e.Flush? :: e.now <= now
    ensures After(p, Opened(file), run).postponedStart <= now
  {
    hide Written, Enabled;
    if run != [] {
      assert run[|run| - 1] in run;
      PostponedSince(p, file, run[..|run| - 1], now);
      WrittenStart(p, After(p, Opened(file), run[..|run| - 1]), run[|run| - 1]);
    }
  }

  lemma WrittenStart(p: Policy, l: Log, e: Event)
    requires Enabled(l, e)
    ensures Step(p, l, e).postponedStart in {0, l.postponedStart, if e.Flush? then e.now else 0}
  {
  }

  /** With complete writes nothing fed stays out of the file over two flushes that are two seconds apart,
      forced or not, whatever fsync runs, and whatever happens between them. */
  lemma TwoSeconds(p: Policy, file: string, run: seq<Event>, first: Event, mid: seq<Event>, second: Event)
    requires Possible(p, Opened(file), run) && first.Flush? && second.Flush?
    requires var l := After(p, Opened(file), run); Enabled(l, first) && Complete(l, first)
    requires 0 < first.now && first.now + 2 <= second.now && forall e | e in run && e.Flush? :: e.now <= first.now
    requires var l := Step(p, After(p, Opened(file), run), first);
      Possible(p, l, mid) && CompleteRun(p, l, mid) && Enabled(After(p, l, mid), second) && Complete(After(p, l, mid), second)
    ensures var l := Step(p, After(p, Opened(file), run), first);
      file + Fed(run) <= Step(p, After(p, l, mid), second).file
  {
    var l0 := After(p, Opened(file), run);
    PostponedSince(p, file, run, first.now);
    RunConserves(p, file, run);
    hide Possible, After, CompleteRun, Fed;
    var stream := file + Fed(run);
    FirstUnderway(p, l0, first, stream);
    var l1 := Step(p, l0, first);
    RunUnderway(p, l1, mid, stream, first.now);
    SecondWrites(p, After(p, l1, mid), second, stream, first.now);
  }

  lemma FirstUnderway(p: Policy, l: Log, e: Event, stream: string)
    requires Enabled(l, e) && Complete(l, e) && e.Flush? && Conserves(p, l, stream) && 0 < e.now && l.postponedStart <= e.now
    ensures Underway(Step(p, l, e), stream, e.now)
  {
    assert l.buf[..|l.buf|] == l.buf;
    assert l.buf == "" ==> l.file + l.buf == l.file;
  }

  lemma SecondWrites(p: Policy, l: Log, e: Event, stream: string, start: int)
    requires Underway(l, stream, start) && Enabled(l, e) && Complete(l, e) && e.Flush? && start + 2 <= e.now
    ensures stream <= Step(p, l, e).file
  {
    assert l.buf[..|l.buf|] == l.buf;
    assert l.buf == "" ==> l.file + l.buf == l.file;
  }

  // ----- The server's code -----

  class AppendOnlyFile {
    const policy: Policy
    var file: string
    var buf: string
    var currentSize: nat
    var writeOk: bool
    var postponedStart: int
    var delayed: nat
    var exited: bool

    constructor (p: Policy, contents: string)
      ensures policy == p && Contents() == Opened(contents) && Holds(contents)
    {
      policy := p;
      file, buf, currentSize, writeOk, postponedStart, delayed, exited := contents, "", |contents|, true, 0, 0, false;
    }

    ghost function Contents(): Log
      reads this
    {
      Log(file, buf, currentSize, writeOk, postponedStart, delayed, exited)
    }

    // The file and the buffer hold this stream.
    ghost predicate Holds(stream: string)
      reads this
    {
      Conserves(policy, Contents(), stream)
    }

    // What is fed comes at the end of the stream; it is not in the file yet.
    method FeedBuffer(data: string, ghost stream: string)
      requires Holds(stream) && !exited
      modifies `buf
      ensures Holds(stream + data) && Contents() == Step(policy, old(Contents()), Feed(data))
    {
      StepConserves(policy, Contents(), Feed(data), stream);
      buf := buf + data;
    }

    // A flush, whatever its system calls return, keeps the stream.
    method FlushAppendOnlyFile(force: bool, syncing: bool, now: int, io: Io, ghost stream: string)
      requires -1 <= io.nwritten <= |buf| && Holds(stream) && !exited
      modifies this
      ensures Contents() == Flushed(policy, old(Contents()), force, syncing, now, io) && Holds(stream)
    {
      StepConserves(policy, Contents(), Flush(force, syncing, now, io), stream);
      assert stream + "" == stream;
      Flushing(force, syncing, now, io);
    }

    method Flushing(force: bool, syncing: bool, now: int, io: Io)
      requires -1 <= io.nwritten <= |buf| && currentSize <= |file|
      modifies this
      ensures Contents() == Flushed(policy, old(Contents()), force, syncing, now, io)
    {
      if |buf| == 0 { return; }
      if policy == Everysec && !force && syncing {
        if postponedStart == 0 {
          postponedStart := now;
          return;
        } else if now - postponedStart < 2 {
          return;
        }
        delayed := delayed + 1;
      }
      var nwritten := io.nwritten;
      if nwritten != -1 { file := file + buf[..nwritten]; }
      postponedStart := 0;
      if nwritten != |buf| {
        if nwritten != -1 && io.cutBack {
          file := file[..currentSize];
          nwritten := -1;
        }
        if policy == Always {
          exited := true;
        } else {
          writeOk := false;
          if nwritten > 0 {
            currentSize := currentSize + nwritten;
            buf := buf[nwritten..];
          }
        }
        return;
      }
      writeOk := true;
      currentSize := currentSize + nwritten;
      buf := "";
    }
  }
}
