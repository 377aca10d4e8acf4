/** The buffer of differences kept during a background rewrite
    (redis-3.0.6/src/aof.c): a list of fixed-size blocks, filled at the end and
    sent to the child from the front.  A byte is a char. */
module AofRewriteBuffer {

  const BLOCK_SIZE: nat := 1024 * 1024 * 10

  function Min(a: nat, b: nat): nat { if a < b then a else b }

  class Block {
    const buf: array<char>
    var used: nat
    var free: nat

    constructor ()
      ensures Valid() && Data() == "" && free == BLOCK_SIZE && fresh(buf)
    {
      buf := new char[BLOCK_SIZE](_ => '\0');
      used, free := 0, BLOCK_SIZE;
    }

    // Space sent is not given back, so the two counters need not add up to the size.
    ghost predicate Valid()
      reads this
    {
      buf.Length == BLOCK_SIZE && used + free <= BLOCK_SIZE
    }

    ghost function Data(): string
      requires Valid()
      reads this, buf
    {
      buf[..used]
    }

    method Fill(s: string)
      requires Valid() && |s| <= free
      modifies this, buf
      ensures Valid() && Data() == old(Data()) + s && free == old(free) - |s|
    {
      forall i | 0 <= i < |s| { buf[used + i] := s[i]; }
      used, free := used + |s|, free - |s|;
      assert buf[..used] == old(buf[..used]) + s;
    }

    method Drop(n: nat)
      requires Valid() && n <= used
      modifies this`used, buf
      ensures Valid() && Data() == old(Data())[n..]
    {
      forall i | 0 <= i < used - n { buf[i] := buf[n + i]; }
      used := used - n;
      assert buf[..used] == old(buf[..used])[n..];
    }
  }

  // The pieces one after the other.
  function Flat(pieces: seq<string>): string {
    if pieces == [] then "" else Flat(pieces[..|pieces| - 1]) + pieces[|pieces| - 1]
  }

  lemma {:induction false} FlatConcat(a: seq<string>, b: seq<string>)
    ensures Flat(a + b) == Flat(a) + Flat(b)
  {
    if b == [] {
      assert a + b == a;
    } else {
      assert (a + b)[..|a + b| - 1] == a + b[..|b| - 1];
      FlatConcat(a, b[..|b| - 1]);
    }
  }

  lemma FlatOne(s: string)
    ensures Flat([s]) == s
  {
    assert [s][..0] == [];
    assert Flat([s]) == Flat([s][..0]) + s;
  }

  // The first piece loses what is dropped of it, or goes.
  lemma FlatFirst(pieces: seq<string>, n: nat)
    requires pieces != [] && n <= |pieces[0]|
    ensures Flat(pieces) == pieces[0][..n] + Flat([pieces[0][n..]] + pieces[1..])
    ensures Flat(pieces) == pieces[0] + Flat(pieces[1..])
  {
    var rest := pieces[1..];
    assert pieces == [pieces[0]] + rest;
    FlatConcat([pieces[0]], rest);
    FlatConcat([pieces[0][n..]], rest);
    FlatOne(pieces[0]);
    FlatOne(pieces[0][n..]);
    assert pieces[0] == pieces[0][..n] + pieces[0][n..];
  }

  lemma FlatLast(pieces: seq<string>, s: string)
    requires pieces != []
    ensures Flat(pieces[|pieces| - 1 := pieces[|pieces| - 1] + s]) == Flat(pieces) + s
  {
    var after := pieces[|pieces| - 1 := pieces[|pieces| - 1] + s];
    assert after[..|after| - 1] == pieces[..|pieces| - 1];
  }

  class RewriteBuffer {
    var blocks: seq<Block>
    var stopSending: bool

    constructor ()
      ensures Valid() && Pending() == "" && !stopSending && blocks == []
    {
      blocks, stopSending := [], false;
    }

    ghost predicate Valid()
      reads this, blocks
    {
      && (forall i | 0 <= i < |blocks| :: blocks[i].Valid())
      && (forall i, j | 0 <= i < j < |blocks| :: blocks[i] != blocks[j] && blocks[i].buf != blocks[j].buf)
    }

    ghost function Pieces(): seq<string>
      requires Valid()
      reads this, blocks, set b | b in blocks :: b.buf
    {
      seq(|blocks|, i requires 0 <= i < |blocks| && Valid() reads this, blocks, set b | b in blocks :: b.buf => blocks[i].Data())
    }

    // The differences not sent yet.
    ghost function Pending(): string
      requires Valid()
      reads this, blocks, set b | b in blocks :: b.buf
    {
      Flat(Pieces())
    }

    method FillLast(s: string)
      requires Valid() && blocks != [] && |s| <= blocks[|blocks| - 1].free
      modifies blocks[|blocks| - 1], blocks[|blocks| - 1].buf
      ensures Valid() && Pending() == old(Pending()) + s
      ensures blocks[|blocks| - 1].free == old(blocks[|blocks| - 1].free) - |s|
    {
      hide Flat;
      ghost var was := Pieces();
      var last := blocks[|blocks| - 1];
      last.Fill(s);
      assert Pieces() == was[|was| - 1 := was[|was| - 1] + s];
      FlatLast(was, s);
    }

    method AddBlock()
      requires Valid()
      modifies this`blocks
      ensures Valid() && Pending() == old(Pending())
      ensures |blocks| == |old(blocks)| + 1 && blocks[..|blocks| - 1] == old(blocks)
      ensures var b := blocks[|blocks| - 1]; fresh(b) && fresh(b.buf) && b.free == BLOCK_SIZE
    {
      hide Flat;
      ghost var was := Pieces();
      var block := new Block();
      blocks := blocks + [block];
      assert Pieces() == was + [""];
      FlatConcat(was, [""]);
      FlatOne("");
    }

    // Room in the last block.
    ghost function Room(): nat
      reads this, blocks
    {
      if blocks == [] then 0 else blocks[|blocks| - 1].free
    }

    // As much as fits goes to the last block; if something is left, a new one is added.
    method AppendSome(s: string) returns (n: nat)
      requires Valid() && s != ""
      modifies this`blocks, blocks, set b | b in blocks :: b.buf
      ensures Valid() && n == Min(old(Room()), |s|) && Pending() == old(Pending()) + s[..n]
      ensures n < |s| ==> Room() == BLOCK_SIZE
      ensures old(blocks) <= blocks
      ensures forall i | |old(blocks)| <= i < |blocks| :: fresh(blocks[i]) && fresh(blocks[i].buf)
    {
      hide Valid, Pending;
      n := 0;
      assert s[..0] == "";
      if |blocks| > 0 {
        var last := blocks[|blocks| - 1];
        assert last in blocks;
        n := Min(last.free, |s|);
        FillLast(s[..n]);
      }
      if n < |s| { AddBlock(); }
    }

    method Append(s: string)
      requires Valid()
      modifies this`blocks, blocks, set b | b in blocks :: b.buf
      ensures Valid() && Pending() == old(Pending()) + s && old(blocks) <= blocks
      ensures forall i | |old(blocks)| <= i < |blocks| :: fresh(blocks[i]) && fresh(blocks[i].buf)
    {
      hide Valid, Pending;
      var done := 0;
      assert s[..0] == "";
      while done < |s|
        invariant 0 <= done <= |s| && Valid() && old(blocks) <= blocks
        invariant forall i | |old(blocks)| <= i < |blocks| :: fresh(blocks[i]) && fresh(blocks[i].buf)
        invariant Pending() == old(Pending()) + s[..done]
        decreases |s| - done, if Room() > 0 then 0 else 1
      {
        var n := AppendSome(s[done..]);
        assert s[..done] + s[done..][..n] == s[..done + n];
        done := done + n;
      }
      assert s[..done] == s;
    }

    // The first block is cut by what was written, and removed when nothing is left of it.
    method DropFirst(n: nat)
      requires Valid() && blocks != [] && n <= blocks[0].used
      modifies this`blocks, blocks[0], blocks[0].buf
      ensures Valid() && old(Pending()) == old(blocks[0].Data())[..n] + Pending()
      ensures blocks == if n == old(blocks[0].used) then old(blocks)[1..] else old(blocks)
    {
      hide Flat;
      ghost var was := Pieces();
      FlatFirst(was, n);
      var first := blocks[0];
      first.Drop(n);
      if first.used == 0 {
        blocks := blocks[1..];
        assert Pieces() == was[1..];
        assert was[0][..n] == was[0];
      } else {
        assert Pieces() == [was[0][n..]] + was[1..];
      }
    }

    // Blocks are written to the pipe to the child until sending is stopped, nothing is left, or the pipe takes
    // no more.  Call number i of write takes at most accepts[i] bytes; 0 stands for an error or a full pipe.
    method WriteDiffData(accepts: seq<nat>) returns (sent: string, calls: nat)
      requires Valid()
      modifies this`blocks, blocks, set b | b in blocks :: b.buf
      ensures Valid() && old(Pending()) == sent + Pending()
      ensures stopSending ==> sent == "" && blocks == old(blocks)
      ensures calls <= |accepts| && |sent| >= calls && forall i | 0 <= i < calls :: accepts[i] > 0
      ensures !stopSending ==> Pending() == "" || calls == |accepts| || accepts[calls] == 0
      ensures forall b | b in blocks :: b in old(blocks)
    {
      hide Valid, Pending;
      sent, calls := "", 0;
      assert old(Pending()) == sent + Pending();
      while !stopSending && |blocks| > 0
        invariant 0 <= calls <= |accepts| && Valid() && old(Pending()) == sent + Pending()
        invariant stopSending ==> sent == "" && blocks == old(blocks)
        invariant |sent| >= calls && forall i | 0 <= i < calls :: accepts[i] > 0
        invariant forall i | 0 <= i < |blocks| :: blocks[i] in old(blocks)
        decreases |accepts| - calls, |blocks|
      {
        if blocks[0].used == 0 {
          var _ := SendSome(0);
        } else if calls < |accepts| && accepts[calls] > 0 {
          var part := SendSome(accepts[calls]);
          sent := sent + part;
          calls := calls + 1;
        } else {
          return;
        }
      }
      if |blocks| == 0 { NoneLeft(); }
    }

    lemma NoneLeft()
      requires Valid() && blocks == []
      ensures Pending() == ""
    {
    }

    method SendSome(accepts: nat) returns (part: string)
      requires Valid() && blocks != []
      modifies this`blocks, blocks[0], blocks[0].buf
      ensures Valid() && old(Pending()) == part + Pending() && |part| <= accepts
      ensures forall i | 0 <= i < |blocks| :: blocks[i] in old(blocks)
      ensures old(blocks[0].used) == 0 ==> |blocks| < |old(blocks)|
      ensures old(blocks[0].used) > 0 && accepts > 0 ==> |part| > 0
    {
      var first := blocks[0];
      var n := Min(first.used, accepts);
      part := first.buf[..n];
      assert part == old(blocks[0].Data())[..n];
      DropFirst(n);
    }

    method BufferSize() returns (size: nat)
      requires Valid()
      ensures size == |Pending()|
    {
      size := 0;
      var i := 0;
      while i < |blocks|
        invariant 0 <= i <= |blocks| && size == |Flat(Pieces()[..i])|
      {
        FlatNext(Pieces(), i);
        size := size + blocks[i].used;
        i := i + 1;
      }
      assert Pieces()[..i] == Pieces();
    }

    // The final write of what was not sent.  Call number i of write takes at most accepts[i] bytes, and a call
    // that does not take a whole block fails the rewrite.
    method BufferWrite(accepts: seq<nat>) returns (written: string, count: int)
      requires Valid()
      ensures count == -1 || count == |Pending()|
      ensures if count == -1 then written <= Pending() else written == Pending()
      ensures (forall k | 0 <= k < |blocks| :: k < |accepts| && accepts[k] >= BLOCK_SIZE) ==> count != -1
    {
      hide Flat;
      written, count := "", 0;
      var i := 0;
      assert Pieces()[..0] == [];
      FlatNone();
      while i < |blocks|
        invariant 0 <= i <= |blocks| && count == |written| && written == Flat(Pieces()[..i])
      {
        FlatNext(Pieces(), i);
        FlatPrefix(Pieces(), i + 1);
        var block := blocks[i];
        if block.used > 0 {
          var n := if i < |accepts| then Min(accepts[i], block.used) else 0;
          ghost var before := written;
          written := written + block.buf[..n];
          if n != block.used {
            assert block.buf[..n] == block.Data()[..n];
            PrefixOf(before, block.Data(), n, Pending());
            return written, -1;
          }
          count := count + n;
        }
        i := i + 1;
      }
      assert Pieces()[..i] == Pieces();
    }

    method Reset()
      modifies this`blocks
      ensures Valid() && Pending() == "" && blocks == []
    {
      blocks := [];
    }
  }

  lemma FlatNone()
    ensures Flat([]) == ""
  {
  }

  lemma FlatNext(pieces: seq<string>, i: nat)
    requires i < |pieces|
    ensures Flat(pieces[..i + 1]) == Flat(pieces[..i]) + pieces[i]
  {
    assert pieces[..i + 1][..i] == pieces[..i];
  }

  lemma FlatPrefix(pieces: seq<string>, i: nat)
    requires i <= |pieces|
    ensures Flat(pieces[..i]) <= Flat(pieces)
  {
    FlatConcat(pieces[..i], pieces[i..]);
    assert pieces[..i] + pieces[i..] == pieces;
  }

  lemma PrefixOf(before: string, data: string, n: nat, whole: string)
    requires n <= |data| && before + data <= whole
    ensures before + data[..n] <= whole
  {
    assert before + data[..n] == (before + data)[..|before| + n];
  }
}
