/** The BITOP command: the kernel of `bitopCommand` (redis-3.0.6/src/bitops.c).

    Four 64-bit words at a time while every input has data, then byte by byte.
    The specification pads every input with zero bytes and combines one byte
    position at a time. */
module BitOp {
  import opened BitSearch

  datatype Op = AND | OR | XOR | NOT

  // A source key: absent, a string, or a value of another type.
  datatype Lookup = Missing | Str(bytes: seq<bv8>) | WrongType

  // ----- The specification: one byte position at a time -----

  function Apply(op: Op, x: bv8, y: bv8): bv8 {
    match op
    case AND => x & y
    case OR => x | y
    case XOR => x ^ y
    case NOT => x
  }

  function ByteAt(s: seq<bv8>, j: nat): bv8 { if j < |s| then s[j] else 0 }

  // The first n inputs combined at position j.
  function Fold(op: Op, srcs: seq<seq<bv8>>, j: nat, n: nat): bv8
    requires 1 <= n <= |srcs|
  {
    if n == 1 then ByteAt(srcs[0], j) else Apply(op, Fold(op, srcs, j, n - 1), ByteAt(srcs[n - 1], j))
  }

  function Combine(op: Op, srcs: seq<seq<bv8>>, j: nat): bv8
    requires |srcs| >= 1
  {
    if op == NOT then !ByteAt(srcs[0], j) else Fold(op, srcs, j, |srcs|)
  }

  ghost predicate IsMax(srcs: seq<seq<bv8>>, n: nat) {
    (forall s | s in srcs :: |s| <= n) && (n == 0 || exists i :: 0 <= i < |srcs| && |srcs[i]| == n)
  }

  ghost predicate IsMin(srcs: seq<seq<bv8>>, n: nat) {
    (forall s | s in srcs :: n <= |s|) && exists i :: 0 <= i < |srcs| && |srcs[i]| == n
  }

  function Text(l: Lookup): seq<bv8> { if l.Str? then l.bytes else [] }

  // ----- Words -----

  // Byte k of a word, in memory order.
  function Lane(w: bv64, k: nat): bv8 {
    ((if k == 0 then w else if k == 1 then w >> 8 else if k == 2 then w >> 16 else if k == 3 then w >> 24
      else if k == 4 then w >> 32 else if k == 5 then w >> 40 else if k == 6 then w >> 48 else w >> 56) & 0xFF) as bv8
  }

  function ApplyWord(op: Op, x: bv64, y: bv64): bv64 {
    match op
    case AND => x & y
    case OR => x | y
    case XOR => x ^ y
    case NOT => x
  }

  function NotWord(x: bv64): bv64 { !x }
  function NotByte(x: bv8): bv8 { !x }

  lemma WordAnd(a0: bv8, a1: bv8, a2: bv8, a3: bv8, a4: bv8, a5: bv8, a6: bv8, a7: bv8,
    b0: bv8, b1: bv8, b2: bv8, b3: bv8, b4: bv8, b5: bv8, b6: bv8, b7: bv8)
    ensures ApplyWord(AND, Word(a0, a1, a2, a3, a4, a5, a6, a7), Word(b0, b1, b2, b3, b4, b5, b6, b7)) ==
            Word(Apply(AND, a0, b0), Apply(AND, a1, b1), Apply(AND, a2, b2), Apply(AND, a3, b3),
                 Apply(AND, a4, b4), Apply(AND, a5, b5), Apply(AND, a6, b6), Apply(AND, a7, b7))
  {
  }

  lemma WordOr(a0: bv8, a1: bv8, a2: bv8, a3: bv8, a4: bv8, a5: bv8, a6: bv8, a7: bv8,
    b0: bv8, b1: bv8, b2: bv8, b3: bv8, b4: bv8, b5: bv8, b6: bv8, b7: bv8)
    ensures ApplyWord(OR, Word(a0, a1, a2, a3, a4, a5, a6, a7), Word(b0, b1, b2, b3, b4, b5, b6, b7)) ==
            Word(Apply(OR, a0, b0), Apply(OR, a1, b1), Apply(OR, a2, b2), Apply(OR, a3, b3),
                 Apply(OR, a4, b4), Apply(OR, a5, b5), Apply(OR, a6, b6), Apply(OR, a7, b7))
  {
  }

  lemma WordXor(a0: bv8, a1: bv8, a2: bv8, a3: bv8, a4: bv8, a5: bv8, a6: bv8, a7: bv8,
    b0: bv8, b1: bv8, b2: bv8, b3: bv8, b4: bv8, b5: bv8, b6: bv8, b7: bv8)
    ensures ApplyWord(XOR, Word(a0, a1, a2, a3, a4, a5, a6, a7), Word(b0, b1, b2, b3, b4, b5, b6, b7)) ==
            Word(Apply(XOR, a0, b0), Apply(XOR, a1, b1), Apply(XOR, a2, b2), Apply(XOR, a3, b3),
                 Apply(XOR, a4, b4), Apply(XOR, a5, b5), Apply(XOR, a6, b6), Apply(XOR, a7, b7))
  {
  }

  lemma WordNot(a0: bv8, a1: bv8, a2: bv8, a3: bv8, a4: bv8, a5: bv8, a6: bv8, a7: bv8)
    ensures NotWord(Word(a0, a1, a2, a3, a4, a5, a6, a7)) == Word(!a0, !a1, !a2, !a3, !a4, !a5, !a6, !a7)
  {
  }

  lemma LaneWord(b0: bv8, b1: bv8, b2: bv8, b3: bv8, b4: bv8, b5: bv8, b6: bv8, b7: bv8)
    ensures Lane(Word(b0, b1, b2, b3, b4, b5, b6, b7), 0) == b0
    ensures Lane(Word(b0, b1, b2, b3, b4, b5, b6, b7), 1) == b1
    ensures Lane(Word(b0, b1, b2, b3, b4, b5, b6, b7), 2) == b2
    ensures Lane(Word(b0, b1, b2, b3, b4, b5, b6, b7), 3) == b3
    ensures Lane(Word(b0, b1, b2, b3, b4, b5, b6, b7), 4) == b4
    ensures Lane(Word(b0, b1, b2, b3, b4, b5, b6, b7), 5) == b5
    ensures Lane(Word(b0, b1, b2, b3, b4, b5, b6, b7), 6) == b6
    ensures Lane(Word(b0, b1, b2, b3, b4, b5, b6, b7), 7) == b7
  {
  }

  function Pack(x: seq<bv8>): bv64
    requires |x| == 8
  {
    Word(x[0], x[1], x[2], x[3], x[4], x[5], x[6], x[7])
  }

  lemma LanePack(x: seq<bv8>, k: nat)
    requires |x| == 8 && k < 8
    ensures Lane(Pack(x), k) == x[k]
  {
    hide Lane, Word;
    LaneWord(x[0], x[1], x[2], x[3], x[4], x[5], x[6], x[7]);
  }

  lemma PackApply(op: Op, x: seq<bv8>, y: seq<bv8>, z: seq<bv8>)
    requires |x| == |y| == |z| == 8 && op != NOT
    requires forall k | 0 <= k < 8 :: z[k] == Apply(op, x[k], y[k])
    ensures ApplyWord(op, Pack(x), Pack(y)) == Pack(z)
  {
    hide Word, Apply, ApplyWord;
    match op
    case AND =>
      WordAnd(x[0], x[1], x[2], x[3], x[4], x[5], x[6], x[7], y[0], y[1], y[2], y[3], y[4], y[5], y[6], y[7]);
    case OR =>
      WordOr(x[0], x[1], x[2], x[3], x[4], x[5], x[6], x[7], y[0], y[1], y[2], y[3], y[4], y[5], y[6], y[7]);
    case XOR =>
      WordXor(x[0], x[1], x[2], x[3], x[4], x[5], x[6], x[7], y[0], y[1], y[2], y[3], y[4], y[5], y[6], y[7]);
  }

  lemma PackNot(x: seq<bv8>, z: seq<bv8>)
    requires |x| == |z| == 8 && forall k | 0 <= k < 8 :: z[k] == NotByte(x[k])
    ensures NotWord(Pack(x)) == Pack(z)
  {
    hide Word, NotWord;
    WordNot(x[0], x[1], x[2], x[3], x[4], x[5], x[6], x[7]);
  }

  // A word operation is the byte operation in every byte.
  lemma LaneApply(op: Op, x: seq<bv8>, y: seq<bv8>, k: nat)
    requires |x| == |y| == 8 && k < 8
    ensures Lane(ApplyWord(op, Pack(x), Pack(y)), k) == Apply(op, x[k], y[k])
  {
    hide Pack, Lane;
    var z := seq(8, i requires 0 <= i < 8 => Apply(op, x[i], y[i]));
    if op == NOT {
      LanePack(x, k);
    } else {
      PackApply(op, x, y, z);
      LanePack(z, k);
    }
  }

  lemma LaneNot(x: seq<bv8>, k: nat)
    requires |x| == 8 && k < 8
    ensures Lane(NotWord(Pack(x)), k) == NotByte(x[k])
  {
    hide Pack, Lane, NotWord, NotByte;
    var z := seq(8, i requires 0 <= i < 8 => NotByte(x[i]));
    PackNot(x, z);
    LanePack(z, k);
  }

  // Write the word w at offset p.
  method Store(a: array<bv8>, p: nat, w: bv64)
    requires p + 8 <= a.Length
    modifies a
    ensures forall k | 0 <= k < a.Length :: a[k] == if p <= k < p + 8 then Lane(w, k - p) else old(a[k])
  {
    hide Lane;
    a[p], a[p + 1], a[p + 2], a[p + 3] := Lane(w, 0), Lane(w, 1), Lane(w, 2), Lane(w, 3);
    a[p + 4], a[p + 5], a[p + 6], a[p + 7] := Lane(w, 4), Lane(w, 5), Lane(w, 6), Lane(w, 7);
  }

  // One word of the result takes in one word of an input.
  method CombineWord(op: Op, res: array<bv8>, p: nat, src: seq<bv8>)
    requires p + 8 <= res.Length && p + 8 <= |src|
    modifies res
    ensures forall k | 0 <= k < res.Length ::
              res[k] == if p <= k < p + 8 then Apply(op, old(res[k]), src[k]) else old(res[k])
  {
    hide Lane, Pack, Apply, ApplyWord;
    var x, y := res[p..p + 8], src[p..p + 8];
    forall k | p <= k < p + 8
      ensures Lane(ApplyWord(op, Pack(x), Pack(y)), k - p) == Apply(op, res[k], src[k])
    {
      LaneApply(op, x, y, k - p);
    }
    Store(res, p, ApplyWord(op, Pack(x), Pack(y)));
  }

  method InvertWord(res: array<bv8>, p: nat)
    requires p + 8 <= res.Length
    modifies res
    ensures forall k | 0 <= k < res.Length ::
              res[k] == if p <= k < p + 8 then NotByte(old(res[k])) else old(res[k])
  {
    hide Lane, Pack, NotWord, NotByte;
    var x := res[p..p + 8];
    forall k | p <= k < p + 8
      ensures Lane(NotWord(Pack(x)), k - p) == NotByte(res[k])
    {
      LaneNot(x, k - p);
    }
    Store(res, p, NotWord(Pack(x)));
  }

  // ----- The command -----

  // Look the sources up.  A missing key counts as the empty string, also when
  // it is the first one; a key of another type stops the command.
  method Collect(keys: seq<Lookup>) returns (ok: bool, srcs: seq<seq<bv8>>, maxlen: nat, minlen: nat)
    requires |keys| >= 1
    ensures ok <==> WrongType !in keys
    ensures ok ==> |srcs| == |keys| && forall j | 0 <= j < |keys| :: srcs[j] == Text(keys[j])
    ensures ok ==> IsMax(srcs, maxlen) && IsMin(srcs, minlen)
  {
    hide IsMax, IsMin, Text;
    ok, srcs, maxlen, minlen := true, [], 0, 0;
    MaxStart();
    for j := 0 to |keys|
      invariant ok && |srcs| == j && WrongType !in keys[..j]
      invariant forall i | 0 <= i < j :: srcs[i] == Text(keys[i])
      invariant IsMax(srcs, maxlen)
      invariant if j == 0 then minlen == 0 else IsMin(srcs, minlen)
    {
      var o := keys[j];
      TextOf(o);
      if o == Missing {
        MaxMinGrow(srcs, [], maxlen, minlen);
        srcs := srcs + [[]];
        minlen := 0;
      } else {
        if o == WrongType {
          ok := false;
          return;
        }
        MaxMinGrow(srcs, o.bytes, maxlen, minlen);
        srcs := srcs + [o.bytes];
        if |o.bytes| > maxlen { maxlen := |o.bytes|; }
        if j == 0 || |o.bytes| < minlen { minlen := |o.bytes|; }
      }
    }
  }

  lemma TextOf(o: Lookup)
    ensures o == Missing ==> Text(o) == []
    ensures o.Str? ==> Text(o) == o.bytes
  {
  }

  lemma MaxStart()
    ensures IsMax([], 0)
  {
  }

  lemma MaxMinGrow(srcs: seq<seq<bv8>>, s: seq<bv8>, maxlen: nat, minlen: nat)
    requires IsMax(srcs, maxlen)
    requires srcs == [] || IsMin(srcs, minlen)
    ensures IsMax(srcs + [s], if |s| > maxlen then |s| else maxlen)
    ensures IsMin(srcs + [s], if srcs == [] || |s| < minlen then |s| else minlen)
  {
    var all := srcs + [s];
    assert all[|srcs|] == s;
    assert forall i | 0 <= i < |srcs| :: all[i] == srcs[i];
    assert forall t | t in all :: t in srcs || t == s;
  }

  // The result so far: done below j, the first input from j to minlen.
  ghost predicate Done(op: Op, srcs: seq<seq<bv8>>, res: seq<bv8>, j: nat, minlen: nat)
    requires |srcs| >= 1
  {
    && j <= minlen <= |res| && minlen <= |srcs[0]|
    && (forall k | 0 <= k < j :: res[k] == Combine(op, srcs, k))
    && (forall k | j <= k < minlen :: res[k] == srcs[0][k])
  }

  // Four words of every further input into four words of the result.
  method CombineBlock(op: Op, srcs: seq<seq<bv8>>, res: array<bv8>, j: nat, ghost minlen: nat)
    requires |srcs| >= 1 && op != NOT && j + 32 <= minlen
    requires forall s | s in srcs :: minlen <= |s|
    requires Done(op, srcs, res[..], j, minlen)
    modifies res
    ensures Done(op, srcs, res[..], j + 32, minlen)
  {
    hide Apply, Done, Fold;
    BlockStart(op, srcs, res[..], j, minlen);
    for i := 1 to |srcs|
      invariant Partial(op, srcs, res[..], j, minlen, i)
    {
      ghost var before := res[..];
      assert srcs[i] in srcs;
      CombineWord(op, res, j, srcs[i]);
      CombineWord(op, res, j + 8, srcs[i]);
      CombineWord(op, res, j + 16, srcs[i]);
      CombineWord(op, res, j + 24, srcs[i]);
      PartialStep(op, srcs, before, res[..], j, minlen, i);
    }
    BlockEnd(op, srcs, res[..], j, minlen);
  }

  // Inside a block: the first i inputs are combined at its positions.
  ghost predicate Partial(op: Op, srcs: seq<seq<bv8>>, res: seq<bv8>, j: nat, minlen: nat, i: nat)
    requires 1 <= i <= |srcs|
  {
    && j + 32 <= minlen <= |res| && minlen <= |srcs[0]|
    && (forall k | 0 <= k < j :: res[k] == Combine(op, srcs, k))
    && (forall k | j <= k < j + 32 :: res[k] == Fold(op, srcs, k, i))
    && (forall k | j + 32 <= k < minlen :: res[k] == srcs[0][k])
  }

  lemma BlockStart(op: Op, srcs: seq<seq<bv8>>, res: seq<bv8>, j: nat, minlen: nat)
    requires |srcs| >= 1 && j + 32 <= minlen && Done(op, srcs, res, j, minlen)
    ensures Partial(op, srcs, res, j, minlen, 1)
  {
  }

  lemma BlockEnd(op: Op, srcs: seq<seq<bv8>>, res: seq<bv8>, j: nat, minlen: nat)
    requires |srcs| >= 1 && op != NOT && Partial(op, srcs, res, j, minlen, |srcs|)
    ensures Done(op, srcs, res, j + 32, minlen)
  {
    hide Fold;
  }

  lemma PartialStep(op: Op, srcs: seq<seq<bv8>>, before: seq<bv8>, after: seq<bv8>, j: nat, minlen: nat, i: nat)
    requires 1 <= i < |srcs| && minlen <= |srcs[i]| && |before| == |after|
    requires Partial(op, srcs, before, j, minlen, i)
    requires forall k | 0 <= k < |after| ::
               after[k] == if j <= k < j + 32 then Apply(op, before[k], srcs[i][k]) else before[k]
    ensures Partial(op, srcs, after, j, minlen, i + 1)
  {
    hide Apply;
  }

  // NOT takes one input, so a block is four inverted words.
  method InvertBlock(srcs: seq<seq<bv8>>, res: array<bv8>, j: nat, ghost minlen: nat)
    requires |srcs| >= 1 && j + 32 <= minlen
    requires Done(NOT, srcs, res[..], j, minlen)
    modifies res
    ensures Done(NOT, srcs, res[..], j + 32, minlen)
  {
    hide Fold, Done;
    ghost var before := res[..];
    DoneBounds(NOT, srcs, res[..], j, minlen);
    InvertWord(res, j);
    InvertWord(res, j + 8);
    InvertWord(res, j + 16);
    InvertWord(res, j + 24);
    InvertStep(srcs, before, res[..], j, minlen);
  }

  lemma DoneBounds(op: Op, srcs: seq<seq<bv8>>, res: seq<bv8>, j: nat, minlen: nat)
    requires |srcs| >= 1 && Done(op, srcs, res, j, minlen)
    ensures j <= minlen <= |res| && minlen <= |srcs[0]|
  {
  }

  lemma InvertStep(srcs: seq<seq<bv8>>, before: seq<bv8>, after: seq<bv8>, j: nat, minlen: nat)
    requires |srcs| >= 1 && j + 32 <= minlen && |before| == |after|
    requires Done(NOT, srcs, before, j, minlen)
    requires forall k | 0 <= k < |after| :: after[k] == if j <= k < j + 32 then NotByte(before[k]) else before[k]
    ensures Done(NOT, srcs, after, j + 32, minlen)
  {
  }

  // The fast path: j ends at the last whole block inside the shortest input.
  method FastPath(op: Op, srcs: seq<seq<bv8>>, res: array<bv8>, minlen: nat) returns (j: nat)
    requires |srcs| >= 1 && minlen <= res.Length
    requires forall s | s in srcs :: minlen <= |s|
    modifies res
    ensures j <= minlen < j + 32
    ensures forall k | 0 <= k < j :: res[k] == Combine(op, srcs, k)
  {
    hide Combine;
    assert srcs[0] in srcs;
    forall k | 0 <= k < minlen { res[k] := srcs[0][k]; }
    j := 0;
    var left := minlen;
    while left >= 32
      invariant 0 <= left && j + left == minlen
      invariant Done(op, srcs, res[..], j, minlen)
    {
      hide Done;
      if op == NOT {
        InvertBlock(srcs, res, j, minlen);
      } else {
        CombineBlock(op, srcs, res, j, minlen);
      }
      j, left := j + 32, left - 32;
    }
  }

  // One byte of the result, input by input.
  method CombineByte(op: Op, srcs: seq<seq<bv8>>, j: nat) returns (output: bv8)
    requires |srcs| >= 1 && (op == NOT ==> |srcs| == 1)
    ensures output == Combine(op, srcs, j)
  {
    hide Apply;
    output := if |srcs[0]| <= j then 0 else srcs[0][j];
    if op == NOT { output := !output; }
    for i := 1 to |srcs|
      invariant if op == NOT then output == Combine(op, srcs, j) else output == Fold(op, srcs, j, i)
    {
      var byte := if |srcs[i]| <= j then 0 else srcs[i][j];
      output := Apply(op, output, byte);
    }
  }

  datatype Reply = SyntaxError | TypeError | Stored(value: seq<bv8>) | Deleted

  // The whole command over the looked-up keys.
  method Bitop(op: Op, keys: seq<Lookup>) returns (reply: Reply)
    requires |keys| >= 1
    ensures reply == SyntaxError <==> op == NOT && |keys| != 1
    ensures reply == TypeError <==> !(op == NOT && |keys| != 1) && WrongType in keys
    ensures reply.Stored? || reply.Deleted? ==>
              exists srcs: seq<seq<bv8>> ::
                && |srcs| == |keys| && (forall i | 0 <= i < |keys| :: srcs[i] == Text(keys[i]))
                && Computes(op, srcs, reply)
  {
    if op == NOT && |keys| != 1 { return SyntaxError; }
    hide IsMax, IsMin, Text, Computes;
    var ok, srcs, maxlen, minlen := Collect(keys);
    if !ok { return TypeError; }
    if maxlen == 0 {
      EmptyResult(op, srcs);
      return Deleted;
    }
    var res := Run(op, srcs, maxlen, minlen);
    reply := Stored(res);
    WholeResult(op, srcs, res);
  }

  // The stored string is as long as the longest input and combines all of them
  // at every position; with no bytes at all the target is deleted.
  ghost predicate Computes(op: Op, srcs: seq<seq<bv8>>, reply: Reply)
    requires |srcs| >= 1
  {
    match reply
    case Stored(v) => v != [] && IsMax(srcs, |v|) && forall k | 0 <= k < |v| :: v[k] == Combine(op, srcs, k)
    case Deleted => IsMax(srcs, 0)
    case _ => false
  }

  lemma EmptyResult(op: Op, srcs: seq<seq<bv8>>)
    requires |srcs| >= 1 && IsMax(srcs, 0)
    ensures Computes(op, srcs, Deleted)
  {
  }

  lemma WholeResult(op: Op, srcs: seq<seq<bv8>>, v: seq<bv8>)
    requires |srcs| >= 1 && v != [] && IsMax(srcs, |v|)
    requires forall k | 0 <= k < |v| :: v[k] == Combine(op, srcs, k)
    ensures Computes(op, srcs, Stored(v))
  {
    hide IsMax, Combine;
  }

  method Run(op: Op, srcs: seq<seq<bv8>>, maxlen: nat, minlen: nat) returns (v: seq<bv8>)
    requires |srcs| >= 1 && (op == NOT ==> |srcs| == 1)
    requires IsMax(srcs, maxlen) && IsMin(srcs, minlen)
    ensures |v| == maxlen
    ensures forall k | 0 <= k < maxlen :: v[k] == Combine(op, srcs, k)
  {
    hide Combine;
    var res := new bv8[maxlen];
    assert srcs[0] in srcs;
    var j := 0;
    if minlen >= 32 && |srcs| <= 16 {
      j := FastPath(op, srcs, res, minlen);
    }
    while j < maxlen
      invariant 0 <= j <= maxlen
      invariant forall k | 0 <= k < j :: res[k] == Combine(op, srcs, k)
    {
      var output := CombineByte(op, srcs, j);
      res[j] := output;
      j := j + 1;
    }
    v := res[..];
  }

  // ----- What the command means, bit by bit -----

  // A bit of an input; behind its end all bits are clear.
  predicate On(s: seq<bv8>, pos: nat) { pos < 8 * |s| && BitAt(s, pos) }

  // The number of inputs among the first n with the bit set.
  function CountOn(srcs: seq<seq<bv8>>, pos: nat, n: nat): nat
    requires n <= |srcs|
  {
    if n == 0 then 0 else CountOn(srcs, pos, n - 1) + if On(srcs[n - 1], pos) then 1 else 0
  }

  lemma BitOfByte(s: seq<bv8>, pos: nat)
    ensures Has(ByteAt(s, pos / 8), pos % 8) == On(s, pos)
  {
    ZeroHasNone(pos % 8);
    hide Has;
  }

  lemma ZeroHasNone(k: nat)
    ensures !Has(0, k)
  {
  }

  lemma BitsApplied(x: bv8, y: bv8, k: nat)
    ensures Has(Apply(AND, x, y), k) == (Has(x, k) && Has(y, k))
    ensures Has(Apply(OR, x, y), k) == (Has(x, k) || Has(y, k))
    ensures Has(Apply(XOR, x, y), k) == (Has(x, k) != Has(y, k))
    ensures Has(!x, k) == !Has(x, k)
  {
    AndApplied(x, y, k);
    OrApplied(x, y, k);
    XorApplied(x, y, k);
    NotApplied(x, k);
    hide Has, Apply;
  }

  lemma AndApplied(x: bv8, y: bv8, k: nat)
    ensures Has(Apply(AND, x, y), k) == (Has(x, k) && Has(y, k))
  {
    OneBit(k);
    hide Mask;
    AndBit(x, y, Mask(k));
  }

  lemma OrApplied(x: bv8, y: bv8, k: nat)
    ensures Has(Apply(OR, x, y), k) == (Has(x, k) || Has(y, k))
  {
    OneBit(k);
    hide Mask;
    OrBit(x, y, Mask(k));
  }

  lemma XorApplied(x: bv8, y: bv8, k: nat)
    ensures Has(Apply(XOR, x, y), k) == (Has(x, k) != Has(y, k))
  {
    OneBit(k);
    hide Mask;
    XorBit(x, y, Mask(k));
  }

  lemma NotApplied(x: bv8, k: nat)
    ensures Has(!x, k) == !Has(x, k)
  {
    OneBit(k);
    hide Mask;
    NotBit(x, Mask(k));
  }

  lemma OneBit(k: nat)
    ensures Mask(k) != 0 && Mask(k) & (Mask(k) - 1) == 0
  {
  }

  lemma AndBit(x: bv8, y: bv8, m: bv8)
    requires m & (m - 1) == 0
    ensures (x & y) & m != 0 <==> x & m != 0 && y & m != 0
  {
  }

  lemma OrBit(x: bv8, y: bv8, m: bv8)
    requires m & (m - 1) == 0
    ensures (x | y) & m != 0 <==> x & m != 0 || y & m != 0
  {
  }

  lemma XorBit(x: bv8, y: bv8, m: bv8)
    requires m & (m - 1) == 0
    ensures (x ^ y) & m != 0 <==> (x & m != 0) != (y & m != 0)
  {
  }

  lemma NotBit(x: bv8, m: bv8)
    requires m != 0 && m & (m - 1) == 0
    ensures !x & m != 0 <==> x & m == 0
  {
  }

  lemma {:induction false} BitsFolded(srcs: seq<seq<bv8>>, pos: nat, n: nat)
    requires 1 <= n <= |srcs|
    ensures Has(Fold(AND, srcs, pos / 8, n), pos % 8) <==> forall i | 0 <= i < n :: On(srcs[i], pos)
    ensures Has(Fold(OR, srcs, pos / 8, n), pos % 8) <==> exists i :: 0 <= i < n && On(srcs[i], pos)
    ensures Has(Fold(XOR, srcs, pos / 8, n), pos % 8) <==> CountOn(srcs, pos, n) % 2 == 1
  {
    hide Has, On, Apply, ByteAt;
    BitOfByte(srcs[n - 1], pos);
    if n == 1 {
      assert CountOn(srcs, pos, 0) == 0;
    } else {
      BitsFolded(srcs, pos, n - 1);
      var j, b := pos / 8, ByteAt(srcs[n - 1], pos / 8);
      BitsApplied(Fold(AND, srcs, j, n - 1), b, pos % 8);
      BitsApplied(Fold(OR, srcs, j, n - 1), b, pos % 8);
      BitsApplied(Fold(XOR, srcs, j, n - 1), b, pos % 8);
    }
  }

  /** A bit of the stored result is set if and only if it is set in all inputs (AND), in some input (OR), in an
      odd number of inputs (XOR), or not set in the input (NOT); inputs are clear behind their end. */
  lemma BitByBit(op: Op, srcs: seq<seq<bv8>>, v: seq<bv8>, pos: nat)
    requires |srcs| >= 1 && Computes(op, srcs, Stored(v)) && pos < 8 * |v|
    ensures BitAt(v, pos) <==>
      match op
      case AND => forall i | 0 <= i < |srcs| :: On(srcs[i], pos)
      case OR => exists i :: 0 <= i < |srcs| && On(srcs[i], pos)
      case XOR => CountOn(srcs, pos, |srcs|) % 2 == 1
      case NOT => !On(srcs[0], pos)
  {
    assert v[pos / 8] == Combine(op, srcs, pos / 8);
    hide Has, On, Apply, ByteAt, Fold, Computes, CountOn;
    BitsFolded(srcs, pos, |srcs|);
    BitOfByte(srcs[0], pos);
    BitsApplied(ByteAt(srcs[0], pos / 8), 0, pos % 8);
  }
}
