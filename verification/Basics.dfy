/** Small things that several modules use. */
module Basics {

  datatype Option<T> = None | Some(value: T)

  function Power(base: nat, k: nat): (p: nat)
    ensures base >= 1 ==> p >= 1
  {
    if k == 0 then 1 else base * Power(base, k - 1)
  }

  lemma SubsetSize<T>(a: set<T>, b: set<T>)
    requires a <= b
    ensures |a| <= |b|
  {
    assert b == a + (b - a);
  }

  // A set has subsets of every size up to its own.
  lemma {:induction false} SubsetOfSize<T>(s: set<T>, n: nat) returns (t: set<T>)
    requires n <= |s|
    ensures t <= s && |t| == n
  {
    if n == 0 {
      t := {};
    } else {
      var less := SubsetOfSize(s, n - 1);
      if s <= less { SubsetSize(s, less); }
      var x :| x in s && x !in less;
      t := less + {x};
    }
  }

  // The elements of a set in some order.
  lemma {:induction false} Listed<T>(s: set<T>) returns (l: seq<T>)
    ensures forall x :: x in l <==> x in s
    decreases |s|
  {
    if s == {} {
      l := [];
    } else {
      var x :| x in s;
      l := Listed(s - {x});
      l := l + [x];
    }
  }

  // Some number is outside a set.
  lemma {:induction false} Above(s: set<nat>) returns (n: nat)
    ensures forall x | x in s :: x < n
    decreases |s|
  {
    if s == {} {
      n := 0;
    } else {
      var x :| x in s;
      var m := Above(s - {x});
      n := if m > x then m else x + 1;
      assert s == s - {x} + {x};
    }
  }

  // One of sixteen entries, by a number below 16.
  function Row<T>(lo: bv8, a0: T, a1: T, a2: T, a3: T, a4: T, a5: T, a6: T, a7: T,
               a8: T, a9: T, a10: T, a11: T, a12: T, a13: T, a14: T, a15: T): T
  {
    if lo < 8 then
      if lo < 4 then
        if lo < 2 then if lo == 0 then a0 else a1 else if lo == 2 then a2 else a3
      else
        if lo < 6 then if lo == 4 then a4 else a5 else if lo == 6 then a6 else a7
    else
      if lo < 12 then
        if lo < 10 then if lo == 8 then a8 else a9 else if lo == 10 then a10 else a11
      else
        if lo < 14 then if lo == 12 then a12 else a13 else if lo == 14 then a14 else a15
  }
}
