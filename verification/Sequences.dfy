/** Duplicate-free sequences: the growing vectors and pools that are searched before they are extended. */
module Sequences {

  ghost predicate NoDup<T>(xs: seq<T>) {
    forall i, j :: 0 <= i < j < |xs| ==> xs[i] != xs[j]
  }

  /** Position of the first `x` in `xs`. */
  function IndexOf<T(==)>(xs: seq<T>, x: T): (r: nat)
    requires x in xs
    ensures r < |xs| && xs[r] == x
    ensures forall k :: 0 <= k < r ==> xs[k] != x
  {
    if xs[0] == x then 0 else 1 + IndexOf(xs[1..], x)
  }

  /** `x` is appended unless `xs` already holds it. */
  function AddNew<T(==)>(xs: seq<T>, x: T): (r: seq<T>)
    ensures xs <= r && x in r
    ensures NoDup(xs) ==> NoDup(r)
    ensures forall y :: y in r ==> y in xs || y == x
  {
    if x in xs then xs else xs + [x]
  }

  lemma {:induction false} IndexOfUnique<T>(xs: seq<T>, i: nat)
    requires NoDup(xs) && i < |xs|
    ensures IndexOf(xs, xs[i]) == i
  {
    var r := IndexOf(xs, xs[i]);
  }

  lemma {:induction false} IndexOfPrefix<T>(xs: seq<T>, ys: seq<T>, x: T)
    requires x in xs && xs <= ys
    ensures x in ys && IndexOf(ys, x) == IndexOf(xs, x)
  {
    var r, q := IndexOf(xs, x), IndexOf(ys, x);
    assert ys[r] == x && q <= r;
    assert xs[q] == ys[q];
  }

  /** The numbers b, b+1, ..., b+n-1. */
  function Range(b: int, n: nat): (r: seq<int>)
    ensures |r| == n && forall i :: 0 <= i < n ==> r[i] == b + i
  {
    seq(n, i => b + i)
  }

  /** The set {0, ..., n-1}. */
  ghost function Below(n: nat): (s: set<int>)
    ensures |s| == n && forall x :: x in s <==> 0 <= x < n
  {
    if n == 0 then {} else Below(n - 1) + {n - 1}
  }

  /** A duplicate-free sequence of numbers below n has at most n elements. */
  lemma {:induction false} Pigeonhole(xs: seq<int>, n: nat)
    requires NoDup(xs) && forall i :: 0 <= i < |xs| ==> 0 <= xs[i] < n
    ensures |xs| <= n
  {
    Distinct(xs);
    Subset(set i | 0 <= i < |xs| :: xs[i], Below(n));
  }

  lemma {:induction false} Distinct<T>(xs: seq<T>)
    requires NoDup(xs)
    ensures |set i | 0 <= i < |xs| :: xs[i]| == |xs|
  {
    if xs == [] {
    } else {
      var n := |xs| - 1;
      Distinct(xs[..n]);
      var s, s' := set i | 0 <= i < |xs| :: xs[i], set i | 0 <= i < n :: xs[..n][i];
      assert s == s' + {xs[n]};
    }
  }

  lemma {:induction false} Subset<T>(a: set<T>, b: set<T>)
    requires a <= b
    ensures |a| <= |b|
  {
    assert b == a + (b - a);
  }

  lemma {:induction false} Assoc<T>(a: seq<T>, b: seq<T>, c: seq<T>)
    ensures (a + b) + c == a + (b + c)
  {
  }

  /** Concatenation of a sequence of sequences. */
  function Concat<T>(xss: seq<seq<T>>): seq<T> {
    if xss == [] then [] else Concat(xss[..|xss| - 1]) + xss[|xss| - 1]
  }

  /** Piece `i` of a concatenation lies after the pieces before it. */
  lemma {:induction false} ConcatAt<T>(xss: seq<seq<T>>, i: nat)
    requires i < |xss|
    ensures |Concat(xss[..i])| + |xss[i]| <= |Concat(xss)|
    ensures Concat(xss)[|Concat(xss[..i])|..|Concat(xss[..i])| + |xss[i]|] == xss[i]
  {
    var n := |xss| - 1;
    if i == n {
    } else {
      ConcatAt(xss[..n], i);
      assert xss[..n][..i] == xss[..i];
      var o := |Concat(xss[..i])|;
      assert Concat(xss)[o..o + |xss[i]|] == Concat(xss[..n])[o..o + |xss[i]|];
    }
  }
}
