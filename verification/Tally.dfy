/** Weighted totals over sequences, shared by the step machines of this project. */
module Tally {
  /** The sum of w over the elements of s. */
  function Total<T>(s: seq<T>, w: T -> nat): nat
  {
    if s == [] then 0 else Total(s[..|s| - 1], w) + w(s[|s| - 1])
  }

  /** Replacing one element moves the total by the difference of the two weights. */
  lemma {:induction false} TotalUpdate<T>(s: seq<T>, i: nat, x: T, w: T -> nat)
    requires i < |s|
    ensures Total(s[i := x], w) + w(s[i]) == Total(s, w) + w(x)
  {
    var n := |s| - 1;
    if i == n {
      assert s[i := x][..n] == s[..n];
    } else {
      TotalUpdate(s[..n], i, x, w);
      assert s[i := x][..n] == s[..n][i := x];
    }
  }

  /** Every element's weight is part of the total. */
  lemma {:induction false} TotalAtLeast<T>(s: seq<T>, i: nat, w: T -> nat)
    requires i < |s|
    ensures Total(s, w) >= w(s[i])
  {
    if i < |s| - 1 {
      TotalAtLeast(s[..|s| - 1], i, w);
    }
  }

  /** A total is zero when every weight is. */
  lemma {:induction false} TotalZero<T>(s: seq<T>, w: T -> nat)
    requires forall i :: 0 <= i < |s| ==> w(s[i]) == 0
    ensures Total(s, w) == 0
  {
    if s != [] {
      TotalZero(s[..|s| - 1], w);
    }
  }

  /** A positive total has a contributor. */
  lemma {:induction false} TotalWitness<T>(s: seq<T>, w: T -> nat) returns (i: nat)
    requires Total(s, w) > 0
    ensures i < |s| && w(s[i]) > 0
  {
    if w(s[|s| - 1]) > 0 {
      i := |s| - 1;
    } else {
      i := TotalWitness(s[..|s| - 1], w);
    }
  }

  /** A total of weights that are each at most b. */
  lemma {:induction false} TotalAtMost<T>(s: seq<T>, w: T -> nat, b: nat)
    requires forall i :: 0 <= i < |s| ==> w(s[i]) <= b
    ensures Total(s, w) <= |s| * b
  {
    if s != [] {
      TotalAtMost(s[..|s| - 1], w, b);
      assert |s| * b == (|s| - 1) * b + b;
    }
  }

  /** A set of indices below n has at most n members, fewer when one index is missing. */
  lemma {:induction false} IndexSetSize(s: set<nat>, n: nat)
    requires forall i :: i in s ==> i < n
    ensures |s| <= n
  {
    if n == 0 {
      assert s == {};
    } else {
      IndexSetSize(s - {n - 1}, n - 1);
      if n - 1 in s {
        assert |s| == |s - {n - 1}| + 1;
      } else {
        assert s - {n - 1} == s;
      }
    }
  }
}
