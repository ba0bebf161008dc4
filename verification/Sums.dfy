/** Sums over sequences, shared by every module that keeps a running total. */
module Sums {

  function Sum<T>(f: T -> int, s: seq<T>): int
  {
    if s == [] then 0 else f(s[0]) + Sum(f, s[1..])
  }

  lemma {:induction false} SumConcat<T>(f: T -> int, a: seq<T>, b: seq<T>)
    ensures Sum(f, a + b) == Sum(f, a) + Sum(f, b)
  {
    if a == [] {
      assert a + b == b;
    } else {
      assert (a + b)[1..] == a[1..] + b;
      SumConcat(f, a[1..], b);
    }
  }

  /** Replacing one element moves the sum by the difference of the two values. */
  lemma SumUpdate<T>(f: T -> int, s: seq<T>, i: nat, x: T)
    requires i < |s|
    ensures Sum(f, s[i := x]) == Sum(f, s) - f(s[i]) + f(x)
  {
    SumSplit(f, s, i);
    SumSplit(f, s[i := x], i);
    assert s[i := x][..i] == s[..i] && s[i := x][i + 1..] == s[i + 1..];
  }

  /** The sum is the element at `i` plus the sums on either side of it. */
  lemma SumSplit<T>(f: T -> int, s: seq<T>, i: nat)
    requires i < |s|
    ensures Sum(f, s) == Sum(f, s[..i]) + f(s[i]) + Sum(f, s[i + 1..])
  {
    assert s == s[..i] + s[i..];
    SumConcat(f, s[..i], s[i..]);
    assert s[i..][1..] == s[i + 1..];
  }

  lemma SumInsert<T>(f: T -> int, s: seq<T>, i: nat, x: T)
    requires i <= |s|
    ensures Sum(f, s[..i] + [x] + s[i..]) == Sum(f, s) + f(x)
  {
    var t := s[..i] + [x] + s[i..];
    SumSplit(f, t, i);
    assert t[..i] == s[..i] && t[i + 1..] == s[i..] && s == s[..i] + s[i..];
    SumConcat(f, s[..i], s[i..]);
  }

  lemma {:induction false} SumNonNegative<T>(f: T -> int, s: seq<T>)
    requires forall x :: x in s ==> f(x) >= 0
    ensures Sum(f, s) >= 0
  {
    if s != [] {
      SumNonNegative(f, s[1..]);
    }
  }
}
