/** Sums and maxima of finite sequences, and the discrete intermediate-value
    argument on which every exactness result of the numeric replays rests. */
module Sums {

  function Sum(xs: seq<int>): int {
    if xs == [] then 0 else xs[0] + Sum(xs[1..])
  }

  function Max(xs: seq<nat>): nat {
    if xs == [] then 0
    else
      var rest := Max(xs[1..]);
      if xs[0] < rest then rest else xs[0]
  }

  lemma {:induction false} SumConcat(xs: seq<int>, ys: seq<int>)
    ensures Sum(xs + ys) == Sum(xs) + Sum(ys)
  {
    if xs == [] {
      assert xs + ys == ys;
    } else {
      assert (xs + ys)[1..] == xs[1..] + ys;
      SumConcat(xs[1..], ys);
    }
  }

  lemma {:induction false} MaxConcat(xs: seq<nat>, ys: seq<nat>)
    ensures Max(xs + ys) == if Max(xs) < Max(ys) then Max(ys) else Max(xs)
  {
    if xs == [] {
      assert xs + ys == ys;
    } else {
      assert (xs + ys)[1..] == xs[1..] + ys;
      MaxConcat(xs[1..], ys);
    }
  }

  /** The maximum bounds every element and, of a non-empty sequence, is one. */
  lemma {:induction false} MaxIsGreatest(xs: seq<nat>)
    ensures forall x | x in xs :: x <= Max(xs)
    ensures xs != [] ==> Max(xs) in xs
  {
    if xs != [] {
      MaxIsGreatest(xs[1..]);
      assert xs == [xs[0]] + xs[1..];
    }
  }

  lemma {:induction false} MaxUnique(xs: seq<nat>, m: nat)
    requires forall x | x in xs :: x <= m
    requires m in xs || (xs == [] && m == 0)
    ensures Max(xs) == m
  {
    MaxIsGreatest(xs);
  }

  ghost predicate Between(xs: seq<int>, low: seq<int>, high: seq<int>) {
    && |xs| == |low| == |high|
    && forall i | 0 <= i < |xs| :: low[i] <= xs[i] <= high[i]
  }

  lemma {:induction false} SumBetween(xs: seq<int>, low: seq<int>, high: seq<int>)
    requires Between(xs, low, high)
    ensures Sum(low) <= Sum(xs) <= Sum(high)
  {
    if xs != [] {
      SumBetween(xs[1..], low[1..], high[1..]);
    }
  }

  /** Every integer between the two extreme sums is the sum of some choice of
      elements, each within its own bounds. */
  lemma {:induction false} Fill(low: seq<int>, high: seq<int>, total: int) returns (xs: seq<int>)
    requires Between(low, low, high)
    requires Sum(low) <= total <= Sum(high)
    ensures Between(xs, low, high) && Sum(xs) == total
  {
    if low == [] {
      xs := [];
    } else {
      var room := total - Sum(low[1..]);
      var x := if room < high[0] then room else high[0];
      SumBetween(low[1..], low[1..], high[1..]);
      var rest := Fill(low[1..], high[1..], total - x);
      xs := [x] + rest;
    }
  }

  /** Prefix sums of non-negative numbers never decrease. */
  lemma {:induction false} PrefixSums(xs: seq<int>, i: nat, j: nat)
    requires i <= j <= |xs|
    requires forall k | 0 <= k < |xs| :: 0 <= xs[k]
    ensures 0 <= Sum(xs[..i]) <= Sum(xs[..j])
  {
    assert xs[..j] == xs[..i] + xs[i..j];
    SumConcat(xs[..i], xs[i..j]);
    NonNegative(xs[..i]);
    NonNegative(xs[i..j]);
  }

  lemma {:induction false} NonNegative(xs: seq<int>)
    requires forall k | 0 <= k < |xs| :: 0 <= xs[k]
    ensures 0 <= Sum(xs)
  {
    if xs != [] {
      NonNegative(xs[1..]);
    }
  }

  lemma {:induction false} SumSnoc(xs: seq<int>, x: int)
    ensures Sum(xs + [x]) == Sum(xs) + x
  {
    SumConcat(xs, [x]);
  }

  lemma {:induction false} SumPrefixStep(xs: seq<int>, n: nat)
    requires n < |xs|
    ensures Sum(xs[..n + 1]) == Sum(xs[..n]) + xs[n]
  {
    assert xs[..n + 1] == xs[..n] + [xs[n]];
    SumSnoc(xs[..n], xs[n]);
  }

  lemma {:induction false} Distribute(a: int, b: int)
    ensures (a + 1) * b == a * b + b
  {}

  function Repeat(x: int, n: nat): (r: seq<int>)
    ensures |r| == n && forall i | 0 <= i < n :: r[i] == x
  {
    seq(n, _ => x)
  }

  lemma {:induction false} SumRepeat(x: int, n: nat)
    ensures Sum(Repeat(x, n)) == n * x
  {
    if n > 0 {
      assert Repeat(x, n)[1..] == Repeat(x, n - 1);
      SumRepeat(x, n - 1);
      Distribute(n - 1, x);
    }
  }
}
