/** Nearest-rank percentiles and the ranges that replace them when only the
    bucket counts of the waits are known (percentile_bounds). */
module Percentile {
  import opened Sums
  import opened Histogram

  function Insert(x: nat, xs: seq<nat>): seq<nat> {
    if xs == [] || x <= xs[0] then [x] + xs else [xs[0]] + Insert(x, xs[1..])
  }

  /** Python's sorted. */
  function Sorted(xs: seq<nat>): seq<nat> {
    if xs == [] then [] else Insert(xs[0], Sorted(xs[1..]))
  }

  ghost predicate Ascending(xs: seq<nat>) {
    |xs| < 2 || (xs[0] <= xs[1] && Ascending(xs[1..]))
  }

  lemma {:induction false} AscendingOrder(xs: seq<nat>, i: nat, j: nat)
    requires Ascending(xs) && i <= j < |xs|
    ensures xs[i] <= xs[j]
  {
    if i > 0 {
      AscendingOrder(xs[1..], i - 1, j - 1);
    } else if j > 0 {
      AscendingOrder(xs[1..], 0, j - 1);
    }
  }

  lemma {:induction false} InsertMembers(x: nat, xs: seq<nat>)
    ensures multiset(Insert(x, xs)) == multiset(xs) + multiset{x}
  {
    if xs != [] && xs[0] < x {
      InsertMembers(x, xs[1..]);
      assert xs == [xs[0]] + xs[1..];
    }
  }

  lemma {:induction false} InsertAscending(x: nat, xs: seq<nat>)
    requires Ascending(xs)
    ensures Ascending(Insert(x, xs))
  {
    if xs == [] || x <= xs[0] {
      assert ([x] + xs)[1..] == xs;
    } else {
      InsertAscending(x, xs[1..]);
      assert ([xs[0]] + Insert(x, xs[1..]))[1..] == Insert(x, xs[1..]);
    }
  }

  lemma {:induction false} SortedAscends(xs: seq<nat>)
    ensures Ascending(Sorted(xs))
  {
    if xs != [] {
      SortedAscends(xs[1..]);
      InsertAscending(xs[0], Sorted(xs[1..]));
    }
  }

  lemma {:induction false} SortedMembers(xs: seq<nat>)
    ensures multiset(Sorted(xs)) == multiset(xs)
  {
    if xs != [] {
      SortedMembers(xs[1..]);
      InsertMembers(xs[0], Sorted(xs[1..]));
      assert xs == [xs[0]] + xs[1..];
    }
  }

  lemma {:induction false} SortedIsSorted(xs: seq<nat>)
    ensures Ascending(Sorted(xs)) && multiset(Sorted(xs)) == multiset(xs)
    ensures |Sorted(xs)| == |xs|
  {
    SortedAscends(xs);
    SortedMembers(xs);
    assert |multiset(Sorted(xs))| == |Sorted(xs)| && |multiset(xs)| == |xs|;
  }

  /** math.ceil(n * percent / 100) without the floating-point division. */
  function Rank(n: nat, percent: nat): nat {
    (n * percent + 99) / 100
  }

  lemma {:induction false} RankInRange(n: nat, percent: nat)
    requires 0 < n && 1 <= percent <= 100
    ensures 1 <= Rank(n, percent) <= n
    ensures 100 * (Rank(n, percent) - 1) < n * percent <= 100 * Rank(n, percent)
  {
    assert n <= n * percent <= n * 100;
  }

  const PRECISION: nat := 0x20_0000_0000_0000

  /** q is what a correctly rounded double-precision division of a by 100 may give:
      the quotient itself if that is an integer, else within half a unit of the
      last of 53 bits. */
  ghost predicate Rounded(q: real, a: nat) {
    var exact := a as real / 100.0;
    && (a % 100 == 0 ==> q == exact)
    && -exact <= PRECISION as real * (q - exact) <= exact
  }

  lemma {:induction false} RoundedIsNear(a: nat, r: nat, q: real)
    requires a < PRECISION && Rounded(q, a) && 100 * r <= a + 99 < 100 * r + 100
    ensures r as real - 1.0 < q <= r as real
  {
    var x, y := a as real, r as real;
    assert y * 100.0 == (100 * r) as real;
    if a % 100 == 0 {
      assert a == 100 * r;
      assert x == y * 100.0;
    } else {
      assert 100 * r - 99 <= a <= 100 * r - 1;
      assert y * 100.0 - 99.0 <= x <= y * 100.0 - 1.0;
      var error := q - x / 100.0;
      assert -0.01 < error < 0.01;
    }
  }

  /** The ceiling of the rounded quotient is the exact rank as long as the product
      has at most 53 bits. */
  lemma {:induction false} CeilingIsRank(n: nat, percent: nat, q: real)
    requires n * percent < PRECISION && Rounded(q, n * percent)
    ensures Rank(n, percent) as real - 1.0 < q <= Rank(n, percent) as real
  {
    RoundedIsNear(n * percent, Rank(n, percent), q);
  }

  /** The percentile function of idle_evaluate.py. */
  function NearestRank(values: seq<nat>, percent: nat): nat
    requires values != [] && 1 <= percent <= 100
  {
    SortedIsSorted(values);
    RankInRange(|values|, percent);
    Sorted(values)[Rank(|values|, percent) - 1]
  }

  /** How many waits lie in the first n buckets. */
  function Below(ws: seq<nat>, n: nat): nat {
    if ws == [] then 0 else (if BitLength(ws[0]) < n then 1 else 0) + Below(ws[1..], n)
  }

  lemma {:induction false} BelowInsert(x: nat, xs: seq<nat>, n: nat)
    ensures Below(Insert(x, xs), n) == Below([x] + xs, n)
  {
    assert ([x] + xs)[1..] == xs;
    if xs != [] && xs[0] < x {
      BelowInsert(x, xs[1..], n);
      assert ([x] + xs[1..])[1..] == xs[1..];
    }
  }

  lemma {:induction false} BelowSorted(ws: seq<nat>, n: nat)
    ensures Below(Sorted(ws), n) == Below(ws, n)
  {
    if ws != [] {
      BelowInsert(ws[0], Sorted(ws[1..]), n);
      assert ([ws[0]] + Sorted(ws[1..]))[1..] == Sorted(ws[1..]);
      BelowSorted(ws[1..], n);
    }
  }

  /** In ascending waits the first buckets come first. */
  lemma {:induction false} BelowIsPrefix(ws: seq<nat>, n: nat, i: nat)
    requires Ascending(ws) && i < |ws|
    ensures BitLength(ws[i]) < n <==> i < Below(ws, n)
  {
    if n <= BitLength(ws[0]) {
      NoneBelow(ws, n);
      AscendingOrder(ws, 0, i);
      BitLengthMonotone(ws[0], ws[i]);
    } else if i > 0 {
      BelowIsPrefix(ws[1..], n, i - 1);
    }
  }

  lemma {:induction false} NoneBelow(ws: seq<nat>, n: nat)
    requires Ascending(ws) && ws != [] && n <= BitLength(ws[0])
    ensures Below(ws, n) == 0
  {
    if |ws| > 1 {
      BitLengthMonotone(ws[0], ws[1]);
      NoneBelow(ws[1..], n);
    }
  }

  lemma {:induction false} BelowIsPrefixSum(ws: seq<nat>, buckets: seq<int>, n: nat)
    requires Fits(ws, buckets) && n <= BUCKETS
    ensures Below(ws, n) == Sum(buckets[..n])
  {
    if n == 0 {
      NothingBelowZero(ws);
    } else {
      BelowIsPrefixSum(ws, buckets, n - 1);
      assert FitsAt(ws, buckets, n - 1);
      SumPrefixStep(buckets, n - 1);
      BelowStep(ws, n - 1);
    }
  }

  lemma {:induction false} NothingBelowZero(ws: seq<nat>)
    ensures Below(ws, 0) == 0
  {
    if ws != [] {
      NothingBelowZero(ws[1..]);
    }
  }

  lemma {:induction false} BelowStep(ws: seq<nat>, n: nat)
    ensures Below(ws, n + 1) == Below(ws, n) + Count(ws, n)
  {
    if ws != [] {
      BelowStep(ws[1..], n);
    }
  }

  /** The bucket in which the running count first reaches the rank. */
  ghost predicate RankBucket(buckets: seq<int>, rank: int, index: nat) {
    index < |buckets| && Sum(buckets[..index]) < rank <= Sum(buckets[..index + 1])
  }

  lemma {:induction false} PositionInBucket(s: seq<nat>, index: nat, i: nat)
    requires Ascending(s) && i < |s| && Below(s, index) <= i < Below(s, index + 1)
    ensures BitLength(s[i]) == index
  {
    BelowIsPrefix(s, index, i);
    BelowIsPrefix(s, index + 1, i);
  }

  lemma {:induction false} RankBucketHolds(ws: seq<nat>, buckets: seq<int>, percent: nat, index: nat)
    requires Fits(ws, buckets) && ws != [] && 1 <= percent <= 100
    requires RankBucket(buckets, Rank(|ws|, percent), index)
    ensures BitLength(NearestRank(ws, percent)) == index
    ensures Lower(index) <= NearestRank(ws, percent) <= Upper(index)
  {
    SortedIsSorted(ws);
    RankInRange(|ws|, percent);
    var s, i := Sorted(ws), Rank(|ws|, percent) - 1;
    assert Below(s, index) <= i < Below(s, index + 1) by {
      BelowSorted(ws, index);
      BelowSorted(ws, index + 1);
      BelowIsPrefixSum(ws, buckets, index);
      BelowIsPrefixSum(ws, buckets, index + 1);
    }
    PositionInBucket(s, index, i);
    BucketExact(s[i], index);
  }

  /** Some waits with these buckets have that percentile. */
  ghost predicate Attained(buckets: seq<int>, percent: nat, value: nat)
    requires 1 <= percent <= 100
  {
    exists ws: seq<nat> :: Fits(ws, buckets) && ws != [] && NearestRank(ws, percent) == value
  }

  /** Waits that all sit on one end of their bucket. */
  function Ends(slots: seq<nat>, upper: bool): (ws: seq<nat>)
    ensures |ws| == |slots|
  {
    seq(|slots|, i requires 0 <= i < |slots| => if upper then Upper(slots[i]) else Lower(slots[i]))
  }

  lemma {:induction false} EndsFit(buckets: seq<int>, upper: bool)
    requires Buckets(buckets)
    ensures var ws := Ends(Slots(buckets, BUCKETS), upper);
            && Fits(ws, buckets) && |ws| == Sum(buckets)
            && forall w | w in ws :: w == if upper then Upper(BitLength(w)) else Lower(BitLength(w))
  {
    var slots := Slots(buckets, BUCKETS);
    var ws := Ends(slots, upper);
    SlotSums(buckets, 0, BUCKETS);
    SlotRange(buckets, BUCKETS);
    assert buckets[..BUCKETS] == buckets;
    forall i | 0 <= i < |ws| ensures BitLength(ws[i]) == slots[i] {
      LowerMonotone(slots[i], slots[i] + 1);
      BucketExact(ws[i], slots[i]);
    }
    forall k: nat | k < BUCKETS ensures FitsAt(ws, buckets, k) {
      CountSlots(ws, slots, k);
      SlotCounts(buckets, BUCKETS, k);
    }
  }

  lemma {:induction false} PercentileIsMember(values: seq<nat>, percent: nat)
    requires values != [] && 1 <= percent <= 100
    ensures NearestRank(values, percent) in values
  {
    SortedIsSorted(values);
    RankInRange(|values|, percent);
    assert NearestRank(values, percent) in multiset(Sorted(values));
  }

  lemma {:induction false} EndsAttained(buckets: seq<int>, percent: nat, index: nat, upper: bool)
    requires Buckets(buckets) && 0 < Sum(buckets) && 1 <= percent <= 100
    requires RankBucket(buckets, Rank(Sum(buckets), percent), index)
    ensures Attained(buckets, percent, if upper then Upper(index) else Lower(index))
  {
    var ws := Ends(Slots(buckets, BUCKETS), upper);
    EndsFit(buckets, upper);
    RankBucketHolds(ws, buckets, percent, index);
    PercentileIsMember(ws, percent);
  }

  datatype PercentileResult = InvalidPercent | NoWaits | Enclosed(range: Range)

  /** The reported range encloses the nearest-rank percentile of every sequence
      of waits with these buckets, and each end is the percentile of one. */
  ghost predicate TightRange(buckets: seq<int>, percent: nat, range: Range)
    requires 1 <= percent <= 100
  {
    && (forall ws: seq<nat> | Fits(ws, buckets) && ws != [] ::
          range.lower <= NearestRank(ws, percent) <= range.upper)
    && Attained(buckets, percent, range.lower)
    && Attained(buckets, percent, range.upper)
  }

  method PercentileBounds(buckets: seq<int>, percent: int) returns (r: PercentileResult)
    requires Buckets(buckets)
    ensures r.InvalidPercent? <==> !(1 <= percent <= 100)
    ensures r.NoWaits? <==> 1 <= percent <= 100 && Sum(buckets) == 0
    ensures r.Enclosed? ==> TightRange(buckets, percent, r.range)
  {
    if !(1 <= percent <= 100) {
      return InvalidPercent;
    }
    NonNegative(buckets);
    var count := Sum(buckets);
    if count == 0 {
      return NoWaits;
    }
    var rank, seen := (count * percent + 99) / 100, 0;
    RankInRange(count, percent);
    assert buckets[..BUCKETS] == buckets;
    for index := 0 to |buckets|
      invariant seen == Sum(buckets[..index]) && seen < rank
    {
      SumPrefixStep(buckets, index);
      seen := seen + buckets[index];
      if seen >= rank {
        var bounds := BucketBounds(index);
        RangeIsTight(buckets, percent, index);
        return Enclosed(bounds.value);
      }
    }
    assert false;
  }

  lemma {:induction false} RangeIsTight(buckets: seq<int>, percent: nat, index: nat)
    requires Buckets(buckets) && 0 < Sum(buckets) && 1 <= percent <= 100
    requires RankBucket(buckets, Rank(Sum(buckets), percent), index)
    ensures TightRange(buckets, percent, Range(Lower(index), Upper(index)))
  {
    forall ws: seq<nat> | Fits(ws, buckets) && ws != []
      ensures Lower(index) <= NearestRank(ws, percent) <= Upper(index)
    {
      MaxIsGreatest(ws);
      SumsOfWaits(ws, buckets, Max(ws));
      RankBucketHolds(ws, buckets, percent, index);
    }
    EndsAttained(buckets, percent, index, false);
    EndsAttained(buckets, percent, index, true);
  }
}
