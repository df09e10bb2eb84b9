/**
 * The histogram LRU score (evict.c) and the access history it reads (db.c). Ages are 64-bit unsigned differences of
 * 24-bit clock values and the sums are 64-bit too, so both wrap here as they do in the code; doubles are reals, and
 * the standard deviation is any non-negative root of the variance.
 */
module Histogram {
  import opened Base

  const HISTORY_SIZE: nat := 4
  const NUM_WINDOWS: nat := 5
  const LRU_CLOCK_MAX: nat := 0xFF_FFFF
  const ULLONG_MAX: nat := U64 - 1

  /** The 24-bit field that holds a clock value or, under the frequency policies, a time and a counter. */
  type Clock24 = n: nat | n <= LRU_CLOCK_MAX

  // ------------------------------------------------------------------ access history

  /** What one more access leaves in the history: the latest four, oldest first. */
  function Touched(h: seq<nat>, now: nat): (r: seq<nat>)
    requires |h| <= HISTORY_SIZE
    ensures |r| <= HISTORY_SIZE
  {
    if |h| < HISTORY_SIZE then h + [now] else h[1..] + [now]
  }

  /** The history fields of a Redis object. */
  class AccessHistory {
    const times: array<nat>
    var n: nat

    ghost predicate Valid()
      reads this
    {
      times.Length == HISTORY_SIZE && n <= HISTORY_SIZE
    }

    function Recorded(): (r: seq<nat>)
      requires Valid()
      reads this, times
    {
      times[..n]
    }

    constructor ()
      ensures Valid() && fresh(times) && Recorded() == []
    {
      times := new nat[HISTORY_SIZE](i => 0);
      n := 0;
    }

    method Touch(now: nat)
      requires Valid()
      modifies this, times
      ensures Valid() && Recorded() == Touched(old(Recorded()), now)
    {
      if n < HISTORY_SIZE {
        times[n] := now;
        n := n + 1;
      } else {
        forall i | 0 <= i < HISTORY_SIZE - 1 {
          times[i] := times[i + 1];
        }
        times[HISTORY_SIZE - 1] := now;
      }
    }
  }

  function TouchedBy(trace: seq<nat>): (r: seq<nat>)
    ensures |r| <= HISTORY_SIZE
  {
    if trace == [] then [] else Touched(TouchedBy(trace[..|trace| - 1]), trace[|trace| - 1])
  }

  lemma {:induction false} TouchedStep(trace: seq<nat>)
    requires trace != []
    ensures TouchedBy(trace) == Touched(TouchedBy(trace[..|trace| - 1]), trace[|trace| - 1])
  {
  }

  lemma {:induction false} NeverTouched()
    ensures TouchedBy([]) == []
  {
  }

  /** After any run of accesses the history is exactly the last four of them, in order. */
  lemma {:induction false} HistoryIsLastAccesses(trace: seq<nat>)
    ensures TouchedBy(trace) == trace[if |trace| <= HISTORY_SIZE then 0 else |trace| - HISTORY_SIZE..]
  {
    hide TouchedBy;
    if trace == [] {
      NeverTouched();
    } else {
      var init, last := trace[..|trace| - 1], trace[|trace| - 1];
      TouchedStep(trace);
      HistoryIsLastAccesses(init);
      assert trace == init + [last];
    }
  }

  // ------------------------------------------------------------------ ages and their statistics

  /** Unsigned 64-bit subtraction of the recorded time from the clock. */
  function Age(now: nat, t: nat): (a: nat)
    ensures a < U64
  {
    (now - t) % U64
  }

  /** The age is the elapsed time exactly when the clock has not wrapped since; otherwise it is enormous. */
  lemma AgeIsElapsedTime(now: nat, t: nat)
    requires now <= LRU_CLOCK_MAX && t <= LRU_CLOCK_MAX
    ensures Age(now, t) == now - t <==> t <= now
    ensures t > now ==> Age(now, t) > ULLONG_MAX - LRU_CLOCK_MAX
  {
    if t > now {
      assert (now - t) % U64 == now - t + U64;
    }
  }

  function Ages(now: nat, h: seq<nat>): (r: seq<nat>)
    ensures |r| == |h|
  {
    seq(|h|, i requires 0 <= i < |h| => Age(now, h[i]))
  }

  function AllAges(now: nat, samples: seq<seq<nat>>): (r: seq<nat>) {
    if samples == [] then []
    else AllAges(now, samples[..|samples| - 1]) + Ages(now, samples[|samples| - 1])
  }

  function Sum(xs: seq<nat>): (r: nat) {
    if xs == [] then 0 else Sum(xs[..|xs| - 1]) + xs[|xs| - 1]
  }

  function SumSq(xs: seq<nat>): (r: nat) {
    if xs == [] then 0 else SumSq(xs[..|xs| - 1]) + xs[|xs| - 1] * xs[|xs| - 1]
  }

  function Least(xs: seq<nat>): (r: nat)
    ensures forall x :: x in xs ==> r <= x
    ensures r == ULLONG_MAX || r in xs
  {
    if xs == [] then ULLONG_MAX
    else
      var r, x := Least(xs[..|xs| - 1]), xs[|xs| - 1];
      assert forall y :: y in xs ==> y in xs[..|xs| - 1] || y == x;
      if x < r then x else r
  }

  function Greatest(xs: seq<nat>): (r: nat)
    ensures forall x :: x in xs ==> x <= r
    ensures r == 0 || r in xs
  {
    if xs == [] then 0
    else
      var r, x := Greatest(xs[..|xs| - 1]), xs[|xs| - 1];
      assert forall y :: y in xs ==> y in xs[..|xs| - 1] || y == x;
      if x > r then x else r
  }

  datatype Stats = Stats(min: nat, max: nat, sum: nat, sumSq: nat, count: nat)

  function StatsOf(ages: seq<nat>): Stats {
    Stats(Least(ages), Greatest(ages), Sum(ages) % U64, SumSq(ages) % U64, |ages| % U64)
  }

  lemma {:induction false} AppendedAge(ages: seq<nat>, a: nat)
    ensures Sum(ages + [a]) == Sum(ages) + a && SumSq(ages + [a]) == SumSq(ages) + a * a
    ensures Least(ages + [a]) == if a < Least(ages) then a else Least(ages)
    ensures Greatest(ages + [a]) == if a > Greatest(ages) then a else Greatest(ages)
  {
    assert (ages + [a])[..|ages|] == ages;
  }

  lemma StatsAppend(ages: seq<nat>, a: nat)
    ensures StatsOf(ages + [a]) == Stats(
      if a < StatsOf(ages).min then a else StatsOf(ages).min,
      if a > StatsOf(ages).max then a else StatsOf(ages).max,
      (StatsOf(ages).sum + a) % U64,
      (StatsOf(ages).sumSq + (a * a) % U64) % U64,
      (StatsOf(ages).count + 1) % U64)
  {
    hide Sum, SumSq, Least, Greatest;
    AppendedAge(ages, a);
    ModAdd(SumSq(ages), a * a);
    ModAddLeft(Sum(ages), a);
    ModAddLeft(|ages|, 1);
  }

  lemma ModAdd(x: nat, y: nat)
    ensures (x % U64 + y % U64) % U64 == (x + y) % U64
  {
  }

  lemma ModAddLeft(x: nat, y: nat)
    ensures (x % U64 + y) % U64 == (x + y) % U64
  {
  }

  lemma ModSmall(x: nat)
    requires x < U64
    ensures x % U64 == x
  {
  }

  method CalculateStatistics(samples: seq<seq<nat>>, now: nat) returns (st: Stats)
    ensures st == StatsOf(AllAges(now, samples))
  {
    hide StatsOf;
    var min: nat, max: nat, sum: nat, sumSq: nat, count: nat := ULLONG_MAX, 0, 0, 0, 0;
    ghost var seen: seq<nat> := [];
    StatsOfNothing();
    var j := 0;
    while j < |samples|
      invariant 0 <= j <= |samples| && seen == AllAges(now, samples[..j])
      invariant Stats(min, max, sum, sumSq, count) == StatsOf(seen)
    {
      var times := samples[j];
      var i := 0;
      while i < |times|
        invariant 0 <= i <= |times| && seen == AllAges(now, samples[..j]) + Ages(now, times)[..i]
        invariant Stats(min, max, sum, sumSq, count) == StatsOf(seen)
      {
        var age := Age(now, times[i]);
        StatsAppend(seen, age);
        min := if age < min then age else min;
        max := if age > max then age else max;
        sum := (sum + age) % U64;
        sumSq := (sumSq + (age * age) % U64) % U64;
        count := (count + 1) % U64;
        seen := seen + [age];
        i := i + 1;
      }
      assert samples[..j + 1][..j] == samples[..j];
      j := j + 1;
    }
    assert samples[..j] == samples;
    st := Stats(min, max, sum, sumSq, count);
  }

  lemma StatsOfNothing()
    ensures StatsOf([]) == Stats(ULLONG_MAX, 0, 0, 0, 0)
  {
  }

  // ------------------------------------------------------------------ soundness of the statistics

  /** 24-bit ages of at most 2^14 sampled objects with four accesses each. */
  ghost predicate Recent(ages: seq<nat>) {
    0 < |ages| <= 0x1_0000 && forall a :: a in ages ==> a <= LRU_CLOCK_MAX
  }

  lemma {:induction false} SumBounds(xs: seq<nat>, low: nat, high: nat)
    requires forall i :: 0 <= i < |xs| ==> low <= xs[i] <= high
    ensures |xs| * low <= Sum(xs) <= |xs| * high
    ensures SumSq(xs) <= |xs| * (high * high)
  {
    if xs != [] {
      SumBounds(xs[..|xs| - 1], low, high);
      SquareMonotone(xs[|xs| - 1], high);
      OneMore(|xs| - 1, low);
      OneMore(|xs| - 1, high);
      OneMore(|xs| - 1, high * high);
    }
  }

  lemma SquareMonotone(x: nat, y: nat)
    requires x <= y
    ensures x * x <= y * y
  {
    assert x * x <= x * y <= y * y;
  }

  lemma OneMore(n: nat, y: int)
    ensures (n + 1) * y == n * y + y
  {
  }

  /** With recent ages none of the 64-bit accumulators overflows. */
  lemma {:induction false} NoOverflow(ages: seq<nat>)
    requires Recent(ages)
    ensures StatsOf(ages) == Stats(Least(ages), Greatest(ages), Sum(ages), SumSq(ages), |ages|)
    ensures Least(ages) in ages && Greatest(ages) in ages
  {
    hide Sum, SumSq, Least, Greatest;
    assert forall i :: 0 <= i < |ages| ==> ages[i] in ages;
    SumBounds(ages, 0, LRU_CLOCK_MAX);
    CountFits(|ages|);
    ModSmall(Sum(ages));
    ModSmall(SumSq(ages));
    ModSmall(|ages|);
    assert ages[0] in ages;
  }

  lemma CountFits(n: nat)
    requires n <= 0x1_0000
    ensures n * LRU_CLOCK_MAX < U64 && n * (LRU_CLOCK_MAX * LRU_CLOCK_MAX) < U64
  {
  }

  function SumOfSquaredGaps(xs: seq<nat>, a: nat): (r: int)
    ensures r >= 0
  {
    if xs == [] then 0
    else
      var d := xs[|xs| - 1] - a;
      SquareNonNegative(d);
      SumOfSquaredGaps(xs[..|xs| - 1], a) + d * d
  }

  lemma SquareNonNegative(d: int)
    ensures d * d >= 0
  {
  }

  lemma GapsStep(g: int, q: int, s: int, n: int, x: int, a: int)
    requires g == q - 2 * a * s + n * (a * a)
    ensures g + (x - a) * (x - a) == (q + x * x) - 2 * a * (s + x) + (n + 1) * (a * a)
  {
  }

  lemma {:induction false} GapsExpand(xs: seq<nat>, a: nat)
    ensures SumOfSquaredGaps(xs, a) == SumSq(xs) - 2 * a * Sum(xs) + |xs| * (a * a)
  {
    if xs != [] {
      var init, x := xs[..|xs| - 1], xs[|xs| - 1];
      GapsExpand(init, a);
      GapsStep(SumOfSquaredGaps(init, a), SumSq(init), Sum(init), |init|, x, a);
    }
  }

  lemma CauchyStep(n: int, q: int, s: int, x: int)
    requires n * q >= s * s && q - 2 * x * s + n * (x * x) >= 0
    ensures (n + 1) * (q + x * x) >= (s + x) * (s + x)
  {
    assert (n + 1) * (q + x * x) == n * q + n * (x * x) + q + x * x;
    assert (s + x) * (s + x) == s * s + 2 * x * s + x * x;
  }

  /** The sum of squares is large enough for the variance to have a root. */
  lemma {:induction false} CauchySchwarz(xs: seq<nat>)
    ensures |xs| * SumSq(xs) >= Sum(xs) * Sum(xs)
  {
    if xs != [] {
      var init, x := xs[..|xs| - 1], xs[|xs| - 1];
      CauchySchwarz(init);
      GapsExpand(init, x);
      CauchyStep(|init|, SumSq(init), Sum(init), x);
    }
  }

  function Mean(st: Stats): (m: real) {
    if st.count > 0 then st.sum as real / st.count as real else 0.0
  }

  function Variance(st: Stats): (v: real) {
    if st.count > 0 then st.sumSq as real / st.count as real - Mean(st) * Mean(st) else 0.0
  }

  predicate IsDeviation(sd: real, st: Stats) {
    sd >= 0.0 && sd * sd == Variance(st)
  }

  lemma VarianceScaled(sum: nat, sumSq: nat, n: nat)
    requires n > 0
    ensures var m := sum as real / n as real;
            (sumSq as real / n as real - m * m) * (n as real * n as real) ==
            n as real * sumSq as real - sum as real * sum as real
  {
    var rn, m := n as real, sum as real / n as real;
    assert m * rn == sum as real;
    assert m * m * (rn * rn) == (m * rn) * (m * rn);
    assert sumSq as real / rn * (rn * rn) == (sumSq as real / rn * rn) * rn;
  }

  /** The statistics are sound: the root exists, and the mean lies between the extremes. */
  lemma StatisticsSound(ages: seq<nat>)
    requires Recent(ages)
    ensures Variance(StatsOf(ages)) >= 0.0
    ensures StatsOf(ages).min as real <= Mean(StatsOf(ages)) <= StatsOf(ages).max as real
  {
    hide Sum, SumSq, Least, Greatest, StatsOf;
    NoOverflow(ages);
    CauchySchwarz(ages);
    assert forall i :: 0 <= i < |ages| ==> ages[i] in ages;
    SumBounds(ages, Least(ages), Greatest(ages));
    StatsSound(StatsOf(ages));
  }

  lemma StatsSound(st: Stats)
    requires st.count > 0 && st.count * st.sumSq >= st.sum * st.sum
    requires st.count * st.min <= st.sum <= st.count * st.max
    ensures Variance(st) >= 0.0 && st.min as real <= Mean(st) <= st.max as real
  {
    VarianceScaled(st.sum, st.sumSq, st.count);
    ProductSign(Variance(st), st.count as real * st.count as real, st.count, st.sum, st.sumSq);
    QuotientBounds(st.sum, st.count, st.min, st.max);
  }

  lemma ProductSign(v: real, scale: real, n: nat, s: nat, q: nat)
    requires n > 0 && scale == n as real * n as real && n * q >= s * s
    requires v * scale == n as real * q as real - s as real * s as real
    ensures v >= 0.0
  {
    assert (n * q) as real == n as real * q as real && (s * s) as real == s as real * s as real;
    assert scale > 0.0;
  }

  lemma QuotientBounds(s: nat, n: nat, low: nat, high: nat)
    requires n > 0 && n * low <= s <= n * high
    ensures low as real <= s as real / n as real <= high as real
  {
    assert (n * low) as real == n as real * low as real;
    assert (n * high) as real == n as real * high as real;
  }

  // ------------------------------------------------------------------ windows

  function FMax(a: real, b: real): real {
    if a < b then b else a
  }

  function FMin(a: real, b: real): real {
    if a < b then a else b
  }

  function Boundaries(st: Stats, sd: real): (b: seq<real>)
    ensures |b| == NUM_WINDOWS
  {
    var low, high, mean := st.min as real, st.max as real, Mean(st);
    [low, FMax(low, mean - sd), FMax(low, FMin(high, mean)), FMin(high, mean + sd), high]
  }

  method DefineWindowBoundaries(w: array<real>, st: Stats, sd: real)
    requires w.Length == NUM_WINDOWS
    modifies w
    ensures w[..] == Boundaries(st, sd)
  {
    var low, high, mean := st.min as real, st.max as real, Mean(st);
    w[0] := low;
    w[1] := FMax(low, mean - sd);
    w[2] := FMax(low, FMin(high, mean));
    w[3] := FMin(high, mean + sd);
    w[4] := high;
  }

  /** The five boundaries run from the smallest age over the mean to the largest, never descending. */
  lemma {:induction false} BoundariesAscend(ages: seq<nat>, sd: real)
    requires Recent(ages) && IsDeviation(sd, StatsOf(ages))
    ensures var b := Boundaries(StatsOf(ages), sd);
            && b[0] <= b[1] <= b[2] <= b[3] <= b[4]
            && b[0] == Least(ages) as real && b[2] == Mean(StatsOf(ages)) && b[4] == Greatest(ages) as real
  {
    hide Recent, Mean, Variance;
    StatisticsSound(ages);
  }

  /** The first window whose boundary the age does not exceed; 5 when it exceeds them all. */
  function WindowOf(age: nat, b: seq<real>): (j: nat)
    requires |b| == NUM_WINDOWS
    ensures 1 <= j <= NUM_WINDOWS
  {
    if age as real <= b[1] then 1
    else if age as real <= b[2] then 2
    else if age as real <= b[3] then 3
    else if age as real <= b[4] then 4
    else 5
  }

  /** WINDOW_WEIGHTS, an array of five read at the window number, so that window 1 weighs 0.3. */
  const WINDOW_WEIGHTS: seq<real> := [0.4, 0.3, 0.2, 0.15, 0.05]

  function Weight(j: nat): (w: real)
    requires 1 <= j <= NUM_WINDOWS
  {
    if j < NUM_WINDOWS then WINDOW_WEIGHTS[j] else 0.0
  }

  /** What one access contributes to keeping its object: the weight of its window and the tie breaker. */
  function Worth(age: nat, b: seq<real>): (w: real)
    requires |b| == NUM_WINDOWS
  {
    Weight(WindowOf(age, b)) + 0.01
  }

  function Usefulness(ages: seq<nat>, b: seq<real>): (u: real)
    requires |b| == NUM_WINDOWS
  {
    if ages == [] then 0.0 else Usefulness(ages[..|ages| - 1], b) + Worth(ages[|ages| - 1], b)
  }

  /** The eviction score: the less useful, the larger. */
  function Score(now: nat, h: seq<nat>, b: seq<real>): (r: real)
    requires |b| == NUM_WINDOWS
  {
    -Usefulness(Ages(now, h), b)
  }

  function CountIn(ages: seq<nat>, b: seq<real>, j: nat): (n: nat)
    requires |b| == NUM_WINDOWS
  {
    if ages == [] then 0
    else CountIn(ages[..|ages| - 1], b, j) + if WindowOf(ages[|ages| - 1], b) == j then 1 else 0
  }

  lemma {:induction false} CountsGiveUsefulness(ages: seq<nat>, b: seq<real>)
    requires |b| == NUM_WINDOWS
    ensures Usefulness(ages, b) ==
      CountIn(ages, b, 1) as real * 0.3 + CountIn(ages, b, 2) as real * 0.2 +
      CountIn(ages, b, 3) as real * 0.15 + CountIn(ages, b, 4) as real * 0.05 + 0.01 * |ages| as real
  {
    hide WindowOf;
    if ages != [] {
      CountsGiveUsefulness(ages[..|ages| - 1], b);
    }
  }

  /** No age lies beyond the last boundary. */
  ghost predicate Covered(ages: seq<nat>, b: seq<real>)
    requires |b| == NUM_WINDOWS
  {
    forall i :: 0 <= i < |ages| ==> ages[i] as real <= b[4]
  }

  /** Each access falls in exactly one window, and never beyond the fourth when no age exceeds the last boundary. */
  lemma {:induction false} WindowsPartition(ages: seq<nat>, b: seq<real>)
    requires |b| == NUM_WINDOWS && Covered(ages, b)
    ensures CountIn(ages, b, 1) + CountIn(ages, b, 2) + CountIn(ages, b, 3) + CountIn(ages, b, 4) == |ages|
    ensures CountIn(ages, b, 5) == 0
  {
    if ages != [] {
      WindowsPartition(ages[..|ages| - 1], b);
    }
  }

  /**
   * Files one age under its window. The loop may read a boundary past the end of the array; that it does not is
   * exactly the precondition that the age does not exceed the last boundary.
   */
  method CountAge(age: nat, w: array<real>, counts: array<nat>)
    requires w.Length == NUM_WINDOWS && counts.Length == NUM_WINDOWS + 1 && age as real <= w[4]
    modifies counts
    ensures counts[..] == old(counts[..])[WindowOf(age, w[..]) := old(counts[WindowOf(age, w[..])]) + 1]
  {
    var j := 1;
    while j < NUM_WINDOWS + 1
      invariant 1 <= j <= NUM_WINDOWS - 1 && counts[..] == old(counts[..])
      invariant forall k :: 1 <= k < j ==> age as real > w[k]
      decreases NUM_WINDOWS + 1 - j
    {
      if age as real <= w[j] {
        counts[j] := counts[j] + 1;
        return;
      }
      j := j + 1;
    }
  }

  /** The weighted counts of windows 1 to j - 1. */
  function WeightedUpTo(counts: seq<nat>, j: nat): (r: real)
    requires j <= NUM_WINDOWS && |counts| == NUM_WINDOWS + 1
  {
    if j <= 1 then 0.0 else WeightedUpTo(counts, j - 1) + counts[j - 1] as real * WINDOW_WEIGHTS[j - 1]
  }

  lemma {:induction false} CountsGiveScore(ages: seq<nat>, b: seq<real>, counts: seq<nat>)
    requires |b| == NUM_WINDOWS && |counts| == NUM_WINDOWS + 1
    requires forall j :: 1 <= j <= NUM_WINDOWS ==> counts[j] == CountIn(ages, b, j)
    ensures WeightedUpTo(counts, NUM_WINDOWS) + 0.01 * |ages| as real == Usefulness(ages, b)
  {
    hide CountIn, Usefulness;
    CountsGiveUsefulness(ages, b);
    assert WeightedUpTo(counts, 1) == 0.0;
    assert WeightedUpTo(counts, 3) == counts[1] as real * 0.3 + counts[2] as real * 0.2;
    assert WeightedUpTo(counts, 5) == WeightedUpTo(counts, 3) + counts[3] as real * 0.15 + counts[4] as real * 0.05;
  }

  lemma {:induction false} NothingCounted(b: seq<real>)
    requires |b| == NUM_WINDOWS
    ensures forall j :: CountIn([], b, j) == 0
  {
  }

  lemma {:induction false} CountOneMore(ages: seq<nat>, b: seq<real>, i: nat)
    requires |b| == NUM_WINDOWS && i < |ages|
    ensures forall j ::
      (CountIn(ages[..i + 1], b, j) == CountIn(ages[..i], b, j) + if WindowOf(ages[i], b) == j then 1 else 0)
  {
    hide WindowOf;
    assert ages[..i + 1][..i] == ages[..i];
  }

  method EstimateObjectEvictionScore(times: seq<nat>, now: nat, w: array<real>) returns (score: real)
    requires w.Length == NUM_WINDOWS && Covered(Ages(now, times), w[..])
    ensures score == Score(now, times, w[..])
  {
    hide WindowOf, Usefulness, CountIn;
    NothingCounted(w[..]);
    ghost var ages, b := Ages(now, times), w[..];
    var counts := new nat[NUM_WINDOWS + 1](j => 0);
    var i := 0;
    while i < |times|
      invariant 0 <= i <= |times| && w[..] == b
      invariant forall j :: 1 <= j <= NUM_WINDOWS ==> counts[j] == CountIn(ages[..i], b, j)
    {
      var age := Age(now, times[i]);
      CountOneMore(ages, b, i);
      assert age == ages[i];
      ghost var before := counts[..];
      CountAge(age, w, counts);
      assert forall j :: 1 <= j <= NUM_WINDOWS ==>
        counts[..][j] == before[j] + if WindowOf(age, b) == j then 1 else 0;
      i := i + 1;
    }
    assert ages[..i] == ages;
    CountsGiveScore(ages, b, counts[..]);
    var total := 0.0;
    var j := 1;
    while j < NUM_WINDOWS
      invariant 1 <= j <= NUM_WINDOWS && total == WeightedUpTo(counts[..], j)
    {
      total := total + counts[j] as real * WINDOW_WEIGHTS[j];
      j := j + 1;
    }
    total := total + 0.01 * |times| as real;
    score := -total;
  }

  // ------------------------------------------------------------------ what the score means

  lemma {:induction false} AgesCollected(now: nat, samples: seq<seq<nat>>, k: nat, i: nat)
    requires k < |samples| && i < |samples[k]|
    ensures Age(now, samples[k][i]) in AllAges(now, samples)
  {
    var n := |samples| - 1;
    if k < n {
      AgesCollected(now, samples[..n], k, i);
    } else {
      assert Ages(now, samples[n])[i] in Ages(now, samples[n]);
    }
  }

  /**
   * Scored at the same clock value as the statistics were taken, no sampled object has an access beyond the last
   * boundary, so the scoring loop never leaves the array.
   */
  lemma {:induction false} SamplesAreCovered(now: nat, samples: seq<seq<nat>>, sd: real, k: nat)
    requires k < |samples|
    ensures Covered(Ages(now, samples[k]), Boundaries(StatsOf(AllAges(now, samples)), sd))
  {
    forall i | 0 <= i < |samples[k]|
      ensures Ages(now, samples[k])[i] as real <= Boundaries(StatsOf(AllAges(now, samples)), sd)[4]
    {
      AgesCollected(now, samples, k, i);
    }
  }

  lemma AgeGrows(now: nat, later: nat, t: nat)
    requires t <= now <= later <= LRU_CLOCK_MAX
    ensures Age(later, t) == Age(now, t) + (later - now)
  {
  }

  /** Scored at any later clock value, some sampled object does have such an access. */
  lemma {:induction false} LaterClockIsNotCovered(now: nat, later: nat, samples: seq<seq<nat>>, sd: real)
    requires now < later <= LRU_CLOCK_MAX && AllAges(now, samples) != []
    requires forall k, i :: 0 <= k < |samples| && 0 <= i < |samples[k]| ==> samples[k][i] <= now
    ensures exists k :: (0 <= k < |samples| &&
      !Covered(Ages(later, samples[k]), Boundaries(StatsOf(AllAges(now, samples)), sd)))
  {
    hide Age, AllAges, Least, Sum, SumSq;
    var all := AllAges(now, samples);
    var oldest := Greatest(all);
    assert all[0] in all;
    var k, i := AgeComesFrom(now, samples, oldest);
    AgeGrows(now, later, samples[k][i]);
    assert Ages(later, samples[k])[i] > oldest;
    assert !Covered(Ages(later, samples[k]), Boundaries(StatsOf(all), sd));
  }

  lemma {:induction false} AgeComesFrom(now: nat, samples: seq<seq<nat>>, a: nat) returns (k: nat, i: nat)
    requires a in AllAges(now, samples)
    ensures k < |samples| && i < |samples[k]| && Age(now, samples[k][i]) == a
  {
    var n := |samples| - 1;
    if a in AllAges(now, samples[..n]) {
      k, i := AgeComesFrom(now, samples[..n], a);
    } else {
      var j :| 0 <= j < |Ages(now, samples[n])| && Ages(now, samples[n])[j] == a;
      k, i := n, j;
    }
  }

  /** The score of an object with n recorded accesses lies between -0.31 n and -0.06 n. */
  lemma {:induction false} UsefulnessRange(ages: seq<nat>, b: seq<real>)
    requires |b| == NUM_WINDOWS && Covered(ages, b)
    ensures 0.06 * |ages| as real <= Usefulness(ages, b) <= 0.31 * |ages| as real
  {
    if ages != [] {
      UsefulnessRange(ages[..|ages| - 1], b);
      WorthRange(ages[|ages| - 1], b);
    }
  }

  lemma WorthRange(age: nat, b: seq<real>)
    requires |b| == NUM_WINDOWS
    ensures 0.01 <= Worth(age, b) <= 0.31
    ensures age as real <= b[4] ==> Worth(age, b) >= 0.06
  {
    assert WINDOW_WEIGHTS[1] == 0.3 && WINDOW_WEIGHTS[2] == 0.2 && WINDOW_WEIGHTS[3] == 0.15 && WINDOW_WEIGHTS[4] == 0.05;
  }

  lemma WorthAntitone(age: nat, older: nat, b: seq<real>)
    requires |b| == NUM_WINDOWS && age <= older
    ensures Worth(age, b) >= Worth(older, b)
  {
    assert WINDOW_WEIGHTS[1] == 0.3 && WINDOW_WEIGHTS[2] == 0.2 && WINDOW_WEIGHTS[3] == 0.15 && WINDOW_WEIGHTS[4] == 0.05;
  }

  lemma {:induction false} UsefulnessConcat(xs: seq<nat>, ys: seq<nat>, b: seq<real>)
    requires |b| == NUM_WINDOWS
    ensures Usefulness(xs + ys, b) == Usefulness(xs, b) + Usefulness(ys, b)
    ensures Usefulness(ys, b) >= 0.0
  {
    if ys == [] {
      assert xs + ys == xs;
    } else {
      var init, y := ys[..|ys| - 1], ys[|ys| - 1];
      UsefulnessConcat(xs, init, b);
      WorthRange(y, b);
      assert (xs + ys)[..|xs + ys| - 1] == xs + init;
    }
  }

  lemma {:induction false} UsefulnessRemove(xs: seq<nat>, p: nat, b: seq<real>)
    requires |b| == NUM_WINDOWS && p < |xs|
    ensures Usefulness(xs, b) == Usefulness(xs[..p] + xs[p + 1..], b) + Worth(xs[p], b)
  {
    hide Worth, Usefulness;
    UsefulnessConcat(xs[..p], xs[p + 1..], b);
    UsefulnessConcat(xs[..p + 1], xs[p + 1..], b);
    assert xs[..p + 1] + xs[p + 1..] == xs;
    UsefulnessLast(xs, p, b);
  }

  lemma {:induction false} UsefulnessLast(xs: seq<nat>, p: nat, b: seq<real>)
    requires |b| == NUM_WINDOWS && p < |xs|
    ensures Usefulness(xs[..p + 1], b) == Usefulness(xs[..p], b) + Worth(xs[p], b)
  {
    hide Worth;
    assert xs[..p + 1][..p] == xs[..p];
  }

  /** A matching sends each of the n accesses of one object to an access of another that is no older. */
  ghost predicate Matches(f: seq<nat>, xs: seq<nat>, ys: seq<nat>) {
    && |f| == |ys| && Distinct(f)
    && forall i :: 0 <= i < |f| ==> f[i] < |xs| && xs[f[i]] <= ys[i]
  }

  /**
   * Dominance: an object whose accesses include, one for one, accesses no older than those of another is never
   * scored as the more evictable of the two, whatever the boundaries.
   */
  lemma {:induction false} Dominance(xs: seq<nat>, ys: seq<nat>, f: seq<nat>, b: seq<real>)
    requires |b| == NUM_WINDOWS && Matches(f, xs, ys)
    ensures Usefulness(xs, b) >= Usefulness(ys, b)
    decreases |ys|
  {
    hide Worth;
    if ys == [] {
      assert [] + xs == xs;
      UsefulnessConcat([], xs, b);
    } else {
      var n := |ys| - 1;
      var p := f[n];
      var rest := xs[..p] + xs[p + 1..];
      var g := seq(n, i requires 0 <= i < n => if f[i] < p then f[i] else f[i] - 1);
      forall i | 0 <= i < n ensures g[i] < |rest| && rest[g[i]] <= ys[..n][i] && f[i] != p {
        assert f[i] != f[n];
        assert rest[g[i]] == xs[f[i]];
      }
      forall i, j | 0 <= i < j < n ensures g[i] != g[j] {
        assert f[i] != f[j] && f[i] != p && f[j] != p;
      }
      Dominance(rest, ys[..n], g, b);
      UsefulnessRemove(xs, p, b);
      WorthAntitone(xs[p], ys[n], b);
    }
  }

  /**
   * Recording one more access never makes an object more evictable, whatever its history holds, even when its oldest
   * access is forgotten: the new access, of age 0, stands in for it.
   */
  lemma TouchNeverHurts(h: seq<nat>, now: nat, b: seq<real>)
    requires |b| == NUM_WINDOWS && |h| <= HISTORY_SIZE
    ensures Score(now, Touched(h, now), b) <= Score(now, h, b)
  {
    hide Usefulness;
    var xs, ys := Ages(now, Touched(h, now)), Ages(now, h);
    var f := if |h| < HISTORY_SIZE then seq(|h|, i => i) else [HISTORY_SIZE - 1] + seq(HISTORY_SIZE - 1, i => i);
    assert xs[|xs| - 1] == 0;
    Dominance(xs, ys, f, b);
  }

  // ------------------------------------------------------------------ the windows in terms of mean and deviation

  function SquaredDeviations(xs: seq<nat>, m: real): (r: real) {
    if xs == [] then 0.0
    else
      var d := xs[|xs| - 1] as real - m;
      SquaredDeviations(xs[..|xs| - 1], m) + d * d
  }

  lemma DeviationsStep(g: real, q: real, s: real, n: real, x: real, m: real)
    requires g == q - 2.0 * m * s + n * (m * m)
    ensures g + (x - m) * (x - m) == (q + x * x) - 2.0 * m * (s + x) + (n + 1.0) * (m * m)
  {
  }

  lemma {:induction false} DeviationsExpand(xs: seq<nat>, m: real)
    ensures SquaredDeviations(xs, m) == Expanded(SumSq(xs), Sum(xs), |xs|, m)
  {
    hide Sum, SumSq, SquaredDeviations, Least, Greatest, Expanded;
    if xs == [] {
      NothingToSum(m);
    } else {
      var init, x := xs[..|xs| - 1], xs[|xs| - 1];
      assert xs == init + [x];
      DeviationsExpand(init, m);
      AppendedAge(init, x);
      AppendedDeviation(init, x, m);
      OneDeviationMore(SquaredDeviations(init, m), SumSq(init), Sum(init), |init|, x, m);
    }
  }

  lemma {:induction false} NothingToSum(m: real)
    ensures SquaredDeviations([], m) == Expanded(SumSq([]), Sum([]), 0, m)
  {
  }

  lemma {:induction false} AppendedDeviation(xs: seq<nat>, x: nat, m: real)
    ensures SquaredDeviations(xs + [x], m) == SquaredDeviations(xs, m) + (x as real - m) * (x as real - m)
  {
    assert (xs + [x])[..|xs|] == xs;
  }

  function Expanded(q: nat, s: nat, n: nat, m: real): real {
    q as real - 2.0 * m * s as real + n as real * (m * m)
  }

  lemma OneDeviationMore(g: real, q: nat, s: nat, n: nat, x: nat, m: real)
    requires g == Expanded(q, s, n, m)
    ensures g + (x as real - m) * (x as real - m) == Expanded(q + x * x, s + x, n + 1, m)
  {
    RealSquare(x);
    DeviationsStep(g, q as real, s as real, n as real, x as real, m);
  }

  lemma RealSquare(x: nat)
    ensures (x * x) as real == x as real * x as real
  {
  }

  /** The mean of the ages and their standard deviation. */
  ghost predicate IsSpread(mean: real, sd: real, ages: seq<nat>) {
    && mean * |ages| as real == Sum(ages) as real
    && sd >= 0.0 && sd * sd * |ages| as real == SquaredDeviations(ages, mean)
  }

  lemma SpreadOf(q: real, s: real, n: real, m: real, v: real)
    requires n > 0.0 && m == s / n && v == q / n - m * m
    ensures m * n == s && v * n == q - 2.0 * m * s + n * (m * m)
  {
    assert m * n == s;
    assert q / n * n == q;
    assert m * m * n == m * s;
    assert n * (m * m) == m * s;
  }

  /** What the code takes for mean and deviation are the mean and the deviation. */
  lemma {:induction false} StatisticsAreTheSpread(ages: seq<nat>, sd: real)
    requires Recent(ages) && IsDeviation(sd, StatsOf(ages))
    ensures IsSpread(Mean(StatsOf(ages)), sd, ages)
  {
    hide Sum, SumSq, SquaredDeviations, StatsOf, Recent, Least, Greatest;
    NoOverflow(ages);
    SomeAges(ages);
    var m := Mean(StatsOf(ages));
    DeviationsExpand(ages, m);
    SpreadOf(SumSq(ages) as real, Sum(ages) as real, |ages| as real, m, sd * sd);
  }

  lemma SomeAges(ages: seq<nat>)
    requires Recent(ages)
    ensures |ages| > 0
  {
  }

  /**
   * Window 1 is for the least age and for ages at least a deviation below the mean, window 2 for the rest up to the
   * mean, window 3 for ages up to a deviation above it, and window 4 for those beyond.
   */
  ghost predicate SortsByDeviation(b: seq<real>, ages: seq<nat>, mean: real, sd: real) {
    |b| == NUM_WINDOWS && forall a: nat :: Least(ages) <= a <= Greatest(ages) ==> SortedByDeviation(a, b, ages, mean, sd)
  }

  ghost predicate SortedByDeviation(a: nat, b: seq<real>, ages: seq<nat>, mean: real, sd: real)
    requires |b| == NUM_WINDOWS
  {
    && (WindowOf(a, b) == 1 <==> a == Least(ages) || a as real + sd <= mean)
    && (WindowOf(a, b) <= 2 <==> a as real <= mean)
    && (WindowOf(a, b) <= 3 <==> a as real <= mean + sd)
    && WindowOf(a, b) <= 4
  }

  /** The boundaries of recent ages do sort by mean and deviation. */
  lemma {:induction false} WindowsSortByDeviation(ages: seq<nat>, sd: real)
    requires Recent(ages) && IsDeviation(sd, StatsOf(ages))
    ensures IsSpread(Mean(StatsOf(ages)), sd, ages)
    ensures SortsByDeviation(Boundaries(StatsOf(ages), sd), ages, Mean(StatsOf(ages)), sd)
  {
    hide Recent, Mean, Variance, IsSpread;
    StatisticsSound(ages);
    StatisticsAreTheSpread(ages, sd);
  }

  /** What an access is worth, by mean and deviation of the ages it is measured against. */
  function WorthByDeviation(a: nat, least: nat, mean: real, sd: real): (w: real) {
    if a == least || a as real + sd <= mean then 0.31
    else if a as real <= mean then 0.21
    else if a as real <= mean + sd then 0.16
    else 0.06
  }

  function UsefulnessByDeviation(xs: seq<nat>, least: nat, mean: real, sd: real): (u: real) {
    if xs == [] then 0.0
    else UsefulnessByDeviation(xs[..|xs| - 1], least, mean, sd) + WorthByDeviation(xs[|xs| - 1], least, mean, sd)
  }

  lemma {:induction false} WorthInNumbers(a: nat, b: seq<real>, ages: seq<nat>, mean: real, sd: real)
    requires |b| == NUM_WINDOWS && SortedByDeviation(a, b, ages, mean, sd)
    ensures Worth(a, b) == WorthByDeviation(a, Least(ages), mean, sd)
  {
    hide WindowOf;
    assert WINDOW_WEIGHTS[1] == 0.3 && WINDOW_WEIGHTS[2] == 0.2 && WINDOW_WEIGHTS[3] == 0.15 && WINDOW_WEIGHTS[4] == 0.05;
  }

  /** The score of an object that was drawn is determined by mean and deviation of the drawn ages. */
  lemma {:induction false} UsefulnessInNumbers(xs: seq<nat>, b: seq<real>, ages: seq<nat>, mean: real, sd: real)
    requires SortsByDeviation(b, ages, mean, sd)
    requires forall i :: 0 <= i < |xs| ==> Least(ages) <= xs[i] <= Greatest(ages)
    ensures Usefulness(xs, b) == UsefulnessByDeviation(xs, Least(ages), mean, sd)
  {
    hide SortedByDeviation, Worth, WorthByDeviation;
    if xs != [] {
      UsefulnessInNumbers(xs[..|xs| - 1], b, ages, mean, sd);
      assert Least(ages) <= xs[|xs| - 1] <= Greatest(ages);
      WorthInNumbers(xs[|xs| - 1], b, ages, mean, sd);
    }
  }

  function TotalAccesses(samples: seq<seq<nat>>): (n: nat) {
    if samples == [] then 0 else TotalAccesses(samples[..|samples| - 1]) + |samples[|samples| - 1]|
  }

  /** Every recorded access of every sampled object is counted, and counted once. */
  lemma {:induction false} EveryAccessCounts(now: nat, samples: seq<seq<nat>>)
    ensures |AllAges(now, samples)| == TotalAccesses(samples)
    ensures forall k, i :: 0 <= k < |samples| && 0 <= i < |samples[k]| ==> Age(now, samples[k][i]) in AllAges(now, samples)
    ensures forall a :: a in AllAges(now, samples) ==>
      exists k, i :: 0 <= k < |samples| && 0 <= i < |samples[k]| && Age(now, samples[k][i]) == a
  {
    hide AllAges, TotalAccesses, Age;
    forall k, i | 0 <= k < |samples| && 0 <= i < |samples[k]| ensures Age(now, samples[k][i]) in AllAges(now, samples) {
      AgesCollected(now, samples, k, i);
    }
    forall a | a in AllAges(now, samples)
      ensures exists k, i :: 0 <= k < |samples| && 0 <= i < |samples[k]| && Age(now, samples[k][i]) == a
    {
      var k, i := AgeComesFrom(now, samples, a);
    }
    AccessesCounted(now, samples);
  }

  lemma {:induction false} AccessesCounted(now: nat, samples: seq<seq<nat>>)
    ensures |AllAges(now, samples)| == TotalAccesses(samples)
  {
    if samples != [] {
      AccessesCounted(now, samples[..|samples| - 1]);
    }
  }
}
