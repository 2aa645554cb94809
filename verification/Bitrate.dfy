/** Adaptive bitrate (src/bitrate.c): the throughput average of `est_tp` and the ladder of `update_bitrate`,
    over `real` instead of `double`. */
module Bitrate {

  /** The average that `est_tp` returns, for a measured throughput `sample`. */
  function Average(alpha: real, current: real, sample: real): real {
    sample * alpha + current * (1.0 - alpha)
  }

  /** The throughput after a run of samples. */
  function After(alpha: real, start: real, samples: seq<real>): real {
    if samples == [] then start
    else Average(alpha, After(alpha, start, samples[..|samples| - 1]), samples[|samples| - 1])
  }

  function Pow(x: real, n: nat): real {
    if n == 0 then 1.0 else x * Pow(x, n - 1)
  }

  /** The sum of the first `m` samples, each weighted by how long ago it was taken. */
  ghost function Weighted(alpha: real, beta: real, samples: seq<real>, m: nat): real
    requires m <= |samples|
  {
    if m == 0 then 0.0
    else Weighted(alpha, beta, samples, m - 1) + alpha * Pow(beta, |samples| - m) * samples[m - 1]
  }

  lemma OlderByOne(alpha: real, b: real, p: real, x: real, w: real)
    ensures b * w + alpha * (b * p) * x == b * (w + alpha * p * x)
  {
    assert alpha * (b * p) * x == b * (alpha * p * x);
  }

  lemma {:induction false} WeightedSnoc(alpha: real, beta: real, samples: seq<real>, s: real, m: nat)
    requires m <= |samples|
    ensures Weighted(alpha, beta, samples + [s], m) == beta * Weighted(alpha, beta, samples, m)
  {
    if m == 0 {
      assert beta * 0.0 == 0.0;
    } else {
      WeightedSnoc(alpha, beta, samples, s, m - 1);
      assert |samples + [s]| - m == |samples| - m + 1;
      OlderByOne(alpha, beta, Pow(beta, |samples| - m), samples[m - 1], Weighted(alpha, beta, samples, m - 1));
    }
  }

  lemma OneMoreSample(alpha: real, b: real, p: real, start: real, w: real, s: real, before: real,
                      p': real, w': real, after: real)
    requires before == p * start + w && after == s * alpha + before * b
    requires p' == b * p && w' == b * w + alpha * 1.0 * s
    ensures after == p' * start + w'
  {
    assert before * b == (p * start) * b + w * b;
    assert (p * start) * b == (b * p) * start;
  }

  lemma PowStep(x: real, n: nat)
    ensures Pow(x, n + 1) == x * Pow(x, n)
  {
  }

  lemma LastSample(alpha: real, beta: real, init: seq<real>, s: real)
    ensures Weighted(alpha, beta, init + [s], |init| + 1) == beta * Weighted(alpha, beta, init, |init|) + alpha * 1.0 * s
  {
    WeightedSnoc(alpha, beta, init, s, |init|);
    assert Pow(beta, 0) == 1.0;
  }

  lemma AfterSnoc(alpha: real, beta: real, start: real, samples: seq<real>)
    requires beta == 1.0 - alpha && samples != []
    ensures After(alpha, start, samples)
            == samples[|samples| - 1] * alpha + After(alpha, start, samples[..|samples| - 1]) * beta
  {
  }

  lemma NoSamples(alpha: real, beta: real, start: real)
    ensures After(alpha, start, []) == start && Pow(beta, 0) == 1.0 && Weighted(alpha, beta, [], 0) == 0.0
  {
  }

  lemma {:induction false} AfterWeighted(alpha: real, beta: real, start: real, samples: seq<real>)
    requires beta == 1.0 - alpha
    ensures After(alpha, start, samples) == Pow(beta, |samples|) * start + Weighted(alpha, beta, samples, |samples|)
    decreases |samples|
  {
    hide *;
    if samples == [] {
      NoSamples(alpha, beta, start);
    } else {
      var init, s := samples[..|samples| - 1], samples[|samples| - 1];
      AfterWeighted(alpha, beta, start, init);
      AfterSnoc(alpha, beta, start, samples);
      PowStep(beta, |init|);
      LastSample(alpha, beta, init, s);
      assert init + [s] == samples;
      OneMoreSample(alpha, beta, Pow(beta, |init|), start, Weighted(alpha, beta, init, |init|), s,
                    After(alpha, start, init), Pow(beta, |samples|), Weighted(alpha, beta, samples, |samples|),
                    After(alpha, start, samples));
    }
  }

  /** Closed form: after n samples, (1-alpha)^n of the start and alpha(1-alpha)^(n-k) of the k-th sample. */
  lemma AfterClosedForm(alpha: real, start: real, samples: seq<real>)
    ensures After(alpha, start, samples)
            == Pow(1.0 - alpha, |samples|) * start + Weighted(alpha, 1.0 - alpha, samples, |samples|)
  {
    AfterWeighted(alpha, 1.0 - alpha, start, samples);
  }

  lemma ScaleMonotone(x: real, y: real, factor: real)
    requires x <= y && factor >= 0.0
    ensures x * factor <= y * factor
  {
  }

  lemma Fraction(d: real, alpha: real) returns (e: real)
    requires 0.0 <= alpha <= 1.0
    ensures e == d * alpha
    ensures d >= 0.0 ==> 0.0 <= e <= d
    ensures d <= 0.0 ==> d <= e <= 0.0
  {
    e := d * alpha;
  }

  lemma StepIsFraction(alpha: real, x: real, y: real, d: real, e: real)
    requires y == x + d && e == d * alpha
    ensures Average(alpha, x, y) == x + e
  {
    assert y * alpha == x * alpha + d * alpha;
    assert x * (1.0 - alpha) == x - x * alpha;
  }

  /** The average moves from the current value towards the sample, and not past it. */
  lemma AverageMoves(alpha: real, x: real, y: real) returns (e: real)
    requires 0.0 <= alpha <= 1.0
    ensures Average(alpha, x, y) == x + e
    ensures y >= x ==> 0.0 <= e <= y - x
    ensures y <= x ==> y - x <= e <= 0.0
  {
    hide *;
    e := Fraction(y - x, alpha);
    StepIsFraction(alpha, x, y, y - x, e);
  }

  lemma AverageBetween(alpha: real, x: real, y: real, lo: real, hi: real)
    requires 0.0 <= alpha <= 1.0 && lo <= x <= hi && lo <= y <= hi
    ensures lo <= Average(alpha, x, y) <= hi
  {
    hide *;
    var e := AverageMoves(alpha, x, y);
  }

  /** For alpha in [0,1] the average never leaves the hull of the start and the samples. */
  lemma {:induction false} AfterInHull(alpha: real, start: real, samples: seq<real>, lo: real, hi: real)
    requires 0.0 <= alpha <= 1.0 && lo <= start <= hi && forall s | s in samples :: lo <= s <= hi
    ensures lo <= After(alpha, start, samples) <= hi
    decreases |samples|
  {
    if samples != [] {
      var init := samples[..|samples| - 1];
      assert samples[|samples| - 1] in samples && forall s | s in init :: s in samples;
      AfterInHull(alpha, start, init, lo, hi);
      AverageBetween(alpha, After(alpha, start, init), samples[|samples| - 1], lo, hi);
    }
  }

  /** Two sessions that see the same samples drift together by exactly (1-alpha)^n. */
  lemma {:induction false} AfterForgetsStart(alpha: real, start: real, start': real, samples: seq<real>)
    ensures After(alpha, start, samples) - After(alpha, start', samples)
            == Pow(1.0 - alpha, |samples|) * (start - start')
  {
    AfterClosedForm(alpha, start, samples);
    AfterClosedForm(alpha, start', samples);
  }

  // ----- the ladder

  const RATES := [10, 100, 500, 1000]
  const DEFAULT_RATE := 100

  /** The rate chosen for a throughput. */
  function Rate(throughput: real): nat {
    if 1500.0 <= throughput then 1000
    else if 750.0 <= throughput then 500
    else if 150.0 <= throughput then 100
    else if 15.0 <= throughput then 10
    else DEFAULT_RATE
  }

  /** The loop of `update_bitrate`: the largest rung that fits one and a half times; 100 when none does. */
  method ChooseRate(throughput: real) returns (rate: int)
    ensures rate == Rate(throughput)
    ensures throughput >= 15.0 ==> rate in [10, 100, 500, 1000] && 1.5 * rate as real <= throughput
    ensures throughput < 15.0 ==> rate == 100
    ensures forall r | r in [10, 100, 500, 1000] && 1.5 * r as real <= throughput :: r <= rate
  {
    rate := DEFAULT_RATE;
    var i := 3;
    while i >= 0
      invariant -1 <= i <= 3 && rate == DEFAULT_RATE
      invariant (i < 3 ==> throughput < 1500.0) && (i < 2 ==> throughput < 750.0)
      invariant (i < 1 ==> throughput < 150.0) && (i < 0 ==> throughput < 15.0)
    {
      if RATES[i] as real * 1.5 <= throughput {
        rate := RATES[i];
        break;
      }
      i := i - 1;
    }
  }

  /** The chosen rate fits the throughput exactly when the throughput is at least 15: below, the ladder jumps
      to 100 instead of its lowest rung. */
  lemma RateFitsExactly(throughput: real)
    ensures 1.5 * Rate(throughput) as real <= throughput <==> 15.0 <= throughput
  {
  }

  /** More throughput means no lower rate, except across the jump at the bottom. */
  lemma RateMonotoneExactly(t: real, u: real)
    requires t <= u
    ensures Rate(t) <= Rate(u) <==> !(t < 15.0 <= u < 150.0)
  {
  }

  // ----- convergence

  lemma BernoulliFactor(alpha: real, f: real)
    requires 0.0 <= alpha <= 1.0 && f >= 1.0
    ensures (1.0 - alpha) * (f + alpha) <= f
  {
    var x := f - 1.0 + alpha;
    assert alpha * x >= 0.0;
    assert (1.0 - alpha) * (f + alpha) == f - alpha * x;
  }

  lemma BernoulliStep(b: real, p: real, f: real, g: real)
    requires p >= 0.0 && p * f <= 1.0 && b * g <= f
    ensures (b * p) * g <= 1.0
  {
    ScaleMonotone(b * g, f, p);
    assert (b * p) * g == (b * g) * p;
  }

  lemma ProductNonNegative(x: real, y: real)
    requires x >= 0.0 && y >= 0.0
    ensures x * y >= 0.0
  {
  }

  /** Bernoulli's inequality in the form (1-a)^n (1+na) <= 1. */
  lemma {:induction false} PowBound(alpha: real, n: nat)
    requires 0.0 <= alpha <= 1.0
    ensures 0.0 <= Pow(1.0 - alpha, n) && Pow(1.0 - alpha, n) * (1.0 + n as real * alpha) <= 1.0
  {
    if n == 0 {
      assert 0.0 * alpha == 0.0;
    } else {
      PowBound(alpha, n - 1);
      var b, p := 1.0 - alpha, Pow(1.0 - alpha, n - 1);
      var m := (n - 1) as real;
      var f, g := 1.0 + m * alpha, 1.0 + n as real * alpha;
      ProductNonNegative(m, alpha);
      assert n as real == m + 1.0;
      assert (m + 1.0) * alpha == m * alpha + alpha;
      BernoulliFactor(alpha, f);
      BernoulliStep(b, p, f, g);
      ProductNonNegative(b, p);
    }
  }

  lemma SumMonotone(a: real, b: real, x: real, y: real, x': real, y': real)
    requires a >= 0.0 && b >= 0.0 && x <= x' && y <= y'
    ensures y * a + x * b <= y' * a + x' * b
  {
    ScaleMonotone(y, y', a);
    ScaleMonotone(x, x', b);
  }

  lemma GapShrinks(alpha: real, beta: real, s: real, gap: real)
    requires beta == 1.0 - alpha
    ensures s * alpha + (s - gap) * beta == s - beta * gap
  {
    assert s * alpha + s * beta == s;
  }

  lemma LowerBoundStep(alpha: real, beta: real, p: real, p': real, t: real, x: real, s: real, t': real)
    requires 0.0 <= alpha <= 1.0 && beta == 1.0 - alpha && p' == beta * p && x >= s && t >= s - p * s
    requires t' == x * alpha + t * beta
    ensures t' >= s - p' * s
  {
    var gap := p * s;
    assert p' * s == beta * gap;
    SumMonotone(alpha, beta, s - gap, s, t, x);
    GapShrinks(alpha, beta, s, gap);
  }

  /** When all samples reach `s`, the average misses `s` by at most (1-alpha)^n of `s`. */
  lemma {:induction false} AfterLowerBound(alpha: real, beta: real, start: real, samples: seq<real>, s: real)
    requires 0.0 <= alpha <= 1.0 && beta == 1.0 - alpha && start >= 0.0 && forall x | x in samples :: x >= s
    ensures After(alpha, start, samples) >= s - Pow(beta, |samples|) * s
    decreases |samples|
  {
    hide *;
    if samples == [] {
      NoSamples(alpha, beta, start);
    } else {
      var init, x := samples[..|samples| - 1], samples[|samples| - 1];
      assert x in samples && forall y | y in init :: y in samples;
      AfterLowerBound(alpha, beta, start, init, s);
      AfterSnoc(alpha, beta, start, samples);
      PowStep(beta, |init|);
      LowerBoundStep(alpha, beta, Pow(beta, |init|), Pow(beta, |samples|), After(alpha, start, init), x, s,
                     After(alpha, start, samples));
    }
  }

  /** Enough samples for the average to reach `need` when every sample is at least `s`. */
  function SettlingTime(alpha: real, s: real, need: real): nat
    requires 0.0 < alpha <= 1.0 && 0.0 <= need < s
  {
    QuotientNonNegative(alpha, s - need, need);
    var x := need / (alpha * (s - need));
    x.Floor + 1
  }

  lemma QuotientNonNegative(x: real, y: real, z: real)
    requires x > 0.0 && y > 0.0 && z >= 0.0
    ensures x * y > 0.0 && z / (x * y) >= 0.0
  {
  }

  /** Convergence: once `SettlingTime` samples have been taken, all of them above one and a half times a rung
      `r`, every rate chosen is at least `r`, whatever the throughput was before. */
  lemma RateConverges(alpha: real, start: real, samples: seq<real>, s: real, r: int)
    requires 0.0 < alpha <= 1.0 && start >= 0.0 && r in RATES && s > 1.5 * r as real
    requires forall x | x in samples :: x >= s
    requires |samples| >= SettlingTime(alpha, s, 1.5 * r as real)
    ensures After(alpha, start, samples) >= 1.5 * r as real
    ensures Rate(After(alpha, start, samples)) >= r
  {
    AfterReaches(alpha, start, samples, s, 1.5 * r as real);
    RateAtLeast(After(alpha, start, samples), r);
  }

  lemma AfterReaches(alpha: real, start: real, samples: seq<real>, s: real, need: real)
    requires 0.0 < alpha <= 1.0 && start >= 0.0 && 0.0 <= need < s
    requires forall x | x in samples :: x >= s
    requires |samples| >= SettlingTime(alpha, s, need)
    ensures After(alpha, start, samples) >= need
  {
    AfterLowerBound(alpha, 1.0 - alpha, start, samples, s);
    PowSmall(alpha, s, need, |samples|);
  }

  /** (1-alpha)^n of `s` fits in the margin once n reaches the settling time. */
  lemma PowSmall(alpha: real, s: real, need: real, n: nat)
    requires 0.0 < alpha <= 1.0 && 0.0 <= need < s && n >= SettlingTime(alpha, s, need)
    ensures Pow(1.0 - alpha, n) * s <= s - need
  {
    var p, q := GrowthFactor(alpha, s, need, n);
    SmallRemainder(p, q, s, need);
  }

  /** The factor 1 + n alpha outgrows s / (s - need) and bounds the inverse of (1-alpha)^n. */
  lemma GrowthFactor(alpha: real, s: real, need: real, n: nat) returns (p: real, q: real)
    requires 0.0 < alpha <= 1.0 && 0.0 <= need < s && n >= SettlingTime(alpha, s, need)
    ensures p == Pow(1.0 - alpha, n) && 0.0 <= p && p * q <= 1.0 && (s - need) * q >= s
  {
    PowBound(alpha, n);
    EnoughSamples(alpha, s, need, n);
    p, q := Pow(1.0 - alpha, n), 1.0 + n as real * alpha;
  }

  lemma SmallRemainder(p: real, q: real, s: real, need: real)
    requires 0.0 <= p && p * q <= 1.0 && need < s && (s - need) * q >= s
    ensures p * s <= s - need
  {
    ScaleMonotone(s, (s - need) * q, p);
    ScaleMonotone(p * q, 1.0, s - need);
    assert ((s - need) * q) * p == (p * q) * (s - need);
  }

  lemma RateAtLeast(throughput: real, r: int)
    requires r in RATES && throughput >= 1.5 * r as real
    ensures Rate(throughput) >= r
  {
  }

  lemma EnoughSamples(alpha: real, s: real, need: real, n: nat)
    requires 0.0 < alpha <= 1.0 && 0.0 <= need < s && n >= SettlingTime(alpha, s, need)
    ensures (s - need) * (1.0 + n as real * alpha) >= s
  {
    var x := need / (alpha * (s - need));
    QuotientNonNegative(alpha, s - need, need);
    FloorAbove(x, n);
    Enough(alpha, s - need, need, x, n as real);
  }

  lemma FloorAbove(x: real, n: nat)
    requires n >= x.Floor + 1
    ensures n as real >= x
  {
  }

  lemma Enough(alpha: real, gap: real, need: real, x: real, n: real)
    requires alpha * gap > 0.0 && x == need / (alpha * gap) && n >= x
    ensures gap * (1.0 + n * alpha) >= gap + need
  {
    var d := alpha * gap;
    assert x * d == need;
    ScaleMonotone(x, n, d);
    Regroup(alpha, gap, n);
  }

  lemma Regroup(alpha: real, gap: real, n: real)
    ensures gap * (1.0 + n * alpha) == gap + n * (alpha * gap)
  {
  }
}
