/** The statistics pandas computes for the detector and the cleaner: sum, mean, sample
    variance (the square of `std()`, ddof = 1) and the linearly interpolated quantile.
    Values are exact reals; floating-point rounding is not modelled. */
module Stats {
  import opened Sorting

  function Sum(xs: seq<real>): real
  {
    if xs == [] then 0.0 else xs[0] + Sum(xs[1..])
  }

  /** The number of values, counted as a real so that the statistics stay within real
      arithmetic. */
  function Size(xs: seq<real>): real
  {
    if xs == [] then 0.0 else 1.0 + Size(xs[1..])
  }

  function Mean(xs: seq<real>): real
    requires |xs| > 0
  {
    SizeBounds(xs);
    Sum(xs) / Size(xs)
  }

  /** Sum of the deviations of `xs` from `c`. */
  function Dev(xs: seq<real>, c: real): real
  {
    if xs == [] then 0.0 else (xs[0] - c) + Dev(xs[1..], c)
  }

  /** Sum of the squared deviations of `xs` from `c`. */
  function SqDev(xs: seq<real>, c: real): real
  {
    if xs == [] then 0.0 else (xs[0] - c) * (xs[0] - c) + SqDev(xs[1..], c)
  }

  /** Sample variance: the square of pandas' `std()`, which divides by n - 1 and is NaN
      below two values; it is defined from two values on. */
  function SampleVariance(xs: seq<real>): (v: real)
    requires |xs| >= 2
    ensures v >= 0.0
  {
    var ss, d := SqDev(xs, Mean(xs)), Size(xs) - 1.0;
    SizeBounds(xs);
    SqDevNonNegative(xs, Mean(xs));
    QuotientNonNegative(ss, d);
    ss / d
  }

  // Facts of real arithmetic, each on plain variables.

  lemma ProductNonNegative(a: real, b: real)
    requires a >= 0.0 && b >= 0.0
    ensures a * b >= 0.0
  {
  }

  lemma ProductPositive(a: real, b: real)
    requires a > 0.0 && b > 0.0
    ensures a * b > 0.0
  {
  }

  lemma SquareNonNegative(x: real)
    ensures x * x >= 0.0
  {
  }

  lemma QuotientNonNegative(a: real, b: real)
    requires a >= 0.0 && b > 0.0
    ensures a / b >= 0.0
  {
  }

  lemma NonNegativeFactor(k: real, x: real)
    requires k > 0.0 && k * x >= 0.0
    ensures x >= 0.0
  {
    if x < 0.0 {
      ProductPositive(k, -x);
    }
  }

  lemma FractionOfGap(f: real, d: real)
    requires 0.0 <= f <= 1.0 && d >= 0.0
    ensures 0.0 <= f * d <= d
  {
    ProductNonNegative(f, d);
    ProductNonNegative(1.0 - f, d);
  }

  /** The inductive step of Cauchy-Schwarz for deviations: adding one deviation `d` to a
      collection with total deviation `e`, size `k` and squared deviations `s`. */
  lemma CauchyStep(d: real, e: real, k: real, s: real, dAll: real, kAll: real, sAll: real)
    requires s >= 0.0 && e * e <= k * s && (k > 0.0 || (k == 0.0 && e == 0.0))
    requires dAll == d + e && kAll == k + 1.0 && sAll == d * d + s
    ensures dAll * dAll <= kAll * sAll
  {
    if k == 0.0 {
      assert dAll * dAll == d * d;
    } else {
      var slack, g := k * s - e * e, k * d - e;
      var x := kAll * sAll - dAll * dAll;
      assert k * x == (k + 1.0) * slack + g * g;
      ProductNonNegative(k + 1.0, slack);
      SquareNonNegative(g);
      NonNegativeFactor(k, x);
    }
  }

  /** Samuelson's bound from Cauchy-Schwarz on the other n - 1 values, whose deviations
      from the mean add up to m - x. */
  lemma SamuelsonStep(n: real, x: real, m: real, ss: real, e: real, k: real, s: real)
    requires k == n - 1.0 && e == m - x && ss == (x - m) * (x - m) + s
    requires e * e <= k * s
    ensures n * ((x - m) * (x - m)) <= (n - 1.0) * ss
  {
    var d2 := (x - m) * (x - m);
    assert e * e == d2;
    assert (n - 1.0) * ss == k * d2 + k * s;
    assert n * d2 == k * d2 + d2;
  }

  lemma MeanOfTotal(t: real, k: real, c: real)
    requires k > 0.0 && t == k * c
    ensures t / k == c
  {
  }

  // Facts about the sequence functions.

  lemma {:induction false} SizeBounds(xs: seq<real>)
    ensures Size(xs) == |xs| as real
    ensures xs != [] ==> Size(xs) >= 1.0
  {
    if xs != [] {
      SizeBounds(xs[1..]);
    }
  }

  lemma {:induction false} SqDevNonNegative(xs: seq<real>, c: real)
    ensures SqDev(xs, c) >= 0.0
  {
    if xs != [] {
      SqDevNonNegative(xs[1..], c);
      SquareNonNegative(xs[0] - c);
    }
  }

  /** The deviations from `c` add up to the sum minus n copies of `c`; the quantities
      are handed back as plain values `d`, `t`, `k`. */
  lemma {:induction false} DevOfSum(xs: seq<real>, c: real) returns (d: real, t: real, k: real)
    ensures d == Dev(xs, c) && t == Sum(xs) && k == Size(xs)
    ensures d == t - k * c
  {
    d, t, k := Dev(xs, c), Sum(xs), Size(xs);
    if xs != [] {
      var d0, t0, k0 := DevOfSum(xs[1..], c);
      assert k * c == c + k0 * c;
    }
  }

  /** Deviations from the mean add up to zero. */
  lemma DevOfMean(xs: seq<real>)
    requires |xs| > 0
    ensures Dev(xs, Mean(xs)) == 0.0
  {
    var m := Mean(xs);
    var d, t, k := DevOfSum(xs, m);
    SizeBounds(xs);
    assert k * m == t;
  }

  /** Cauchy-Schwarz for deviations: (sum of (y - c))^2 <= n * sum of (y - c)^2, with the
      three sums handed back as `d`, `k` and `s`. */
  lemma {:induction false} DeviationBound(xs: seq<real>, c: real) returns (d: real, k: real, s: real)
    ensures d == Dev(xs, c) && k == Size(xs) && s == SqDev(xs, c)
    ensures d * d <= k * s
  {
    d, k, s := Dev(xs, c), Size(xs), SqDev(xs, c);
    if xs != [] {
      var e, k0, s0 := DeviationBound(xs[1..], c);
      SizeBounds(xs[1..]);
      SqDevNonNegative(xs[1..], c);
      CauchyStep(xs[0] - c, e, k0, s0, d, k, s);
    }
  }

  lemma {:induction false} SizeAppend(a: seq<real>, b: seq<real>)
    ensures Size(a + b) == Size(a) + Size(b)
  {
    if a == [] {
      assert a + b == b;
    } else {
      assert (a + b)[1..] == a[1..] + b;
      SizeAppend(a[1..], b);
    }
  }

  lemma {:induction false} DevAppend(a: seq<real>, b: seq<real>, c: real)
    ensures Dev(a + b, c) == Dev(a, c) + Dev(b, c)
  {
    if a == [] {
      assert a + b == b;
    } else {
      assert (a + b)[1..] == a[1..] + b;
      DevAppend(a[1..], b, c);
    }
  }

  lemma {:induction false} SqDevAppend(a: seq<real>, b: seq<real>, c: real)
    ensures SqDev(a + b, c) == SqDev(a, c) + SqDev(b, c)
  {
    if a == [] {
      assert a + b == b;
    } else {
      assert (a + b)[1..] == a[1..] + b;
      SqDevAppend(a[1..], b, c);
    }
  }

  /** Taking the value at `i` out of `xs`: the size, the deviations and the squared
      deviations split into its own share and the share of the rest. */
  lemma SplitAt(xs: seq<real>, i: int, c: real) returns (rest: seq<real>)
    requires 0 <= i < |xs|
    ensures |rest| == |xs| - 1
    ensures Size(xs) == 1.0 + Size(rest)
    ensures Dev(xs, c) == (xs[i] - c) + Dev(rest, c)
    ensures SqDev(xs, c) == (xs[i] - c) * (xs[i] - c) + SqDev(rest, c)
  {
    var pre, post := xs[..i], xs[i + 1..];
    rest := pre + post;
    assert xs == pre + [xs[i]] + post;
    SplitSize(pre, xs[i], post);
    SplitDev(pre, xs[i], post, c);
    SplitSqDev(pre, xs[i], post, c);
  }

  lemma SplitSize(pre: seq<real>, x: real, post: seq<real>)
    ensures Size(pre + [x] + post) == 1.0 + Size(pre + post)
  {
    SizeAppend(pre + [x], post);
    SizeAppend(pre, [x]);
    SizeAppend(pre, post);
    assert Size([x]) == 1.0;
  }

  lemma SplitDev(pre: seq<real>, x: real, post: seq<real>, c: real)
    ensures Dev(pre + [x] + post, c) == (x - c) + Dev(pre + post, c)
  {
    DevAppend(pre + [x], post, c);
    DevAppend(pre, [x], c);
    DevAppend(pre, post, c);
    assert Dev([x], c) == x - c;
  }

  lemma SplitSqDev(pre: seq<real>, x: real, post: seq<real>, c: real)
    ensures SqDev(pre + [x] + post, c) == (x - c) * (x - c) + SqDev(pre + post, c)
  {
    SqDevAppend(pre + [x], post, c);
    SqDevAppend(pre, [x], c);
    SqDevAppend(pre, post, c);
    SqDevSingle(x, c);
  }

  lemma SqDevSingle(x: real, c: real)
    ensures SqDev([x], c) == (x - c) * (x - c)
  {
    var s := [x];
    assert s[0] == x && s[1..] == [];
    assert SqDev(s, c) == (s[0] - c) * (s[0] - c) + SqDev(s[1..], c);
  }

  /** Samuelson's inequality: no value lies further from the mean than the sample allows,
      n * (x_i - mean)^2 <= (n - 1) * (sum of squared deviations from the mean), for the
      size `n`, the mean `m` and the squared deviations `ss` of `xs`. */
  lemma Samuelson(xs: seq<real>, i: int, n: real, m: real, ss: real)
    requires 2 <= |xs| && 0 <= i < |xs|
    requires n == Size(xs) && m == Mean(xs) && ss == SqDev(xs, m)
    ensures n * ((xs[i] - m) * (xs[i] - m)) <= (n - 1.0) * ss
  {
    var e, k, s := SamuelsonParts(xs, i, n, m, ss);
    SamuelsonStep(n, xs[i], m, ss, e, k, s);
  }

  /** The other n - 1 values: their deviations from the mean add up to m - x_i, and
      Cauchy-Schwarz bounds the square of that sum. */
  lemma SamuelsonParts(xs: seq<real>, i: int, n: real, m: real, ss: real)
    returns (e: real, k: real, s: real)
    requires 2 <= |xs| && 0 <= i < |xs|
    requires n == Size(xs) && m == Mean(xs) && ss == SqDev(xs, m)
    ensures k == n - 1.0 && e == m - xs[i] && ss == (xs[i] - m) * (xs[i] - m) + s
    ensures e * e <= k * s
  {
    DevOfMean(xs);
    var rest := SplitAt(xs, i, m);
    e, k, s := DeviationBound(rest, m);
  }

  /** The size, mean, squared deviations and sample variance of `xs`, with the division
      undone: ss = (n - 1) * v. */
  lemma VarianceParts(xs: seq<real>) returns (n: real, m: real, ss: real, v: real)
    requires |xs| >= 2
    ensures n == Size(xs) && m == Mean(xs) && ss == SqDev(xs, m) && v == SampleVariance(xs)
    ensures n == |xs| as real && ss == (n - 1.0) * v
  {
    n, m := Size(xs), Mean(xs);
    ss, v := SqDev(xs, m), SampleVariance(xs);
    SizeBounds(xs);
    QuotientTimes(ss, n - 1.0);
  }

  lemma QuotientTimes(a: real, d: real)
    requires d != 0.0
    ensures a == d * (a / d)
  {
  }

  /** Constant data: its mean is the constant and nothing deviates from it. */
  lemma ConstantStats(xs: seq<real>, c: real)
    requires |xs| > 0
    requires forall i :: 0 <= i < |xs| ==> xs[i] == c
    ensures Mean(xs) == c
    ensures SqDev(xs, c) == 0.0
  {
    var t, k := ConstantSum(xs, c);
    SizeBounds(xs);
    MeanOfTotal(t, k, c);
  }

  lemma {:induction false} ConstantSum(xs: seq<real>, c: real) returns (t: real, k: real)
    requires forall i :: 0 <= i < |xs| ==> xs[i] == c
    ensures t == Sum(xs) && k == Size(xs) && t == k * c
    ensures SqDev(xs, c) == 0.0
  {
    t, k := Sum(xs), Size(xs);
    if xs != [] {
      var t0, k0 := ConstantSum(xs[1..], c);
      assert k * c == c + k0 * c;
    }
  }

  /** Ascending order of reals. */
  function RealKey(x: real): real
  {
    x
  }

  function Sorted(xs: seq<real>): (s: seq<real>)
    ensures |s| == |xs| && multiset(s) == multiset(xs)
    ensures forall i, j :: 0 <= i < j < |s| ==> s[i] <= s[j]
  {
    SortBy(xs, RealKey)
  }

  lemma ScaledFraction(m: real, q: real)
    requires m >= 0.0 && 0.0 <= q <= 1.0
    ensures 0.0 <= m * q <= m
  {
    ProductNonNegative(m, q);
    ProductNonNegative(m, 1.0 - q);
  }

  /** Linear interpolation from `a` towards `b` by the fraction `f`. */
  function Lerp(a: real, b: real, f: real): (r: real)
    requires a <= b && 0.0 <= f <= 1.0
    ensures a <= r <= b
  {
    var d := b - a;
    FractionOfGap(f, d);
    var g := f * d;
    assert 0.0 <= g <= d;
    a + g
  }

  lemma LerpMonotone(a: real, b: real, f1: real, f2: real)
    requires a <= b && 0.0 <= f1 <= f2 <= 1.0
    ensures Lerp(a, b, f1) <= Lerp(a, b, f2)
  {
    ProductNonNegative(f2 - f1, b - a);
  }

  /** The position h = (n - 1) * q of the q-quantile among n sorted values. */
  function QuantilePosition(s: seq<real>, q: real): (h: real)
    requires |s| > 0 && 0.0 <= q <= 1.0
    ensures 0.0 <= h <= (|s| - 1) as real
  {
    var m := Size(s) - 1.0;
    SizeBounds(s);
    ScaledFraction(m, q);
    m * q
  }

  lemma QuantilePositionMonotone(s: seq<real>, q1: real, q2: real)
    requires |s| > 0 && 0.0 <= q1 <= q2 <= 1.0
    ensures QuantilePosition(s, q1) <= QuantilePosition(s, q2)
  {
    var m := Size(s) - 1.0;
    SizeBounds(s);
    ProductNonNegative(m, q2 - q1);
  }

  /** Index just above `lo`, capped at the last element. */
  function Upper(lo: int, n: int): int
  {
    if lo + 1 < n then lo + 1 else lo
  }

  /** The linear-interpolation quantile on ascending data: position h = (n - 1) * q,
      interpolated between s[floor h] and the next element. */
  function QuantileOfSorted(s: seq<real>, q: real): (r: real)
    requires |s| > 0 && 0.0 <= q <= 1.0
    requires forall i, j :: 0 <= i < j < |s| ==> s[i] <= s[j]
    ensures s[0] <= r <= s[|s| - 1]
  {
    var h := QuantilePosition(s, q);
    var lo := h.Floor;
    var hi := Upper(lo, |s|);
    var r := Lerp(s[lo], s[hi], h - lo as real);
    assert s[0] <= s[lo] && s[hi] <= s[|s| - 1];
    r
  }

  /** pandas' `Series.quantile(q)` with its default linear interpolation. The result
      lies between two of the data values. */
  function Quantile(xs: seq<real>, q: real): (r: real)
    requires |xs| > 0 && 0.0 <= q <= 1.0
    ensures exists i :: 0 <= i < |xs| && xs[i] <= r
    ensures exists j :: 0 <= j < |xs| && r <= xs[j]
  {
    var s := Sorted(xs);
    var r := QuantileOfSorted(s, q);
    ElementAtSomeIndex(xs, s[0]);
    ElementAtSomeIndex(xs, s[|s| - 1]);
    r
  }

  /** An element of the multiset of `xs` sits at some index of `xs`. */
  lemma ElementAtSomeIndex(xs: seq<real>, x: real)
    requires x in multiset(xs)
    ensures exists i :: 0 <= i < |xs| && xs[i] == x
  {
    assert x in xs;
  }

  lemma QuantileOfSortedMonotone(s: seq<real>, q1: real, q2: real)
    requires |s| > 0 && 0.0 <= q1 <= q2 <= 1.0
    requires forall i, j :: 0 <= i < j < |s| ==> s[i] <= s[j]
    ensures QuantileOfSorted(s, q1) <= QuantileOfSorted(s, q2)
  {
    QuantilePositionMonotone(s, q1, q2);
    var h1, h2 := QuantilePosition(s, q1), QuantilePosition(s, q2);
    var lo1, lo2 := h1.Floor, h2.Floor;
    var hi1, hi2 := Upper(lo1, |s|), Upper(lo2, |s|);
    if lo1 == lo2 {
      LerpMonotone(s[lo1], s[hi1], h1 - lo1 as real, h2 - lo2 as real);
    } else {
      assert Lerp(s[lo1], s[hi1], h1 - lo1 as real) <= s[hi1] <= s[lo2];
    }
  }

  /** Quantiles increase with q; in particular Q1 <= Q3. */
  lemma QuantileMonotone(xs: seq<real>, q1: real, q2: real)
    requires |xs| > 0 && 0.0 <= q1 <= q2 <= 1.0
    ensures Quantile(xs, q1) <= Quantile(xs, q2)
  {
    QuantileOfSortedMonotone(Sorted(xs), q1, q2);
  }
}
