/** validate_and_flag: sort the ticks by time, compute six anomaly flags per row, OR them
    into `is_anomaly` and count the anomalous rows. */
module Detector {
  import opened Wrappers
  import opened Ticks
  import opened Sorting
  import opened Stats

  /** The six flag columns, in the order the source ORs them. */
  datatype Flags = Flags(missingPrice: bool, negativePrice: bool, zeroVolume: bool,
                         outlierZ: bool, outlierIqr: bool, gapLarge: bool)
  {
    /** `any(axis=1)` over the six columns. */
    predicate Any()
    {
      missingPrice || negativePrice || zeroVolume || outlierZ || outlierIqr || gapLarge
    }
  }

  /** A row of the returned frame: the original columns, the flags and `is_anomaly`. */
  datatype FlaggedRow = FlaggedRow(row: Row, flags: Flags, anomaly: bool)

  /** The returned frame and `anomaly_count`. */
  datatype Detection = Detection(rows: seq<FlaggedRow>, anomalyCount: nat)

  /** With no present price the outlier columns are never created, and reading them for
      `is_anomaly` fails. */
  datatype DetectError = OutlierColumnsMissing

  /** Gaps above this many seconds are flagged. */
  const MaxGapSeconds := 10

  /** Sort key: the timestamp. */
  function TimeKey(r: Row): real
  {
    r.timestamp as real
  }

  function Rows(fs: seq<FlaggedRow>): (t: Table)
    ensures |t| == |fs|
    ensures forall i :: 0 <= i < |fs| ==> t[i] == fs[i].row
  {
    seq(|fs|, i requires 0 <= i < |fs| => fs[i].row)
  }

  // The per-row flag formulas (`MissingPrice`, `NegativePrice` and `ZeroVolume` are the
  // row conditions of `Ticks`).

  /** |x - m| / s > 3 with s the sample standard deviation, squared so that no root is
      needed. A zero deviation makes the z-score 0/0 = NaN, which is never above 3. */
  predicate ZOutlier(x: real, mean: real, variance: real)
  {
    variance > 0.0 && (x - mean) * (x - mean) > 9.0 * variance
  }

  /** The z-score flag of a row whose price is `price`, over the present prices. Below two
      prices the standard deviation is NaN and nothing is flagged; a missing price is
      filled with False. */
  predicate ZScoreFlag(price: Option<real>, prices: seq<real>)
  {
    price.Some? && |prices| >= 2 && ZOutlier(price.value, Mean(prices), SampleVariance(prices))
  }

  /** Outside the Tukey fences [Q1 - 1.5 IQR, Q3 + 1.5 IQR]. */
  predicate IqrOutlier(x: real, q1: real, q3: real)
  {
    x < q1 - 1.5 * (q3 - q1) || x > q3 + 1.5 * (q3 - q1)
  }

  function Q1(prices: seq<real>): real
    requires |prices| > 0
  {
    Quantile(prices, 0.25)
  }

  function Q3(prices: seq<real>): real
    requires |prices| > 0
  {
    Quantile(prices, 0.75)
  }

  /** The IQR flag; a missing price is never flagged. */
  predicate IqrFlag(price: Option<real>, prices: seq<real>)
    requires |prices| > 0
  {
    price.Some? && IqrOutlier(price.value, Q1(prices), Q3(prices))
  }

  /** The time since the previous row exceeds ten seconds; the first row's difference is
      NaN, filled with 0. */
  predicate GapLarge(t: Table, i: int)
    requires 0 <= i < |t|
  {
    i > 0 && t[i].timestamp - t[i - 1].timestamp > MaxGapSeconds
  }

  /** The six flags of row `i` of the sorted table `t`, whose present prices are `prices`. */
  function RowFlags(t: Table, i: int, prices: seq<real>): (f: Flags)
    requires 0 <= i < |t| && |prices| > 0
    ensures t[i].price.None? ==>
              f.missingPrice && !f.negativePrice && !f.outlierZ && !f.outlierIqr
    ensures f.Any() <==> MissingPrice(t[i]) || NegativePrice(t[i]) || ZeroVolume(t[i])
                         || ZScoreFlag(t[i].price, prices) || IqrFlag(t[i].price, prices)
                         || GapLarge(t, i)
  {
    Flags(MissingPrice(t[i]), NegativePrice(t[i]), ZeroVolume(t[i]),
          ZScoreFlag(t[i].price, prices), IqrFlag(t[i].price, prices), GapLarge(t, i))
  }

  /** Indices of the anomalous rows. */
  function AnomalousIndices(fs: seq<FlaggedRow>): set<int>
  {
    set i | 0 <= i < |fs| && fs[i].anomaly
  }

  /** `df['is_anomaly'].sum()`. */
  function CountAnomalies(fs: seq<FlaggedRow>): (n: nat)
    ensures n <= |fs|
  {
    if fs == [] then 0
    else CountAnomalies(fs[..|fs| - 1]) + (if fs[|fs| - 1].anomaly then 1 else 0)
  }

  /** The count is the number of anomalous rows. */
  lemma {:induction false} CountIsAnomalousRows(fs: seq<FlaggedRow>)
    ensures CountAnomalies(fs) == |AnomalousIndices(fs)|
  {
    if fs != [] {
      var init := fs[..|fs| - 1];
      CountIsAnomalousRows(init);
      var last := |fs| - 1;
      assert forall k :: 0 <= k < last ==> fs[k] == init[k];
      var rest := if fs[last].anomaly then {last} else {};
      assert AnomalousIndices(fs) == AnomalousIndices(init) + rest;
      assert last !in AnomalousIndices(init);
    }
  }

  /** A permutation of a table has a present price exactly when the table has one. */
  lemma PresentPriceOfPermutation(a: Table, b: Table)
    requires multiset(a) == multiset(b)
    ensures HasPresentPrice(a) ==> HasPresentPrice(b)
  {
    if HasPresentPrice(a) {
      var i :| 0 <= i < |a| && a[i].price.Some?;
      assert a[i] in multiset(b);
      var j :| 0 <= j < |b| && b[j] == a[i];
    }
  }

  /** Every row of `t` with its flags and `is_anomaly`. */
  function FlagRows(t: Table, prices: seq<real>): (fs: seq<FlaggedRow>)
    requires |prices| > 0
    ensures Rows(fs) == t
    ensures forall i :: 0 <= i < |t| ==> fs[i].flags == RowFlags(t, i, prices)
    ensures forall i :: 0 <= i < |t| ==> fs[i].anomaly == fs[i].flags.Any()
  {
    var fs := seq(|t|, i requires 0 <= i < |t| =>
                    var f := RowFlags(t, i, prices); FlaggedRow(t[i], f, f.Any()));
    assert Rows(fs) == t;
    fs
  }

  /** The `is_zero_volume` column of the returned frame. */
  function ZeroVolumeColumn(fs: seq<FlaggedRow>): (col: seq<bool>)
    ensures |col| == |fs| && forall i :: 0 <= i < |fs| ==> col[i] == fs[i].flags.zeroVolume
  {
    seq(|fs|, i requires 0 <= i < |fs| => fs[i].flags.zeroVolume)
  }

  /** The column validate_and_flag adds marks exactly the rows whose volume is zero. */
  lemma ZeroVolumeColumnOfFlagRows(t: Table, prices: seq<real>)
    requires |prices| > 0
    ensures var col := ZeroVolumeColumn(FlagRows(t, prices));
            |col| == |t| && forall i :: 0 <= i < |t| ==> (col[i] <==> ZeroVolume(t[i]))
  {
  }

  /** The model of validate_and_flag. */
  method ValidateAndFlag(df: Table) returns (r: Result<Detection, DetectError>)
    ensures r.Failure? <==> !HasPresentPrice(df)
    ensures r.Success? ==>
              var t := Rows(r.value.rows);
              multiset(t) == multiset(df)
              && (forall i, j :: 0 <= i < j < |t| ==> t[i].timestamp <= t[j].timestamp)
    ensures r.Success? ==>
              var fs := r.value.rows;
              |PresentPrices(Rows(fs))| > 0
              && forall i :: 0 <= i < |fs| ==>
                   fs[i].flags == RowFlags(Rows(fs), i, PresentPrices(Rows(fs)))
                   && fs[i].anomaly == fs[i].flags.Any()
    ensures r.Success? ==> r.value.anomalyCount == |AnomalousIndices(r.value.rows)|
  {
    var t := SortBy(df, TimeKey);
    PresentPriceOfPermutation(df, t);
    PresentPriceOfPermutation(t, df);
    var prices := PresentPrices(t);
    if |prices| == 0 {
      return Failure(OutlierColumnsMissing);
    }
    var fs := FlagRows(t, prices);
    var count := CountAnomalies(fs);
    CountIsAnomalousRows(fs);
    return Success(Detection(fs, count));
  }

  // The gap rule.

  /** Offsets 0, 5, 15 and 16 seconds flag no row: the largest step, 10 seconds, is not
      above the threshold. */
  lemma GapExample(t: Table)
    requires |t| == 4
    requires t[0].timestamp == 0 && t[1].timestamp == 5
    requires t[2].timestamp == 15 && t[3].timestamp == 16
    ensures !GapLarge(t, 0) && !GapLarge(t, 1) && !GapLarge(t, 2) && !GapLarge(t, 3)
  {
  }

  /** The threshold is strict: a step of exactly 10 seconds is not flagged, 11 is. */
  lemma GapThresholdIsStrict(t: Table, i: int)
    requires 0 < i < |t|
    ensures t[i].timestamp - t[i - 1].timestamp == 10 ==> !GapLarge(t, i)
    ensures t[i].timestamp - t[i - 1].timestamp == 11 ==> GapLarge(t, i)
  {
  }

  // The z-score rule.

  lemma Cancel(k: real, a: real, b: real)
    requires k > 0.0 && k * a <= k * b
    ensures a <= b
  {
    if a > b {
      ProductPositive(k, a - b);
    }
  }

  lemma ScaleWeak(k: real, a: real, b: real)
    requires k >= 0.0 && a <= b
    ensures k * a <= k * b
  {
    ProductNonNegative(k, b - a);
  }

  /** For 2 <= n <= 10, (n - 1)^2 <= 9n. */
  lemma SmallSampleFactor(n: real)
    requires 2.0 <= n <= 10.0
    ensures (n - 1.0) * (n - 1.0) <= 9.0 * n
  {
    ProductNonNegative(n - 2.0, 10.0 - n);
  }

  /** Samuelson's bound n * d^2 <= (n - 1) * ss with ss = (n - 1) * v gives d^2 <= 9v
      once n <= 10. */
  lemma SmallSampleStep(size: int, n: real, x: real, m: real, ss: real, v: real)
    requires 2 <= size <= 10 && n == size as real
    requires n * ((x - m) * (x - m)) <= (n - 1.0) * ss
    requires ss == (n - 1.0) * v
    ensures !ZOutlier(x, m, v)
  {
    var w, d2 := n - 1.0, (x - m) * (x - m);
    if v > 0.0 {
      SmallSampleFactor(n);
      ScaleWeak(v, w * w, 9.0 * n);
      assert w * ss == (w * w) * v;
      assert n * d2 <= n * (9.0 * v);
      Cancel(n, d2, 9.0 * v);
    }
  }

  /** At most ten prices: no price is more than three sample standard deviations from
      the mean. */
  lemma NoZOutlierInSmallSample(xs: seq<real>, i: int)
    requires 2 <= |xs| <= 10 && 0 <= i < |xs|
    ensures !ZOutlier(xs[i], Mean(xs), SampleVariance(xs))
  {
    var n, m, ss, v := VarianceParts(xs);
    NoZOutlierAt(xs, i, n, m, ss, v);
  }

  lemma NoZOutlierAt(xs: seq<real>, i: int, n: real, m: real, ss: real, v: real)
    requires 2 <= |xs| <= 10 && 0 <= i < |xs|
    requires n == Size(xs) && m == Mean(xs) && ss == SqDev(xs, m)
    requires n == |xs| as real && ss == (n - 1.0) * v
    ensures !ZOutlier(xs[i], m, v)
  {
    Samuelson(xs, i, n, m, ss);
    SmallSampleStep(|xs|, n, xs[i], m, ss, v);
  }

  /** Constant prices have zero variance, so no z-score is above 3. */
  lemma NoZOutlierForConstant(xs: seq<real>, c: real, x: real)
    requires |xs| >= 2
    requires forall i :: 0 <= i < |xs| ==> xs[i] == c
    ensures !ZOutlier(x, Mean(xs), SampleVariance(xs))
  {
    ConstantStats(xs, c);
    SizeBounds(xs);
    var d := Size(xs) - 1.0;
    assert SqDev(xs, Mean(xs)) == 0.0;
    assert SampleVariance(xs) == 0.0 / d;
    ZeroQuotient(d);
  }

  lemma ZeroQuotient(d: real)
    requires d != 0.0
    ensures 0.0 / d == 0.0
  {
  }

  /** A present price of `t` is one of its present prices. */
  lemma PriceIndex(t: Table, i: int) returns (j: int)
    requires 0 <= i < |t| && t[i].price.Some?
    ensures 0 <= j < |PresentPrices(t)| && PresentPrices(t)[j] == t[i].price.value
  {
    var ps := PresentPrices(t);
    assert t[i].price.value in ps;
    j :| 0 <= j < |ps| && ps[j] == t[i].price.value;
  }

  /** The z-score flag is never raised when the present prices are constant, or when there
      are at most ten of them (which covers fewer than two, where the deviation is NaN). */
  lemma NoZScoreFlag(t: Table, i: int, c: real)
    requires 0 <= i < |t|
    requires (forall k :: 0 <= k < |PresentPrices(t)| ==> PresentPrices(t)[k] == c)
          || |PresentPrices(t)| <= 10
    ensures !ZScoreFlag(t[i].price, PresentPrices(t))
  {
    var ps := PresentPrices(t);
    if t[i].price.Some? && |ps| >= 2 {
      if forall k :: 0 <= k < |ps| ==> ps[k] == c {
        NoZOutlierForConstant(ps, c, t[i].price.value);
      } else {
        var j := PriceIndex(t, i);
        NoZOutlierInSmallSample(ps, j);
      }
    }
  }

  // The IQR rule.

  /** Q1 <= Q3, so the interquartile range is never negative. */
  lemma QuartilesOrdered(prices: seq<real>)
    requires |prices| > 0
    ensures Q1(prices) <= Q3(prices)
  {
    QuantileMonotone(prices, 0.25, 0.75);
  }

  /** A price between the quartiles is never an IQR outlier. */
  lemma NoIqrFlagBetweenQuartiles(price: Option<real>, prices: seq<real>)
    requires |prices| > 0
    requires price.Some? ==> Q1(prices) <= price.value <= Q3(prices)
    ensures !IqrFlag(price, prices)
  {
    QuartilesOrdered(prices);
  }

  /** Every quantile of constant data is the constant. */
  lemma QuantileOfConstant(xs: seq<real>, c: real, q: real)
    requires |xs| > 0 && 0.0 <= q <= 1.0
    requires forall i :: 0 <= i < |xs| ==> xs[i] == c
    ensures Quantile(xs, q) == c
  {
  }

  /** Constant present prices raise no IQR flag. */
  lemma NoIqrFlagForConstant(t: Table, i: int, c: real)
    requires 0 <= i < |t| && |PresentPrices(t)| > 0
    requires forall k :: 0 <= k < |PresentPrices(t)| ==> PresentPrices(t)[k] == c
    ensures !IqrFlag(t[i].price, PresentPrices(t))
  {
    var ps := PresentPrices(t);
    QuantileOfConstant(ps, c, 0.25);
    QuantileOfConstant(ps, c, 0.75);
    if t[i].price.Some? {
      var j := PriceIndex(t, i);
    }
  }
}
