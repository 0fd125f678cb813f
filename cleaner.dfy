/** clean_data: deduplicate, fill missing prices by linear interpolation, clip prices into
    robust quantile bounds and drop invalid rows, reporting the row counts before and
    after. */
module Cleaner {
  import opened Wrappers
  import opened Ticks
  import opened Stats
  import opened Selection
  import Detector

  // Deduplication (`drop_duplicates(subset=[...], keep='first')`).

  /** Row `i` repeats the key of an earlier row. Missing prices compare equal here, as
      pandas treats NaN keys as equal. */
  predicate SeenBefore(t: Table, i: int)
    requires 0 <= i < |t|
  {
    exists j :: 0 <= j < i && KeyOf(t[j]) == KeyOf(t[i])
  }

  /** Keeps the first row of every key, in input order. */
  function Dedup(t: Table): (d: Table)
    ensures |d| <= |t|
    ensures forall r :: r in d ==> r in t
  {
    if t == [] then []
    else
      var init := t[..|t| - 1];
      assert forall r :: r in init ==> r in t;
      if SeenBefore(t, |t| - 1) then Dedup(init) else Dedup(init) + [t[|t| - 1]]
  }

  predicate DistinctKeys(t: Table)
  {
    forall i, j :: 0 <= i < j < |t| ==> KeyOf(t[i]) != KeyOf(t[j])
  }

  /** Whether a row repeats an earlier key does not depend on the rows after it. */
  lemma SeenBeforeInPrefix(t: Table, i: int)
    requires 0 <= i < |t| - 1
    ensures SeenBefore(t, i) <==> SeenBefore(t[..|t| - 1], i)
  {
    var init := t[..|t| - 1];
    assert forall j :: 0 <= j <= i ==> t[j] == init[j];
  }

  /** The indices of the rows that do not repeat an earlier key, in increasing order. */
  function FirstIndices(t: Table): (idx: seq<int>)
    ensures forall k :: 0 <= k < |idx| ==> 0 <= idx[k] < |t|
    ensures forall k, l :: 0 <= k < l < |idx| ==> idx[k] < idx[l]
  {
    if t == [] then []
    else
      var rest := FirstIndices(t[..|t| - 1]);
      if SeenBefore(t, |t| - 1) then rest else rest + [|t| - 1]
  }

  /** `FirstIndices(t)` lists exactly the first occurrences of the keys of `t`. */
  lemma {:induction false} FirstIndicesAreFirstOccurrences(t: Table)
    ensures forall i :: 0 <= i < |t| ==> (i in FirstIndices(t) <==> !SeenBefore(t, i))
  {
    if t != [] {
      var init := t[..|t| - 1];
      FirstIndicesAreFirstOccurrences(init);
      forall i | 0 <= i < |t| - 1
        ensures SeenBefore(t, i) <==> SeenBefore(init, i)
      {
        SeenBeforeInPrefix(t, i);
      }
    }
  }

  /** Deduplication keeps the rows at the first occurrences, in input order. */
  lemma {:induction false} DedupKeepsFirstOccurrences(t: Table)
    ensures |Dedup(t)| == |FirstIndices(t)|
    ensures forall k :: 0 <= k < |FirstIndices(t)| ==> Dedup(t)[k] == t[FirstIndices(t)[k]]
  {
    if t != [] {
      var init := t[..|t| - 1];
      DedupKeepsFirstOccurrences(init);
      var idx0 := FirstIndices(init);
      assert forall k :: 0 <= k < |idx0| ==> t[idx0[k]] == init[idx0[k]];
    }
  }

  /** No two rows of the result share a key. */
  lemma {:induction false} DedupDistinctKeys(t: Table)
    ensures DistinctKeys(Dedup(t))
  {
    if t != [] {
      var init := t[..|t| - 1];
      var x := t[|t| - 1];
      DedupDistinctKeys(init);
      if !SeenBefore(t, |t| - 1) {
        var d0 := Dedup(init);
        forall r | r in d0
          ensures KeyOf(r) != KeyOf(x)
        {
          var j :| 0 <= j < |init| && init[j] == r;
          assert t[j] == r;
        }
      }
    }
  }

  /** Every input row survives deduplication or has an equal row that does. */
  lemma {:induction false} DedupKeepsEveryKey(t: Table)
    ensures forall r :: r in t ==> r in Dedup(t)
  {
    if t != [] {
      var init := t[..|t| - 1];
      var x := t[|t| - 1];
      DedupKeepsEveryKey(init);
      assert t == init + [x];
      if SeenBefore(t, |t| - 1) {
        var j :| 0 <= j < |t| - 1 && KeyOf(t[j]) == KeyOf(x);
        KeyOfInjective(t[j], x);
        assert init[j] == x;
      }
    }
  }

  /** A table without repeated keys is left as it is. */
  lemma {:induction false} DedupOfDistinct(t: Table)
    requires DistinctKeys(t)
    ensures Dedup(t) == t
  {
    if t != [] {
      var init := t[..|t| - 1];
      assert DistinctKeys(init);
      DedupOfDistinct(init);
      assert t == init + [t[|t| - 1]];
    }
  }

  // Interpolation (`interpolate(method='linear', limit_direction='both')`).

  function PriceColumn(t: Table): (ps: seq<Option<real>>)
    ensures |ps| == |t| && forall i :: 0 <= i < |t| ==> ps[i] == t[i].price
  {
    seq(|t|, i requires 0 <= i < |t| => t[i].price)
  }

  /** `t` with its price column replaced by `ps`. */
  function WithPrices(t: Table, ps: seq<Option<real>>): (u: Table)
    requires |ps| == |t|
    ensures |u| == |t| && forall i :: 0 <= i < |t| ==> u[i] == t[i].(price := ps[i])
  {
    seq(|t|, i requires 0 <= i < |t| => t[i].(price := ps[i]))
  }

  /** The last present position before `k`. */
  function LastBefore(ps: seq<Option<real>>, k: int): (a: Option<int>)
    requires 0 <= k <= |ps|
    ensures a.Some? ==> 0 <= a.value < k && ps[a.value].Some?
                        && forall j :: a.value < j < k ==> ps[j].None?
    ensures a.None? ==> forall j :: 0 <= j < k ==> ps[j].None?
  {
    if k == 0 then None
    else if ps[k - 1].Some? then Some(k - 1)
    else LastBefore(ps, k - 1)
  }

  /** The first present position at or after `k`. */
  function FirstFrom(ps: seq<Option<real>>, k: int): (b: Option<int>)
    requires 0 <= k <= |ps|
    ensures b.Some? ==> k <= b.value < |ps| && ps[b.value].Some?
                        && forall j :: k <= j < b.value ==> ps[j].None?
    ensures b.None? ==> forall j :: k <= j < |ps| ==> ps[j].None?
    decreases |ps| - k
  {
    if k == |ps| then None
    else if ps[k].Some? then Some(k)
    else FirstFrom(ps, k + 1)
  }

  /** `num / den` lies strictly between 0 and 1. */
  lemma ProperFraction(num: int, den: int)
    requires 0 < num < den
    ensures 0.0 < num as real / den as real < 1.0
  {
  }

  /** The straight line from `x` at position 0 to `y` at position `den`, read at `num`:
      `x + (y - x) * num / den`, written from the lower end so that it is a `Lerp`. */
  function Between(x: real, y: real, num: int, den: int): (r: real)
    requires 0 < num < den
    ensures x <= y ==> x <= r <= y
    ensures y <= x ==> y <= r <= x
  {
    var f := num as real / den as real;
    ProperFraction(num, den);
    if x <= y then Lerp(x, y, f) else Lerp(y, x, 1.0 - f)
  }

  /** The filled value at a missing position `i`: on the line between the nearest present
      neighbours, or the nearest present value when only one side has one. */
  function FillAt(ps: seq<Option<real>>, i: int): Option<real>
    requires 0 <= i < |ps|
  {
    match (LastBefore(ps, i), FirstFrom(ps, i + 1))
    case (Some(a), Some(b)) => Some(Between(ps[a].value, ps[b].value, i - a, b - a))
    case (Some(a), None) => ps[a]
    case (None, Some(b)) => ps[b]
    case (None, None) => None
  }

  function Interpolate(ps: seq<Option<real>>): (out: seq<Option<real>>)
    ensures |out| == |ps|
  {
    seq(|ps|, i requires 0 <= i < |ps| => if ps[i].Some? then ps[i] else FillAt(ps, i))
  }

  predicate AllPresent(ps: seq<Option<real>>)
  {
    forall i :: 0 <= i < |ps| ==> ps[i].Some?
  }

  /** Present values are kept; once any value is present, none is missing afterwards;
      with none present, the column is unchanged. */
  lemma InterpolateFills(ps: seq<Option<real>>)
    ensures forall i :: 0 <= i < |ps| && ps[i].Some? ==> Interpolate(ps)[i] == ps[i]
    ensures (exists i :: 0 <= i < |ps| && ps[i].Some?) ==> AllPresent(Interpolate(ps))
    ensures (forall i :: 0 <= i < |ps| ==> ps[i].None?) ==> Interpolate(ps) == ps
  {
    var out := Interpolate(ps);
    if exists i :: 0 <= i < |ps| && ps[i].Some? {
      var p :| 0 <= p < |ps| && ps[p].Some?;
      forall i | 0 <= i < |ps|
        ensures out[i].Some?
      {
        if ps[i].None? {
          if p < i {
            assert LastBefore(ps, i).Some?;
          } else {
            assert FirstFrom(ps, i + 1).Some?;
          }
        }
      }
    }
  }

  /** Missing values before the first present one take that value; missing values after
      the last present one take that value. */
  lemma InterpolateEdges(ps: seq<Option<real>>, i: int)
    requires 0 <= i < |ps| && ps[i].None?
    ensures (forall j :: 0 <= j < i ==> ps[j].None?) && FirstFrom(ps, i + 1).Some? ==>
              Interpolate(ps)[i] == ps[FirstFrom(ps, i + 1).value]
    ensures (forall j :: i < j < |ps| ==> ps[j].None?) && LastBefore(ps, i).Some? ==>
              Interpolate(ps)[i] == ps[LastBefore(ps, i).value]
  {
  }

  /** A missing value between two present neighbours is filled with a value between
      them. */
  lemma InterpolateInterior(ps: seq<Option<real>>, i: int)
    requires 0 <= i < |ps| && ps[i].None?
    requires LastBefore(ps, i).Some? && FirstFrom(ps, i + 1).Some?
    ensures var x, y := ps[LastBefore(ps, i).value].value, ps[FirstFrom(ps, i + 1).value].value;
            var v := Interpolate(ps)[i];
            v.Some? && (x <= y ==> x <= v.value <= y) && (y <= x ==> y <= v.value <= x)
  {
  }

  /** The table after filling its price column. */
  function Imputed(t: Table): (u: Table)
    ensures |u| == |t|
    ensures forall i :: 0 <= i < |t| ==>
              u[i].timestamp == t[i].timestamp && u[i].volume == t[i].volume
              && u[i].exchange == t[i].exchange
  {
    WithPrices(t, Interpolate(PriceColumn(t)))
  }

  // Clipping (`clip(lower, upper)`).

  datatype Bounds = Bounds(lower: real, upper: real)

  function Min(a: real, b: real): real
  {
    if a <= b then a else b
  }

  function Max(a: real, b: real): real
  {
    if a >= b then a else b
  }

  /** Quantiles of the positive prices, and the floor on the lower bound. */
  const LowQuantile := 0.001
  const HighQuantile := 0.999
  const MinLower := 0.01

  /** The clip bounds: `max(q0.001, 0.01)` and `q0.999` of the positive prices, put in
      order as pandas does for scalar bounds. Without a positive price both quantiles are
      NaN, and pandas ignores NaN bounds: None. */
  function ClipBounds(t: Table): (b: Option<Bounds>)
    ensures b.Some? <==> |PositivePrices(t)| > 0
    ensures b.Some? ==> 0.0 < b.value.lower <= b.value.upper
  {
    var pos := PositivePrices(t);
    if |pos| == 0 then None
    else
      var lo := Max(Quantile(pos, LowQuantile), MinLower);
      var hi := Quantile(pos, HighQuantile);
      QuantileOfPositive(pos, LowQuantile);
      QuantileOfPositive(pos, HighQuantile);
      Some(Bounds(Min(lo, hi), Max(lo, hi)))
  }

  /** Every quantile of positive values is positive. */
  lemma QuantileOfPositive(xs: seq<real>, q: real)
    requires |xs| > 0 && 0.0 <= q <= 1.0
    requires forall x :: x in xs ==> x > 0.0
    ensures Quantile(xs, q) > 0.0
  {
    var i :| 0 <= i < |xs| && xs[i] <= Quantile(xs, q);
    assert xs[i] in xs;
  }

  /** In the usual case, where q0.999 is at least 0.01, the bounds are exactly
      [max(q0.001, 0.01), q0.999], and the lower one is at least 0.01. */
  lemma UsualBounds(t: Table)
    requires |PositivePrices(t)| > 0
    requires Quantile(PositivePrices(t), HighQuantile) >= MinLower
    ensures var pos := PositivePrices(t);
            ClipBounds(t) == Some(Bounds(Max(Quantile(pos, LowQuantile), MinLower),
                                         Quantile(pos, HighQuantile)))
    ensures ClipBounds(t).value.lower >= MinLower
  {
    var pos := PositivePrices(t);
    var lo, hi := Quantile(pos, LowQuantile), Quantile(pos, HighQuantile);
    QuantileMonotone(pos, LowQuantile, HighQuantile);
    assert Max(lo, MinLower) <= hi;
    assert ClipBounds(t) == Some(Bounds(Max(lo, MinLower), hi));
  }

  /** The distance between two prices. */
  function Dist(a: real, b: real): real
  {
    if a >= b then a - b else b - a
  }

  /** `clip` with scalar bounds: the point of the bounds nearest to `x`. */
  function Clamp(x: real, b: Bounds): (y: real)
    requires b.lower <= b.upper
    ensures b.lower <= y <= b.upper
    ensures b.lower <= x <= b.upper ==> y == x
    ensures forall z :: b.lower <= z <= b.upper ==> Dist(y, x) <= Dist(z, x)
  {
    if x < b.lower then b.lower else if x > b.upper then b.upper else x
  }

  /** Clips every present price; a missing price stays missing, and without bounds
      nothing changes. */
  function ClipPrices(t: Table, b: Option<Bounds>): (u: Table)
    requires b.Some? ==> b.value.lower <= b.value.upper
    ensures |u| == |t|
  {
    seq(|t|, i requires 0 <= i < |t| =>
          if b.Some? && t[i].price.Some?
          then t[i].(price := Some(Clamp(t[i].price.value, b.value)))
          else t[i])
  }

  /** In the usual case the largest price after clipping is q0.999 of the positive prices:
      every clipped price is at most the upper bound, and some row reaches it. */
  lemma ClippedMaxIsUpper(t: Table)
    requires |PositivePrices(t)| > 0
    requires Quantile(PositivePrices(t), HighQuantile) >= MinLower
    ensures var b := ClipBounds(t).value;
            var u := ClipPrices(t, ClipBounds(t));
            b.upper == Quantile(PositivePrices(t), HighQuantile)
            && (forall i :: 0 <= i < |u| && u[i].price.Some? ==> u[i].price.value <= b.upper)
            && exists i :: 0 <= i < |u| && u[i].price == Some(b.upper)
  {
    var pos := PositivePrices(t);
    var hi := Quantile(pos, HighQuantile);
    UsualBounds(t);
    var b := ClipBounds(t).value;
    assert b.upper == hi;
    var u := ClipPrices(t, Some(b));
    assert WithinBounds(u, b) by {
      ClipPricesSpec(t, Some(b));
    }
    var i := RowAtOrAbove(t, pos, hi);
    assert u[i].price == Some(Clamp(t[i].price.value, b));
  }

  /** Some row has a positive price at least the q0.999 quantile of the positive prices. */
  lemma RowAtOrAbove(t: Table, pos: seq<real>, hi: real) returns (i: int)
    requires pos == PositivePrices(t) && |pos| > 0 && hi == Quantile(pos, HighQuantile)
    ensures 0 <= i < |t| && t[i].price.Some? && hi <= t[i].price.value
  {
    var j :| 0 <= j < |pos| && hi <= pos[j];
    assert pos[j] in pos;
    i :| 0 <= i < |t| && t[i].price == Some(pos[j]);
  }

  predicate WithinBounds(t: Table, b: Bounds)
  {
    forall i :: 0 <= i < |t| && t[i].price.Some? ==>
      b.lower <= t[i].price.value <= b.upper
  }

  /** Clipping keeps every column but price, and no price goes missing or appears; with
      bounds, every price ends up inside them, and prices already inside are kept. */
  lemma ClipPricesSpec(t: Table, b: Option<Bounds>)
    requires b.Some? ==> b.value.lower <= b.value.upper
    ensures var u := ClipPrices(t, b);
            forall i :: 0 <= i < |t| ==>
              u[i].timestamp == t[i].timestamp && u[i].volume == t[i].volume
              && u[i].exchange == t[i].exchange && u[i].price.Some? == t[i].price.Some?
    ensures b.Some? ==> WithinBounds(ClipPrices(t, b), b.value)
    ensures b.None? || WithinBounds(t, b.value) ==> ClipPrices(t, b) == t
  {
  }

  // Removing invalid rows.

  /** `price < 0` (false for a missing price) or `volume == 0`. */
  predicate Invalid(r: Row)
  {
    NegativePrice(r) || ZeroVolume(r)
  }

  function RemoveInvalid(t: Table): (u: Table)
    ensures |u| <= |t|
    ensures forall r :: r in u <==> r in t && !Invalid(r)
  {
    if t == [] then []
    else
      assert t == [t[0]] + t[1..];
      (if Invalid(t[0]) then [] else [t[0]]) + RemoveInvalid(t[1..])
  }

  /** When no present price is negative, only the zero-volume rows are removed. */
  lemma {:induction false} RemoveInvalidCount(t: Table)
    requires forall i :: 0 <= i < |t| && t[i].price.Some? ==> t[i].price.value >= 0.0
    ensures |RemoveInvalid(t)| == |t| - ZeroVolumeCount(t)
  {
    if t != [] {
      assert forall i :: 0 <= i < |t[1..]| ==> t[1..][i] == t[i + 1];
      RemoveInvalidCount(t[1..]);
    }
  }

  /** The `invalid` mask over the table. */
  function InvalidMask(t: Table): (m: seq<bool>)
    ensures |m| == |t| && forall i :: 0 <= i < |t| ==> (m[i] <==> Invalid(t[i]))
  {
    seq(|t|, i requires 0 <= i < |t| => Invalid(t[i]))
  }

  /** `~invalid`: the positions the mask does not mark. */
  predicate Kept(invalid: bool)
  {
    !invalid
  }

  lemma {:induction false} RemoveInvalidFrom(t: Table, m: seq<bool>, from: int)
    requires |m| == |t| && forall i :: 0 <= i < |t| ==> (m[i] <==> Invalid(t[i]))
    requires 0 <= from <= |t|
    ensures var u, idx := RemoveInvalid(t[from..]), PositionsFrom(m, Kept, from);
            |u| == |idx| && forall k :: 0 <= k < |idx| ==> u[k] == t[idx[k]]
    decreases |t| - from
  {
    if from < |t| {
      RemoveInvalidFrom(t, m, from + 1);
      var rest, idx := RemoveInvalid(t[from + 1..]), PositionsFrom(m, Kept, from + 1);
      assert t[from..][1..] == t[from + 1..];
      if Invalid(t[from]) {
        assert RemoveInvalid(t[from..]) == rest;
        assert PositionsFrom(m, Kept, from) == idx;
      } else {
        assert RemoveInvalid(t[from..]) == [t[from]] + rest;
        assert PositionsFrom(m, Kept, from) == [from] + idx;
      }
    }
  }

  /** The filter is `df[~invalid]`: the rows the mask leaves unmarked, in table order, each
      once. */
  lemma RemoveInvalidSelectsMask(t: Table)
    ensures var u, idx := RemoveInvalid(t), Positions(InvalidMask(t), Kept);
            |u| == |idx| && forall k :: 0 <= k < |idx| ==> u[k] == t[idx[k]]
  {
    RemoveInvalidFrom(t, InvalidMask(t), 0);
    assert t[0..] == t;
  }

  // The zero-volume column read by the filter.

  /** A frame as clean_data receives it: the rows, and the `is_zero_volume` column when
      the frame has one (only validate_and_flag adds it). */
  datatype Frame = Frame(rows: Table, isZeroVolume: Option<seq<bool>>)

  datatype CleanError = MissingColumn(name: string)

  /** The filter mask as written: `price < 0` or the `is_zero_volume` column, which fails
      on a frame without that column. */
  function InvalidMaskAsWritten(f: Frame): (m: Result<seq<bool>, CleanError>)
    requires f.isZeroVolume.Some? ==> |f.isZeroVolume.value| == |f.rows|
    ensures m.Failure? <==> f.isZeroVolume.None?
    ensures m.Success? ==> |m.value| == |f.rows|
  {
    match f.isZeroVolume
    case None => Failure(MissingColumn("is_zero_volume"))
    case Some(col) =>
      Success(seq(|f.rows|, i requires 0 <= i < |f.rows| =>
                    NegativePrice(f.rows[i]) || col[i]))
  }

  /** The frame passed by the application has only the CSV columns, so the filter as
      written fails on it, whatever its rows. */
  lemma RawFrameHasNoZeroVolumeColumn(t: Table)
    ensures InvalidMaskAsWritten(Frame(t, None)) == Failure(MissingColumn("is_zero_volume"))
  {
  }

  /** On the frame validate_and_flag returns, which carries the `is_zero_volume` column,
      the filter as written is exactly `InvalidMask`. */
  lemma AsWrittenAgreesOnFlaggedFrame(t: Table, prices: seq<real>)
    requires |prices| > 0
    ensures var fs := Detector.FlagRows(t, prices);
            var f := Frame(Detector.Rows(fs), Some(Detector.ZeroVolumeColumn(fs)));
            InvalidMaskAsWritten(f) == Success(InvalidMask(t))
  {
    var fs := Detector.FlagRows(t, prices);
    var col := Detector.ZeroVolumeColumn(fs);
    Detector.ZeroVolumeColumnOfFlagRows(t, prices);
    var m := InvalidMaskAsWritten(Frame(t, Some(col)));
    assert m.Success?;
    assert |m.value| == |InvalidMask(t)|;
    assert forall i :: 0 <= i < |t| ==> m.value[i] == InvalidMask(t)[i];
    assert m.value == InvalidMask(t);
  }

  // The pipeline.

  /** The clip bounds clean_data computes from `df`. */
  function CleaningBounds(df: Table): (b: Option<Bounds>)
    ensures b.Some? ==> 0.0 < b.value.lower <= b.value.upper
  {
    ClipBounds(Imputed(Dedup(df)))
  }

  /** A table clean_data should leave alone: no repeated key, no missing price, every
      price inside its own clip bounds, and no zero volume. */
  predicate AlreadyClean(t: Table)
  {
    DistinctKeys(t)
    && (forall i :: 0 <= i < |t| ==> t[i].price.Some? && t[i].volume != 0.0)
    && ClipBounds(t).Some? && WithinBounds(t, ClipBounds(t).value)
  }

  /** The model of clean_data. */
  method CleanData(df: Table) returns (cleaned: Table, originalRows: nat, cleanedRows: nat)
    ensures cleaned == RemoveInvalid(ClipPrices(Imputed(Dedup(df)), CleaningBounds(df)))
    ensures originalRows == |df| && cleanedRows == |cleaned| && cleanedRows <= originalRows
    ensures forall r :: r in cleaned ==> !Invalid(r)
    ensures HasPresentPrice(df) ==> forall r :: r in cleaned ==> r.price.Some?
    ensures CleaningBounds(df).Some? ==>
              WithinBounds(cleaned, CleaningBounds(df).value)
              && cleanedRows == |Dedup(df)| - ZeroVolumeCount(Dedup(df))
    ensures forall r :: r in cleaned ==>
              exists s :: s in df && s.timestamp == r.timestamp && s.volume == r.volume
                          && s.exchange == r.exchange
    ensures AlreadyClean(df) ==> cleaned == df && cleanedRows == originalRows
  {
    originalRows := |df|;
    var t := Dedup(df);
    var deduped := t;
    t := WithPrices(t, Interpolate(PriceColumn(t)));
    var imputed := t;
    var bounds := ClipBounds(t);
    t := ClipPrices(t, bounds);
    var clipped := t;
    t := RemoveInvalid(t);
    cleaned := t;
    cleanedRows := |cleaned|;
    ClipPricesSpec(imputed, bounds);
    CleanedPricesPresent(df, imputed, bounds, cleaned);
    if bounds.Some? {
      CleanedWithinBounds(imputed, bounds.value, cleaned);
      RemoveInvalidCount(clipped);
      ZeroVolumeCountOfSameVolumes(clipped, deduped);
    }
    CleanedTraceable(df, imputed, bounds, cleaned);
    if AlreadyClean(df) {
      CleanOfAlreadyClean(df);
    }
  }

  /** Deduplication keeps some row with a present price. */
  lemma DedupKeepsPresentPrice(df: Table)
    requires HasPresentPrice(df)
    ensures HasPresentPrice(Dedup(df))
  {
    var i :| 0 <= i < |df| && df[i].price.Some?;
    DedupKeepsEveryKey(df);
    var d := Dedup(df);
    assert df[i] in d;
    var j :| 0 <= j < |d| && d[j] == df[i];
  }

  /** After interpolation a table with a present price has no missing price. */
  lemma ImputedAllPresent(t: Table)
    requires HasPresentPrice(t)
    ensures forall i :: 0 <= i < |t| ==> Imputed(t)[i].price.Some?
  {
    var ps := PriceColumn(t);
    InterpolateFills(ps);
    var j :| 0 <= j < |t| && t[j].price.Some?;
    assert ps[j].Some?;
  }

  /** Once the input has a present price, every price after cleaning is present. */
  lemma CleanedPricesPresent(df: Table, imputed: Table, bounds: Option<Bounds>, cleaned: Table)
    requires imputed == Imputed(Dedup(df))
    requires bounds.Some? ==> bounds.value.lower <= bounds.value.upper
    requires cleaned == RemoveInvalid(ClipPrices(imputed, bounds))
    ensures HasPresentPrice(df) ==> forall r :: r in cleaned ==> r.price.Some?
  {
    if HasPresentPrice(df) {
      DedupKeepsPresentPrice(df);
      ImputedAllPresent(Dedup(df));
      var clipped := ClipPrices(imputed, bounds);
      ClipPricesSpec(imputed, bounds);
      forall r | r in cleaned
        ensures r.price.Some?
      {
        var k :| 0 <= k < |clipped| && clipped[k] == r;
      }
    }
  }

  /** With bounds, every price left after cleaning lies inside them. */
  lemma CleanedWithinBounds(imputed: Table, b: Bounds, cleaned: Table)
    requires b.lower <= b.upper
    requires cleaned == RemoveInvalid(ClipPrices(imputed, Some(b)))
    ensures WithinBounds(cleaned, b)
  {
    var clipped := ClipPrices(imputed, Some(b));
    ClipPricesSpec(imputed, Some(b));
    forall i | 0 <= i < |cleaned| && cleaned[i].price.Some?
      ensures b.lower <= cleaned[i].price.value <= b.upper
    {
      assert cleaned[i] in clipped;
      var k :| 0 <= k < |clipped| && clipped[k] == cleaned[i];
    }
  }

  /** Every cleaned row carries the timestamp, volume and exchange of some input row. */
  lemma CleanedTraceable(df: Table, imputed: Table, bounds: Option<Bounds>, cleaned: Table)
    requires imputed == Imputed(Dedup(df))
    requires bounds.Some? ==> bounds.value.lower <= bounds.value.upper
    requires cleaned == RemoveInvalid(ClipPrices(imputed, bounds))
    ensures forall r :: r in cleaned ==>
              exists s :: s in df && s.timestamp == r.timestamp && s.volume == r.volume
                          && s.exchange == r.exchange
  {
    var deduped := Dedup(df);
    var clipped := ClipPrices(imputed, bounds);
    ClipPricesSpec(imputed, bounds);
    forall r | r in cleaned
      ensures exists s :: s in df && s.timestamp == r.timestamp && s.volume == r.volume
                          && s.exchange == r.exchange
    {
      var k :| 0 <= k < |clipped| && clipped[k] == r;
      assert deduped[k] in deduped;
    }
  }

  /** Interpolation leaves a table without missing prices as it is. */
  lemma ImputedOfAllPresent(t: Table)
    requires forall i :: 0 <= i < |t| ==> t[i].price.Some?
    ensures Imputed(t) == t
  {
    var ps := PriceColumn(t);
    InterpolateFills(ps);
    assert Interpolate(ps) == ps;
    var u := Imputed(t);
    assert forall i :: 0 <= i < |t| ==> u[i] == t[i];
  }

  /** An already clean table passes through every step unchanged. */
  lemma CleanOfAlreadyClean(df: Table)
    requires AlreadyClean(df)
    ensures var imputed := Imputed(Dedup(df));
            RemoveInvalid(ClipPrices(imputed, ClipBounds(imputed))) == df
  {
    DedupOfDistinct(df);
    ImputedOfAllPresent(df);
    var b := ClipBounds(df);
    ClipPricesSpec(df, b);
    assert ClipPrices(df, b) == df;
    assert forall i :: 0 <= i < |df| ==> df[i].price.value >= b.value.lower > 0.0;
    assert forall i :: 0 <= i < |df| ==> !NegativePrice(df[i]) && !ZeroVolume(df[i]);
    RemoveInvalidOfValid(df);
  }

  /** A table with no invalid row is left as it is. */
  lemma {:induction false} RemoveInvalidOfValid(t: Table)
    requires forall i :: 0 <= i < |t| ==> !Invalid(t[i])
    ensures RemoveInvalid(t) == t
  {
    if t != [] {
      assert forall i :: 0 <= i < |t[1..]| ==> t[1..][i] == t[i + 1];
      RemoveInvalidOfValid(t[1..]);
    }
  }
}
