/** Tick rows, the deduplication key, and helpers that read one column of a table. */
module Ticks {
  import opened Wrappers
  import opened Selection

  /** One market tick. `timestamp` is in whole seconds; `price` is None where the
      price cell is missing (NaN in the data frame). */
  datatype Row = Row(timestamp: int, price: Option<real>, volume: real, exchange: string)

  /** A table: the data frame's rows in their current order. */
  type Table = seq<Row>

  /** The columns that clean_data deduplicates on. */
  datatype Key = Key(timestamp: int, exchange: string, price: Option<real>, volume: real)

  function KeyOf(r: Row): Key
  {
    Key(r.timestamp, r.exchange, r.price, r.volume)
  }

  /** The key covers every modelled column, so rows with equal keys are equal rows. */
  lemma KeyOfInjective(a: Row, b: Row)
    ensures KeyOf(a) == KeyOf(b) ==> a == b
  {
  }

  // Conditions on one row, as the pipeline's column comparisons compute them.

  predicate HasPrice(r: Row)
  {
    r.price.Some?
  }

  /** `price.isnull()`. */
  predicate MissingPrice(r: Row)
  {
    !HasPrice(r)
  }

  /** `price < 0`, which is false for a missing price. */
  predicate NegativePrice(r: Row)
  {
    r.price.Some? && r.price.value < 0.0
  }

  /** `price > 0`, which is false for a missing price. */
  predicate PositivePrice(r: Row)
  {
    r.price.Some? && r.price.value > 0.0
  }

  /** `volume == 0`. */
  predicate ZeroVolume(r: Row)
  {
    r.volume == 0.0
  }

  predicate HasPresentPrice(t: Table)
  {
    exists i :: 0 <= i < |t| && t[i].price.Some?
  }

  /** The present prices in table order (pandas `dropna` on the price column). */
  function PresentPrices(t: Table): (ps: seq<real>)
    ensures |ps| <= |t|
    ensures |ps| == 0 <==> !HasPresentPrice(t)
    ensures forall i :: 0 <= i < |t| && t[i].price.Some? ==> t[i].price.value in ps
  {
    if t == [] then []
    else
      assert forall i :: 0 < i < |t| ==> t[i] == t[1..][i - 1];
      (if HasPrice(t[0]) then [t[0].price.value] else []) + PresentPrices(t[1..])
  }

  /** The present prices that are strictly positive, in table order (`price > 0`
      is false for a missing price). */
  function PositivePrices(t: Table): (ps: seq<real>)
    ensures forall x :: x in ps ==> x > 0.0
    ensures forall x :: x in ps ==> exists i :: 0 <= i < |t| && t[i].price == Some(x)
    ensures forall i :: 0 <= i < |t| && t[i].price.Some? && t[i].price.value > 0.0 ==> t[i].price.value in ps
  {
    if t == [] then []
    else
      assert forall i :: 0 < i < |t| ==> t[i] == t[1..][i - 1];
      (if PositivePrice(t[0]) then [t[0].price.value] else []) + PositivePrices(t[1..])
  }

  /** Number of rows whose volume is zero (`volume == 0`). */
  function ZeroVolumeCount(t: Table): (n: nat)
    ensures n <= |t|
    ensures n == 0 <==> forall i :: 0 <= i < |t| ==> t[i].volume != 0.0
  {
    if t == [] then 0
    else
      assert forall i :: 0 < i < |t| ==> t[i] == t[1..][i - 1];
      (if ZeroVolume(t[0]) then 1 else 0) + ZeroVolumeCount(t[1..])
  }

  /** `PresentPrices(t[from..])` is the price of each row from `from` on that has one, in
      table order. */
  lemma {:induction false} PresentPricesFrom(t: Table, from: int)
    requires 0 <= from <= |t|
    ensures var ps, idx := PresentPrices(t[from..]), PositionsFrom(t, HasPrice, from);
            |ps| == |idx| && forall k :: 0 <= k < |idx| ==> ps[k] == t[idx[k]].price.value
    decreases |t| - from
  {
    if from < |t| {
      PresentPricesFrom(t, from + 1);
      assert t[from..][1..] == t[from + 1..];
    }
  }

  /** `dropna` selects the rows with a price: the result holds their prices in table
      order, one per row, so every row's price is counted as often as it occurs. */
  lemma PresentPricesAreSelected(t: Table)
    ensures var ps, idx := PresentPrices(t), Positions(t, HasPrice);
            |ps| == |idx| && forall k :: 0 <= k < |idx| ==> ps[k] == t[idx[k]].price.value
  {
    PresentPricesFrom(t, 0);
    assert t[0..] == t;
  }

  lemma {:induction false} PositivePricesFrom(t: Table, from: int)
    requires 0 <= from <= |t|
    ensures var ps, idx := PositivePrices(t[from..]), PositionsFrom(t, PositivePrice, from);
            |ps| == |idx| && forall k :: 0 <= k < |idx| ==> ps[k] == t[idx[k]].price.value
    decreases |t| - from
  {
    if from < |t| {
      PositivePricesFrom(t, from + 1);
      assert t[from..][1..] == t[from + 1..];
    }
  }

  /** `price[price > 0]` selects the rows with a positive price: the result holds their
      prices in table order, one per row. */
  lemma PositivePricesAreSelected(t: Table)
    ensures var ps, idx := PositivePrices(t), Positions(t, PositivePrice);
            |ps| == |idx| && forall k :: 0 <= k < |idx| ==> ps[k] == t[idx[k]].price.value
  {
    PositivePricesFrom(t, 0);
    assert t[0..] == t;
  }

  lemma {:induction false} ZeroVolumeCountFrom(t: Table, from: int)
    requires 0 <= from <= |t|
    ensures ZeroVolumeCount(t[from..]) == |PositionsFrom(t, ZeroVolume, from)|
    decreases |t| - from
  {
    if from < |t| {
      ZeroVolumeCountFrom(t, from + 1);
      assert t[from..][1..] == t[from + 1..];
    }
  }

  /** `(volume == 0).sum()` is the number of rows whose volume is zero. */
  lemma ZeroVolumeCountIsCount(t: Table)
    ensures ZeroVolumeCount(t) == |set i | 0 <= i < |t| && t[i].volume == 0.0|
  {
    ZeroVolumeCountFrom(t, 0);
    assert t[0..] == t;
    PositionsFromCount(t, ZeroVolume, 0);
    var zeros := set i | 0 <= i < |t| && t[i].volume == 0.0;
    forall i
      ensures i in SelectedFrom(t, ZeroVolume, 0) <==> i in zeros
    {
    }
    assert SelectedFrom(t, ZeroVolume, 0) == zeros;
  }

  /** Two tables whose volume columns agree have the same zero-volume count. */
  lemma {:induction false} ZeroVolumeCountOfSameVolumes(a: Table, b: Table)
    requires |a| == |b|
    requires forall i :: 0 <= i < |a| ==> a[i].volume == b[i].volume
    ensures ZeroVolumeCount(a) == ZeroVolumeCount(b)
  {
    if a != [] {
      ZeroVolumeCountOfSameVolumes(a[1..], b[1..]);
    }
  }
}
