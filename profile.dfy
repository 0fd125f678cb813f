/** The counts in load_and_profile's report: rows, missing prices, repeated rows, negative
    prices and zero volumes. */
module Profile {
  import opened Ticks
  import opened Cleaner
  import opened Selection

  datatype Report = Report(rows: nat, missingPrices: nat, duplicates: nat,
                           negativePrices: nat, zeroVolumes: nat)

  /** `price.isnull().sum()`: the rows without a price are those not in `PresentPrices`. */
  function MissingPriceCount(t: Table): (n: nat)
    ensures n == |t| - |PresentPrices(t)|
  {
    if t == [] then 0
    else (if MissingPrice(t[0]) then 1 else 0) + MissingPriceCount(t[1..])
  }

  /** `(price < 0).sum()`, where a missing price does not compare below zero. */
  function NegativePriceCount(t: Table): (n: nat)
    ensures n <= |t|
    ensures n == 0 <==> forall i :: 0 <= i < |t| ==> !(t[i].price.Some? && t[i].price.value < 0.0)
  {
    if t == [] then 0
    else
      assert forall i :: 0 < i < |t| ==> t[i] == t[1..][i - 1];
      (if NegativePrice(t[0]) then 1 else 0) + NegativePriceCount(t[1..])
  }

  lemma {:induction false} NegativePriceCountFrom(t: Table, from: int)
    requires 0 <= from <= |t|
    ensures NegativePriceCount(t[from..]) == |PositionsFrom(t, NegativePrice, from)|
    decreases |t| - from
  {
    if from < |t| {
      NegativePriceCountFrom(t, from + 1);
      assert t[from..][1..] == t[from + 1..];
    }
  }

  /** `(price < 0).sum()` is the number of rows with a negative price. */
  lemma NegativePriceCountIsCount(t: Table)
    ensures NegativePriceCount(t)
            == |set i | 0 <= i < |t| && t[i].price.Some? && t[i].price.value < 0.0|
  {
    NegativePriceCountFrom(t, 0);
    assert t[0..] == t;
    PositionsFromCount(t, NegativePrice, 0);
    var negatives := set i | 0 <= i < |t| && t[i].price.Some? && t[i].price.value < 0.0;
    forall i
      ensures i in SelectedFrom(t, NegativePrice, 0) <==> i in negatives
    {
    }
    assert SelectedFrom(t, NegativePrice, 0) == negatives;
  }

  /** `duplicated().sum()`: the rows that repeat an earlier row. Every row deduplication
      drops is counted, and no other. */
  function DuplicateCount(t: Table): (n: nat)
    ensures n + |Dedup(t)| == |t|
  {
    if t == [] then 0
    else DuplicateCount(t[..|t| - 1]) + (if SeenBefore(t, |t| - 1) then 1 else 0)
  }

  function ProfileOf(t: Table): Report
  {
    Report(|t|, MissingPriceCount(t), DuplicateCount(t), NegativePriceCount(t),
           ZeroVolumeCount(t))
  }

  /** No repeated row is counted exactly when no two rows share a key. */
  lemma {:induction false} NoDuplicatesIffDistinct(t: Table)
    ensures DuplicateCount(t) == 0 <==> DistinctKeys(t)
  {
    if t != [] {
      var init := t[..|t| - 1];
      NoDuplicatesIffDistinct(init);
      var last := |t| - 1;
      assert forall i :: 0 <= i < last ==> t[i] == init[i];
      if DistinctKeys(t) {
        assert DistinctKeys(init);
        assert !SeenBefore(t, last);
      }
      if DistinctKeys(init) && !SeenBefore(t, last) {
        forall i, j | 0 <= i < j < |t|
          ensures KeyOf(t[i]) != KeyOf(t[j])
        {
          if j < last {
            assert KeyOf(init[i]) != KeyOf(init[j]);
          }
        }
      }
    }
  }

  /** Profiling a table after the invalid rows are removed reports no negative price and
      no zero volume. */
  lemma ProfileAfterRemoveInvalid(t: Table)
    ensures ProfileOf(RemoveInvalid(t)).negativePrices == 0
    ensures ProfileOf(RemoveInvalid(t)).zeroVolumes == 0
  {
    var u := RemoveInvalid(t);
    assert forall i :: 0 <= i < |u| ==> u[i] in u;
  }
}
