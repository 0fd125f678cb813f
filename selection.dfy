/** Positions selected by a predicate: the index form of a boolean-mask selection such as
    `df[mask]` or `series[series > 0]`, which keeps the selected elements in order, each
    once. */
module Selection {

  /** The positions `i` with `from <= i < |s|` and `p(s[i])`, in increasing order. */
  function PositionsFrom<T>(s: seq<T>, p: T -> bool, from: int): (idx: seq<int>)
    requires 0 <= from <= |s|
    ensures forall k :: 0 <= k < |idx| ==> from <= idx[k] < |s| && p(s[idx[k]])
    ensures forall k, l :: 0 <= k < l < |idx| ==> idx[k] < idx[l]
    ensures forall i :: from <= i < |s| && p(s[i]) ==> i in idx
    decreases |s| - from
  {
    if from == |s| then []
    else (if p(s[from]) then [from] else []) + PositionsFrom(s, p, from + 1)
  }

  /** All positions of `s` whose element satisfies `p`, in increasing order. */
  function Positions<T>(s: seq<T>, p: T -> bool): seq<int>
  {
    PositionsFrom(s, p, 0)
  }

  /** The positions at or after `from` whose element satisfies `p`. */
  function SelectedFrom<T>(s: seq<T>, p: T -> bool, from: int): set<int>
    requires 0 <= from
  {
    set i | from <= i < |s| && p(s[i])
  }

  /** Position `from` is selected or not, and the rest are selected from `from + 1` on. */
  lemma SelectedFromStep<T>(s: seq<T>, p: T -> bool, from: int)
    requires 0 <= from < |s|
    ensures |SelectedFrom(s, p, from)|
            == (if p(s[from]) then 1 else 0) + |SelectedFrom(s, p, from + 1)|
  {
    var head := if p(s[from]) then {from} else {};
    assert SelectedFrom(s, p, from) == head + SelectedFrom(s, p, from + 1);
    assert from !in SelectedFrom(s, p, from + 1);
  }

  /** There are as many selected positions as elements satisfying `p`. */
  lemma {:induction false} PositionsFromCount<T>(s: seq<T>, p: T -> bool, from: int)
    requires 0 <= from <= |s|
    ensures |PositionsFrom(s, p, from)| == |SelectedFrom(s, p, from)|
    decreases |s| - from
  {
    if from < |s| {
      PositionsFromCount(s, p, from + 1);
      SelectedFromStep(s, p, from);
    }
  }
}
