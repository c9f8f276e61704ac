/** Sums over sequences: `std::reduce` over a `vector<int>` or a `vector<double>`. */
module Sums {

  /** Sum of the entries, added from the front. */
  function Sum(s: seq<int>): int
  {
    if s == [] then 0 else Sum(s[..|s| - 1]) + s[|s| - 1]
  }

  /** Sum of the entries of a sequence of reals, added from the front. */
  function RealSum(s: seq<real>): real
  {
    if s == [] then 0.0 else RealSum(s[..|s| - 1]) + s[|s| - 1]
  }

  /** Replacing one entry changes the sum by the difference. */
  lemma {:induction false} SumUpdate(s: seq<int>, i: int, v: int)
    requires 0 <= i < |s|
    ensures Sum(s[i := v]) == Sum(s) - s[i] + v
  {
    var t := s[i := v];
    if i < |s| - 1 {
      assert t[..|t| - 1] == s[..|s| - 1][i := v];
      SumUpdate(s[..|s| - 1], i, v);
    } else {
      assert t[..|t| - 1] == s[..|s| - 1];
    }
  }

  /** Replacing entry `i` changes the sum of the slice `[lo, hi)` by the difference exactly when
      `i` lies inside the slice. */
  lemma SumSliceUpdate(s: seq<int>, i: int, v: int, lo: int, hi: int)
    requires 0 <= i < |s| && 0 <= lo <= hi <= |s|
    ensures Sum(s[i := v][lo..hi]) == Sum(s[lo..hi]) + (if lo <= i < hi then v - s[i] else 0)
  {
    if lo <= i < hi {
      assert s[i := v][lo..hi] == s[lo..hi][i - lo := v];
      SumUpdate(s[lo..hi], i - lo, v);
    } else {
      assert s[i := v][lo..hi] == s[lo..hi];
    }
  }

  /** A sequence of zeros sums to zero. */
  lemma {:induction false} SumOfZeros(s: seq<int>)
    requires forall k :: 0 <= k < |s| ==> s[k] == 0
    ensures Sum(s) == 0
  {
    if s != [] {
      SumOfZeros(s[..|s| - 1]);
    }
  }

  /** A sum of non-negative values is non-negative. */
  lemma {:induction false} SumNonNegative(s: seq<int>)
    requires forall k :: 0 <= k < |s| ==> 0 <= s[k]
    ensures 0 <= Sum(s)
  {
    if s != [] {
      SumNonNegative(s[..|s| - 1]);
    }
  }

  /** A sum of values in `[0, 1)` lies in `[0, |s|)` once there is at least one of them. */
  lemma {:induction false} RealSumBounds(s: seq<real>)
    requires forall k :: 0 <= k < |s| ==> 0.0 <= s[k] < 1.0
    ensures 0.0 <= RealSum(s) <= |s| as real
    ensures s != [] ==> RealSum(s) < |s| as real
  {
    if s != [] {
      RealSumBounds(s[..|s| - 1]);
    }
  }

  /** A sum of zeros is zero. */
  lemma {:induction false} RealSumOfZeros(s: seq<real>)
    requires forall k :: 0 <= k < |s| ==> s[k] == 0.0
    ensures RealSum(s) == 0.0
  {
    if s != [] {
      RealSumOfZeros(s[..|s| - 1]);
    }
  }
}
