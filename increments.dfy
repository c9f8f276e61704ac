/** Histograms built by increments: a list of cell indices, each of which adds one to its cell,
    applied in list order. Nothing here depends on how the indices were computed. */
module Increments {
  import opened Sums

  /** Every listed cell is an index of a histogram of `n` cells. */
  predicate InRange(cells: seq<int>, n: int)
  {
    forall k :: 0 <= k < |cells| ==> 0 <= cells[k] < n
  }

  /** `h` after one increment of each listed cell, in list order. */
  function Increment(h: seq<int>, cells: seq<int>): (r: seq<int>)
    requires InRange(cells, |h|)
    ensures |r| == |h|
  {
    if cells == [] then h
    else
      var prev := Increment(h, cells[..|cells| - 1]);
      var c := cells[|cells| - 1];
      prev[c := prev[c] + 1]
  }

  /** How many times cell `j` is listed. */
  function Count(cells: seq<int>, j: int): nat
  {
    if cells == [] then 0
    else Count(cells[..|cells| - 1], j) + (if cells[|cells| - 1] == j then 1 else 0)
  }

  /** How many listed cells lie in `[lo, hi)`. */
  function CountIn(cells: seq<int>, lo: int, hi: int): nat
  {
    if cells == [] then 0
    else CountIn(cells[..|cells| - 1], lo, hi) + (if lo <= cells[|cells| - 1] < hi then 1 else 0)
  }

  /** Two lists of cells inside the histogram, one after the other, are inside it. */
  lemma InRangeAppend(a: seq<int>, b: seq<int>, n: int)
    requires InRange(a, n) && InRange(b, n)
    ensures InRange(a + b, n)
  {
    forall k | 0 <= k < |a + b|
      ensures 0 <= (a + b)[k] < n
    {
      if k >= |a| {
        assert (a + b)[k] == b[k - |a|];
      }
    }
  }

  /** Incrementing the cells of `a` and then those of `b` is incrementing those of `a + b`. */
  lemma {:induction false} IncrementAppend(h: seq<int>, a: seq<int>, b: seq<int>)
    requires InRange(a, |h|) && InRange(b, |h|)
    ensures InRange(a + b, |h|)
    ensures Increment(h, a + b) == Increment(Increment(h, a), b)
    decreases |b|
  {
    InRangeAppend(a, b, |h|);
    if b == [] {
      assert a + b == a;
    } else {
      var b' := b[..|b| - 1];
      assert (a + b)[..|a + b| - 1] == a + b';
      IncrementAppend(h, a, b');
    }
  }

  /** Each cell grows by the number of times it is listed. */
  lemma {:induction false} IncrementAt(h: seq<int>, cells: seq<int>, j: int)
    requires InRange(cells, |h|) && 0 <= j < |h|
    ensures Increment(h, cells)[j] == h[j] + Count(cells, j)
  {
    if cells != [] {
      IncrementAt(h, cells[..|cells| - 1], j);
    }
  }

  /** The sum of a slice grows by the number of listed cells inside it. */
  lemma {:induction false} IncrementSliceSum(h: seq<int>, cells: seq<int>, lo: int, hi: int)
    requires InRange(cells, |h|) && 0 <= lo <= hi <= |h|
    ensures Sum(Increment(h, cells)[lo..hi]) == Sum(h[lo..hi]) + CountIn(cells, lo, hi)
  {
    if cells != [] {
      var prev := Increment(h, cells[..|cells| - 1]);
      var c := cells[|cells| - 1];
      IncrementSliceSum(h, cells[..|cells| - 1], lo, hi);
      SumSliceUpdate(prev, c, prev[c] + 1, lo, hi);
    }
  }

  /** Every listed cell lies in the whole histogram. */
  lemma {:induction false} CountInAll(cells: seq<int>, n: int)
    requires InRange(cells, n)
    ensures CountIn(cells, 0, n) == |cells|
  {
    if cells != [] {
      CountInAll(cells[..|cells| - 1], n);
    }
  }

  /** The total grows by one per listed cell. */
  lemma IncrementTotal(h: seq<int>, cells: seq<int>)
    requires InRange(cells, |h|)
    ensures Sum(Increment(h, cells)) == Sum(h) + |cells|
  {
    IncrementSliceSum(h, cells, 0, |h|);
    CountInAll(cells, |h|);
    assert h[0..|h|] == h;
    assert Increment(h, cells)[0..|h|] == Increment(h, cells);
  }

  /** Counting over a concatenation adds the counts. */
  lemma {:induction false} CountAppend(a: seq<int>, b: seq<int>, j: int, lo: int, hi: int)
    ensures Count(a + b, j) == Count(a, j) + Count(b, j)
    ensures CountIn(a + b, lo, hi) == CountIn(a, lo, hi) + CountIn(b, lo, hi)
    decreases |b|
  {
    if b == [] {
      assert a + b == a;
    } else {
      var b' := b[..|b| - 1];
      assert (a + b)[..|a + b| - 1] == a + b';
      CountAppend(a, b', j, lo, hi);
    }
  }

  /** The counts over a list of three cells. */
  lemma CountThree(c0: int, c1: int, c2: int, j: int, lo: int, hi: int)
    ensures Count([c0, c1, c2], j) == (if c0 == j then 1 else 0) + (if c1 == j then 1 else 0) + (if c2 == j then 1 else 0)
    ensures CountIn([c0, c1, c2], lo, hi) == (if lo <= c0 < hi then 1 else 0) + (if lo <= c1 < hi then 1 else 0) + (if lo <= c2 < hi then 1 else 0)
  {
    assert [c0][..0] == [];
    assert [c0, c1][..1] == [c0];
    assert [c0, c1, c2][..2] == [c0, c1];
    assert Count([c0], j) == (if c0 == j then 1 else 0);
    assert CountIn([c0], lo, hi) == (if lo <= c0 < hi then 1 else 0);
    assert Count([c0, c1], j) == Count([c0], j) + (if c1 == j then 1 else 0);
    assert CountIn([c0, c1], lo, hi) == CountIn([c0], lo, hi) + (if lo <= c1 < hi then 1 else 0);
  }
}
