/** Distances between two subraster histograms.

    `NormalisedBhattacharyyaDistance` turns two histograms into a Bhattacharyya-style distance:
    each is normalised by `max(1, sum)`, the coefficient `b` adds up the square roots of the
    products of the normalised cells, and the distance is `sqrt(1 - b)`, except that a
    coefficient `b <= 0` or `b >= 1` gives exactly 0. `FragmentedBhattacharyyaDistance` cuts both
    histograms into fragments of a given length, takes that distance fragment by fragment,
    reweights each score around the breakpoint 0.5 and averages.

    Doubles are modelled as reals. The square root is a parameter `sqrt` of which only
    `IsSqrt` is known: it is non-negative and squares back to its argument on non-negative
    arguments. That it undoes squaring and is strictly increasing are proved from these two
    facts. */
module TestConsole {
  import opened Arith
  import opened Sums

  /** The two exceptions the fragmented distance throws. */
  datatype Error = LengthError | InvalidArgument

  datatype Result<T> = Ok(value: T) | Err(error: Error)

  /** The square of a real. Products of a term with itself are written through this function
      so that the solver can reason about them as ordinary terms. */
  function Square(r: real): real
  {
    r * r
  }

  /** What the model knows of `sqrt`, both true of the real square root on the non-negative
      reals: it is non-negative, and it squares back to its argument. */
  ghost predicate IsSqrt(sqrt: real -> real)
  {
    && (forall a :: 0.0 <= a ==> 0.0 <= sqrt(a))
    && (forall a {:trigger Square(sqrt(a))} :: 0.0 <= a ==> Square(sqrt(a)) == a)
  }

  /** Squaring is strictly increasing on the non-negative reals. */
  lemma SquareMonotone(r: real, t: real)
    requires 0.0 <= r < t
    ensures Square(r) < Square(t)
  {
    var d, e := t - r, t + r;
    assert Square(t) - Square(r) == d * e;
    PositiveProduct(d, e);
  }

  lemma PositiveProduct(d: real, e: real)
    requires 0.0 < d && 0.0 < e
    ensures 0.0 < d * e
  {
  }

  /** Two non-negative reals with the same square are equal. */
  lemma SquareInjective(r: real, t: real)
    requires 0.0 <= r && 0.0 <= t && Square(r) == Square(t)
    ensures r == t
  {
    if r < t {
      SquareMonotone(r, t);
    } else if t < r {
      SquareMonotone(t, r);
    }
  }

  /** The square root undoes squaring on the non-negative reals. */
  lemma SqrtOfSquare(sqrt: real -> real, r: real)
    requires IsSqrt(sqrt) && 0.0 <= r
    ensures sqrt(Square(r)) == r
  {
    var a := Square(r);
    assert 0.0 <= a by {
      if 0.0 < r {
        SquareMonotone(0.0, r);
      }
    }
    SquareInjective(sqrt(a), r);
  }

  /** The square root is strictly increasing on the non-negative reals. */
  lemma SqrtMonotone(sqrt: real -> real, a: real, b: real)
    requires IsSqrt(sqrt) && 0.0 <= a < b
    ensures sqrt(a) < sqrt(b)
  {
    var ra, rb := sqrt(a), sqrt(b);
    assert 0.0 <= ra && Square(ra) == a;
    assert 0.0 <= rb && Square(rb) == b;
    if rb < ra {
      SquareMonotone(rb, ra);
    }
  }

  /** The square root of 0 is 0 and that of 1 is 1. */
  lemma SqrtZeroOne(sqrt: real -> real)
    requires IsSqrt(sqrt)
    ensures sqrt(0.0) == 0.0 && sqrt(1.0) == 1.0
  {
    SqrtOfSquare(sqrt, 0.0);
    SqrtOfSquare(sqrt, 1.0);
    assert Square(0.0) == 0.0 && Square(1.0) == 1.0;
  }

  /** The square root maps the open unit interval into itself. */
  lemma SqrtOpenUnit(sqrt: real -> real, a: real)
    requires IsSqrt(sqrt) && 0.0 < a < 1.0
    ensures 0.0 < sqrt(a) < 1.0
  {
    SqrtZeroOne(sqrt);
    SqrtMonotone(sqrt, 0.0, a);
    SqrtMonotone(sqrt, a, 1.0);
  }

  /** The normaliser of a histogram: its integer sum, but at least 1, so that an all-zero
      histogram is not a division by zero. */
  function Normaliser(h: seq<int>): (n: int)
    ensures 1 <= n && Sum(h) <= n
    ensures n == 1 || n == Sum(h)
  {
    if Sum(h) < 1 then 1 else Sum(h)
  }

  /** An all-zero histogram is normalised by 1. */
  lemma NormaliserOfZeros(h: seq<int>)
    requires forall k :: 0 <= k < |h| ==> h[k] == 0
    ensures Normaliser(h) == 1
  {
    SumOfZeros(h);
  }

  /** The coefficient accumulated over the cells of `x`, with the cells of `x` divided by `xSum`
      and those of `y` by `ySum`. */
  function Coefficient(x: seq<int>, y: seq<int>, xSum: real, ySum: real, sqrt: real -> real): (b: real)
    requires |x| <= |y| && xSum != 0.0 && ySum != 0.0
    ensures IsSqrt(sqrt) && 0.0 < xSum && 0.0 < ySum && (forall k :: 0 <= k < |x| ==> 0 <= x[k] && 0 <= y[k])
            ==> 0.0 <= b
  {
    if x == [] then 0.0
    else Coefficient(x[..|x| - 1], y, xSum, ySum, sqrt)
         + sqrt(CellProduct(x[|x| - 1], y[|x| - 1], xSum, ySum))
  }

  /** The product of two cells, each divided by its histogram's normaliser. */
  function CellProduct(xv: int, yv: int, xSum: real, ySum: real): (p: real)
    requires xSum != 0.0 && ySum != 0.0
    ensures 0 <= xv && 0 <= yv && 0.0 < xSum && 0.0 < ySum ==> 0.0 <= p
  {
    (xv as real / xSum) * (yv as real / ySum)
  }

  /** The distance read off a coefficient `b`: exactly 0 when `b <= 0` or `b >= 1`, and
      otherwise the number in `(0, 1)` whose square is `1 - b`. */
  function DistanceOf(b: real, sqrt: real -> real): (d: real)
    requires IsSqrt(sqrt)
    ensures b <= 0.0 || b >= 1.0 ==> d == 0.0
    ensures 0.0 < b < 1.0 ==> 0.0 < d < 1.0 && Square(d) == 1.0 - b
  {
    if b <= 0.0 || b >= 1.0 then 0.0
    else
      SqrtOpenUnit(sqrt, 1.0 - b);
      sqrt(1.0 - RealMin(b, 1.0))
  }

  /** The smaller of two reals. */
  function RealMin(a: real, b: real): (m: real)
    ensures m <= a && m <= b && (m == a || m == b)
  {
    if a <= b then a else b
  }

  /** The normalised Bhattacharyya distance of `x` and `y`; it lies in `[0, 1)`. */
  function Distance(x: seq<int>, y: seq<int>, sqrt: real -> real): (d: real)
    requires |x| <= |y| && IsSqrt(sqrt)
    ensures 0.0 <= d < 1.0
  {
    DistanceOf(Coefficient(x, y, Normaliser(x) as real, Normaliser(y) as real, sqrt), sqrt)
  }

  /** Computes the normalised Bhattacharyya distance, accumulating the coefficient cell by
      cell. */
  method NormalisedBhattacharyyaDistance(x: seq<int>, y: seq<int>, sqrt: real -> real) returns (d: real)
    requires |x| <= |y| && IsSqrt(sqrt)
    ensures d == Distance(x, y, sqrt)
  {
    var xSum := Normaliser(x) as real;
    var ySum := Normaliser(y) as real;
    var b := 0.0;
    for i := 0 to |x|
      invariant b == Coefficient(x[..i], y, xSum, ySum, sqrt)
    {
      assert x[..i + 1][..i] == x[..i] && x[..i + 1][i] == x[i];
      b := b + sqrt(CellProduct(x[i], y[i], xSum, ySum));
    }
    assert x[..|x|] == x;
    if b <= 0.0 || b >= 1.0 {
      return 0.0;
    }
    return sqrt(1.0 - RealMin(b, 1.0));
  }

  /** Comparing a non-negative histogram with itself gives 0: the coefficient is exactly 1 when
      the histogram has a positive sum and 0 when it is all zeros, and both are clamped to 0. */
  lemma SelfDistance(h: seq<int>, sqrt: real -> real)
    requires IsSqrt(sqrt)
    requires forall k :: 0 <= k < |h| ==> 0 <= h[k]
    ensures Distance(h, h, sqrt) == 0.0
  {
    var n := Normaliser(h) as real;
    SelfCoefficient(h, h, n, sqrt);
    SumNonNegative(h);
    if Sum(h) >= 1 {
      DivSelf(n);
    }
  }

  lemma DivSelf(a: real)
    requires a != 0.0
    ensures a / a == 1.0
  {
  }

  /** The coefficient of a prefix `x` of a non-negative histogram `h` with `h` itself, both
      normalised by `n`, is the prefix's share of `n`. */
  lemma {:induction false} SelfCoefficient(x: seq<int>, h: seq<int>, n: real, sqrt: real -> real)
    requires IsSqrt(sqrt) && 0.0 < n && |x| <= |h|
    requires forall k :: 0 <= k < |x| ==> x[k] == h[k] && 0 <= x[k]
    ensures Coefficient(x, h, n, n, sqrt) == Sum(x) as real / n
  {
    if x != [] {
      var k := |x| - 1;
      var v := x[k] as real / n;
      SelfCoefficient(x[..k], h, n, sqrt);
      assert 0.0 <= v;
      assert CellProduct(x[k], h[k], n, n) == Square(v);
      SqrtOfSquare(sqrt, v);
      assert Sum(x) == Sum(x[..k]) + x[k];
      DivAdd(Sum(x[..k]) as real, x[k] as real, n);
    }
  }

  lemma DivAdd(a: real, b: real, n: real)
    requires n != 0.0
    ensures a / n + b / n == (a + b) / n
  {
  }

  /** Two histograms with no common non-zero cell are at distance 0: the coefficient is 0 and
      the clamp maps it to 0, not to a large distance. */
  lemma DisjointDistance(x: seq<int>, y: seq<int>, sqrt: real -> real)
    requires IsSqrt(sqrt) && |x| <= |y|
    requires forall k :: 0 <= k < |x| ==> x[k] == 0 || y[k] == 0
    ensures Distance(x, y, sqrt) == 0.0
  {
    DisjointCoefficient(x, y, Normaliser(x) as real, Normaliser(y) as real, sqrt);
  }

  lemma {:induction false} DisjointCoefficient(x: seq<int>, y: seq<int>, xSum: real, ySum: real, sqrt: real -> real)
    requires IsSqrt(sqrt) && |x| <= |y| && xSum != 0.0 && ySum != 0.0
    requires forall k :: 0 <= k < |x| ==> x[k] == 0 || y[k] == 0
    ensures Coefficient(x, y, xSum, ySum, sqrt) == 0.0
  {
    if x != [] {
      DisjointCoefficient(x[..|x| - 1], y, xSum, ySum, sqrt);
      SqrtZeroOne(sqrt);
    }
  }

  /** The reweighting of one fragment score: from 0.5 upward its square root, below 0.5 its
      square. Scores in `[0, 1)` stay in `[0, 1)`. */
  function Reweight(d: real, sqrt: real -> real): (r: real)
    requires IsSqrt(sqrt)
    ensures 0.5 <= d ==> 0.0 <= r && Square(r) == d
    ensures d < 0.5 ==> r == d * d
    ensures 0.0 <= d < 1.0 ==> 0.0 <= r < 1.0
  {
    if d >= 0.5 then
      assert d < 1.0 ==> sqrt(d) < 1.0 by {
        if d < 1.0 {
          SqrtOpenUnit(sqrt, d);
        }
      }
      sqrt(d)
    else
      assert 0.0 <= d ==> d * d <= 0.5 * d;
      d * d
  }

  /** The breakpoint belongs to the square-root branch: 0.5 is mapped to a root of 0.5, not to
      0.25. */
  lemma ReweightBreakpoint(sqrt: real -> real)
    requires IsSqrt(sqrt)
    ensures Square(Reweight(0.5, sqrt)) == 0.5
    ensures Reweight(0.5, sqrt) != 0.25
  {
  }

  /** Every score reweighted, position by position. */
  function Reweighted(s: seq<real>, sqrt: real -> real): (r: seq<real>)
    requires IsSqrt(sqrt)
    ensures |r| == |s|
    ensures forall k :: 0 <= k < |s| ==> r[k] == Reweight(s[k], sqrt)
  {
    if s == [] then [] else Reweighted(s[..|s| - 1], sqrt) + [Reweight(s[|s| - 1], sqrt)]
  }

  /** Fragment `k` of `h`: the cells `[L * k, L * k + L)`. */
  function Fragment(h: seq<int>, fragmentLength: nat, k: nat): (f: seq<int>)
    requires fragmentLength * k + fragmentLength <= |h|
    ensures |f| == fragmentLength
  {
    h[fragmentLength * k .. fragmentLength * k + fragmentLength]
  }

  /** The first `n` fragments of `h`, in order. */
  function Fragments(h: seq<int>, fragmentLength: nat, n: nat): (fs: seq<seq<int>>)
    requires fragmentLength * n <= |h|
    ensures |fs| == n
  {
    if n == 0 then []
    else Fragments(h, fragmentLength, n - 1) + [Fragment(h, fragmentLength, n - 1)]
  }

  /** All fragments joined end to end. */
  function Concat(fs: seq<seq<int>>): seq<int>
  {
    if fs == [] then [] else Concat(fs[..|fs| - 1]) + fs[|fs| - 1]
  }

  /** The fragments partition the histogram: joined in order they give back its first
      `n * fragmentLength` cells, so they are contiguous, in bounds and do not overlap. */
  lemma {:induction false} FragmentsPartition(h: seq<int>, fragmentLength: nat, n: nat)
    requires fragmentLength * n <= |h|
    ensures Concat(Fragments(h, fragmentLength, n)) == h[..fragmentLength * n]
  {
    if n > 0 {
      var fs := Fragments(h, fragmentLength, n);
      assert fs[..n - 1] == Fragments(h, fragmentLength, n - 1);
      FragmentsPartition(h, fragmentLength, n - 1);
      FragmentWithin(fragmentLength, n - 1, n);
      var m := fragmentLength * (n - 1);
      assert m + fragmentLength == fragmentLength * n;
      assert fs[n - 1] == h[m .. m + fragmentLength];
      assert h[..m] + h[m .. m + fragmentLength] == h[..m + fragmentLength];
    }
  }

  /** The distances of the first `n` fragment pairs, fragment `k` of `x` against fragment `k`
      of `y`. */
  function Scores(x: seq<int>, y: seq<int>, fragmentLength: nat, n: nat, sqrt: real -> real): (s: seq<real>)
    requires fragmentLength * n <= |x| && fragmentLength * n <= |y| && IsSqrt(sqrt)
    ensures |s| == n
    ensures forall k :: 0 <= k < n ==> 0.0 <= s[k] < 1.0
  {
    if n == 0 then []
    else Scores(x, y, fragmentLength, n - 1, sqrt)
         + [Distance(Fragment(x, fragmentLength, n - 1), Fragment(y, fragmentLength, n - 1), sqrt)]
  }

  /** Score `k` is the distance of fragment `k` of `x` and fragment `k` of `y`, and of nothing
      else. */
  lemma {:induction false} ScoreAt(x: seq<int>, y: seq<int>, fragmentLength: nat, n: nat, k: nat, sqrt: real -> real)
    requires fragmentLength * n <= |x| && fragmentLength * n <= |y| && IsSqrt(sqrt) && k < n
    ensures fragmentLength * k + fragmentLength <= fragmentLength * n
    ensures Scores(x, y, fragmentLength, n, sqrt)[k]
            == Distance(Fragment(x, fragmentLength, k), Fragment(y, fragmentLength, k), sqrt)
  {
    FragmentWithin(fragmentLength, k, n);
    if k < n - 1 {
      FragmentWithin(fragmentLength, n - 2, n);
      ScoreAt(x, y, fragmentLength, n - 1, k, sqrt);
    }
  }

  /** The fragments of a non-negative histogram are non-negative. */
  lemma FragmentNonNegative(h: seq<int>, fragmentLength: nat, k: nat)
    requires fragmentLength * k + fragmentLength <= |h|
    requires forall i :: 0 <= i < |h| ==> 0 <= h[i]
    ensures forall i :: 0 <= i < fragmentLength ==> 0 <= Fragment(h, fragmentLength, k)[i]
  {
    var start := fragmentLength * k;
    forall i | 0 <= i < fragmentLength
      ensures 0 <= Fragment(h, fragmentLength, k)[i]
    {
      assert Fragment(h, fragmentLength, k)[i] == h[start + i];
    }
  }

  /** The scores are the only sequence whose element `k` is the distance of fragment pair
      `k`. */
  lemma ScoresPointwise(x: seq<int>, y: seq<int>, fragmentLength: nat, n: nat, s: seq<real>, sqrt: real -> real)
    requires fragmentLength * n <= |x| && fragmentLength * n <= |y| && IsSqrt(sqrt) && |s| == n
    requires forall k :: 0 <= k < n ==>
               fragmentLength * k + fragmentLength <= fragmentLength * n &&
               s[k] == Distance(Fragment(x, fragmentLength, k), Fragment(y, fragmentLength, k), sqrt)
    ensures s == Scores(x, y, fragmentLength, n, sqrt)
  {
    forall k | 0 <= k < n
      ensures s[k] == Scores(x, y, fragmentLength, n, sqrt)[k]
    {
      ScoreAt(x, y, fragmentLength, n, k, sqrt);
    }
  }

  /** Fragment `k` of `n` ends within the first `n` fragments. */
  lemma FragmentWithin(fragmentLength: nat, k: nat, n: nat)
    requires k < n
    ensures 0 <= fragmentLength * k && fragmentLength * k + fragmentLength <= fragmentLength * n
  {
    MulMonotone(0, k, fragmentLength);
    MulMonotone(k + 1, n, fragmentLength);
    assert (k + 1) * fragmentLength == fragmentLength * k + fragmentLength;
  }

  /** Fragment pairs are scored independently: changing cells outside fragment `k` leaves
      score `k` as it was. */
  lemma ScoreLocality(x: seq<int>, y: seq<int>, x': seq<int>, y': seq<int>, fragmentLength: nat, n: nat, k: nat, sqrt: real -> real)
    requires IsSqrt(sqrt) && k < n
    requires fragmentLength * n <= |x| && fragmentLength * n <= |y|
    requires |x'| == |x| && |y'| == |y|
    requires forall i :: 0 <= i < |x| && fragmentLength * k <= i < fragmentLength * k + fragmentLength ==> x[i] == x'[i]
    requires forall i :: 0 <= i < |y| && fragmentLength * k <= i < fragmentLength * k + fragmentLength ==> y[i] == y'[i]
    ensures Scores(x, y, fragmentLength, n, sqrt)[k] == Scores(x', y', fragmentLength, n, sqrt)[k]
  {
    ScoreAt(x, y, fragmentLength, n, k, sqrt);
    ScoreAt(x', y', fragmentLength, n, k, sqrt);
    FragmentAgree(x, x', fragmentLength, k);
    FragmentAgree(y, y', fragmentLength, k);
  }

  /** Two histograms that agree on the cells of fragment `k` have the same fragment `k`. */
  lemma FragmentAgree(h: seq<int>, h': seq<int>, fragmentLength: nat, k: nat)
    requires fragmentLength * k + fragmentLength <= |h| == |h'|
    requires forall i :: 0 <= i < |h| && fragmentLength * k <= i < fragmentLength * k + fragmentLength ==> h[i] == h'[i]
    ensures Fragment(h, fragmentLength, k) == Fragment(h', fragmentLength, k)
  {
    var start := fragmentLength * k;
    forall i | 0 <= i < fragmentLength
      ensures Fragment(h, fragmentLength, k)[i] == Fragment(h', fragmentLength, k)[i]
    {
      assert h[start + i] == h'[start + i];
    }
  }

  /** Mean of a non-empty sequence of scores. */
  function Mean(s: seq<real>): (m: real)
    requires s != []
    ensures m * |s| as real == RealSum(s)
  {
    RealSum(s) / |s| as real
  }

  /** The mean of scores in `[0, 1)` is in `[0, 1)`. */
  lemma MeanUnit(s: seq<real>)
    requires s != [] && forall k :: 0 <= k < |s| ==> 0.0 <= s[k] < 1.0
    ensures 0.0 <= Mean(s) < 1.0
  {
    RealSumBounds(s);
    DivUnit(RealSum(s), |s| as real);
  }

  /** A quotient of a non-negative dividend by a larger divisor lies in `[0, 1)`. */
  lemma DivUnit(a: real, n: real)
    requires 0.0 <= a < n
    ensures 0.0 <= a / n < 1.0
  {
  }

  /** The fragmented distance: a length error when the sizes differ, checked first; an
      invalid-argument error when the size is not a multiple of the fragment length; otherwise
      the mean of the reweighted fragment scores, in `[0, 1)`. */
  function FragmentedDistance(x: seq<int>, y: seq<int>, fragmentLength: nat, sqrt: real -> real): (r: Result<real>)
    requires IsSqrt(sqrt) && (|x| != |y| || (0 < fragmentLength && x != []))
    ensures r == Err(LengthError) <==> |x| != |y|
    ensures r == Err(InvalidArgument) <==> |x| == |y| && |x| % fragmentLength != 0
    ensures r.Ok? ==> 0.0 <= r.value < 1.0
  {
    if |x| != |y| then Err(LengthError)
    else if |x| % fragmentLength != 0 then Err(InvalidArgument)
    else
      var n := |x| / fragmentLength;
      var scores := Reweighted(Scores(x, y, fragmentLength, n, sqrt), sqrt);
      MeanUnit(scores);
      Ok(Mean(scores))
  }

  /** Comparing a non-negative histogram with itself, fragment by fragment, gives 0. */
  lemma FragmentedSelfDistance(h: seq<int>, fragmentLength: nat, sqrt: real -> real)
    requires 0 < fragmentLength && h != [] && IsSqrt(sqrt) && |h| % fragmentLength == 0
    requires forall k :: 0 <= k < |h| ==> 0 <= h[k]
    ensures FragmentedDistance(h, h, fragmentLength, sqrt) == Ok(0.0)
  {
    var n := |h| / fragmentLength;
    FragmentCount(|h|, fragmentLength);
    var scores := Reweighted(Scores(h, h, fragmentLength, n, sqrt), sqrt);
    SelfScores(h, fragmentLength, n, sqrt);
    RealSumOfZeros(scores);
    assert Mean(scores) == 0.0 / n as real;
  }

  /** Every fragment of a non-negative histogram is at distance 0 from itself. */
  lemma SelfScores(h: seq<int>, fragmentLength: nat, n: nat, sqrt: real -> real)
    requires fragmentLength * n <= |h| && IsSqrt(sqrt)
    requires forall k :: 0 <= k < |h| ==> 0 <= h[k]
    ensures forall k :: 0 <= k < n ==> Scores(h, h, fragmentLength, n, sqrt)[k] == 0.0
  {
    forall k | 0 <= k < n
      ensures Scores(h, h, fragmentLength, n, sqrt)[k] == 0.0
    {
      ScoreAt(h, h, fragmentLength, n, k, sqrt);
      FragmentNonNegative(h, fragmentLength, k);
      SelfDistance(Fragment(h, fragmentLength, k), sqrt);
    }
  }

  /** A size that is a multiple of the fragment length is exactly covered by its fragments. */
  lemma FragmentCount(size: nat, fragmentLength: nat)
    requires 0 < fragmentLength && size % fragmentLength == 0
    ensures fragmentLength * (size / fragmentLength) == size
    ensures 0 < size ==> 0 < size / fragmentLength
  {
    var n := size / fragmentLength;
    assert size == n * fragmentLength + size % fragmentLength;
  }

  /** Scores fragment pair after fragment pair into a fresh array: the first loop of the
      fragmented distance. */
  method ScoreFragments(x: seq<int>, y: seq<int>, fragmentLength: nat, fragmentCount: nat, sqrt: real -> real)
    returns (scores: array<real>)
    requires fragmentLength * fragmentCount <= |x| && fragmentLength * fragmentCount <= |y| && IsSqrt(sqrt)
    ensures fresh(scores) && scores.Length == fragmentCount
    ensures forall k :: 0 <= k < fragmentCount ==>
              fragmentLength * k + fragmentLength <= fragmentLength * fragmentCount &&
              scores[k] == Distance(Fragment(x, fragmentLength, k), Fragment(y, fragmentLength, k), sqrt)
  {
    scores := new real[fragmentCount];
    for fragmentIndex := 0 to fragmentCount
      invariant forall k :: 0 <= k < fragmentIndex ==>
                  fragmentLength * k + fragmentLength <= fragmentLength * fragmentCount &&
                  scores[k] == Distance(Fragment(x, fragmentLength, k), Fragment(y, fragmentLength, k), sqrt)
    {
      FragmentWithin(fragmentLength, fragmentIndex, fragmentCount);
      var start := fragmentLength * fragmentIndex;
      var fragmentX := x[start .. start + fragmentLength];
      var fragmentY := y[start .. start + fragmentLength];
      scores[fragmentIndex] := NormalisedBhattacharyyaDistance(fragmentX, fragmentY, sqrt);
    }
  }

  /** Replaces every score by its reweighting, in place: the second loop of the fragmented
      distance. */
  method ReweightScores(scores: array<real>, sqrt: real -> real)
    requires IsSqrt(sqrt)
    modifies scores
    ensures scores[..] == Reweighted(old(scores[..]), sqrt)
  {
    for k := 0 to scores.Length
      invariant forall j :: 0 <= j < k ==> scores[j] == Reweight(old(scores[j]), sqrt)
      invariant forall j :: k <= j < scores.Length ==> scores[j] == old(scores[j])
    {
      scores[k] := Reweight(scores[k], sqrt);
    }
  }

  /** Computes the fragmented distance: checks the two error conditions, scores each fragment
      pair into a fresh array, reweights the array in place and averages it. */
  method FragmentedBhattacharyyaDistance(x: seq<int>, y: seq<int>, fragmentLength: nat, sqrt: real -> real)
    returns (r: Result<real>)
    requires IsSqrt(sqrt) && (|x| != |y| || (0 < fragmentLength && x != []))
    ensures r == FragmentedDistance(x, y, fragmentLength, sqrt)
  {
    if |x| != |y| {
      return Err(LengthError);
    }
    if |x| % fragmentLength != 0 {
      return Err(InvalidArgument);
    }
    var fragmentCount := |x| / fragmentLength;
    FragmentCount(|x|, fragmentLength);
    var scores := ScoreFragments(x, y, fragmentLength, fragmentCount, sqrt);
    ScoresPointwise(x, y, fragmentLength, fragmentCount, scores[..], sqrt);
    ReweightScores(scores, sqrt);
    assert Mean(scores[..]) == RealSum(scores[..]) / fragmentCount as real;
    r := Ok(RealSum(scores[..]) / fragmentCount as real);
  }
}
