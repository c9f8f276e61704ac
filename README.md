# Subraster image histogram: a Dafny model

This project models the two numeric pieces of the subraster image histogram library.

1. **Building a histogram.** `getFullSubrasterHistogramFromFile` builds a histogram from a
   decoded image.
   - The image is cut into a `rasterSideLength` x `rasterSideLength` grid of segments, and each
     segment owns a block of `bucketCount * channels` cells.
   - For every pixel, bytes 0, 1 and 2 are binned into that pixel's segment block, at the bucket
     offsets `b*B/256`, `g*B*2/256` and `r*B*3/256`.
2. **Comparing two histograms.** Two functions in the test console compare histograms:
   - `normalisedBhattacharyyaDistance`. Each histogram is normalised by `max(1, sum)`. The code
     accumulates the coefficient `b = sum of sqrt(x_i/xSum * y_i/ySum)` and returns
     `sqrt(1 - b)`. A coefficient `b <= 0` or `b >= 1` instead returns exactly 0.
   - `fragmentedBhattacharyyaDistance`. It checks the two error conditions, a length error first
     and then an invalid argument. It cuts both histograms into fragments of equal length and
     scores each pair of fragments. Each score is then reweighted: from 0.5 upward it becomes its
     square root, and below 0.5 its square. The result is the mean of the reweighted scores.

Layout:

- `histogram_lib.dfy` (module `HistogramLib`) holds the binning loop.
  - It is written as imperative code over an `array<int>`: `GetFullSubrasterHistogram` runs the
    outer loop, `BinRow` the inner loop and `BinPixel` the loop body.
  - `GetFullSubrasterHistogram` is proved to return the specification `Histogram`: start from
    all zeros, then apply, in scan order, the increment of every cell that a pixel selects.
  - `BinRow` and `BinPixel` are proved to apply, to the array as it was, the increments of the
    cells of one row (`RowCells`) and of one pixel (`PixelCells`).
- `increments.dfy` (module `Increments`) holds that specification of a histogram as a list of
  increments.
- `test_console.dfy` (module `TestConsole`) holds both distances.
  - They are written as methods with the source's loops.
  - Each method is proved equal to a specification function, and the properties are proved
    about those functions.
- `sums.dfy` and `arith.dfy` hold helper facts about sums and about integer division.

Doubles are modelled as reals. The square root is a parameter `sqrt: real -> real`. The model
knows only the two facts that `IsSqrt` states about it, on non-negative arguments:
- it is non-negative;
- it squares back to its argument.

The real square root has both properties. Two further facts are proved from them as lemmas:
the square root undoes squaring (`SqrtOfSquare`) and is strictly increasing (`SqrtMonotone`).

Three consequences of the code as written, which a channel-major reading of the layout would
not lead one to expect:
- **No channel offset.** A channel-major layout would index `segment * B * channels +
  channel * B + bucket`. The code adds no `channel * B` term
  (src/HistogramLib/HistogramLib.cpp:62-64). So every channel's offset counts from the start of
  the segment block, and the channels' ranges overlap (`ChannelRangesOverlap`,
  `BlackPixelCollides`).
- **Three increments per pixel.** The code makes exactly three increments per pixel, whatever
  `channels` is. So the total is `3 * width * height`, not `width * height * channels`
  (`HistogramTotal`).
- **Uniform image.** In an image of one colour, a segment block is non-zero only at the three
  offsets of the pixel's bytes, and those offsets may coincide. So a block has at most three
  non-zero cells, not necessarily one per channel. The block sums to three times the segment's
  pixel count (`UniformImageBlock`).

## Model

| member | source | states |
|---|---|---|
| HistogramLib.GetFullSubrasterHistogram | src/HistogramLib/HistogramLib.cpp:41-68 | returns a fresh array equal to `Histogram`: zero-initialised, length `B*channels*R^2`, then every pixel binned row by row, left to right |
| HistogramLib.BinRow | src/HistogramLib/HistogramLib.cpp:52-65 | one pass of the inner loop: the array becomes the old array incremented by the cells of row `y`, in pixel order |
| HistogramLib.BinPixel | src/HistogramLib/HistogramLib.cpp:55-64 | the three in-place increments of one pixel, written as the source indexes them: the array becomes the old array incremented by the pixel's three cells, in channel order |
| HistogramLib.HistogramLength | src/HistogramLib/HistogramLib.cpp:47 | the allocation holds `R^2` segment blocks of `B*channels` cells each |
| HistogramLib.Zeros | src/HistogramLib/HistogramLib.cpp:47 | every allocated cell starts at 0 |
| HistogramLib.Histogram | src/HistogramLib/HistogramLib.cpp:45-66 | the histogram the scan builds: the zeroed allocation, then the increments of every pixel in row-major order (`ImageCells`); it has `HistogramLength` cells |
| HistogramLib.ImageCells | src/HistogramLib/HistogramLib.cpp:50-66 | the cells incremented by the first `y` rows, row after row and left to right within a row, all inside the histogram |
| HistogramLib.LiteralCells | src/HistogramLib/HistogramLib.cpp:52-64 | the loop's own index expressions read bytes inside the buffer, and the cells they address are exactly `Cell` for channels 0, 1 and 2 |
| HistogramLib.Strip | src/HistogramLib/HistogramLib.cpp:52-55 | the strip `i*R/n` of a coordinate, used for `x*R/width` and `y*R/height`, is below `R` |
| HistogramLib.StripBounds | src/HistogramLib/HistogramLib.cpp:52-55 | `i*R/n` is the unique strip `s` with `s*n <= i*R < s*n + n`, and it is below `R` |
| HistogramLib.Segment | src/HistogramLib/HistogramLib.cpp:55 | every pixel's segment is below `R^2` |
| HistogramLib.SegmentCoordinates | src/HistogramLib/HistogramLib.cpp:52-55 | the segment numbers the grid row by row: its remainder by `R` is the x strip, its quotient the y strip |
| HistogramLib.BlockWithin | src/HistogramLib/HistogramLib.cpp:47-56 | the block of every segment, from `BlockStart` (the loop's `segmentStartIndex = segment*B*channels`) for `B*channels` cells, lies inside the histogram |
| HistogramLib.ByteLayout | src/HistogramLib/HistogramLib.cpp:58-60 | the byte at `y*w*ch + x*ch + c`, which `Channel` reads, is inside a `w*h*ch` buffer, and it belongs to pixel `(x, y)` and channel `c` only |
| HistogramLib.BucketOffset | src/HistogramLib/HistogramLib.cpp:62-64 | the offset `v*B*k/256` of a channel byte is the floor quotient: `o*256 <= v*B*k < o*256 + 256` |
| HistogramLib.BucketOffsetBounds | src/HistogramLib/HistogramLib.cpp:62-64 | the offset `v*B*k/256` is the unique `o` with `o*256 <= v*B*k < o*256 + 256`; it is below `k*B`, and 0 for byte 0 |
| HistogramLib.BucketOffsetMonotone | src/HistogramLib/HistogramLib.cpp:62-64 | a larger channel byte never gets a smaller bucket offset |
| HistogramLib.Cell | src/HistogramLib/HistogramLib.cpp:55-64 | every cell the loop increments is an index inside the histogram |
| HistogramLib.CellRange | src/HistogramLib/HistogramLib.cpp:56-64 | channel `c`'s cell lies in `[start, start + (c+1)*B)` of its segment block, and that range fits in the block when `channels >= 3` |
| HistogramLib.PixelCells | src/HistogramLib/HistogramLib.cpp:62-64 | a pixel makes exactly three increments, all inside the histogram |
| HistogramLib.PixelIncrement | src/HistogramLib/HistogramLib.cpp:62-64 | binning a pixel adds to each cell the number of the pixel's channels binned there; cells outside the first `3*B` cells of the pixel's block are unchanged; the total grows by 3 |
| HistogramLib.ChannelRangesOverlap | src/HistogramLib/HistogramLib.cpp:62-64 | with no per-channel offset, a channel-1 byte below 128 and a channel-2 byte below 86 fall into the range that channel 0 spreads over |
| HistogramLib.BlackPixelCollides | src/HistogramLib/HistogramLib.cpp:62-64 | a black pixel puts all three of its increments on the first cell of its block |
| HistogramLib.BlocksDisjoint | src/HistogramLib/HistogramLib.cpp:56 | blocks that start at `BlockStart` do not overlap: an index in the block of `seg` is in the block of `s` exactly when `seg == s` |
| HistogramLib.CellInBlock | src/HistogramLib/HistogramLib.cpp:55-64 | a pixel's cell lies in the block of segment `s` if and only if the pixel lies in segment `s` |
| HistogramLib.PixelBlockCount | src/HistogramLib/HistogramLib.cpp:55-64 | a pixel puts 3 increments in its own segment's block and none in any other |
| HistogramLib.RowBlockCount | src/HistogramLib/HistogramLib.cpp:53-65 | a scanned row prefix puts 3 increments per pixel of segment `s` into the block of `s` |
| HistogramLib.ImageBlockCount | src/HistogramLib/HistogramLib.cpp:50-66 | the scanned rows put 3 increments per pixel of segment `s` into the block of `s` |
| HistogramLib.RowCells | src/HistogramLib/HistogramLib.cpp:53-65 | a row prefix of `x` pixels makes `3*x` increments, all inside the histogram |
| HistogramLib.ImageCellsLength | src/HistogramLib/HistogramLib.cpp:50-66 | the scan of `y` rows makes `3*width*y` increments |
| HistogramLib.HistogramAt | src/HistogramLib/HistogramLib.cpp:50-66 | every cell of the finished histogram equals the number of increments that land on it |
| HistogramLib.HistogramShape | src/HistogramLib/HistogramLib.cpp:45-66 | the histogram has `B*channels*R^2` cells, and none of them is negative |
| HistogramLib.HistogramTotal | src/HistogramLib/HistogramLib.cpp:50-66 | conservation: the cells sum to `3*width*height` |
| HistogramLib.SegmentBlockTotal | src/HistogramLib/HistogramLib.cpp:50-66 | every segment block sums to 3 times the number of pixels in that segment |
| HistogramLib.UniformMisses | src/HistogramLib/HistogramLib.cpp:55-64 | in an image of one colour, no pixel increments a block cell away from the offsets of `b`, `g` and `r` |
| HistogramLib.RowMisses | src/HistogramLib/HistogramLib.cpp:53-65 | a cell no pixel of the row selects receives no increment from the row |
| HistogramLib.ImageMisses | src/HistogramLib/HistogramLib.cpp:50-66 | a cell no pixel selects stays 0 for the whole scan |
| HistogramLib.UniformImageBlock | src/HistogramLib/HistogramLib.cpp:55-64 | in an image of one colour `(b, g, r)`, each segment block is non-zero only at offsets `b*B/256`, `g*B*2/256` and `r*B*3/256`, and it sums to 3 times the segment's pixel count |
| Increments.IncrementAppend | src/HistogramLib/HistogramLib.cpp:50-66 | applying the increments of one list and then of another is applying those of their concatenation, which is how consecutive loop iterations compose |
| Increments.IncrementAt | src/HistogramLib/HistogramLib.cpp:62-64 | each cell grows by the number of times it is incremented |
| Increments.IncrementSliceSum | src/HistogramLib/HistogramLib.cpp:62-64 | the sum of any range of cells grows by the number of increments inside that range |
| Increments.IncrementTotal | src/HistogramLib/HistogramLib.cpp:62-64 | the total grows by one per increment |
| Increments.CountThree | src/HistogramLib/HistogramLib.cpp:62-64 | how often a cell, or a range of cells, is hit by three increments |
| Sums.SumNonNegative | src/TestConsole/TestConsole.cpp:31-32 | the `reduce` of a histogram (`Sum`) is non-negative when its cells are |
| Sums.SumOfZeros | src/TestConsole/TestConsole.cpp:31-32 | the `reduce` of an all-zero histogram is 0 |
| Sums.RealSumBounds | src/TestConsole/TestConsole.cpp:122 | the `reduce` of scores in `[0, 1)` (`RealSum`) lies in `[0, n]`, and below `n` when there is at least one score |
| TestConsole.Normaliser | src/TestConsole/TestConsole.cpp:31-32 | the normaliser `max(1, sum)` is at least 1 and at least the sum, and it is either 1 or the sum |
| TestConsole.NormaliserOfZeros | src/TestConsole/TestConsole.cpp:31-32 | an all-zero histogram is normalised by 1, so it is not a division by zero |
| TestConsole.SqrtZeroOne | src/TestConsole/TestConsole.cpp:45 | under `IsSqrt`, `sqrt(0) = 0` and `sqrt(1) = 1` |
| TestConsole.SqrtOfSquare | src/TestConsole/TestConsole.cpp:37 | proved from `IsSqrt`: the square root of `r * r` is `r` for `r >= 0` |
| TestConsole.SqrtMonotone | src/TestConsole/TestConsole.cpp:45 | proved from `IsSqrt`: the square root is strictly increasing on the non-negative reals |
| TestConsole.SqrtOpenUnit | src/TestConsole/TestConsole.cpp:45 | under `IsSqrt`, the square root maps `(0, 1)` into `(0, 1)` |
| TestConsole.CellProduct | src/TestConsole/TestConsole.cpp:37 | the product of two normalised cells is non-negative when both cells are and both normalisers are positive |
| TestConsole.Coefficient | src/TestConsole/TestConsole.cpp:34-38 | the coefficient accumulated cell by cell is non-negative for non-negative histograms with positive normalisers |
| TestConsole.RealMin | src/TestConsole/TestConsole.cpp:45 | `min(b, 1.0)`: no larger than either argument, and equal to one of them |
| TestConsole.DistanceOf | src/TestConsole/TestConsole.cpp:40-45 | a coefficient `b <= 0` or `b >= 1` gives exactly 0; otherwise the result lies in `(0, 1)` and its square is `1 - b` |
| TestConsole.Distance | src/TestConsole/TestConsole.cpp:29-46 | the normalised Bhattacharyya distance always lies in `[0, 1)` |
| TestConsole.NormalisedBhattacharyyaDistance | src/TestConsole/TestConsole.cpp:29-46 | the accumulating loop, then the clamp, computes `Distance` |
| TestConsole.SelfDistance | src/TestConsole/TestConsole.cpp:29-46 | a non-negative histogram is at distance 0 from itself: the coefficient is 1, or 0 when the histogram is all zeros, and the clamp maps both to 0 |
| TestConsole.SelfCoefficient | src/TestConsole/TestConsole.cpp:34-38 | against itself, the coefficient of a prefix is the prefix's share of the normaliser |
| TestConsole.DisjointDistance | src/TestConsole/TestConsole.cpp:34-43 | histograms with no common non-zero cell have coefficient 0, and the clamp makes their distance 0 |
| TestConsole.DisjointCoefficient | src/TestConsole/TestConsole.cpp:34-38 | the coefficient of histograms with no common non-zero cell is 0 |
| TestConsole.Reweight | src/TestConsole/TestConsole.cpp:112-119 | a score from 0.5 upward becomes a non-negative root of it, and a lower score becomes its square; scores in `[0, 1)` stay in `[0, 1)` |
| TestConsole.ReweightBreakpoint | src/TestConsole/TestConsole.cpp:112-114 | exactly 0.5 takes the square-root branch and is not mapped to 0.25 |
| TestConsole.Reweighted | src/TestConsole/TestConsole.cpp:110-120 | every score is reweighted at its own position, and the length is kept |
| TestConsole.ReweightScores | src/TestConsole/TestConsole.cpp:110-120 | the in-place loop leaves the array equal to the reweighting of its old contents, so each entry is rewritten once and nothing else changes |
| TestConsole.Fragment | src/TestConsole/TestConsole.cpp:102-105 | fragment `k` is the slice `[k*L, k*L + L)` and has exactly `L` cells |
| TestConsole.FragmentWithin | src/TestConsole/TestConsole.cpp:100-105 | fragment `k < n` starts at a non-negative index and ends within the first `n*L` cells |
| TestConsole.FragmentCount | src/TestConsole/TestConsole.cpp:93-98 | when the size is a multiple of `L`, `size/L` fragments cover it exactly, and there is at least one fragment for a non-empty input |
| TestConsole.FragmentsPartition | src/TestConsole/TestConsole.cpp:98-105 | the fragments, joined in order, give back the input, so they are contiguous, in bounds and disjoint |
| TestConsole.FragmentNonNegative | src/TestConsole/TestConsole.cpp:104-105 | the fragments of a non-negative histogram are non-negative |
| TestConsole.FragmentAgree | src/TestConsole/TestConsole.cpp:102-105 | histograms that agree on the cells of fragment `k` have the same fragment `k` |
| TestConsole.Scores | src/TestConsole/TestConsole.cpp:99-108 | there are exactly `fragmentCount` scores, each in `[0, 1)` |
| TestConsole.ScoreAt | src/TestConsole/TestConsole.cpp:100-107 | score `k` is the distance of fragment `k` of `x` and fragment `k` of `y`, matched by position |
| TestConsole.ScoreLocality | src/TestConsole/TestConsole.cpp:100-108 | changing cells outside fragment `k` of either input leaves score `k` unchanged |
| TestConsole.ScoresPointwise | src/TestConsole/TestConsole.cpp:99-108 | a sequence whose entry `k` is the distance of fragment pair `k` is the score sequence |
| TestConsole.ScoreFragments | src/TestConsole/TestConsole.cpp:99-108 | the first loop fills a fresh array of `fragmentCount` entries, entry `k` holding the distance of fragment pair `k` |
| TestConsole.SelfScores | src/TestConsole/TestConsole.cpp:99-108 | every fragment of a non-negative histogram scores 0 against itself |
| TestConsole.Mean | src/TestConsole/TestConsole.cpp:122 | the mean multiplied by the number of scores is their sum |
| TestConsole.MeanUnit | src/TestConsole/TestConsole.cpp:122 | the mean of scores in `[0, 1)` lies in `[0, 1)` |
| TestConsole.FragmentedDistance | src/TestConsole/TestConsole.cpp:83-123 | the two throws become `Err(LengthError)` and `Err(InvalidArgument)` of the `Result` type: a length error exactly when the sizes differ, which is checked first, whatever the fragment length; an invalid argument exactly when the sizes agree but are not a multiple of `L`; otherwise a result in `[0, 1)` |
| TestConsole.FragmentedBhattacharyyaDistance | src/TestConsole/TestConsole.cpp:83-123 | the two checks, the scoring loop, the in-place reweighting and the final mean compute `FragmentedDistance` |
| TestConsole.FragmentedSelfDistance | src/TestConsole/TestConsole.cpp:83-123 | a non-negative histogram is at fragmented distance 0 from itself |

## Left out

- Image decoding with OpenCV `imread`, and the "Could not read image!" exception
  (src/HistogramLib/HistogramLib.cpp:34-39). These are foreign library calls. The decoded
  image is a parameter: an `Image` value holding width, height, channel count and a byte buffer.
- The callback overload (src/HistogramLib/HistogramLib.cpp:71-80). It only hands the result to
  a caller-supplied callback and frees it.
- src/HistogramLib/HistogramLib.h, which declares the exports and holds no logic.
- The console driver: `main`, `printHistogramVector`, the two `compareSet...` functions, and
  printing and file paths (src/TestConsole/TestConsole.cpp:48-81, 125-187). These are I/O only.
- IEEE-754 doubles and the library square root. Scores are reals, and `sqrt` is a parameter
  known only through `IsSqrt`. Facts that depend on rounding, such as a coefficient that
  reaches 1 through rounding error, are not modelled.
- Fixed-width integers. Products such as `x*R`, `segment*B*channels` and `y*cols*channels`, and
  the histogram counts, are unbounded integers, so 32-bit wrap-around is not modelled.
- `new` without `delete` and the resulting leaks. The model allocates Dafny arrays and has no
  notion of freeing them.
- Loop structure. The bodies of the binning loops are the separate methods `BinRow` and
  `BinPixel`, and the two loops of the fragmented distance are `ScoreFragments` and
  `ReweightScores`. The model keeps the order of operations, but not the single function body.
- The scoring loop's fragment copies (src/TestConsole/TestConsole.cpp:104-105) are sequence
  slices and not heap-allocated vectors.
- TestConsole.NormalisedBhattacharyyaDistance: requires `|x| <= |y|`. The source reads `y[i]`
  for every index of `x`, and a shorter `y` is an out-of-bounds read.
- TestConsole.Distance: the `[0, 1)` range is the model's, not the program's, for histograms
  with negative cells, which the binning never produces. In the program, a negative cell
  product makes `sqrt` return NaN, so `b` is NaN. The test `b <= 0 || b >= 1` is then false,
  `min(NaN, 1.0)` is NaN, and the function returns NaN. The model's `sqrt` is unconstrained on
  negative arguments and yields some real instead.
- TestConsole.FragmentedBhattacharyyaDistance: when the sizes agree, requires
  `fragmentLength > 0` and non-empty inputs. When the sizes differ, the length error is modelled
  for every fragment length, 0 included (src/TestConsole/TestConsole.cpp:88-91). With equal
  sizes and a fragment length of 0, the source reaches `size % 0`, which is undefined
  behaviour. Two empty inputs pass both checks and end in `0.0 / 0`, a NaN that reals cannot
  represent.
- TestConsole.FragmentedDistance: the same precondition as `FragmentedBhattacharyyaDistance`,
  for the same reasons.
- HistogramLib.GetFullSubrasterHistogram: requires `channels >= 3`, because the loop always
  reads bytes 0, 1 and 2 of a pixel. It also requires `bucketCount >= 1` and
  `rasterSideLength >= 1`. With a side length of 0, or with a bucket count of 0, the source
  allocates an empty vector and then writes cell 0, out of bounds. The side length is a `nat`,
  while the source takes a signed `int`. A side length of -1 behaves like 1, because C++ division
  truncates `-x/width` and `-y/height` to 0. A side length of -2 or less can make `segment`
  negative, and the unsigned conversion then wraps it to an out-of-bounds index. Images of width
  or height 0 are allowed and give an all-zero histogram.
