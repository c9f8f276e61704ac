/** The subraster histogram of a decoded image.

    The image is overlaid with a `rasterSideLength` x `rasterSideLength` grid of segments. Every
    pixel falls into one segment, and each segment owns a block of `bucketCount * channels`
    consecutive histogram cells. For every pixel the builder increments three cells of its
    segment's block, one for each of the channel bytes 0, 1 and 2. The bucket offset of channel
    `c` is `v * bucketCount * (c + 1) / 256`: channel 0 spreads over `bucketCount` cells, channel
    1 over `2 * bucketCount` and channel 2 over `3 * bucketCount`, all counted from the start of
    the block, so the cells of different channels overlap. */
module HistogramLib {
  import opened Arith
  import opened Sums
  import opened Increments

  /** Number of values an 8-bit channel byte can take. */
  const ValueRange: int := 256

  newtype byte = v: int | 0 <= v < 256

  /** A decoded image: `height` rows of `width` pixels, row-major from the top left, each pixel
      `channels` consecutive bytes. */
  datatype Image = Image(width: nat, height: nat, channels: nat, data: seq<byte>)

  /** The binning reads bytes 0, 1 and 2 of every pixel, so the image has at least three channels,
      and the buffer holds exactly `width * height * channels` bytes. */
  predicate WellFormed(img: Image)
  {
    3 <= img.channels && |img.data| == img.width * img.height * img.channels
  }

  /** Length of the histogram: one block of `bucketCount * channels` cells per segment. */
  function HistogramLength(img: Image, bucketCount: nat, rasterSideLength: nat): (n: nat)
    ensures n == rasterSideLength * rasterSideLength * (bucketCount * img.channels)
  {
    bucketCount * img.channels * rasterSideLength * rasterSideLength
  }

  /** A histogram of `n` cells, all zero. */
  function Zeros(n: nat): (h: seq<int>)
    ensures |h| == n && forall k :: 0 <= k < n ==> h[k] == 0
  {
    seq(n, _ => 0)
  }

  /** The strip that coordinate `i` of a side of length `n` falls in, when the side is cut into
      `rasterSideLength` strips. */
  function Strip(i: nat, n: nat, rasterSideLength: nat): (s: nat)
    requires i < n && 1 <= rasterSideLength
    ensures s < rasterSideLength
  {
    StripBounds(i, n, rasterSideLength);
    i * rasterSideLength / n
  }

  /** Strip `s` of coordinate `i` is the unique `s` with `s * n <= i * rasterSideLength < (s + 1) * n`,
      and there are `rasterSideLength` strips. */
  lemma StripBounds(i: nat, n: nat, rasterSideLength: nat)
    requires i < n && 1 <= rasterSideLength
    ensures var s := i * rasterSideLength / n;
            s * n <= i * rasterSideLength < s * n + n && 0 <= s < rasterSideLength
  {
    var p := i * rasterSideLength;
    DivBounds(p, n);
    MulMonotone(0, i, rasterSideLength);
    MulMonotone(i + 1, n, rasterSideLength);
    assert (i + 1) * rasterSideLength == p + rasterSideLength;
    DivBelow(p, n, rasterSideLength);
  }

  /** The row-major grid segment of pixel `(x, y)`: strip of `x` plus `rasterSideLength` times
      strip of `y`. */
  function Segment(img: Image, rasterSideLength: nat, x: nat, y: nat): (s: nat)
    requires x < img.width && y < img.height && 1 <= rasterSideLength
    ensures s < rasterSideLength * rasterSideLength
  {
    var sx := Strip(x, img.width, rasterSideLength);
    var sy := Strip(y, img.height, rasterSideLength);
    MulMonotone(sy + 1, rasterSideLength, rasterSideLength);
    sx + sy * rasterSideLength
  }

  /** The segment numbers the grid row by row: its remainder by `rasterSideLength` is the strip
      of `x`, its quotient the strip of `y`. */
  lemma SegmentCoordinates(img: Image, rasterSideLength: nat, x: nat, y: nat)
    requires x < img.width && y < img.height && 1 <= rasterSideLength
    ensures Segment(img, rasterSideLength, x, y) < rasterSideLength * rasterSideLength
    ensures Segment(img, rasterSideLength, x, y) % rasterSideLength == Strip(x, img.width, rasterSideLength)
    ensures Segment(img, rasterSideLength, x, y) / rasterSideLength == Strip(y, img.height, rasterSideLength)
  {
    DivModOfSum(Strip(y, img.height, rasterSideLength), rasterSideLength, Strip(x, img.width, rasterSideLength));
  }

  /** First cell of the block of segment `s`. */
  function BlockStart(img: Image, bucketCount: nat, s: nat): nat
  {
    s * bucketCount * img.channels
  }

  /** The block of every segment lies inside the histogram. */
  lemma BlockWithin(img: Image, bucketCount: nat, rasterSideLength: nat, s: nat)
    requires s < rasterSideLength * rasterSideLength
    ensures BlockStart(img, bucketCount, s) + bucketCount * img.channels
            <= HistogramLength(img, bucketCount, rasterSideLength)
  {
    MulMonotone(s + 1, rasterSideLength * rasterSideLength, bucketCount * img.channels);
  }

  /** Layout of the pixel buffer: channel byte `c` of pixel `(x, y)` sits at
      `(y * width + x) * channels + c`, which lies inside the buffer and belongs to that pixel
      and that channel only. */
  lemma ByteLayout(width: nat, height: nat, channels: nat, x: nat, y: nat, c: nat)
    requires x < width && y < height && c < channels
    ensures y * width * channels + x * channels + c < width * height * channels
    ensures (y * width * channels + x * channels + c) / channels == y * width + x
    ensures (y * width * channels + x * channels + c) % channels == c
  {
    var p := y * width + x;
    assert y * width * channels + x * channels == p * channels;
    DivModOfSum(p, channels, c);
    MulMonotone(y + 1, height, width);
    assert (y + 1) * width == y * width + width;
    MulMonotone(p + 1, width * height, channels);
    assert (p + 1) * channels == p * channels + channels;
  }

  /** Channel byte `c` of pixel `(x, y)`, read at the position that `ByteLayout` decodes to that
      pixel and that channel. */
  function Channel(img: Image, x: nat, y: nat, c: nat): byte
    requires WellFormed(img) && x < img.width && y < img.height && c < img.channels
  {
    ByteLayout(img.width, img.height, img.channels, x, y, c);
    img.data[y * img.width * img.channels + x * img.channels + c]
  }

  /** Bucket offset, within a segment's block, of a channel value `v` scaled by `scale`. */
  function BucketOffset(v: byte, bucketCount: nat, scale: nat): (o: nat)
    ensures o * ValueRange <= v as int * bucketCount * scale < o * ValueRange + ValueRange
  {
    var p := v as int * bucketCount * scale;
    DivBounds(p, ValueRange);
    p / ValueRange
  }

  /** The bucket offset is the unique `o` with `o * 256 <= v * bucketCount * scale < (o + 1) * 256`;
      it is below `scale * bucketCount`, and zero for the value zero. */
  lemma BucketOffsetBounds(v: byte, bucketCount: nat, scale: nat)
    requires 1 <= bucketCount && 1 <= scale
    ensures var o := BucketOffset(v, bucketCount, scale);
            o * ValueRange <= v as int * bucketCount * scale < o * ValueRange + ValueRange &&
            o < scale * bucketCount &&
            (v == 0 ==> o == 0)
  {
    var t := bucketCount * scale;
    var p := v as int * bucketCount * scale;
    assert p == v as int * t;
    MulMonotone(v as int, 255, t);
    var o := p / ValueRange;
    DivBounds(p, ValueRange);
    if o >= t {
      MulMonotone(t, o, ValueRange);
      assert scale * bucketCount == t;
    }
  }

  /** A larger channel value never falls into an earlier bucket. */
  lemma BucketOffsetMonotone(v: byte, w: byte, bucketCount: nat, scale: nat)
    requires v <= w && 1 <= bucketCount && 1 <= scale
    ensures BucketOffset(v, bucketCount, scale) <= BucketOffset(w, bucketCount, scale)
  {
    var ov, ow := BucketOffset(v, bucketCount, scale), BucketOffset(w, bucketCount, scale);
    BucketOffsetBounds(v, bucketCount, scale);
    BucketOffsetBounds(w, bucketCount, scale);
    MulMonotone(v as int, w as int, bucketCount * scale);
    assert v as int * bucketCount * scale == v as int * (bucketCount * scale);
    assert w as int * bucketCount * scale == w as int * (bucketCount * scale);
  }

  /** The cell that channel `c` (0, 1 or 2) of pixel `(x, y)` increments; it lies inside the
      histogram. */
  function Cell(img: Image, bucketCount: nat, rasterSideLength: nat, x: nat, y: nat, c: nat): (i: nat)
    requires WellFormed(img) && 1 <= bucketCount && 1 <= rasterSideLength
    requires x < img.width && y < img.height && c < 3
    ensures i < HistogramLength(img, bucketCount, rasterSideLength)
  {
    var s := Segment(img, rasterSideLength, x, y);
    BlockWithin(img, bucketCount, rasterSideLength, s);
    MulMonotone(c + 1, img.channels, bucketCount);
    BucketOffsetBounds(Channel(img, x, y, c), bucketCount, c + 1);
    BlockStart(img, bucketCount, s) + BucketOffset(Channel(img, x, y, c), bucketCount, c + 1)
  }

  /** The cell of channel `c` lies in the block of the pixel's segment, within
      `(c + 1) * bucketCount` cells of its start. */
  lemma CellRange(img: Image, bucketCount: nat, rasterSideLength: nat, x: nat, y: nat, c: nat)
    requires WellFormed(img) && 1 <= bucketCount && 1 <= rasterSideLength
    requires x < img.width && y < img.height && c < 3
    ensures var start := BlockStart(img, bucketCount, Segment(img, rasterSideLength, x, y));
            var i := Cell(img, bucketCount, rasterSideLength, x, y, c);
            start <= i < start + (c + 1) * bucketCount <= start + bucketCount * img.channels
  {
    MulMonotone(c + 1, img.channels, bucketCount);
    BucketOffsetBounds(Channel(img, x, y, c), bucketCount, c + 1);
  }

  /** The three cells pixel `(x, y)` increments, for channels 0, 1 and 2 in that order. */
  function PixelCells(img: Image, bucketCount: nat, rasterSideLength: nat, x: nat, y: nat): (cells: seq<int>)
    requires WellFormed(img) && 1 <= bucketCount && 1 <= rasterSideLength
    requires x < img.width && y < img.height
    ensures |cells| == 3 && InRange(cells, HistogramLength(img, bucketCount, rasterSideLength))
  {
    [Cell(img, bucketCount, rasterSideLength, x, y, 0),
     Cell(img, bucketCount, rasterSideLength, x, y, 1),
     Cell(img, bucketCount, rasterSideLength, x, y, 2)]
  }

  /** The cells incremented for pixels `(0, y)` up to `(x - 1, y)` of row `y`, left to right. */
  function RowCells(img: Image, bucketCount: nat, rasterSideLength: nat, y: nat, x: nat): (cells: seq<int>)
    requires WellFormed(img) && 1 <= bucketCount && 1 <= rasterSideLength
    requires x <= img.width && y < img.height
    ensures |cells| == 3 * x && InRange(cells, HistogramLength(img, bucketCount, rasterSideLength))
  {
    if x == 0 then []
    else
      var prev := RowCells(img, bucketCount, rasterSideLength, y, x - 1);
      var pixel := PixelCells(img, bucketCount, rasterSideLength, x - 1, y);
      InRangeAppend(prev, pixel, HistogramLength(img, bucketCount, rasterSideLength));
      prev + pixel
  }

  /** The cells incremented for rows `0` up to `y - 1`, top to bottom. */
  function ImageCells(img: Image, bucketCount: nat, rasterSideLength: nat, y: nat): (cells: seq<int>)
    requires WellFormed(img) && 1 <= bucketCount && 1 <= rasterSideLength
    requires y <= img.height
    ensures InRange(cells, HistogramLength(img, bucketCount, rasterSideLength))
  {
    if y == 0 then []
    else
      var prev := ImageCells(img, bucketCount, rasterSideLength, y - 1);
      var row := RowCells(img, bucketCount, rasterSideLength, y - 1, img.width);
      InRangeAppend(prev, row, HistogramLength(img, bucketCount, rasterSideLength));
      prev + row
  }

  /** Three increments per pixel of the rows scanned. */
  lemma {:induction false} ImageCellsLength(img: Image, bucketCount: nat, rasterSideLength: nat, y: nat)
    requires WellFormed(img) && 1 <= bucketCount && 1 <= rasterSideLength
    requires y <= img.height
    ensures |ImageCells(img, bucketCount, rasterSideLength, y)| == 3 * img.width * y
  {
    if y > 0 {
      ImageCellsLength(img, bucketCount, rasterSideLength, y - 1);
      assert 3 * img.width * (y - 1) + 3 * img.width == 3 * img.width * y;
    }
  }

  /** The subraster histogram of the whole image: all zeros, then the increments of every pixel,
      row by row. */
  function Histogram(img: Image, bucketCount: nat, rasterSideLength: nat): (h: seq<int>)
    requires WellFormed(img) && 1 <= bucketCount && 1 <= rasterSideLength
    ensures |h| == HistogramLength(img, bucketCount, rasterSideLength)
  {
    Increment(Zeros(HistogramLength(img, bucketCount, rasterSideLength)), ImageCells(img, bucketCount, rasterSideLength, img.height))
  }

  /** Every cell of the histogram counts the increments that land on it. */
  lemma HistogramAt(img: Image, bucketCount: nat, rasterSideLength: nat, j: int)
    requires WellFormed(img) && 1 <= bucketCount && 1 <= rasterSideLength
    requires 0 <= j < HistogramLength(img, bucketCount, rasterSideLength)
    ensures Histogram(img, bucketCount, rasterSideLength)[j] == Count(ImageCells(img, bucketCount, rasterSideLength, img.height), j)
  {
    IncrementAt(Zeros(HistogramLength(img, bucketCount, rasterSideLength)), ImageCells(img, bucketCount, rasterSideLength, img.height), j);
  }

  /** Binning a pixel makes exactly three increments: each cell grows by the number of the
      pixel's channels binned to it, every cell outside the first `3 * bucketCount` cells of the
      pixel's segment block is unchanged, and the total grows by 3. */
  lemma PixelIncrement(h: seq<int>, img: Image, bucketCount: nat, rasterSideLength: nat, x: nat, y: nat)
    requires WellFormed(img) && 1 <= bucketCount && 1 <= rasterSideLength
    requires x < img.width && y < img.height
    requires |h| == HistogramLength(img, bucketCount, rasterSideLength)
    ensures var r := Increment(h, PixelCells(img, bucketCount, rasterSideLength, x, y));
            forall j :: 0 <= j < |h| ==>
              r[j] == h[j] + (if Cell(img, bucketCount, rasterSideLength, x, y, 0) == j then 1 else 0)
                           + (if Cell(img, bucketCount, rasterSideLength, x, y, 1) == j then 1 else 0)
                           + (if Cell(img, bucketCount, rasterSideLength, x, y, 2) == j then 1 else 0)
    ensures var r := Increment(h, PixelCells(img, bucketCount, rasterSideLength, x, y));
            var start := BlockStart(img, bucketCount, Segment(img, rasterSideLength, x, y));
            forall j :: 0 <= j < |h| && !(start <= j < start + 3 * bucketCount) ==> r[j] == h[j]
    ensures Sum(Increment(h, PixelCells(img, bucketCount, rasterSideLength, x, y))) == Sum(h) + 3
  {
    var cells := PixelCells(img, bucketCount, rasterSideLength, x, y);
    CellRange(img, bucketCount, rasterSideLength, x, y, 0);
    CellRange(img, bucketCount, rasterSideLength, x, y, 1);
    CellRange(img, bucketCount, rasterSideLength, x, y, 2);
    forall j | 0 <= j < |h|
      ensures Increment(h, cells)[j] == h[j] + Count(cells, j)
      ensures Count(cells, j) == (if cells[0] == j then 1 else 0) + (if cells[1] == j then 1 else 0) + (if cells[2] == j then 1 else 0)
    {
      IncrementAt(h, cells, j);
      CountThree(cells[0], cells[1], cells[2], j, 0, 0);
    }
    IncrementTotal(h, cells);
  }

  /** Channels 1 and 2 are not given buckets of their own: a channel-1 value below 128 and a
      channel-2 value below 86 fall into the first `bucketCount` cells of the block, the range
      that channel 0 spreads over. */
  lemma ChannelRangesOverlap(v: byte, bucketCount: nat)
    requires 1 <= bucketCount
    ensures v < 128 ==> BucketOffset(v, bucketCount, 2) < bucketCount
    ensures v < 86 ==> BucketOffset(v, bucketCount, 3) < bucketCount
  {
    var o2, o3 := BucketOffset(v, bucketCount, 2), BucketOffset(v, bucketCount, 3);
    BucketOffsetBounds(v, bucketCount, 2);
    BucketOffsetBounds(v, bucketCount, 3);
    assert v as int * bucketCount * 2 == (v as int * 2) * bucketCount;
    assert v as int * bucketCount * 3 == (v as int * 3) * bucketCount;
    if v < 128 {
      MulMonotone(v as int * 2, 255, bucketCount);
      if o2 >= bucketCount {
        MulMonotone(bucketCount, o2, ValueRange);
      }
    }
    if v < 86 {
      MulMonotone(v as int * 3, 255, bucketCount);
      if o3 >= bucketCount {
        MulMonotone(bucketCount, o3, ValueRange);
      }
    }
  }

  /** A black pixel puts all three of its increments on the first cell of its segment's block. */
  lemma BlackPixelCollides(img: Image, bucketCount: nat, rasterSideLength: nat, x: nat, y: nat)
    requires WellFormed(img) && 1 <= bucketCount && 1 <= rasterSideLength
    requires x < img.width && y < img.height
    requires Channel(img, x, y, 0) == 0 && Channel(img, x, y, 1) == 0 && Channel(img, x, y, 2) == 0
    ensures Count(PixelCells(img, bucketCount, rasterSideLength, x, y),
                  BlockStart(img, bucketCount, Segment(img, rasterSideLength, x, y))) == 3
  {
    var cells := PixelCells(img, bucketCount, rasterSideLength, x, y);
    CountThree(cells[0], cells[1], cells[2], BlockStart(img, bucketCount, Segment(img, rasterSideLength, x, y)), 0, 0);
  }

  /** Blocks of `bucketCount * channels` cells are disjoint: an index inside the block of `seg`
      lies in the block of `s` exactly when `seg == s`. */
  lemma BlocksDisjoint(img: Image, bucketCount: nat, seg: nat, s: nat, i: int)
    requires BlockStart(img, bucketCount, seg) <= i < BlockStart(img, bucketCount, seg) + bucketCount * img.channels
    ensures BlockStart(img, bucketCount, s) <= i < BlockStart(img, bucketCount, s) + bucketCount * img.channels <==> seg == s
  {
    var n := bucketCount * img.channels;
    assert BlockStart(img, bucketCount, seg) == seg * n;
    assert BlockStart(img, bucketCount, s) == s * n;
    InBlockIff(seg, s, n, i - seg * n);
  }

  /** A cell of pixel `(x, y)` lies in the block of segment `s` exactly when the pixel lies in
      segment `s`. */
  lemma CellInBlock(img: Image, bucketCount: nat, rasterSideLength: nat, x: nat, y: nat, c: nat, s: nat)
    requires WellFormed(img) && 1 <= bucketCount && 1 <= rasterSideLength
    requires x < img.width && y < img.height && c < 3
    ensures var i := Cell(img, bucketCount, rasterSideLength, x, y, c);
            var start := BlockStart(img, bucketCount, s);
            start <= i < start + bucketCount * img.channels <==> Segment(img, rasterSideLength, x, y) == s
  {
    CellRange(img, bucketCount, rasterSideLength, x, y, c);
    BlocksDisjoint(img, bucketCount, Segment(img, rasterSideLength, x, y), s, Cell(img, bucketCount, rasterSideLength, x, y, c));
  }

  /** Sum of the cells of the block of segment `s`. */
  function BlockSum(h: seq<int>, img: Image, bucketCount: nat, rasterSideLength: nat, s: nat): int
    requires s < rasterSideLength * rasterSideLength
    requires |h| == HistogramLength(img, bucketCount, rasterSideLength)
  {
    BlockWithin(img, bucketCount, rasterSideLength, s);
    var start := BlockStart(img, bucketCount, s);
    Sum(h[start..start + bucketCount * img.channels])
  }

  /** The histogram has `bucketCount * channels * rasterSideLength^2` cells, none negative. */
  lemma HistogramShape(img: Image, bucketCount: nat, rasterSideLength: nat)
    requires WellFormed(img) && 1 <= bucketCount && 1 <= rasterSideLength
    ensures |Histogram(img, bucketCount, rasterSideLength)| == bucketCount * img.channels * rasterSideLength * rasterSideLength
    ensures forall j :: 0 <= j < |Histogram(img, bucketCount, rasterSideLength)| ==>
              Histogram(img, bucketCount, rasterSideLength)[j] >= 0
  {
    var zeros := Zeros(HistogramLength(img, bucketCount, rasterSideLength));
    forall j | 0 <= j < |zeros|
      ensures Histogram(img, bucketCount, rasterSideLength)[j] >= 0
    {
      IncrementAt(zeros, ImageCells(img, bucketCount, rasterSideLength, img.height), j);
    }
  }

  /** Conservation: the histogram's cells sum to three times the number of pixels. */
  lemma HistogramTotal(img: Image, bucketCount: nat, rasterSideLength: nat)
    requires WellFormed(img) && 1 <= bucketCount && 1 <= rasterSideLength
    ensures Sum(Histogram(img, bucketCount, rasterSideLength)) == 3 * img.width * img.height
  {
    var zeros := Zeros(HistogramLength(img, bucketCount, rasterSideLength));
    IncrementTotal(zeros, ImageCells(img, bucketCount, rasterSideLength, img.height));
    SumOfZeros(zeros);
    ImageCellsLength(img, bucketCount, rasterSideLength, img.height);
  }

  /** Number of pixels `(0, y)` up to `(x - 1, y)` of row `y` that lie in segment `s`. */
  function RowSegmentCount(img: Image, rasterSideLength: nat, s: nat, y: nat, x: nat): nat
    requires 1 <= rasterSideLength && x <= img.width && y < img.height
  {
    if x == 0 then 0
    else RowSegmentCount(img, rasterSideLength, s, y, x - 1) + (if Segment(img, rasterSideLength, x - 1, y) == s then 1 else 0)
  }

  /** Number of pixels of rows `0` up to `y - 1` that lie in segment `s`. */
  function SegmentCount(img: Image, rasterSideLength: nat, s: nat, y: nat): nat
    requires 1 <= rasterSideLength && y <= img.height
  {
    if y == 0 then 0
    else SegmentCount(img, rasterSideLength, s, y - 1) + RowSegmentCount(img, rasterSideLength, s, y - 1, img.width)
  }

  /** All three increments of a pixel land in its own segment's block and none in another. */
  lemma PixelBlockCount(img: Image, bucketCount: nat, rasterSideLength: nat, x: nat, y: nat, s: nat)
    requires WellFormed(img) && 1 <= bucketCount && 1 <= rasterSideLength
    requires x < img.width && y < img.height
    ensures var start := BlockStart(img, bucketCount, s);
            CountIn(PixelCells(img, bucketCount, rasterSideLength, x, y), start, start + bucketCount * img.channels)
            == if Segment(img, rasterSideLength, x, y) == s then 3 else 0
  {
    var cells := PixelCells(img, bucketCount, rasterSideLength, x, y);
    var start := BlockStart(img, bucketCount, s);
    CellInBlock(img, bucketCount, rasterSideLength, x, y, 0, s);
    CellInBlock(img, bucketCount, rasterSideLength, x, y, 1, s);
    CellInBlock(img, bucketCount, rasterSideLength, x, y, 2, s);
    CountThree(cells[0], cells[1], cells[2], 0, start, start + bucketCount * img.channels);
  }

  /** Scanning `x` pixels of a row puts 3 increments in the block of `s` for each of them in
      segment `s`. */
  lemma {:induction false} RowBlockCount(img: Image, bucketCount: nat, rasterSideLength: nat, y: nat, x: nat, s: nat)
    requires WellFormed(img) && 1 <= bucketCount && 1 <= rasterSideLength
    requires x <= img.width && y < img.height
    ensures var start := BlockStart(img, bucketCount, s);
            CountIn(RowCells(img, bucketCount, rasterSideLength, y, x), start, start + bucketCount * img.channels)
            == 3 * RowSegmentCount(img, rasterSideLength, s, y, x)
  {
    if x > 0 {
      var start := BlockStart(img, bucketCount, s);
      RowBlockCount(img, bucketCount, rasterSideLength, y, x - 1, s);
      PixelBlockCount(img, bucketCount, rasterSideLength, x - 1, y, s);
      CountAppend(RowCells(img, bucketCount, rasterSideLength, y, x - 1), PixelCells(img, bucketCount, rasterSideLength, x - 1, y),
                  0, start, start + bucketCount * img.channels);
    }
  }

  /** After `y` rows the block of `s` has received three increments per scanned pixel of
      segment `s`. */
  lemma {:induction false} ImageBlockCount(img: Image, bucketCount: nat, rasterSideLength: nat, y: nat, s: nat)
    requires WellFormed(img) && 1 <= bucketCount && 1 <= rasterSideLength
    requires y <= img.height
    ensures var start := BlockStart(img, bucketCount, s);
            CountIn(ImageCells(img, bucketCount, rasterSideLength, y), start, start + bucketCount * img.channels)
            == 3 * SegmentCount(img, rasterSideLength, s, y)
  {
    if y > 0 {
      var start := BlockStart(img, bucketCount, s);
      ImageBlockCount(img, bucketCount, rasterSideLength, y - 1, s);
      RowBlockCount(img, bucketCount, rasterSideLength, y - 1, img.width, s);
      CountAppend(ImageCells(img, bucketCount, rasterSideLength, y - 1), RowCells(img, bucketCount, rasterSideLength, y - 1, img.width),
                  0, start, start + bucketCount * img.channels);
    }
  }

  /** Each segment's block sums to three times the number of pixels in that segment: all three
      increments of a pixel stay inside its own segment's block. */
  lemma SegmentBlockTotal(img: Image, bucketCount: nat, rasterSideLength: nat, s: nat)
    requires WellFormed(img) && 1 <= bucketCount && 1 <= rasterSideLength
    requires s < rasterSideLength * rasterSideLength
    ensures BlockSum(Histogram(img, bucketCount, rasterSideLength), img, bucketCount, rasterSideLength, s)
            == 3 * SegmentCount(img, rasterSideLength, s, img.height)
  {
    BlockWithin(img, bucketCount, rasterSideLength, s);
    var start := BlockStart(img, bucketCount, s);
    var end := start + bucketCount * img.channels;
    var zeros := Zeros(HistogramLength(img, bucketCount, rasterSideLength));
    IncrementSliceSum(zeros, ImageCells(img, bucketCount, rasterSideLength, img.height), start, end);
    SumOfZeros(zeros[start..end]);
    ImageBlockCount(img, bucketCount, rasterSideLength, img.height, s);
  }

  /** Every pixel of the image has the channel bytes `b`, `g` and `r`. */
  predicate Uniform(img: Image, b: byte, g: byte, r: byte)
    requires WellFormed(img)
  {
    forall x: nat, y: nat :: x < img.width && y < img.height ==>
      Channel(img, x, y, 0) == b && Channel(img, x, y, 1) == g && Channel(img, x, y, 2) == r
  }

  /** In a uniform image no pixel increments a cell of a block away from the three offsets of
      `b`, `g` and `r`. */
  lemma UniformMisses(img: Image, bucketCount: nat, rasterSideLength: nat, b: byte, g: byte, r: byte,
                      x: nat, y: nat, s: nat, o: nat)
    requires WellFormed(img) && 1 <= bucketCount && 1 <= rasterSideLength && Uniform(img, b, g, r)
    requires x < img.width && y < img.height
    requires o < bucketCount * img.channels
    requires o != BucketOffset(b, bucketCount, 1) && o != BucketOffset(g, bucketCount, 2) && o != BucketOffset(r, bucketCount, 3)
    ensures Count(PixelCells(img, bucketCount, rasterSideLength, x, y), BlockStart(img, bucketCount, s) + o) == 0
  {
    var cells := PixelCells(img, bucketCount, rasterSideLength, x, y);
    CellInBlock(img, bucketCount, rasterSideLength, x, y, 0, s);
    CellInBlock(img, bucketCount, rasterSideLength, x, y, 1, s);
    CellInBlock(img, bucketCount, rasterSideLength, x, y, 2, s);
    CountThree(cells[0], cells[1], cells[2], BlockStart(img, bucketCount, s) + o, 0, 0);
  }

  /** A cell that no pixel of row `y` increments is not among the row's first `x` increments. */
  lemma {:induction false} RowMisses(img: Image, bucketCount: nat, rasterSideLength: nat, y: nat, x: nat, j: int)
    requires WellFormed(img) && 1 <= bucketCount && 1 <= rasterSideLength
    requires x <= img.width && y < img.height
    requires forall k: nat :: k < img.width ==> Count(PixelCells(img, bucketCount, rasterSideLength, k, y), j) == 0
    ensures Count(RowCells(img, bucketCount, rasterSideLength, y, x), j) == 0
  {
    if x > 0 {
      RowMisses(img, bucketCount, rasterSideLength, y, x - 1, j);
      CountAppend(RowCells(img, bucketCount, rasterSideLength, y, x - 1), PixelCells(img, bucketCount, rasterSideLength, x - 1, y), j, 0, 0);
    }
  }

  /** A cell that no pixel increments is not among the cells of the first `y` rows. */
  lemma {:induction false} ImageMisses(img: Image, bucketCount: nat, rasterSideLength: nat, y: nat, j: int)
    requires WellFormed(img) && 1 <= bucketCount && 1 <= rasterSideLength
    requires y <= img.height
    requires forall k: nat, l: nat :: k < img.width && l < img.height ==>
               Count(PixelCells(img, bucketCount, rasterSideLength, k, l), j) == 0
    ensures Count(ImageCells(img, bucketCount, rasterSideLength, y), j) == 0
  {
    if y > 0 {
      ImageMisses(img, bucketCount, rasterSideLength, y - 1, j);
      RowMisses(img, bucketCount, rasterSideLength, y - 1, img.width, j);
      CountAppend(ImageCells(img, bucketCount, rasterSideLength, y - 1), RowCells(img, bucketCount, rasterSideLength, y - 1, img.width), j, 0, 0);
    }
  }

  /** A uniform image with pixel `(b, g, r)`: in the block of every segment, only the cells at
      the offsets of `b` (channel 0), `g` (channel 1) and `r` (channel 2) can be non-zero, and
      the block sums to three times the number of pixels in the segment. */
  lemma UniformImageBlock(img: Image, bucketCount: nat, rasterSideLength: nat, b: byte, g: byte, r: byte, s: nat)
    requires WellFormed(img) && 1 <= bucketCount && 1 <= rasterSideLength && Uniform(img, b, g, r)
    requires s < rasterSideLength * rasterSideLength
    ensures BlockStart(img, bucketCount, s) + bucketCount * img.channels <= |Histogram(img, bucketCount, rasterSideLength)|
    ensures var h, start := Histogram(img, bucketCount, rasterSideLength), BlockStart(img, bucketCount, s);
            forall j :: start <= j < start + bucketCount * img.channels &&
              j - start != BucketOffset(b, bucketCount, 1) &&
              j - start != BucketOffset(g, bucketCount, 2) &&
              j - start != BucketOffset(r, bucketCount, 3)
              ==> h[j] == 0
    ensures BlockSum(Histogram(img, bucketCount, rasterSideLength), img, bucketCount, rasterSideLength, s)
            == 3 * SegmentCount(img, rasterSideLength, s, img.height)
  {
    BlockWithin(img, bucketCount, rasterSideLength, s);
    var h, start := Histogram(img, bucketCount, rasterSideLength), BlockStart(img, bucketCount, s);
    var zeros := Zeros(HistogramLength(img, bucketCount, rasterSideLength));
    forall j | start <= j < start + bucketCount * img.channels &&
        j - start != BucketOffset(b, bucketCount, 1) &&
        j - start != BucketOffset(g, bucketCount, 2) &&
        j - start != BucketOffset(r, bucketCount, 3)
      ensures h[j] == 0
    {
      forall k: nat, l: nat | k < img.width && l < img.height
        ensures Count(PixelCells(img, bucketCount, rasterSideLength, k, l), j) == 0
      {
        UniformMisses(img, bucketCount, rasterSideLength, b, g, r, k, l, s, j - start);
      }
      ImageMisses(img, bucketCount, rasterSideLength, img.height, j);
      IncrementAt(zeros, ImageCells(img, bucketCount, rasterSideLength, img.height), j);
    }
    SegmentBlockTotal(img, bucketCount, rasterSideLength, s);
  }

  /** The index expressions of the binning loop, as the loop writes them, read bytes inside the
      buffer and denote the cells given by `Cell`. */
  lemma LiteralCells(img: Image, bucketCount: nat, rasterSideLength: nat, x: nat, y: nat, segmentModY: int)
    requires WellFormed(img) && 1 <= bucketCount && 1 <= rasterSideLength
    requires x < img.width && y < img.height
    requires segmentModY == y * rasterSideLength / img.height
    ensures var w, ch := img.width, img.channels;
            var start := (x * rasterSideLength / w + segmentModY * rasterSideLength) * bucketCount * ch;
            var base := y * w * ch + x * ch;
            0 <= base && base + 2 < |img.data| &&
            start + img.data[base + 0] as int * bucketCount / ValueRange == Cell(img, bucketCount, rasterSideLength, x, y, 0) &&
            start + img.data[base + 1] as int * bucketCount * 2 / ValueRange == Cell(img, bucketCount, rasterSideLength, x, y, 1) &&
            start + img.data[base + 2] as int * bucketCount * 3 / ValueRange == Cell(img, bucketCount, rasterSideLength, x, y, 2)
  {
    var w, ch := img.width, img.channels;
    ByteLayout(w, img.height, ch, x, y, 2);
    var base := y * w * ch + x * ch;
    MulMonotone(0, y * w, ch);
    MulMonotone(0, x, ch);
    assert 0 <= base && base + 2 < |img.data|;
    var segment := x * rasterSideLength / w + segmentModY * rasterSideLength;
    assert segment == Segment(img, rasterSideLength, x, y);
    var start := segment * bucketCount * ch;
    assert start == BlockStart(img, bucketCount, Segment(img, rasterSideLength, x, y));
    var b := img.data[base + 0];
    assert b == Channel(img, x, y, 0);
    assert b as int * bucketCount == b as int * bucketCount * 1;
  }

  /** Bins pixel `(x, y)`: the body of the binning loop, with `segmentModY` the row's segment
      coordinate computed once per row. It increments the three cells of the pixel in place, in
      channel order. */
  method BinPixel(buckets: array<int>, img: Image, bucketCount: nat, rasterSideLength: nat,
                  x: nat, y: nat, segmentModY: int)
    requires WellFormed(img) && 1 <= bucketCount && 1 <= rasterSideLength
    requires x < img.width && y < img.height
    requires segmentModY == y * rasterSideLength / img.height
    requires buckets.Length == HistogramLength(img, bucketCount, rasterSideLength)
    modifies buckets
    ensures buckets[..] == Increment(old(buckets[..]), PixelCells(img, bucketCount, rasterSideLength, x, y))
  {
    var width, channels := img.width, img.channels;
    LiteralCells(img, bucketCount, rasterSideLength, x, y, segmentModY);
    var segment := x * rasterSideLength / width + segmentModY * rasterSideLength;
    var segmentStartIndex := segment * bucketCount * channels;
    var b := img.data[y * width * channels + x * channels + 0];
    var g := img.data[y * width * channels + x * channels + 1];
    var r := img.data[y * width * channels + x * channels + 2];
    buckets[segmentStartIndex + b as int * bucketCount / ValueRange] := buckets[segmentStartIndex + b as int * bucketCount / ValueRange] + 1;
    buckets[segmentStartIndex + g as int * bucketCount * 2 / ValueRange] := buckets[segmentStartIndex + g as int * bucketCount * 2 / ValueRange] + 1;
    buckets[segmentStartIndex + r as int * bucketCount * 3 / ValueRange] := buckets[segmentStartIndex + r as int * bucketCount * 3 / ValueRange] + 1;
    ghost var cells := PixelCells(img, bucketCount, rasterSideLength, x, y);
    forall j | 0 <= j < buckets.Length
      ensures buckets[j] == Increment(old(buckets[..]), cells)[j]
    {
      CountThree(cells[0], cells[1], cells[2], j, 0, 0);
      IncrementAt(old(buckets[..]), cells, j);
    }
  }

  /** Bins row `y`, pixel by pixel from left to right: the inner loop of the binning. */
  method BinRow(buckets: array<int>, img: Image, bucketCount: nat, rasterSideLength: nat, y: nat)
    requires WellFormed(img) && 1 <= bucketCount && 1 <= rasterSideLength && y < img.height
    requires buckets.Length == HistogramLength(img, bucketCount, rasterSideLength)
    modifies buckets
    ensures buckets[..] == Increment(old(buckets[..]), RowCells(img, bucketCount, rasterSideLength, y, img.width))
  {
    var segmentModY := y * rasterSideLength / img.height;
    var x := 0;
    while x < img.width
      invariant x <= img.width
      invariant buckets[..] == Increment(old(buckets[..]), RowCells(img, bucketCount, rasterSideLength, y, x))
    {
      BinPixel(buckets, img, bucketCount, rasterSideLength, x, y, segmentModY);
      IncrementAppend(old(buckets[..]), RowCells(img, bucketCount, rasterSideLength, y, x), PixelCells(img, bucketCount, rasterSideLength, x, y));
      x := x + 1;
    }
  }

  /** Builds the subraster histogram: allocates `bucketCount * channels * rasterSideLength^2`
      zeroed cells and bins the pixels row by row, top to bottom. */
  method GetFullSubrasterHistogram(img: Image, bucketCount: nat, rasterSideLength: nat)
    returns (buckets: array<int>)
    requires WellFormed(img) && 1 <= bucketCount && 1 <= rasterSideLength
    ensures fresh(buckets)
    ensures buckets[..] == Histogram(img, bucketCount, rasterSideLength)
  {
    buckets := new int[HistogramLength(img, bucketCount, rasterSideLength)](_ => 0);
    ghost var zeros := Zeros(HistogramLength(img, bucketCount, rasterSideLength));
    assert buckets[..] == zeros;
    var y := 0;
    while y < img.height
      invariant y <= img.height
      invariant buckets[..] == Increment(zeros, ImageCells(img, bucketCount, rasterSideLength, y))
    {
      BinRow(buckets, img, bucketCount, rasterSideLength, y);
      IncrementAppend(zeros, ImageCells(img, bucketCount, rasterSideLength, y), RowCells(img, bucketCount, rasterSideLength, y, img.width));
      y := y + 1;
    }
  }
}
