/** The scene-change detector: it compares two grayscale frames of the same shape by the
    mean absolute pixel difference over the whole frame and over each block of a 4 x 4 grid,
    and declares a new scene on a moderate global change or a large localised one. */
module SceneChange {

  /** Rows of 8-bit gray intensities. */
  type Grid = seq<seq<int>>

  /** Blocks per side of the block grid. */
  const BLOCKS: nat := 4
  const DEFAULT_MIN_THRESHOLD: real := 0.10
  const DEFAULT_MAX_THRESHOLD: real := 0.90
  /** A block counts as a large local change above this fraction of the maximum threshold. */
  const BLOCK_FACTOR: real := 0.8
  const PIXEL_MAX: int := 255

  /** A rectangular grid of 8-bit values, at least one pixel per block in each direction. */
  predicate IsGray(g: Grid) {
    && |g| >= BLOCKS
    && |g[0]| >= BLOCKS
    && (forall y :: 0 <= y < |g| ==> |g[y]| == |g[0]|)
    && (forall y, x :: 0 <= y < |g| && 0 <= x < |g[y]| ==> 0 <= g[y][x] <= PIXEL_MAX)
  }

  type Frame = g: Grid | IsGray(g) witness [[0, 0, 0, 0], [0, 0, 0, 0], [0, 0, 0, 0], [0, 0, 0, 0]]

  function Width(g: Frame): nat { |g[0]| }

  predicate SameShape(a: Frame, b: Frame) {
    |a| == |b| && Width(a) == Width(b)
  }

  datatype Detection = Detection(isNewScene: bool, magnitude: real)

  function Abs(x: int): int { if x < 0 then -x else x }

  /** The per-pixel absolute difference of two frames of the same shape. */
  function AbsDiff(a: Frame, b: Frame): (d: Frame)
    requires SameShape(a, b)
    ensures SameShape(d, a)
    ensures forall y, x :: 0 <= y < |d| && 0 <= x < Width(d) ==> d[y][x] == Abs(a[y][x] - b[y][x])
  {
    seq(|a|, y requires 0 <= y < |a| =>
      seq(Width(a), x requires 0 <= x < Width(a) => Abs(a[y][x] - b[y][x])))
  }

  /** Sum of `row[x1..x2]`. */
  function RowSum(row: seq<int>, x1: int, x2: int): int
    requires 0 <= x1 <= x2 <= |row|
    decreases x2 - x1
  {
    if x1 == x2 then 0 else RowSum(row, x1, x2 - 1) + row[x2 - 1]
  }

  /** Sum of the pixels of rows `y1..y2` and columns `x1..x2` (half-open ranges). */
  function RegionSum(d: Frame, y1: int, y2: int, x1: int, x2: int): int
    requires 0 <= y1 <= y2 <= |d| && 0 <= x1 <= x2 <= Width(d)
    decreases y2 - y1
  {
    if y1 == y2 then 0 else RegionSum(d, y1, y2 - 1, x1, x2) + RowSum(d[y2 - 1], x1, x2)
  }

  /** `np.mean(d[y1:y2, x1:x2]) / 255.0` for a non-empty region. */
  function Rate(d: Frame, y1: int, y2: int, x1: int, x2: int): real
    requires 0 <= y1 < y2 <= |d| && 0 <= x1 < x2 <= Width(d)
  {
    Mean(RegionSum(d, y1, y2, x1, x2), Area(y2 - y1, x2 - x1)) / (PIXEL_MAX as real)
  }

  /** The number of pixels of a region. */
  function Area(rows: int, cols: int): (a: int)
    requires rows > 0 && cols > 0
    ensures a >= rows && a >= cols
  {
    assert rows * cols == (rows - 1) * cols + cols;
    rows * cols
  }

  function Mean(sum: int, count: int): real
    requires count > 0
  {
    (sum as real) / (count as real)
  }

  /** The global change rate: the mean of the whole difference grid, normalised. */
  function ChangeRate(d: Frame): real {
    Rate(d, 0, |d|, 0, Width(d))
  }

  /** Block `i` of a side of length `n` spans `[i * (n / 4), (i + 1) * (n / 4))`: it is
      non-empty and lies inside the side, and the blocks together cover all but fewer
      than 4 trailing positions. */
  lemma BlockWithin(i: int, n: int)
    requires 0 <= i < BLOCKS && n >= BLOCKS
    ensures 0 <= i * (n / BLOCKS) < (i + 1) * (n / BLOCKS) <= BLOCKS * (n / BLOCKS) <= n
    ensures n - BLOCKS * (n / BLOCKS) < BLOCKS
  {
    var b := n / BLOCKS;
    assert b >= 1;
    assert i + 1 <= BLOCKS;
    assert (i + 1) * b <= BLOCKS * b by {
      assert BLOCKS * b - (i + 1) * b == (BLOCKS - (i + 1)) * b;
    }
  }

  /** The change rate of block `(i, j)`: rows `[i * bh, (i + 1) * bh)` and columns
      `[j * bw, (j + 1) * bw)` with `bh = h / 4` and `bw = w / 4`. */
  function BlockRate(d: Frame, i: int, j: int): real
    requires 0 <= i < BLOCKS && 0 <= j < BLOCKS
  {
    var bh, bw := |d| / BLOCKS, Width(d) / BLOCKS;
    BlockWithin(i, |d|);
    BlockWithin(j, Width(d));
    Rate(d, i * bh, (i + 1) * bh, j * bw, (j + 1) * bw)
  }

  /** The block values in the order the nested loops produce them: block `(i, j)` at `4 * i + j`. */
  function BlockRates(d: Frame): seq<real> {
    seq(BLOCKS * BLOCKS, k requires 0 <= k < BLOCKS * BLOCKS => BlockRate(d, k / BLOCKS, k % BLOCKS))
  }

  /** Python's `max` of a non-empty list: a left-to-right scan keeping the first maximum. */
  function MaxOf(s: seq<real>): (m: real)
    requires |s| > 0
    ensures m in s
    ensures forall k :: 0 <= k < |s| ==> s[k] <= m
  {
    if |s| == 1 then s[0]
    else
      var m := MaxOf(s[..|s| - 1]);
      if s[|s| - 1] > m then s[|s| - 1] else m
  }

  /** Python's `max(a, b)`: `a` unless `b` is larger. */
  function Max(a: real, b: real): real { if b > a then b else a }

  /** The decision rule of the detector. */
  predicate IsNewScene(changeRate: real, maxBlockChange: real, minThreshold: real, maxThreshold: real) {
    (minThreshold <= changeRate <= maxThreshold) || maxBlockChange > maxThreshold * BLOCK_FACTOR
  }

  /** The pair `detect_scene_change` returns. */
  function Detect(prev: Frame, curr: Frame, minThreshold: real, maxThreshold: real): Detection
    requires SameShape(prev, curr)
  {
    var d := AbsDiff(prev, curr);
    var changeRate := ChangeRate(d);
    var maxBlockChange := MaxOf(BlockRates(d));
    Detection(IsNewScene(changeRate, maxBlockChange, minThreshold, maxThreshold), Max(changeRate, maxBlockChange))
  }

  /** The detector as the source runs it: the nested loops append one value per block,
      then the list is reduced by `max`. */
  method DetectSceneChange(prevGray: Frame, currGray: Frame, minThreshold: real, maxThreshold: real)
    returns (isNewScene: bool, magnitude: real)
    requires SameShape(prevGray, currGray)
    ensures Detection(isNewScene, magnitude) == Detect(prevGray, currGray, minThreshold, maxThreshold)
  {
    var diff := AbsDiff(prevGray, currGray);
    var changeRate := Rate(diff, 0, |diff|, 0, Width(diff));
    var h, w := |diff|, Width(diff);
    var blockH, blockW := h / BLOCKS, w / BLOCKS;
    var blockChanges: seq<real> := [];
    for i := 0 to BLOCKS
      invariant |blockChanges| == BLOCKS * i
      invariant forall k :: 0 <= k < |blockChanges| ==> blockChanges[k] == BlockRates(diff)[k]
    {
      for j := 0 to BLOCKS
        invariant |blockChanges| == BLOCKS * i + j
        invariant forall k :: 0 <= k < |blockChanges| ==> blockChanges[k] == BlockRates(diff)[k]
      {
        BlockEntry(diff, i, j);
        var y1, y2 := i * blockH, (i + 1) * blockH;
        var x1, x2 := j * blockW, (j + 1) * blockW;
        blockChanges := blockChanges + [Rate(diff, y1, y2, x1, x2)];
      }
    }
    assert blockChanges == BlockRates(diff);
    var maxBlockChange := MaxOf(blockChanges);
    isNewScene := (minThreshold <= changeRate <= maxThreshold) || maxBlockChange > maxThreshold * BLOCK_FACTOR;
    magnitude := Max(changeRate, maxBlockChange);
  }

  /** Entry `4 * i + j` of the block values is the rate of block `(i, j)`. */
  lemma BlockEntry(d: Frame, i: int, j: int)
    requires 0 <= i < BLOCKS && 0 <= j < BLOCKS
    ensures var bh, bw := |d| / BLOCKS, Width(d) / BLOCKS;
      && 0 <= i * bh < (i + 1) * bh <= |d|
      && 0 <= j * bw < (j + 1) * bw <= Width(d)
      && BLOCKS * i + j < |BlockRates(d)|
      && BlockRates(d)[BLOCKS * i + j] == Rate(d, i * bh, (i + 1) * bh, j * bw, (j + 1) * bw)
  {
    BlockWithin(i, |d|);
    BlockWithin(j, Width(d));
    assert (BLOCKS * i + j) / BLOCKS == i && (BLOCKS * i + j) % BLOCKS == j;
  }

  // ---------------------------------------------------------------- bounds

  lemma {:induction false} RowSumBounds(row: seq<int>, x1: int, x2: int)
    requires 0 <= x1 <= x2 <= |row|
    requires forall x :: x1 <= x < x2 ==> 0 <= row[x] <= PIXEL_MAX
    ensures 0 <= RowSum(row, x1, x2) <= PIXEL_MAX * (x2 - x1)
    decreases x2 - x1
  {
    if x1 < x2 {
      RowSumBounds(row, x1, x2 - 1);
    }
  }

  lemma {:induction false} RegionSumBounds(d: Frame, y1: int, y2: int, x1: int, x2: int)
    requires 0 <= y1 <= y2 <= |d| && 0 <= x1 <= x2 <= Width(d)
    ensures 0 <= RegionSum(d, y1, y2, x1, x2) <= PIXEL_MAX * ((y2 - y1) * (x2 - x1))
    decreases y2 - y1
  {
    if y1 < y2 {
      RegionSumBounds(d, y1, y2 - 1, x1, x2);
      RowSumBounds(d[y2 - 1], x1, x2);
      var w := x2 - x1;
      assert (y2 - y1) * w == (y2 - 1 - y1) * w + w;
    }
  }

  /** Every rate is a mean of values in 0..255 divided by 255, so it lies in [0, 1]. */
  lemma RateBounds(d: Frame, y1: int, y2: int, x1: int, x2: int)
    requires 0 <= y1 < y2 <= |d| && 0 <= x1 < x2 <= Width(d)
    ensures 0.0 <= Rate(d, y1, y2, x1, x2) <= 1.0
  {
    RegionSumBounds(d, y1, y2, x1, x2);
    var n := Area(y2 - y1, x2 - x1);
    var sum := RegionSum(d, y1, y2, x1, x2);
    MeanBounds(sum, n, PIXEL_MAX);
    assert Rate(d, y1, y2, x1, x2) == Mean(sum, n) / 255.0;
  }

  /** A mean of values in `0..c` lies in `[0, c]`. */
  lemma MeanBounds(sum: int, count: int, c: int)
    requires count > 0 && 0 <= sum <= c * count
    ensures 0.0 <= Mean(sum, count) <= c as real
  {
    var q, n := Mean(sum, count), count as real;
    assert q * n == sum as real;
  }

  /** Exactly 16 block values, each in [0, 1]. */
  lemma BlockRatesBounds(d: Frame)
    ensures |BlockRates(d)| == BLOCKS * BLOCKS == 16
    ensures forall k :: 0 <= k < |BlockRates(d)| ==> 0.0 <= BlockRates(d)[k] <= 1.0
  {
    forall k | 0 <= k < BLOCKS * BLOCKS
      ensures 0.0 <= BlockRates(d)[k] <= 1.0
    {
      BlockRateBounds(d, k / BLOCKS, k % BLOCKS);
    }
  }

  lemma BlockRateBounds(d: Frame, i: int, j: int)
    requires 0 <= i < BLOCKS && 0 <= j < BLOCKS
    ensures 0.0 <= BlockRate(d, i, j) <= 1.0
  {
    BlockWithin(i, |d|);
    BlockWithin(j, Width(d));
    var bh, bw := |d| / BLOCKS, Width(d) / BLOCKS;
    RateBounds(d, i * bh, (i + 1) * bh, j * bw, (j + 1) * bw);
  }

  // ---------------------------------------------------------------- the detector's promises

  /** The returned magnitude lies in [0, 1], is at least the global rate and every block
      rate, and is one of them. */
  lemma DetectMagnitude(prev: Frame, curr: Frame, minThreshold: real, maxThreshold: real)
    requires SameShape(prev, curr)
    ensures var d, m := AbsDiff(prev, curr), Detect(prev, curr, minThreshold, maxThreshold).magnitude;
      && 0.0 <= m <= 1.0
      && ChangeRate(d) <= m
      && (forall k :: 0 <= k < |BlockRates(d)| ==> BlockRates(d)[k] <= m)
      && (m == ChangeRate(d) || exists k :: 0 <= k < |BlockRates(d)| && m == BlockRates(d)[k])
  {
    var d := AbsDiff(prev, curr);
    RateBounds(d, 0, |d|, 0, Width(d));
    BlockRatesBounds(d);
  }

  /** A new scene is declared exactly when the global rate lies between the thresholds or
      some block's rate exceeds 0.8 times the maximum threshold. */
  lemma DetectDecision(prev: Frame, curr: Frame, minThreshold: real, maxThreshold: real)
    requires SameShape(prev, curr)
    ensures var d := AbsDiff(prev, curr);
      Detect(prev, curr, minThreshold, maxThreshold).isNewScene <==>
        || (minThreshold <= ChangeRate(d) <= maxThreshold)
        || (exists k :: 0 <= k < |BlockRates(d)| && BlockRates(d)[k] > maxThreshold * BLOCK_FACTOR)
  {
    var d := AbsDiff(prev, curr);
    var m := MaxOf(BlockRates(d));
    BlockRatesBounds(d);
    if m > maxThreshold * BLOCK_FACTOR {
      var k :| 0 <= k < |BlockRates(d)| && BlockRates(d)[k] == m;
    }
  }

  lemma {:induction false} RowSumZero(row: seq<int>, x1: int, x2: int)
    requires 0 <= x1 <= x2 <= |row|
    requires forall x :: x1 <= x < x2 ==> row[x] == 0
    ensures RowSum(row, x1, x2) == 0
    decreases x2 - x1
  {
    if x1 < x2 {
      RowSumZero(row, x1, x2 - 1);
    }
  }

  lemma {:induction false} RegionSumZero(d: Frame, y1: int, y2: int, x1: int, x2: int)
    requires 0 <= y1 <= y2 <= |d| && 0 <= x1 <= x2 <= Width(d)
    requires forall y, x :: y1 <= y < y2 && x1 <= x < x2 ==> d[y][x] == 0
    ensures RegionSum(d, y1, y2, x1, x2) == 0
    decreases y2 - y1
  {
    if y1 < y2 {
      RegionSumZero(d, y1, y2 - 1, x1, x2);
      RowSumZero(d[y2 - 1], x1, x2);
    }
  }

  /** Two identical frames differ nowhere, so with the default thresholds the detector
      reports no new scene and a magnitude of 0. */
  lemma IdenticalFramesNoScene(g: Frame)
    ensures Detect(g, g, DEFAULT_MIN_THRESHOLD, DEFAULT_MAX_THRESHOLD) == Detection(false, 0.0)
  {
    var d := AbsDiff(g, g);
    assert forall y, x :: 0 <= y < |d| && 0 <= x < Width(d) ==> d[y][x] == 0;
    RegionSumZero(d, 0, |d|, 0, Width(d));
    assert ChangeRate(d) == 0.0;
    ZeroBlocks(d);
    ZeroMax(BlockRates(d));
  }

  lemma ZeroBlocks(d: Frame)
    requires forall y, x :: 0 <= y < |d| && 0 <= x < Width(d) ==> d[y][x] == 0
    ensures forall k :: 0 <= k < |BlockRates(d)| ==> BlockRates(d)[k] == 0.0
  {
    forall k | 0 <= k < BLOCKS * BLOCKS
      ensures BlockRates(d)[k] == 0.0
    {
      ZeroBlock(d, k / BLOCKS, k % BLOCKS);
    }
  }

  lemma ZeroBlock(d: Frame, i: int, j: int)
    requires 0 <= i < BLOCKS && 0 <= j < BLOCKS
    requires forall y, x :: 0 <= y < |d| && 0 <= x < Width(d) ==> d[y][x] == 0
    ensures BlockRate(d, i, j) == 0.0
  {
    BlockWithin(i, |d|);
    BlockWithin(j, Width(d));
    var bh, bw := |d| / BLOCKS, Width(d) / BLOCKS;
    var y1, y2, x1, x2 := i * bh, (i + 1) * bh, j * bw, (j + 1) * bw;
    RegionSumZero(d, y1, y2, x1, x2);
    assert BlockRate(d, i, j) == Rate(d, y1, y2, x1, x2);
    ZeroRate(d, y1, y2, x1, x2);
  }

  lemma ZeroRate(d: Frame, y1: int, y2: int, x1: int, x2: int)
    requires 0 <= y1 < y2 <= |d| && 0 <= x1 < x2 <= Width(d)
    requires RegionSum(d, y1, y2, x1, x2) == 0
    ensures Rate(d, y1, y2, x1, x2) == 0.0
  {
    var n := Area(y2 - y1, x2 - x1);
    assert Mean(0, n) == 0.0;
  }

  lemma ZeroMax(s: seq<real>)
    requires |s| > 0 && forall k :: 0 <= k < |s| ==> s[k] == 0.0
    ensures MaxOf(s) == 0.0
  {
  }

  // ---------------------------------------------------------------- trailing rows and columns

  lemma {:induction false} RowSumAgree(r1: seq<int>, r2: seq<int>, x1: int, x2: int)
    requires 0 <= x1 <= x2 <= |r1| && x2 <= |r2|
    requires forall x :: x1 <= x < x2 ==> r1[x] == r2[x]
    ensures RowSum(r1, x1, x2) == RowSum(r2, x1, x2)
    decreases x2 - x1
  {
    if x1 < x2 {
      RowSumAgree(r1, r2, x1, x2 - 1);
    }
  }

  lemma {:induction false} RegionSumAgree(d1: Frame, d2: Frame, y1: int, y2: int, x1: int, x2: int)
    requires SameShape(d1, d2)
    requires 0 <= y1 <= y2 <= |d1| && 0 <= x1 <= x2 <= Width(d1)
    requires forall y, x :: y1 <= y < y2 && x1 <= x < x2 ==> d1[y][x] == d2[y][x]
    ensures RegionSum(d1, y1, y2, x1, x2) == RegionSum(d2, y1, y2, x1, x2)
    decreases y2 - y1
  {
    if y1 < y2 {
      RegionSumAgree(d1, d2, y1, y2 - 1, x1, x2);
      RowSumAgree(d1[y2 - 1], d2[y2 - 1], x1, x2);
    }
  }

  /** The block values depend only on the pixels of rows below `4 * (h / 4)` and columns
      below `4 * (w / 4)`: the trailing rows and columns are never inspected. */
  lemma BlocksIgnoreTrailing(prev1: Frame, curr1: Frame, prev2: Frame, curr2: Frame)
    requires SameShape(prev1, curr1) && SameShape(prev1, prev2) && SameShape(prev2, curr2)
    requires forall y, x :: 0 <= y < BLOCKS * (|prev1| / BLOCKS) && 0 <= x < BLOCKS * (Width(prev1) / BLOCKS) ==>
      AbsDiff(prev1, curr1)[y][x] == AbsDiff(prev2, curr2)[y][x]
    ensures BlockRates(AbsDiff(prev1, curr1)) == BlockRates(AbsDiff(prev2, curr2))
  {
    var d1, d2 := AbsDiff(prev1, curr1), AbsDiff(prev2, curr2);
    forall k | 0 <= k < BLOCKS * BLOCKS
      ensures BlockRates(d1)[k] == BlockRates(d2)[k]
    {
      BlockAgree(d1, d2, k / BLOCKS, k % BLOCKS);
    }
  }

  lemma BlockAgree(d1: Frame, d2: Frame, i: int, j: int)
    requires SameShape(d1, d2) && 0 <= i < BLOCKS && 0 <= j < BLOCKS
    requires forall y, x :: 0 <= y < BLOCKS * (|d1| / BLOCKS) && 0 <= x < BLOCKS * (Width(d1) / BLOCKS) ==>
      d1[y][x] == d2[y][x]
    ensures BlockRate(d1, i, j) == BlockRate(d2, i, j)
  {
    BlockWithin(i, |d1|);
    BlockWithin(j, Width(d1));
    var bh, bw := |d1| / BLOCKS, Width(d1) / BLOCKS;
    RegionSumAgree(d1, d2, i * bh, (i + 1) * bh, j * bw, (j + 1) * bw);
  }
}
