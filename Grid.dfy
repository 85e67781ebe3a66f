/**
 * A grayscale image and its tiling into complete 8x8 blocks, numbered in
 * row-major order from the origin. Trailing rows and columns that do not fill
 * a whole block belong to no block.
 */
module Grid {
  import opened Codec
  import Arith

  /** An 8-bit intensity sample. */
  type Pixel = byte

  /** Rows of samples; `Rectangular` says every row has the same width. */
  type Image = seq<seq<Pixel>>

  /** Side of a block, in pixels. */
  const BLOCK: nat := 8

  /** Pixels per block. */
  const BLOCK_AREA: nat := 64

  function Height(g: Image): nat { |g| }

  function Width(g: Image): nat { if |g| == 0 then 0 else |g[0]| }

  /** The image is a 2-D grid: all rows have one width. */
  predicate Rectangular(g: Image)
  {
    forall y :: 0 <= y < |g| ==> |g[y]| == Width(g)
  }

  /** Complete block rows: `range(0, h - 7, 8)` has this many steps. */
  function BlocksDown(g: Image): nat { Height(g) / BLOCK }

  /** Complete block columns: `range(0, w - 7, 8)` has this many steps. */
  function BlocksAcross(g: Image): nat { Width(g) / BLOCK }

  /** Number of complete blocks, `floor(H/8) * floor(W/8)`. */
  function BlockCount(g: Image): nat { BlocksDown(g) * BlocksAcross(g) }

  /** Pixel `(y, x)` lies in a complete block. */
  predicate InCompleteBlock(g: Image, y: nat, x: nat)
  {
    y < BLOCK * BlocksDown(g) && x < BLOCK * BlocksAcross(g)
  }

  /** Row-major index of the block that holds pixel `(y, x)`. */
  function BlockIndexAt(g: Image, y: nat, x: nat): nat
  {
    (y / BLOCK) * BlocksAcross(g) + x / BLOCK
  }

  /** Top row of block `k`. */
  function BlockTop(g: Image, k: nat): nat
    requires k < BlockCount(g)
  {
    Arith.PositiveFactor(k, BlocksDown(g), BlocksAcross(g));
    BLOCK * (k / BlocksAcross(g))
  }

  /** Left column of block `k`. */
  function BlockLeft(g: Image, k: nat): nat
    requires k < BlockCount(g)
  {
    Arith.PositiveFactor(k, BlocksDown(g), BlocksAcross(g));
    BLOCK * (k % BlocksAcross(g))
  }

  /**
   * Block `k` (for each `k` below the block count) is a complete 8x8 block inside
   * the image, and it is the block whose index its pixels carry.
   */
  lemma BlockOrigin(g: Image, k: nat)
    requires k < BlockCount(g)
    ensures BlockTop(g, k) + BLOCK <= Height(g) && BlockLeft(g, k) + BLOCK <= Width(g)
    ensures forall y, x :: BlockTop(g, k) <= y < BlockTop(g, k) + BLOCK &&
                           BlockLeft(g, k) <= x < BlockLeft(g, k) + BLOCK ==>
                           InCompleteBlock(g, y, x) && BlockIndexAt(g, y, x) == k
  {
    var a := BlocksAcross(g);
    Arith.PositiveFactor(k, BlocksDown(g), a);
    Arith.QuotientBelow(k, BlocksDown(g), a);
    var r, c := k / a, k % a;
    forall y, x | BlockTop(g, k) <= y < BlockTop(g, k) + BLOCK &&
                  BlockLeft(g, k) <= x < BlockLeft(g, k) + BLOCK
      ensures InCompleteBlock(g, y, x) && BlockIndexAt(g, y, x) == k
    {
      assert y / BLOCK == r && x / BLOCK == c;
    }
  }

  /** Every pixel of a complete block carries an index below the block count. */
  lemma PixelBlock(g: Image, y: nat, x: nat)
    requires InCompleteBlock(g, y, x)
    ensures BlockIndexAt(g, y, x) < BlockCount(g)
    ensures BlockTop(g, BlockIndexAt(g, y, x)) == BLOCK * (y / BLOCK)
    ensures BlockLeft(g, BlockIndexAt(g, y, x)) == BLOCK * (x / BLOCK)
  {
    var a := BlocksAcross(g);
    Arith.RowMajorBelow(y / BLOCK, x / BLOCK, a, BlocksDown(g));
    Arith.DivModUnique(BlockIndexAt(g, y, x), a, y / BLOCK, x / BLOCK);
  }

  /** The pixels of the block whose corner is `(8*r, j)` carry index `r*across + j/8`. */
  lemma BlockAt(g: Image, r: nat, j: nat, y: nat, x: nat)
    requires BLOCK * r + BLOCK <= Height(g) && j % BLOCK == 0 && j + BLOCK <= Width(g)
    requires BLOCK * r <= y < BLOCK * r + BLOCK && j <= x < j + BLOCK
    ensures InCompleteBlock(g, y, x)
    ensures BlockIndexAt(g, y, x) == r * BlocksAcross(g) + j / BLOCK
  {
    assert y / BLOCK == r && x / BLOCK == j / BLOCK;
  }

  /** A scan that stops at column `8*col` has passed every complete block of the row. */
  lemma RowDone(image: Image, col: nat)
    requires BLOCK * col <= Width(image) < BLOCK * col + BLOCK
    ensures col == BlocksAcross(image)
  {
    Arith.DivModUnique(Width(image), BLOCK, col, Width(image) - BLOCK * col);
  }

  /** A scan that stops at row `8*row` has passed every complete block row. */
  lemma RowsDone(image: Image, row: nat)
    requires BLOCK * row <= Height(image) < BLOCK * row + BLOCK
    ensures row == BlocksDown(image)
  {
    Arith.DivModUnique(Height(image), BLOCK, row, Height(image) - BLOCK * row);
  }

  // ----------------------------------------------------------------------
  // Block statistics
  // ----------------------------------------------------------------------

  /** Sum of `n` samples of `row` starting at column `left`. */
  function RowSum(row: seq<Pixel>, left: nat, n: nat): int
    requires left + n <= |row|
  {
    if n == 0 then 0 else RowSum(row, left, n - 1) + row[left + n - 1]
  }

  /** Sum of the `m` by `n` rectangle whose top-left corner is `(top, left)`. */
  function RectSum(g: Image, top: nat, left: nat, m: nat, n: nat): int
    requires Rectangular(g) && top + m <= Height(g) && left + n <= Width(g)
  {
    if m == 0 then 0 else RectSum(g, top, left, m - 1, n) + RowSum(g[top + m - 1], left, n)
  }

  /** `np.mean` of the 8x8 block at `(top, left)`, as an exact rational. */
  function BlockMean(g: Image, top: nat, left: nat): real
    requires Rectangular(g) && top + BLOCK <= Height(g) && left + BLOCK <= Width(g)
  {
    RectSum(g, top, left, BLOCK, BLOCK) as real / BLOCK_AREA as real
  }

  /** Mean of block `k` in row-major order. */
  function MeanOfBlock(g: Image, k: nat): real
    requires Rectangular(g) && k < BlockCount(g)
  {
    BlockOrigin(g, k);
    BlockMean(g, BlockTop(g, k), BlockLeft(g, k))
  }

  lemma {:induction false} RowSumConstant(row: seq<Pixel>, left: nat, n: nat, c: int)
    requires left + n <= |row|
    requires forall x :: left <= x < left + n ==> row[x] == c
    ensures RowSum(row, left, n) == n * c
  {
    if n > 0 {
      RowSumConstant(row, left, n - 1, c);
    }
  }

  lemma {:induction false} RectSumConstant(g: Image, top: nat, left: nat, m: nat, n: nat, c: int)
    requires Rectangular(g) && top + m <= Height(g) && left + n <= Width(g)
    requires forall y, x :: top <= y < top + m && left <= x < left + n ==> g[y][x] == c
    ensures RectSum(g, top, left, m, n) == m * (n * c)
  {
    if m > 0 {
      RectSumConstant(g, top, left, m - 1, n, c);
      RowSumConstant(g[top + m - 1], left, n, c);
    }
  }

  /** A block whose samples all equal `c` has mean `c`. */
  lemma BlockMeanConstant(g: Image, top: nat, left: nat, c: int)
    requires Rectangular(g) && top + BLOCK <= Height(g) && left + BLOCK <= Width(g)
    requires forall y, x :: top <= y < top + BLOCK && left <= x < left + BLOCK ==> g[y][x] == c
    ensures BlockMean(g, top, left) == c as real
  {
    RectSumConstant(g, top, left, BLOCK, BLOCK, c);
  }
}
