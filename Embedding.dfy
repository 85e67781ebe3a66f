/**
 * The embedder: every pixel of complete block `k` is raised by `strength`
 * when payload bit `k mod 256` is 1 and lowered by `strength` otherwise; the
 * result is clipped to [0, 255]. Pixels outside complete blocks are copied.
 */
module Embedding {
  import opened Codec
  import opened Grid

  /** `np.clip(v, 0, 255)` of an integral value. */
  function Clip(v: int): (p: Pixel)
    ensures p == Max(0, Min(255, v))
  {
    if v < 0 then 0 else if v > 255 then 255 else v
  }

  /** Value of a pixel of a block carrying bit `b`, before clipping. */
  function Shifted(p: int, b: bit, strength: nat): int
  {
    if b == 1 then p + strength else p - strength
  }

  /** Unclipped value the embedder leaves at `(y, x)`. */
  function Embedded(image: Image, bits: seq<bit>, strength: nat, y: nat, x: nat): int
    requires Rectangular(image) && |bits| > 0 && y < Height(image) && x < Width(image)
  {
    if InCompleteBlock(image, y, x)
    then Shifted(image[y][x], bits[BlockIndexAt(image, y, x) % |bits|], strength)
    else image[y][x]
  }

  /** The watermarked image as a whole: `Embedded` at every pixel, clipped. */
  function Watermarked(image: Image, bits: seq<bit>, strength: nat): Image
    requires Rectangular(image) && |bits| > 0
  {
    seq(Height(image), y requires 0 <= y < Height(image) =>
      seq(Width(image), x requires 0 <= x < Width(image) =>
        Clip(Embedded(image, bits, strength, y, x))))
  }

  /**
   * Shape is kept; pixel `(y, x)` of complete block `k` becomes
   * `clip(p + strength)` or `clip(p - strength)` by `bits[k mod |bits|]`; every
   * other pixel is unchanged.
   */
  lemma WatermarkedPixels(image: Image, bits: seq<bit>, strength: nat)
    requires Rectangular(image) && |bits| > 0
    ensures var out := Watermarked(image, bits, strength);
      && Rectangular(out) && Height(out) == Height(image) && Width(out) == Width(image)
      && (forall y, x :: 0 <= y < Height(image) && 0 <= x < Width(image) ==>
            0 <= out[y][x] <= 255)
      && (forall y, x :: (0 <= y < Height(image) && 0 <= x < Width(image) &&
                          InCompleteBlock(image, y, x)) ==>
            out[y][x] == if bits[BlockIndexAt(image, y, x) % |bits|] == 1
                         then Min(255, image[y][x] + strength)
                         else Max(0, image[y][x] - strength))
      && (forall y, x :: (0 <= y < Height(image) && 0 <= x < Width(image) &&
                          !InCompleteBlock(image, y, x)) ==> out[y][x] == image[y][x])
  {
  }

  /** The watermarked image has the shape of the original. */
  lemma WatermarkedShape(image: Image, bits: seq<bit>, strength: nat)
    requires Rectangular(image) && |bits| > 0
    ensures var out := Watermarked(image, bits, strength);
      Rectangular(out) && Height(out) == Height(image) && Width(out) == Width(image)
  {
  }

  /** Every pixel of block `k` is moved the same way, by bit `k mod |bits|`. */
  lemma WatermarkedBlock(image: Image, bits: seq<bit>, strength: nat, k: nat)
    requires Rectangular(image) && |bits| > 0 && k < BlockCount(image)
    ensures var out := Watermarked(image, bits, strength);
      forall y, x :: BlockTop(image, k) <= y < BlockTop(image, k) + BLOCK &&
                     BlockLeft(image, k) <= x < BlockLeft(image, k) + BLOCK ==>
        y < Height(image) && x < Width(image) &&
        out[y][x] == Clip(Shifted(image[y][x], bits[k % |bits|], strength))
  {
    BlockOrigin(image, k);
  }

  /**
   * The embedder's buffer after it has treated every block above row `i`, and
   * the blocks of the block row at `i` left of column `j`.
   */
  predicate EmbeddedUpTo(buf: array2<int>, image: Image, bits: seq<bit>, strength: nat, i: nat, j: nat)
    requires Rectangular(image) && |bits| > 0
    requires buf.Length0 == Height(image) && buf.Length1 == Width(image)
    reads buf
  {
    forall y, x :: 0 <= y < buf.Length0 && 0 <= x < buf.Length1 ==>
      buf[y, x] == if y < i || (y < i + BLOCK && x < j)
                   then Embedded(image, bits, strength, y, x) else image[y][x]
  }

  /** `watermarked[top:top+8, left:left+8] += delta`. */
  method AddToBlock(buf: array2<int>, top: nat, left: nat, delta: int)
    requires top + BLOCK <= buf.Length0 && left + BLOCK <= buf.Length1
    modifies buf
    ensures forall y, x :: 0 <= y < buf.Length0 && 0 <= x < buf.Length1 ==>
      buf[y, x] == if top <= y < top + BLOCK && left <= x < left + BLOCK
                   then old(buf[y, x]) + delta else old(buf[y, x])
  {
    forall y, x | top <= y < top + BLOCK && left <= x < left + BLOCK {
      buf[y, x] := buf[y, x] + delta;
    }
  }

  /**
   * One row of blocks of `embed`'s loop: the blocks whose top row is `i`, left
   * to right, with the running bit index. Returns the bit index after the row.
   */
  method EmbedBlockRow(buf: array2<int>, image: Image, bits: seq<bit>, strength: nat,
                       ghost row: nat, i: nat, bitIndex: nat) returns (next: nat)
    requires Rectangular(image) && |bits| > 0
    requires buf.Length0 == Height(image) && buf.Length1 == Width(image)
    requires i == BLOCK * row && i + BLOCK <= Height(image)
    requires bitIndex == row * BlocksAcross(image)
    requires EmbeddedUpTo(buf, image, bits, strength, i, 0)
    modifies buf
    ensures next == bitIndex + BlocksAcross(image)
    ensures EmbeddedUpTo(buf, image, bits, strength, i + BLOCK, 0)
  {
    var w := buf.Length1;
    next := bitIndex;
    var j := 0;
    ghost var col := 0;
    while j + BLOCK <= w
      invariant 0 <= j <= w && j == BLOCK * col
      invariant next == bitIndex + col
      invariant EmbeddedUpTo(buf, image, bits, strength, i, j)
      decreases w - j
    {
      var bit := bits[next % |bits|];
      var delta: int := if bit == 1 then strength else -(strength as int);
      forall y, x | i <= y < i + BLOCK && j <= x < j + BLOCK
        ensures Embedded(image, bits, strength, y, x) == image[y][x] + delta
      {
        BlockAt(image, row, j, y, x);
      }
      label before:
      AddToBlock(buf, i, j, delta);
      forall y, x | 0 <= y < buf.Length0 && 0 <= x < w
        ensures buf[y, x] == if y < i || (y < i + BLOCK && x < j + BLOCK)
                             then Embedded(image, bits, strength, y, x) else image[y][x]
      {
        assert old@before(buf[y, x]) == if y < i || (y < i + BLOCK && x < j)
          then Embedded(image, bits, strength, y, x) else image[y][x];
      }
      next := next + 1;
      j := j + BLOCK;
      col := col + 1;
    }
    RowDone(image, col);
    forall y, x | i <= y < i + BLOCK && j <= x < w
      ensures Embedded(image, bits, strength, y, x) == image[y][x]
    {
    }
  }

  /** `np.clip(watermarked, 0, 255)` read out into a new image. */
  method ClipBuffer(buf: array2<int>) returns (out: Image)
    ensures |out| == buf.Length0
    ensures forall y :: 0 <= y < |out| ==> |out[y]| == buf.Length1
    ensures forall y, x :: 0 <= y < buf.Length0 && 0 <= x < buf.Length1 ==>
              out[y][x] == Clip(buf[y, x])
  {
    out := seq(buf.Length0, y requires 0 <= y < buf.Length0 reads buf =>
             seq(buf.Length1, x requires 0 <= x < buf.Length1 reads buf => Clip(buf[y, x])));
  }

  /** Once every block row is treated, the clipped buffer is the watermarked image. */
  lemma ClippedIsWatermarked(buf: array2<int>, image: Image, bits: seq<bit>, strength: nat,
                             out: Image)
    requires Rectangular(image) && |bits| > 0
    requires buf.Length0 == Height(image) && buf.Length1 == Width(image)
    requires EmbeddedUpTo(buf, image, bits, strength, BLOCK * BlocksDown(image), 0)
    requires |out| == buf.Length0 && forall y :: 0 <= y < |out| ==> |out[y]| == buf.Length1
    requires forall y, x :: 0 <= y < buf.Length0 && 0 <= x < buf.Length1 ==>
               out[y][x] == Clip(buf[y, x])
    ensures out == Watermarked(image, bits, strength)
  {
    var expected := Watermarked(image, bits, strength);
    forall y | 0 <= y < |out|
      ensures out[y] == expected[y]
    {
      assert forall x :: 0 <= x < |out[y]| ==> out[y][x] == expected[y][x];
    }
  }

  /**
   * The embedder of `WatermarkEmbedder`: it holds the two identifiers and
   * derives its payload from them once.
   */
  datatype Embedder = Embedder(deviceId: seq<byte>, sessionId: seq<byte>)
  {
    /** The payload this embedder writes into every image. */
    function Payload(): seq<byte>
    {
      CreatePayload(deviceId, sessionId)
    }

    /**
     * `embed`: copies the image into a working buffer, walks the complete 8x8
     * blocks in row-major order with a running bit index, shifts each block in
     * place by `+strength` or `-strength`, and clips the buffer into the result.
     */
    method Embed(image: Image, strength: nat) returns (out: Image)
      requires Rectangular(image)
      ensures Rectangular(out) && Height(out) == Height(image) && Width(out) == Width(image)
      ensures out == Watermarked(image, Unpack(Payload()), strength)
    {
      var h, w := |image|, Width(image);
      var bits := PayloadToBits(Payload());
      var buf := new int[h, w];
      forall y, x | 0 <= y < h && 0 <= x < w {
        buf[y, x] := image[y][x];
      }
      var bitIndex := 0;
      ghost var row := 0;
      var i := 0;
      while i + BLOCK <= h
        invariant 0 <= i <= h && i == BLOCK * row
        invariant bitIndex == row * BlocksAcross(image)
        invariant EmbeddedUpTo(buf, image, bits, strength, i, 0)
        decreases h - i
      {
        bitIndex := EmbedBlockRow(buf, image, bits, strength, row, i, bitIndex);
        assert (row + 1) * BlocksAcross(image) == row * BlocksAcross(image) + BlocksAcross(image);
        i := i + BLOCK;
        row := row + 1;
      }
      RowsDone(image, row);
      out := ClipBuffer(buf);
      ClippedIsWatermarked(buf, image, bits, strength, out);
      WatermarkedShape(image, bits, strength);
    }
  }
}
