/**
 * Embedding followed by detection. On an image of one uniform intensity the
 * embedder turns every block into one of two levels, and as long as at most
 * half of the bits it writes are ones, the median of the block means lies at
 * or above the lower level and below the upper one: the detector then reads
 * back exactly the bits that were written, and with them the payload and both
 * identifiers.
 */
module RoundTrip {
  import opened Codec
  import opened Grid
  import opened Embedding
  import opened Statistics
  import opened Detector
  import Arith

  /** Every sample of the image equals `v`. */
  predicate Uniform(image: Image, v: Pixel)
  {
    forall y, x :: 0 <= y < |image| && 0 <= x < |image[y]| ==> image[y][x] == v
  }

  /** The level a uniform block is moved to by bit `b`. */
  function Level(v: Pixel, b: bit, strength: nat): Pixel
  {
    Clip(Shifted(v, b, strength))
  }

  /** With a positive strength, a one-block is strictly brighter than a zero-block. */
  lemma LevelsApart(v: Pixel, strength: nat)
    requires strength >= 1
    ensures Level(v, 0, strength) < Level(v, 1, strength)
  {
  }

  /** Block `k` of a watermarked uniform image is uniform at the level of its bit. */
  lemma WatermarkedBlockMean(image: Image, v: Pixel, bits: seq<bit>, strength: nat, k: nat)
    requires Rectangular(image) && Uniform(image, v) && |bits| > 0 && k < BlockCount(image)
    ensures var out := Watermarked(image, bits, strength);
      && Rectangular(out) && BlockCount(out) == BlockCount(image)
      && MeanOfBlock(out, k) == Level(v, bits[k % |bits|], strength) as real
  {
    var out := Watermarked(image, bits, strength);
    WatermarkedShape(image, bits, strength);
    WatermarkedBlock(image, bits, strength, k);
    BlockOrigin(image, k);
    var top, left := BlockTop(image, k), BlockLeft(image, k);
    assert BlockTop(out, k) == top && BlockLeft(out, k) == left;
    BlockMeanConstant(out, top, left, Level(v, bits[k % |bits|], strength));
  }

  lemma {:induction false} CountAboveMatches(means: seq<real>, lo: real, b: seq<bit>)
    requires |means| == |b|
    requires forall t :: 0 <= t < |b| ==> (means[t] > lo <==> b[t] == 1)
    ensures CountAbove(means, lo) == CountOf(b, 1)
  {
    if b != [] {
      CountAboveMatches(means[1..], lo, b[1..]);
    }
  }

  /** The collected means of a watermarked uniform image are the levels of the first bits. */
  lemma CollectedLevels(image: Image, v: Pixel, bits: seq<bit>, strength: nat)
    requires Rectangular(image) && Uniform(image, v) && |bits| == PAYLOAD_BITS
    ensures var out := Watermarked(image, bits, strength);
      && Rectangular(out)
      && |CollectedMeans(out)| == Min(MAX_BLOCKS, BlockCount(image))
      && forall t :: 0 <= t < |CollectedMeans(out)| ==>
           CollectedMeans(out)[t] == Level(v, bits[t], strength) as real
  {
    var out := Watermarked(image, bits, strength);
    WatermarkedShape(image, bits, strength);
    assert BlockCount(out) == BlockCount(image);
    forall t | 0 <= t < Min(MAX_BLOCKS, BlockCount(image))
      ensures CollectedMeans(out)[t] == Level(v, bits[t], strength) as real
    {
      CollectedLevelAt(image, v, bits, strength, t);
    }
  }

  /** Collected mean `t` of a watermarked uniform image is the level of bit `t`. */
  lemma CollectedLevelAt(image: Image, v: Pixel, bits: seq<bit>, strength: nat, t: nat)
    requires Rectangular(image) && Uniform(image, v) && |bits| == PAYLOAD_BITS
    requires t < Min(MAX_BLOCKS, BlockCount(image))
    ensures var out := Watermarked(image, bits, strength);
      Rectangular(out) && t < |CollectedMeans(out)| &&
      CollectedMeans(out)[t] == Level(v, bits[t], strength) as real
  {
    WatermarkedBlockMean(image, v, bits, strength, t);
    assert t % |bits| == t;
  }

  /**
   * On a uniform image, each of the first `n = min(256, blocks)` bits is read
   * back as written, provided at most half of them are ones. With fewer ones
   * than zeros the median is the lower level; with exactly as many of each it
   * is the midpoint of the two levels.
   */
  lemma UniformBitsRoundTrip(image: Image, v: Pixel, bits: seq<bit>, strength: nat)
    requires Rectangular(image) && Uniform(image, v)
    requires |bits| == PAYLOAD_BITS && strength >= 1
    requires var n := Min(MAX_BLOCKS, BlockCount(image)); CountOf(bits[..n], 1) <= n / 2
    ensures var out := Watermarked(image, bits, strength);
      Rectangular(out) &&
      forall k :: 0 <= k < Min(MAX_BLOCKS, BlockCount(image)) ==> ExtractedBits(out)[k] == bits[k]
  {
    var out := Watermarked(image, bits, strength);
    var n := Min(MAX_BLOCKS, BlockCount(image));
    var lo := Level(v, 0, strength) as real;
    var hi := Level(v, 1, strength) as real;
    LevelsApart(v, strength);
    CollectedLevels(image, v, bits, strength);
    var means := CollectedMeans(out);
    CountAboveMatches(means, lo, bits[..n]);
    if n > 0 {
      var threshold := Median(means);
      if CountOf(bits[..n], 1) < n - n / 2 {
        MedianAtLowest(means, lo);
      } else {
        MedianAtMidpoint(means, lo, hi);
      }
      assert lo <= threshold < hi;
      forall k | 0 <= k < n
        ensures ExtractedBits(out)[k] == bits[k]
      {
        ExtractedBitsAt(out, k);
      }
    }
  }

  /**
   * Embed, then detect, on a uniform image with at least 256 blocks: when at
   * most 128 payload bits are ones, the detector reports the embedded payload,
   * both identifiers as the embedder's cut to 16 bytes and stripped of
   * trailing zeros, and a confidence of the share of zero bits (at least one
   * half, below one once a bit is 1). A watermark is found exactly when the
   * device identifier survives and fewer than 128 bits are ones: with exactly
   * 128 the confidence is one half and nothing is reported found.
   */
  lemma EmbedDetectRoundTrip(image: Image, v: Pixel, e: Embedder, strength: nat)
    requires Rectangular(image) && Uniform(image, v) && strength >= 1
    requires BlockCount(image) >= MAX_BLOCKS
    requires CountOf(Unpack(e.Payload()), 1) <= PAYLOAD_BITS / 2
    ensures var out := Watermarked(image, Unpack(e.Payload()), strength);
      && Rectangular(out)
      && ExtractedBits(out) == Unpack(e.Payload())
      && var r := Detection(out);
      && r.payload == Hex(e.Payload())
      && r.deviceId == StripTrailingZeros(e.deviceId[..Min(FIELD_SIZE, |e.deviceId|)])
      && r.sessionId == StripTrailingZeros(e.sessionId[..Min(FIELD_SIZE, |e.sessionId|)])
      && r.confidence ==
           (PAYLOAD_BITS - CountOf(Unpack(e.Payload()), 1)) as real / PAYLOAD_BITS as real
      && 0.5 <= r.confidence
      && (CountOf(Unpack(e.Payload()), 1) > 0 ==> r.confidence < 1.0)
      && (r.found <==> r.deviceId != [] && CountOf(Unpack(e.Payload()), 1) < PAYLOAD_BITS / 2)
  {
    var p := e.Payload();
    var bits := Unpack(p);
    var out := Watermarked(image, bits, strength);
    assert bits[..PAYLOAD_BITS] == bits;
    UniformBitsRoundTrip(image, v, bits, strength);
    assert ExtractedBits(out) == bits;
    PayloadReport(e);
  }

  /** The report of an embedder's own payload bits, with at most 128 ones. */
  lemma PayloadReport(e: Embedder)
    requires CountOf(Unpack(e.Payload()), 1) <= PAYLOAD_BITS / 2
    ensures var r := Report(Unpack(e.Payload()));
      && r.payload == Hex(e.Payload())
      && r.deviceId == StripTrailingZeros(e.deviceId[..Min(FIELD_SIZE, |e.deviceId|)])
      && r.sessionId == StripTrailingZeros(e.sessionId[..Min(FIELD_SIZE, |e.sessionId|)])
      && r.confidence ==
           (PAYLOAD_BITS - CountOf(Unpack(e.Payload()), 1)) as real / PAYLOAD_BITS as real
      && 0.5 <= r.confidence
      && (CountOf(Unpack(e.Payload()), 1) > 0 ==> r.confidence < 1.0)
      && (r.found <==> r.deviceId != [] && CountOf(Unpack(e.Payload()), 1) < PAYLOAD_BITS / 2)
  {
    var p := e.Payload();
    var bits := Unpack(p);
    PackUnpack(p);
    IdentifiersRoundTrip(e.deviceId, e.sessionId);
    ReportOfMinority(bits);
  }

  /**
   * On a uniform image with fewer than 256 blocks, at most half of whose block
   * bits are ones, the detector reads back the bits of the blocks there are,
   * and zero for every bit that has no block.
   */
  lemma FewBlocksBits(image: Image, v: Pixel, bits: seq<bit>, strength: nat)
    requires Rectangular(image) && Uniform(image, v)
    requires |bits| == PAYLOAD_BITS && strength >= 1
    requires BlockCount(image) < MAX_BLOCKS
    requires CountOf(bits[..BlockCount(image)], 1) <= BlockCount(image) / 2
    ensures var out := Watermarked(image, bits, strength);
      Rectangular(out) &&
      ExtractedBits(out) == bits[..BlockCount(image)] + ZeroBits(PAYLOAD_BITS - BlockCount(image))
  {
    var n := BlockCount(image);
    var out := Watermarked(image, bits, strength);
    UniformBitsRoundTrip(image, v, bits, strength);
    WatermarkedShape(image, bits, strength);
    assert BlockCount(out) == n;
    forall k | 0 <= k < PAYLOAD_BITS
      ensures ExtractedBits(out)[k] == (bits[..n] + ZeroBits(PAYLOAD_BITS - n))[k]
    {
      if k >= n {
        ExtractedBitsAt(out, k);
      }
    }
  }

  /**
   * The report of a payload of which only the first `m <= 16` bytes survive,
   * the rest read as zeros: the device identifier is those bytes stripped of
   * trailing zeros, the session identifier is empty, the confidence is the
   * share of zero bits, and a watermark is found exactly when the device
   * identifier is not empty and fewer than 128 bits are ones.
   */
  lemma TruncatedReport(p: seq<byte>, m: nat)
    requires |p| == PAYLOAD_SIZE && m <= FIELD_SIZE
    ensures var q := p[..m] + Zeros(PAYLOAD_SIZE - m);
      var r := Report(Unpack(q));
      && r.payload == Hex(q)
      && r.deviceId == StripTrailingZeros(p[..m])
      && r.sessionId == []
      && r.confidence == (PAYLOAD_BITS - CountOf(Unpack(p[..m]), 1)) as real / PAYLOAD_BITS as real
    ensures var r := Report(Unpack(p[..m] + Zeros(PAYLOAD_SIZE - m)));
      r.found <==> |r.deviceId| > 0 && CountOf(Unpack(p[..m]), 1) < PAYLOAD_BITS / 2
  {
    var q := p[..m] + Zeros(PAYLOAD_SIZE - m);
    TruncatedIdentifiers(p, m);
    TruncatedOnes(p, m);
    ReportOfMinority(Unpack(q));
  }

  /** The payload and identifiers packed from the bits of a zero-filled prefix. */
  lemma TruncatedIdentifiers(p: seq<byte>, m: nat)
    requires |p| == PAYLOAD_SIZE && m <= FIELD_SIZE
    ensures var q := p[..m] + Zeros(PAYLOAD_SIZE - m);
      && Pack(Unpack(q)) == q
      && ParseIdentifiers(q) == (StripTrailingZeros(p[..m]), [])
  {
    var q := p[..m] + Zeros(PAYLOAD_SIZE - m);
    PackUnpack(q);
    assert q[..FIELD_SIZE] == p[..m] + Zeros(FIELD_SIZE - m);
    StripZeroExtended(p[..m], FIELD_SIZE - m);
    assert q[FIELD_SIZE..PAYLOAD_SIZE] == [] + Zeros(FIELD_SIZE);
    StripZeroExtended([], FIELD_SIZE);
  }

  /** Zero-filling adds no one bits. */
  lemma TruncatedOnes(p: seq<byte>, m: nat)
    requires |p| == PAYLOAD_SIZE && m <= FIELD_SIZE
    ensures CountOf(Unpack(p[..m] + Zeros(PAYLOAD_SIZE - m)), 1) == CountOf(Unpack(p[..m]), 1)
  {
    UnpackConcat(p[..m], Zeros(PAYLOAD_SIZE - m));
    UnpackZeros(PAYLOAD_SIZE - m);
    CountAppend(Unpack(p[..m]), ZeroBits(8 * (PAYLOAD_SIZE - m)), 1);
    CountZeroBits(8 * (PAYLOAD_SIZE - m));
  }
}
