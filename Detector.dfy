/**
 * The detector: a first pass collects the means of the first (at most 256)
 * complete blocks in row-major order, their median becomes the threshold, a
 * second pass over the same blocks reads bit 1 for a mean above the threshold
 * and 0 otherwise, and the bits, zero-padded to 256, are packed into the
 * payload, parsed into identifiers and scored for self-consistency.
 */
module Detector {
  import opened Codec
  import opened Grid
  import opened Statistics
  import Arith

  /** Blocks read per image: one per payload bit. */
  const MAX_BLOCKS: nat := 256

  // ----------------------------------------------------------------------
  // Bit extraction
  // ----------------------------------------------------------------------

  /** Means of the blocks the first pass collects: blocks 0 .. min(256, count) - 1. */
  function CollectedMeans(image: Image): (means: seq<real>)
    requires Rectangular(image)
    ensures |means| == Min(MAX_BLOCKS, BlockCount(image))
  {
    seq(Min(MAX_BLOCKS, BlockCount(image)),
        k requires 0 <= k < Min(MAX_BLOCKS, BlockCount(image)) => MeanOfBlock(image, k))
  }

  /** The bit each mean is read as: 1 exactly when it exceeds the threshold. */
  function Classify(means: seq<real>, threshold: real): (bits: seq<bit>)
    ensures |bits| == |means|
  {
    if means == [] then []
    else [if means[0] > threshold then 1 else 0] + Classify(means[1..], threshold)
  }

  /** The 256 bits the detector reads from an image. */
  function ExtractedBits(image: Image): (bits: seq<bit>)
    requires Rectangular(image)
    ensures |bits| == PAYLOAD_BITS
  {
    var means := CollectedMeans(image);
    if means == [] then ZeroBits(PAYLOAD_BITS)
    else Classify(means, Median(means)) + ZeroBits(PAYLOAD_BITS - |means|)
  }

  lemma {:induction false} ClassifyAt(means: seq<real>, threshold: real, k: nat)
    requires k < |means|
    ensures Classify(means, threshold)[k] == if means[k] > threshold then 1 else 0
  {
    if k > 0 {
      ClassifyAt(means[1..], threshold, k - 1);
    }
  }

  /**
   * Bit `k` is 1 exactly when block `k` is among the collected blocks and its
   * mean exceeds the median of the collected means; every later bit is 0.
   */
  lemma ExtractedBitsAt(image: Image, k: nat)
    requires Rectangular(image) && k < PAYLOAD_BITS
    ensures var means := CollectedMeans(image);
            ExtractedBits(image)[k] ==
              if k < |means| && means[k] > Median(means) then 1 else 0
  {
    var means := CollectedMeans(image);
    if k < |means| {
      ClassifyAt(means, Median(means), k);
    }
  }

  /** Block `row*across + col` is the one at `(8*row, 8*col)`, and it exists. */
  lemma BlockInOrder(image: Image, row: nat, col: nat)
    requires Rectangular(image)
    requires BLOCK * row + BLOCK <= Height(image) && BLOCK * col + BLOCK <= Width(image)
    ensures row * BlocksAcross(image) + col < BlockCount(image)
    ensures MeanOfBlock(image, row * BlocksAcross(image) + col) ==
            BlockMean(image, BLOCK * row, BLOCK * col)
  {
    BlockAt(image, row, BLOCK * col, BLOCK * row, BLOCK * col);
    PixelBlock(image, BLOCK * row, BLOCK * col);
  }

  /** `means` holds the means of blocks 0 .. |means| - 1. */
  predicate MeansOfFirstBlocks(image: Image, means: seq<real>)
    requires Rectangular(image)
  {
    forall t :: 0 <= t < |means| ==> t < BlockCount(image) && means[t] == MeanOfBlock(image, t)
  }

  /**
   * First pass of `detect`: the means of the complete blocks in row-major
   * order, stopping once 256 have been collected.
   */
  method CollectMeans(image: Image) returns (means: seq<real>)
    requires Rectangular(image)
    ensures |means| == Min(MAX_BLOCKS, BlockCount(image))
    ensures means == CollectedMeans(image)
  {
    var h, w := |image|, Width(image);
    ghost var across := BlocksAcross(image);
    means := [];
    ghost var row := 0;
    var i := 0;
    while i + BLOCK <= h
      invariant 0 <= i <= h && i == BLOCK * row
      invariant |means| == row * across < MAX_BLOCKS
      invariant MeansOfFirstBlocks(image, means)
      decreases h - i
    {
      var j := 0;
      ghost var col := 0;
      while j + BLOCK <= w
        invariant 0 <= j <= w && j == BLOCK * col
        invariant |means| == row * across + col < MAX_BLOCKS
        invariant MeansOfFirstBlocks(image, means)
        decreases w - j
      {
        BlockInOrder(image, row, col);
        means := means + [BlockMean(image, i, j)];
        if |means| >= MAX_BLOCKS {
          break;
        }
        j := j + BLOCK;
        col := col + 1;
      }
      if |means| >= MAX_BLOCKS {
        break;
      }
      RowDone(image, col);
      assert (row + 1) * across == row * across + across;
      i := i + BLOCK;
      row := row + 1;
    }
    means := means[..Min(MAX_BLOCKS, |means|)];
  }

  /** `bits` are the first means read against `threshold`. */
  predicate ReadAgainst(means: seq<real>, threshold: real, bits: seq<bit>)
  {
    |bits| <= |means| &&
    forall t :: 0 <= t < |bits| ==> bits[t] == if means[t] > threshold then 1 else 0
  }

  /**
   * Second pass of `detect`: the blocks again in the same order, each read as
   * bit 1 when its mean exceeds `threshold`, stopping after 256 bits.
   */
  method ReadBlocks(image: Image, means: seq<real>, threshold: real) returns (bits: seq<bit>)
    requires Rectangular(image) && means == CollectedMeans(image)
    ensures |bits| == |means|
    ensures forall t :: 0 <= t < |bits| ==> bits[t] == if means[t] > threshold then 1 else 0
  {
    var h, w := |image|, Width(image);
    ghost var across := BlocksAcross(image);
    bits := [];
    var count := 0;
    ghost var row := 0;
    var i := 0;
    while i + BLOCK <= h
      invariant 0 <= i <= h && i == BLOCK * row
      invariant count == |bits| == row * across <= MAX_BLOCKS
      invariant ReadAgainst(means, threshold, bits)
      decreases h - i
    {
      var j := 0;
      ghost var col := 0;
      while j + BLOCK <= w
        invariant 0 <= j <= w && j == BLOCK * col
        invariant count == |bits| == row * across + col <= MAX_BLOCKS
        invariant ReadAgainst(means, threshold, bits)
        decreases w - j
      {
        if count >= MAX_BLOCKS {
          break;
        }
        BlockInOrder(image, row, col);
        var meanVal := BlockMean(image, i, j);
        var bit := if meanVal > threshold then 1 else 0;
        bits := bits + [bit];
        count := count + 1;
        j := j + BLOCK;
        col := col + 1;
      }
      if count >= MAX_BLOCKS {
        break;
      }
      RowDone(image, col);
      assert (row + 1) * across == row * across + across;
      i := i + BLOCK;
      row := row + 1;
    }
    if count < MAX_BLOCKS {
      RowsDone(image, row);
    }
  }

  /**
   * The bit extraction of `detect`: both passes and the zero padding. Bit `k`
   * tells whether block `k`'s mean exceeds the median of the collected means.
   */
  method ExtractBits(image: Image) returns (bits: seq<bit>)
    requires Rectangular(image)
    ensures |bits| == PAYLOAD_BITS
    ensures var means := CollectedMeans(image);
      forall k :: 0 <= k < PAYLOAD_BITS ==>
        bits[k] == if k < |means| && means[k] > Median(means) then 1 else 0
    ensures bits == ExtractedBits(image)
  {
    var means := CollectMeans(image);
    // `np.median` of no means is never compared with.
    var threshold := if |means| > 0 then Median(means) else 0.0;
    var extracted := ReadBlocks(image, means, threshold);
    var count := |extracted|;
    while |extracted| < PAYLOAD_BITS
      invariant count <= |extracted| <= PAYLOAD_BITS
      invariant forall t :: 0 <= t < count ==>
                  extracted[t] == if means[t] > threshold then 1 else 0
      invariant forall t :: count <= t < |extracted| ==> extracted[t] == 0
      decreases PAYLOAD_BITS - |extracted|
    {
      extracted := extracted + [0];
    }
    bits := extracted[..PAYLOAD_BITS];
    forall k | 0 <= k < PAYLOAD_BITS
      ensures bits[k] == ExtractedBits(image)[k]
    {
      ExtractedBitsAt(image, k);
    }
  }

  // ----------------------------------------------------------------------
  // Confidence
  // ----------------------------------------------------------------------

  /** Number of bits equal to `v`. */
  function CountOf(bits: seq<bit>, v: bit): (n: nat)
    ensures n <= |bits|
  {
    if bits == [] then 0 else (if bits[0] == v then 1 else 0) + CountOf(bits[1..], v)
  }

  lemma {:induction false} CountsAddUp(bits: seq<bit>)
    ensures CountOf(bits, 0) + CountOf(bits, 1) == |bits|
  {
    if bits != [] {
      CountsAddUp(bits[1..]);
    }
  }

  /** `np.bincount(bits).argmax()`: the more frequent bit, 0 on a tie. */
  function Majority(bits: seq<bit>): bit
  {
    if CountOf(bits, 1) > CountOf(bits, 0) then 1 else 0
  }

  /**
   * `_calculate_confidence`: the fraction of bits equal to the majority bit,
   * 0.0 for no bits.
   */
  function Confidence(bits: seq<bit>): (c: real)
    ensures |bits| == 0 ==> c == 0.0
    ensures |bits| > 0 ==>
              c == Max(CountOf(bits, 0), CountOf(bits, 1)) as real / |bits| as real
    ensures |bits| > 0 ==> 0.5 <= c <= 1.0
  {
    if |bits| == 0 then 0.0
    else
      CountsAddUp(bits);
      Arith.RatioFacts(CountOf(bits, Majority(bits)), |bits|);
      CountOf(bits, Majority(bits)) as real / |bits| as real
  }

  /** Confidence is 1.0 exactly when all bits agree. */
  lemma ConfidenceOne(bits: seq<bit>)
    requires |bits| > 0
    ensures Confidence(bits) == 1.0 <==>
            (CountOf(bits, 0) == |bits| || CountOf(bits, 1) == |bits|)
  {
    var c0, c1, n := CountOf(bits, 0), CountOf(bits, 1), |bits|;
    CountsAddUp(bits);
    var m := Max(c0, c1);
    var c := Confidence(bits);
    assert c == m as real / n as real;
    Arith.RatioFacts(m, n);
  }

  // ----------------------------------------------------------------------
  // The detection result
  // ----------------------------------------------------------------------

  /** The dictionary `detect` returns; `payload` is the hex rendering of the 32 bytes. */
  datatype DetectionResult = DetectionResult(
    found: bool,
    deviceId: seq<byte>,
    sessionId: seq<byte>,
    confidence: real,
    payload: string)

  /** Decoding of 256 extracted bits into a detection result. */
  function Report(bits: seq<bit>): DetectionResult
    requires |bits| == PAYLOAD_BITS
  {
    var payload := Pack(bits);
    var ids := ParseIdentifiers(payload);
    var confidence := Confidence(bits);
    DetectionResult(|ids.0| > 0 && confidence > 0.5, ids.0, ids.1, confidence, Hex(payload))
  }

  /**
   * The report of 256 bits with at most 128 ones: confidence is the share of
   * zeros, and a watermark is found exactly when the device identifier is not
   * empty and ones are fewer than zeros.
   */
  lemma ReportOfMinority(bits: seq<bit>)
    requires |bits| == PAYLOAD_BITS && CountOf(bits, 1) <= PAYLOAD_BITS / 2
    ensures var r := Report(bits);
      && r.confidence == (PAYLOAD_BITS - CountOf(bits, 1)) as real / PAYLOAD_BITS as real
      && 0.5 <= r.confidence
      && (CountOf(bits, 1) > 0 ==> r.confidence < 1.0)
    ensures Report(bits).found <==>
            |Report(bits).deviceId| > 0 && CountOf(bits, 1) < PAYLOAD_BITS / 2
  {
    CountsAddUp(bits);
    var zeros, ones := CountOf(bits, 0), CountOf(bits, 1);
    assert zeros == PAYLOAD_BITS - ones && Max(zeros, ones) == zeros;
    var c := Confidence(bits);
    assert c == zeros as real / PAYLOAD_BITS as real;
    Arith.RatioFacts(zeros, PAYLOAD_BITS);
    assert c > 0.5 <==> ones < PAYLOAD_BITS / 2;
    var r := Report(bits);
    assert r.confidence == c;
    assert r.found <==> |r.deviceId| > 0 && c > 0.5;
    assert r.deviceId != [] <==> |r.deviceId| > 0;
  }

  /** What `detect` returns for an image. */
  function Detection(image: Image): DetectionResult
    requires Rectangular(image)
  {
    Report(ExtractedBits(image))
  }

  /**
   * `detect`: extracts the bits, packs them into the payload, splits off the
   * identifiers, scores the bits, and reports a watermark as found when the
   * device identifier is not empty and the confidence exceeds one half.
   */
  method Detect(image: Image) returns (r: DetectionResult)
    requires Rectangular(image)
    ensures r == Detection(image)
    ensures r.found <==> |r.deviceId| > 0 && r.confidence > 0.5
    ensures 0.5 <= r.confidence <= 1.0 && |r.payload| == 2 * PAYLOAD_SIZE
  {
    var bits := ExtractBits(image);
    var payload := BitsToPayload(bits);
    var deviceId := StripTrailingZeros(payload[..FIELD_SIZE]);
    var sessionId := StripTrailingZeros(payload[FIELD_SIZE..PAYLOAD_SIZE]);
    var confidence := Confidence(bits);
    var found := |deviceId| > 0 && confidence > 0.5;
    r := DetectionResult(found, deviceId, sessionId, confidence, Hex(payload));
  }

  // ----------------------------------------------------------------------
  // Properties of detection
  // ----------------------------------------------------------------------

  lemma {:induction false} CountAppend(a: seq<bit>, b: seq<bit>, v: bit)
    ensures CountOf(a + b, v) == CountOf(a, v) + CountOf(b, v)
  {
    if a != [] {
      assert (a + b)[1..] == a[1..] + b;
      CountAppend(a[1..], b, v);
    } else {
      assert a + b == b;
    }
  }

  lemma {:induction false} CountZeroBits(n: nat)
    ensures CountOf(ZeroBits(n), 1) == 0
  {
    if n > 0 {
      assert ZeroBits(n)[1..] == ZeroBits(n - 1);
      CountZeroBits(n - 1);
    }
  }

  /** The ones read from means are the means above the threshold. */
  lemma {:induction false} CountClassify(means: seq<real>, threshold: real)
    ensures CountOf(Classify(means, threshold), 1) == CountAbove(means, threshold)
  {
    if means != [] {
      CountClassify(means[1..], threshold);
    }
  }

  /** Bits without a one are all zero. */
  lemma {:induction false} NoOnes(bits: seq<bit>)
    requires CountOf(bits, 1) == 0
    ensures bits == ZeroBits(|bits|)
  {
    if bits != [] {
      NoOnes(bits[1..]);
      assert bits == [bits[0]] + bits[1..];
    }
  }

  /**
   * The ones the detector reads are the collected blocks whose mean lies above
   * the median, so at most half of the collected blocks read as 1.
   */
  lemma OnesAtMostHalf(image: Image)
    requires Rectangular(image)
    ensures var means := CollectedMeans(image);
      && (|means| > 0 ==> CountOf(ExtractedBits(image), 1) == CountAbove(means, Median(means)))
      && CountOf(ExtractedBits(image), 1) <= |means| / 2
  {
    var means := CollectedMeans(image);
    if means == [] {
      CountZeroBits(PAYLOAD_BITS);
    } else {
      CountAppend(Classify(means, Median(means)), ZeroBits(PAYLOAD_BITS - |means|), 1);
      CountClassify(means, Median(means));
      CountZeroBits(PAYLOAD_BITS - |means|);
      MedianSplits(means);
    }
  }

  /**
   * Bits with more ones than zeros are never read back: the median threshold
   * lets at most half of the (at most 256) collected blocks read as 1.
   */
  lemma DenseBitsNotRecovered(image: Image, bits: seq<bit>)
    requires Rectangular(image) && 2 * CountOf(bits, 1) > PAYLOAD_BITS
    ensures ExtractedBits(image) != bits
  {
    OnesAtMostHalf(image);
  }

  /**
   * 256 zero bits decode to nothing: 32 zero bytes, two empty identifiers,
   * confidence 1.0, and no watermark found.
   */
  lemma ZeroBitsReport()
    ensures Report(ZeroBits(PAYLOAD_BITS)) ==
            DetectionResult(false, [], [], 1.0, seq(2 * PAYLOAD_SIZE, _ => '0'))
  {
    var bits := ZeroBits(PAYLOAD_BITS);
    PackZeroBits();
    var z := Zeros(PAYLOAD_SIZE);
    assert z[..FIELD_SIZE] == [] + Zeros(FIELD_SIZE);
    assert z[FIELD_SIZE..PAYLOAD_SIZE] == [] + Zeros(FIELD_SIZE);
    StripZeroExtended([], FIELD_SIZE);
    CountZeroBits(PAYLOAD_BITS);
    CountsAddUp(bits);
    Arith.RatioFacts(PAYLOAD_BITS, PAYLOAD_BITS);
    HexZeros(PAYLOAD_SIZE);
  }

  /** An image too small for one complete block: every bit 0, nothing found. */
  lemma DegenerateImage(image: Image)
    requires Rectangular(image) && (Height(image) < BLOCK || Width(image) < BLOCK)
    ensures BlockCount(image) == 0
    ensures ExtractedBits(image) == ZeroBits(PAYLOAD_BITS)
    ensures Detection(image) ==
            DetectionResult(false, [], [], 1.0, seq(2 * PAYLOAD_SIZE, _ => '0'))
  {
    ZeroBitsReport();
  }

  /**
   * An image whose collected blocks all have the same mean (a blank image, for
   * one) reads as all zero bits, so no watermark is found in it.
   */
  lemma UniformMeansNotFound(image: Image, c: real)
    requires Rectangular(image)
    requires forall k :: 0 <= k < Min(MAX_BLOCKS, BlockCount(image)) ==> MeanOfBlock(image, k) == c
    ensures ExtractedBits(image) == ZeroBits(PAYLOAD_BITS)
    ensures !Detection(image).found
  {
    var means := CollectedMeans(image);
    if means != [] {
      MedianConstant(means, c);
      NoneAboveConstant(means, c);
    }
    OnesAtMostHalf(image);
    NoOnes(ExtractedBits(image));
    ZeroBitsReport();
  }

  /**
   * A found watermark reads between 1 and 127 ones from at least two blocks,
   * and its confidence is below 1.0: the median threshold never lets all bits
   * agree once a one has been read.
   */
  lemma FoundBounds(image: Image)
    requires Rectangular(image) && Detection(image).found
    ensures var ones := CountOf(ExtractedBits(image), 1);
      1 <= ones < PAYLOAD_BITS / 2
    ensures BlockCount(image) >= 2
    ensures Detection(image).confidence < 1.0
  {
    var bits := ExtractedBits(image);
    var ones := CountOf(bits, 1);
    if ones == 0 {
      NoOnes(bits);
      ZeroBitsReport();
      assert false;
    }
    OnesAtMostHalf(image);
    CountsAddUp(bits);
    var zeros := CountOf(bits, 0);
    assert Confidence(bits) == zeros as real / PAYLOAD_BITS as real;
    Arith.RatioFacts(zeros, PAYLOAD_BITS);
  }
}
