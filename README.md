# Block-mean screen watermark: embed/detect codec

This project is a Dafny model of the watermark codec in `src/watermark_core.py`,
together with proofs about it. The codec has four parts:

- **Payload builder.** A device identifier and a session identifier become a
  32-byte payload. Each identifier fills a 16-byte field: it is cut to 16 bytes
  and padded with zero bytes.
- **Bit codec.** The payload unpacks into 256 bits, least significant bit
  first within each byte. Bits pack back into bytes in groups of 8, and a
  short final group is zero-padded at the high end.
- **Embedder.** The grayscale image is tiled into complete 8×8 blocks in
  row-major order. Every pixel of block `k` moves by `+strength` when payload
  bit `k mod 256` is 1, and by `-strength` otherwise. The result is clipped to
  [0, 255]. Pixels in trailing partial rows and columns are copied unchanged.
- **Detector.** It makes two passes over the same first `min(256, blocks)`
  blocks:
  - the first pass collects the block means, and their median becomes the
    threshold;
  - the second pass reads bit 1 for a block whose mean exceeds the threshold.

  The bits are zero-padded to 256, packed into the payload and split into the
  two identifiers, with trailing zero bytes stripped. The detector also
  computes a confidence, the share of bits equal to the majority bit, and a
  `found` flag.

Modules follow that structure:

| module | contents |
|---|---|
| `Arith` | facts about division and about ratios of counts |
| `Codec` | the payload, bit unpacking and packing, identifier parsing, hex rendering |
| `Grid` | images, block tiling and block means |
| `Embedding` | the embedder |
| `Statistics` | the median of the block means |
| `Detector` | bit extraction, confidence and the detection result |
| `RoundTrip` | embedding followed by detection |
| `Demo` | the program's demo identifiers on a 64×64 image |

Each loop of the source is a `method` with the same loops, breaks and
counters. Those are `_payload_to_bits`, `_bits_to_payload`, `embed` and both
passes of `detect`. Each method is proved against a specification function,
and the properties are lemmas about those functions.

`embed` writes each 8×8 slice in place in an `array2<int>` working buffer,
which stands for the `float32` copy. Pixels are `byte` values (the `uint8`
grid). Block means are exact rationals (`real`). A `float64` mean of 64 `uint8`
samples is a multiple of 1/64 below 256, and half the sum of two such means
is exact too, so the model computes the same threshold and the same
comparisons as the source.

The main results:

- **Packing.** Packing inverts unpacking for any payload of up to 32 bytes
  (`PackUnpack`), and unpacking inverts packing for whole bytes (`UnpackPack`).
- **Median threshold.** At most half of the collected blocks read as 1
  (`OnesAtMostHalf`). So a bit sequence with more than 128 ones is never read
  back (`DenseBitsNotRecovered`).
- **Found watermarks.** A found watermark read between 1 and 127 ones, and its
  confidence is below 1.0 (`FoundBounds`).
- **Round trip.** Take a uniform image with at least 256 blocks, and a payload
  with at most 128 one bits. On that image, detection after embedding
  recovers:
  - the payload;
  - both identifiers, each cut to 16 bytes and stripped of trailing zeros;
  - a confidence equal to the share of zero bits;
  - a `found` flag that is set exactly when the device identifier is not empty
    and fewer than 128 bits are ones (`EmbedDetectRoundTrip`). With exactly 128
    ones the median falls midway between the two block levels, so the payload
    is still read back, but the confidence is 0.5 and nothing is found.

  The same holds bit by bit for any number of blocks (`UniformBitsRoundTrip`).

A 64×64 uniform image has only 64 blocks, which carry the first 8 payload
bytes. Embedding the program's demo identifiers "DEVICE-001"/"SESSION-001"
(screen_watermark_system.py:207-208) into such an image and detecting recovers
the device identifier "DEVICE-0" and an empty session identifier. Those 64 bits
hold 24 ones, so the confidence is 232/256 and the watermark is reported found
(`DemoScenario`).

## Model

| member | source | states |
|---|---|---|
| Codec.Field | src/watermark_core.py:32-33 | the field is 16 bytes: the identifier's first bytes, then zero bytes |
| Codec.CreatePayload | src/watermark_core.py:29-34 | the payload is 32 bytes: bytes 0..15 are the device field and bytes 16..31 the session field, each the identifier's first `min(16, len)` bytes followed by zeros |
| Codec.UnpackAt | src/watermark_core.py:39-41 | element `8*b + i` of the bit sequence is bit `i` of byte `b`, least significant first |
| Codec.PayloadToBits | src/watermark_core.py:36-42 | the nested loops yield `8*len` bits, element `j` being bit `j mod 8` of byte `j div 8`, which is the bit sequence `Unpack` |
| Codec.ValueOfBitsOf | src/watermark_core.py:39-41 | reading back the low `n` bits of a number below `2^n` gives the number |
| Codec.BitsOfValueOf | src/watermark_core.py:241-243 | the bits of the value assembled from a group are the group |
| Codec.AccumulateByte | src/watermark_core.py:241-243 | the OR-accumulating loop over 8 bits yields the byte whose bit `j` is the `j`-th bit |
| Codec.BitsToPayload | src/watermark_core.py:230-247 | the result has `ceil(min(len, 256) / 8)` bytes and is the packing `Pack` of the first 256 bits |
| Codec.PackUnpack | src/watermark_core.py:230-247 | packing the bits of any payload of at most 32 bytes gives back the payload |
| Codec.UnpackPack | src/watermark_core.py:230-247 | unpacking the packing of at most 256 bits, a multiple of 8 in number, gives back the bits |
| Codec.PackFinalGroup | src/watermark_core.py:237-239 | a final group of fewer than 8 bits packs to the value of those bits with zeros above them |
| Codec.PackGroupsFinal | src/watermark_core.py:236-245 | packing groups of 8 bits, a last short one included, gives one byte per group, the last being the value of the leftover bits |
| Codec.PackZeroBits | src/watermark_core.py:236-245 | 256 zero bits pack into 32 zero bytes |
| Codec.StripTrailingZeros | src/watermark_core.py:197-198 | the result is a prefix of the input, everything after it is a zero byte, and it is empty or ends in a nonzero byte |
| Codec.StripZeroExtended | src/watermark_core.py:197-198 | appended zero bytes are stripped again |
| Codec.IdentifiersRoundTrip | src/watermark_core.py:197-198 | parsing a built payload gives each identifier cut to 16 bytes and stripped of trailing zeros |
| Codec.ShortIdentifiersRoundTrip | src/watermark_core.py:197-198 | identifiers of at most 16 bytes that do not end in a zero byte are parsed back unchanged |
| Codec.HexRoundTrip | src/watermark_core.py:211 | the hex rendering of the payload reads back as the same bytes |
| Codec.HexZeros | src/watermark_core.py:211 | zero bytes render as pairs of `'0'` digits |
| Grid.BlockOrigin | src/watermark_core.py:75-76 | block `k`, for `k` below `floor(H/8)*floor(W/8)`, is a complete 8×8 block inside the image whose pixels all carry index `k` |
| Grid.PixelBlock | src/watermark_core.py:75-76 | every pixel of a complete block carries an index below the block count, and that block's corner is the pixel's 8-aligned corner |
| Grid.BlockAt | src/watermark_core.py:75-76 | the pixels of the block visited at row `r` and column `j` of the loops carry index `r*across + j/8` |
| Grid.RowDone | src/watermark_core.py:76 | the column loop stops after exactly `floor(W/8)` blocks |
| Grid.RowsDone | src/watermark_core.py:75 | the row loop stops after exactly `floor(H/8)` block rows |
| Grid.BlockMeanConstant | src/watermark_core.py:158 | a block whose samples all equal `c` has mean `c` |
| Embedding.Clip | src/watermark_core.py:93 | clipping gives `max(0, min(255, v))` |
| Embedding.WatermarkedPixels | src/watermark_core.py:75-95 | shape is kept, every sample is in 0..255, a pixel of complete block `k` becomes `min(255, p+s)` or `max(0, p-s)` by `bits[k mod len]`, and every other pixel is unchanged |
| Embedding.WatermarkedShape | src/watermark_core.py:93-95 | the watermarked image has the height and width of the input |
| Embedding.WatermarkedBlock | src/watermark_core.py:77-89 | all pixels of block `k` move the same way, by bit `k mod len` |
| Embedding.AddToBlock | src/watermark_core.py:89 | the slice write adds `delta` to the 64 pixels of one block and leaves the rest of the buffer unchanged |
| Embedding.EmbedBlockRow | src/watermark_core.py:76-90 | one pass of the column loop shifts every block of the row by its bit, and advances the bit index by the blocks across |
| Embedding.ClipBuffer | src/watermark_core.py:93-95 | the result is the clipped buffer, sample by sample |
| Embedding.ClippedIsWatermarked | src/watermark_core.py:93-95 | once all block rows are treated, the clipped buffer is the watermarked image |
| Embedding.Embedder.Embed | src/watermark_core.py:44-95 | the output keeps height and width and is the watermarked image for the embedder's payload bits |
| Statistics.Sort | src/watermark_core.py:167 | the sort is ascending and a permutation of the means |
| Statistics.MedianSplits | src/watermark_core.py:167 | at most half of the means lie above the median, and at most half below it |
| Statistics.MedianConstant | src/watermark_core.py:167 | the median of equal means is their value |
| Statistics.MedianAtLowest | src/watermark_core.py:167 | when no mean is below `lo` and more than half equal `lo`, the median is `lo` |
| Statistics.MedianAtMidpoint | src/watermark_core.py:167 | when an even number of means take two values and exactly half take the higher one, the median is the midpoint of the two |
| Detector.CollectedMeans | src/watermark_core.py:153-164 | the first pass collects `min(256, blocks)` means |
| Detector.CollectMeans | src/watermark_core.py:153-164 | the first pass with its breaks yields the means of blocks `0 .. min(256, blocks) - 1`, in row-major order |
| Detector.ReadBlocks | src/watermark_core.py:169-185 | the second pass visits the same blocks as the first, and bit `t` is 1 exactly when mean `t` exceeds the threshold |
| Detector.ExtractedBitsAt | src/watermark_core.py:169-191 | bit `k` is 1 exactly when block `k` was collected and its mean exceeds the median, and every bit from `min(256, blocks)` on is 0 |
| Detector.ExtractBits | src/watermark_core.py:146-191 | exactly 256 bits, bit `k` being 1 exactly when block `k` is collected and its mean exceeds the median of the collected means |
| Detector.Confidence | src/watermark_core.py:274-284 | confidence is 0.0 for no bits, else `max(#zeros, #ones) / len`, so it lies in [0.5, 1.0] |
| Detector.ReportOfMinority | src/watermark_core.py:193-212 | for 256 bits with at most 128 ones, confidence is the share of zeros, at least 0.5 and below 1.0 once a bit is 1, and `found` holds exactly when the device identifier is not empty and fewer than 128 bits are ones |
| Detector.ConfidenceOne | src/watermark_core.py:281-282 | confidence is 1.0 exactly when all bits agree |
| Detector.Detect | src/watermark_core.py:128-212 | the result is the detection of the image's bits, `found` holds exactly when the device identifier is not empty and confidence exceeds 0.5, confidence lies in [0.5, 1.0], and the payload is 64 hex digits |
| Detector.OnesAtMostHalf | src/watermark_core.py:167-181 | the ones read are the collected means above the median, so there are at most half as many as collected blocks |
| Detector.DenseBitsNotRecovered | src/watermark_core.py:167-191 | bits with more than 128 ones are never the bits read from an image |
| Detector.ZeroBitsReport | src/watermark_core.py:193-212 | 256 zero bits decode to no watermark, empty identifiers, confidence 1.0 and 64 `'0'` hex digits |
| Detector.DegenerateImage | src/watermark_core.py:155-212 | for an image with H<8 or W<8 there are no blocks, every bit is 0, nothing is found, both identifiers are empty, confidence is 1.0 and the payload is all zeros |
| Detector.UniformMeansNotFound | src/watermark_core.py:167-204 | when all collected blocks have one mean (a blank image), every bit is 0 and nothing is found |
| Detector.FoundBounds | src/watermark_core.py:201-204 | a found watermark read between 1 and 127 ones from at least two blocks, and its confidence is below 1.0 |
| RoundTrip.LevelsApart | src/watermark_core.py:82-93 | with a positive strength, a one-block ends strictly brighter than a zero-block after clipping |
| RoundTrip.WatermarkedBlockMean | src/watermark_core.py:89-93 | on a uniform image, block `k` of the output has the mean of its bit's level |
| RoundTrip.CollectedLevels | src/watermark_core.py:153-164 | on a watermarked uniform image, the collected means are the levels of the first bits |
| RoundTrip.UniformBitsRoundTrip | src/watermark_core.py:155-185 | on a uniform image with at most `n/2` ones among the first `n = min(256, blocks)` bits, detection reads back each of those bits |
| RoundTrip.EmbedDetectRoundTrip | src/watermark_core.py:128-212 | on a uniform image with at least 256 blocks and at most 128 one bits, detection recovers the payload and identifiers; confidence is the share of zero bits, at least one half and below one once any bit is 1, and `found` holds exactly when the device identifier is not empty and fewer than 128 bits are ones |
| RoundTrip.FewBlocksBits | src/watermark_core.py:155-191 | on a uniform image with fewer than 256 blocks, at most half of whose bits are ones, the bits read are the bits of the blocks followed by zeros |
| RoundTrip.TruncatedReport | src/watermark_core.py:193-212 | when only the first `m <= 16` payload bytes are read and the rest are zero, the device identifier is those bytes stripped, the session identifier is empty, confidence is the share of zero bits, and `found` holds exactly when the device identifier is not empty and fewer than 128 bits are ones |
| Demo.DemoScenario | screen_watermark_system.py:207-208 | the demo identifiers embedded into a 64×64 uniform image at strength at least 1 are detected as device "DEVICE-0", empty session, confidence 232/256, found |

## Left out

- Detector.Detect: UTF-8 encoding of the identifiers is left out. Decoding with `errors='ignore'` is left out too. Identifiers are byte sequences, so `found` tests the byte length of the stripped device identifier. The source tests the character length of its decoding, which is zero also when every byte is invalid UTF-8.
- Embedding.Embedder.Embed: `strength` is a natural number, not a float. So the `float32` buffer and the truncating `astype(np.uint8)` of a fractional value need no modelling: for an integer strength, clipping then truncating is exact.
- Embedding.Embedder.Embed: the input is already an 8-bit grid. The `astype(np.uint8)` wrap-around of wider input values (line 60) is not modelled.
- Detector.Detect: the input is already an 8-bit grid. The same `astype(np.uint8)` wrap-around at line 142 is not modelled.
- Averaging of 3-channel input into one channel is not modelled. That is `np.mean(image, axis=2)` at lines 57-58 and 139-140.
- The `np.median` of no means (NaN) is not modelled. With no blocks the second pass compares nothing, and the model's threshold is then an unused 0.0.
- `_embed_in_subband`, `_extract_from_subband` and `_extract_with_voting` are not modelled. They are at lines 97-118, 214-228 and 249-272, and `embed` and `detect` never call them. The imported `pywt` and `scipy` modules are unused.
- `WatermarkDetector.__init__` only stores its arguments. The embedder's constructor stores the two identifiers and builds the payload (line 27). The embedder is a datatype whose `Payload` is `CreatePayload` of its identifiers, computed from them on demand.
- Screen capture, file I/O, font rendering, the GUI loop and the HTTP service are not part of this model. That covers `screen_watermark_system.py`, `screen_watermark_realtime.py` and `src/server.py`.
- Dictionary output is the `DetectionResult` datatype. The hex payload is lower-case hex digits, two per byte.
