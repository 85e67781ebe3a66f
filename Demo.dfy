/**
 * The identifiers of the program's own demonstration, embedded into and read
 * back from a 64x64 image of one gray level. Such an image has only 64 blocks,
 * so it carries just the first 8 payload bytes.
 */
module Demo {
  import opened Codec
  import opened Grid
  import opened Embedding
  import opened Statistics
  import opened Detector
  import opened RoundTrip

  /** "DEVICE-001" as bytes. */
  const DEMO_DEVICE: seq<byte> := [68, 69, 86, 73, 67, 69, 45, 48, 48, 49]

  /** "SESSION-001" as bytes. */
  const DEMO_SESSION: seq<byte> := [83, 69, 83, 83, 73, 79, 78, 45, 48, 48, 49]

  lemma CountUnpackCons(b: byte, rest: seq<byte>)
    ensures CountOf(Unpack([b] + rest), 1) == CountOf(BitsOf(b, 8), 1) + CountOf(Unpack(rest), 1)
  {
    assert ([b] + rest)[1..] == rest;
    CountAppend(BitsOf(b, 8), Unpack(rest), 1);
  }

  /** Number of one bits among the `n` lowest bits of `b`. */
  function Ones(b: nat, n: nat): nat
  {
    if n == 0 then 0 else b % 2 + Ones(b / 2, n - 1)
  }

  lemma {:induction false} OnesCount(b: nat, n: nat)
    ensures CountOf(BitsOf(b, n), 1) == Ones(b, n)
  {
    if n > 0 {
      BitsOfTail(b, n);
      OnesCount(b / 2, n - 1);
      assert BitsOf(b, n)[0] == b % 2;
    }
  }

  /** Number of one bits in a byte, bit by bit. */
  function ByteOnes(b: byte): nat
  {
    b % 2 + b / 2 % 2 + b / 4 % 2 + b / 8 % 2 + b / 16 % 2 + b / 32 % 2 + b / 64 % 2 + b / 128 % 2
  }

  lemma OnesOfByte(b: byte)
    ensures Ones(b, 8) == ByteOnes(b)
  {
    assert b / 2 / 2 == b / 4 && b / 4 / 2 == b / 8 && b / 8 / 2 == b / 16;
    assert b / 16 / 2 == b / 32 && b / 32 / 2 == b / 64 && b / 64 / 2 == b / 128;
    assert Ones(b / 128, 1) == b / 128 % 2 + Ones(b / 256, 0);
    assert Ones(b / 64, 2) == b / 64 % 2 + Ones(b / 128, 1);
    assert Ones(b / 32, 3) == b / 32 % 2 + Ones(b / 64, 2);
    assert Ones(b / 16, 4) == b / 16 % 2 + Ones(b / 32, 3);
    assert Ones(b / 8, 5) == b / 8 % 2 + Ones(b / 16, 4);
    assert Ones(b / 4, 6) == b / 4 % 2 + Ones(b / 8, 5);
    assert Ones(b / 2, 7) == b / 2 % 2 + Ones(b / 4, 6);
  }

  /** Number of one bits in a byte sequence, byte by byte. */
  function BytesOnes(p: seq<byte>): nat
  {
    if p == [] then 0 else ByteOnes(p[0]) + BytesOnes(p[1..])
  }

  lemma {:induction false} UnpackOnes(p: seq<byte>)
    ensures CountOf(Unpack(p), 1) == BytesOnes(p)
  {
    if p != [] {
      CountUnpackCons(p[0], p[1..]);
      assert [p[0]] + p[1..] == p;
      OnesCount(p[0], 8);
      OnesOfByte(p[0]);
      UnpackOnes(p[1..]);
    }
  }

  lemma BytesOnesStep(p: seq<byte>, k: nat)
    requires k < |p|
    ensures BytesOnes(p[k..]) == ByteOnes(p[k]) + BytesOnes(p[k + 1..])
  {
    assert p[k..][1..] == p[k + 1..];
  }

  lemma BytesOnesEight(p: seq<byte>)
    requires |p| == 8
    ensures BytesOnes(p) == ByteOnes(p[0]) + ByteOnes(p[1]) + ByteOnes(p[2]) + ByteOnes(p[3]) +
                            ByteOnes(p[4]) + ByteOnes(p[5]) + ByteOnes(p[6]) + ByteOnes(p[7])
  {
    assert p[0..] == p;
    BytesOnesStep(p, 0); BytesOnesStep(p, 1); BytesOnesStep(p, 2); BytesOnesStep(p, 3);
    BytesOnesStep(p, 4); BytesOnesStep(p, 5); BytesOnesStep(p, 6); BytesOnesStep(p, 7);
    assert p[8..] == [];
  }

  /** The identifier starts with the 8 bytes "DEVICE-0". */
  predicate StartsWithPrefix(id: seq<byte>)
  {
    |id| >= 8 && id[0] == 68 && id[1] == 69 && id[2] == 86 && id[3] == 73 &&
    id[4] == 67 && id[5] == 69 && id[6] == 45 && id[7] == 48
  }

  /** How many ones the letters of "DEVICE-0" hold. */
  lemma LetterOnes()
    ensures ByteOnes(68) == 2 && ByteOnes(69) == 3 && ByteOnes(86) == 4
    ensures ByteOnes(73) == 3 && ByteOnes(67) == 3
  {
    assert 68 % 2 == 0 && 68 / 2 % 2 == 0 && 68 / 4 % 2 == 1 && 68 / 8 % 2 == 0;
    assert 68 / 16 % 2 == 0 && 68 / 32 % 2 == 0 && 68 / 64 % 2 == 1 && 68 / 128 % 2 == 0;
    assert 69 % 2 == 1 && 69 / 2 % 2 == 0 && 69 / 4 % 2 == 1 && 69 / 8 % 2 == 0;
    assert 69 / 16 % 2 == 0 && 69 / 32 % 2 == 0 && 69 / 64 % 2 == 1 && 69 / 128 % 2 == 0;
    assert 86 % 2 == 0 && 86 / 2 % 2 == 1 && 86 / 4 % 2 == 1 && 86 / 8 % 2 == 0;
    assert 86 / 16 % 2 == 1 && 86 / 32 % 2 == 0 && 86 / 64 % 2 == 1 && 86 / 128 % 2 == 0;
    assert 73 % 2 == 1 && 73 / 2 % 2 == 0 && 73 / 4 % 2 == 0 && 73 / 8 % 2 == 1;
    assert 73 / 16 % 2 == 0 && 73 / 32 % 2 == 0 && 73 / 64 % 2 == 1 && 73 / 128 % 2 == 0;
    assert 67 % 2 == 1 && 67 / 2 % 2 == 1 && 67 / 4 % 2 == 0 && 67 / 8 % 2 == 0;
    assert 67 / 16 % 2 == 0 && 67 / 32 % 2 == 0 && 67 / 64 % 2 == 1 && 67 / 128 % 2 == 0;
  }

  /** How many ones the dash and the digit of "DEVICE-0" hold. */
  lemma DashDigitOnes()
    ensures ByteOnes(45) == 4 && ByteOnes(48) == 2
  {
    assert 45 % 2 == 1 && 45 / 2 % 2 == 0 && 45 / 4 % 2 == 1 && 45 / 8 % 2 == 1;
    assert 45 / 16 % 2 == 0 && 45 / 32 % 2 == 1 && 45 / 64 % 2 == 0 && 45 / 128 % 2 == 0;
    assert 48 % 2 == 0 && 48 / 2 % 2 == 0 && 48 / 4 % 2 == 0 && 48 / 8 % 2 == 0;
    assert 48 / 16 % 2 == 1 && 48 / 32 % 2 == 1 && 48 / 64 % 2 == 0 && 48 / 128 % 2 == 0;
  }

  lemma PrefixBytesOnes(p: seq<byte>)
    requires |p| == 8 && StartsWithPrefix(p)
    ensures BytesOnes(p) == 24
  {
    BytesOnesEight(p);
    LetterOnes();
    DashDigitOnes();
  }

  /** The bits of "DEVICE-0" hold 24 ones. */
  lemma PrefixOnes(p: seq<byte>)
    requires |p| == 8 && StartsWithPrefix(p)
    ensures CountOf(Unpack(p), 1) == 24
  {
    UnpackOnes(p);
    PrefixBytesOnes(p);
  }

  /** The embedded payload starts with "DEVICE-0", the first 8 bytes of the demo device. */
  lemma DemoPayloadPrefix()
    ensures var p := Embedder(DEMO_DEVICE, DEMO_SESSION).Payload();
      |p| == PAYLOAD_SIZE && p[..8] == DEMO_DEVICE[..8] && StartsWithPrefix(p[..8])
  {
    var p := Embedder(DEMO_DEVICE, DEMO_SESSION).Payload();
    assert forall i :: 0 <= i < 8 ==> p[i] == DEMO_DEVICE[i];
  }

  /** The first 64 payload bits are the bits of "DEVICE-0" and hold 24 ones. */
  lemma DemoFirstBits()
    ensures var p := Embedder(DEMO_DEVICE, DEMO_SESSION).Payload();
      |p| == PAYLOAD_SIZE && Unpack(p)[..64] == Unpack(p[..8]) && CountOf(Unpack(p[..8]), 1) == 24
  {
    var p := Embedder(DEMO_DEVICE, DEMO_SESSION).Payload();
    DemoPayloadPrefix();
    assert p == p[..8] + p[8..];
    UnpackConcat(p[..8], p[8..]);
    PrefixOnes(p[..8]);
  }

  /**
   * The demonstration: "DEVICE-001"/"SESSION-001" embedded into a 64x64 image
   * of one gray level, at a strength of at least 1, then detected. The 64
   * blocks carry only "DEVICE-0"; the detector reports that as the device
   * identifier, an empty session identifier, a confidence of 232/256 (the 24
   * one bits among 256 are the minority), and a found watermark.
   */
  lemma DemoScenario(image: Image, v: Pixel, strength: nat)
    requires Rectangular(image) && Height(image) == 64 && Width(image) == 64
    requires Uniform(image, v) && strength >= 1
    ensures var out := Watermarked(image, Unpack(Embedder(DEMO_DEVICE, DEMO_SESSION).Payload()), strength);
      && Rectangular(out)
      && var r := Detection(out);
      && r.deviceId == DEMO_DEVICE[..8]
      && r.sessionId == []
      && r.confidence == 232.0 / 256.0
      && r.found
  {
    var p := Embedder(DEMO_DEVICE, DEMO_SESSION).Payload();
    var bits := Unpack(p);
    var out := Watermarked(image, bits, strength);
    assert BlockCount(image) == 64;
    DemoPayloadPrefix();
    DemoFirstBits();
    FewBlocksBits(image, v, bits, strength);
    UnpackZeros(PAYLOAD_SIZE - 8);
    UnpackConcat(p[..8], Zeros(PAYLOAD_SIZE - 8));
    assert ExtractedBits(out) == Unpack(p[..8] + Zeros(PAYLOAD_SIZE - 8));
    TruncatedReport(p, 8);
    var s := StripTrailingZeros(p[..8]);
    if |s| < 8 {
      assert false;
    }
    assert s == p[..8];
  }
}
