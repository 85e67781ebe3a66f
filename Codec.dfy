/**
 * The payload codec: the 32-byte payload built from a device and a session
 * identifier, its 256-bit sequence (least significant bit first within each
 * byte), the inverse packing of bits into bytes, the parsing of identifiers
 * back out of a payload, and the hex rendering of a payload.
 *
 * Identifiers are their UTF-8 encodings, as byte sequences.
 */
module Codec {

  /** An 8-bit unsigned value, an element of a Python `bytes` object. */
  type byte = x: int | 0 <= x < 256

  /** One payload bit. */
  type bit = x: int | 0 <= x < 2

  /** Bytes reserved for each identifier in the payload. */
  const FIELD_SIZE: nat := 16

  /** Payload length in bytes: device field followed by session field. */
  const PAYLOAD_SIZE: nat := 32

  /** Payload length in bits. */
  const PAYLOAD_BITS: nat := 256

  function Pow2(n: nat): (p: nat)
    ensures p >= 1
  {
    if n == 0 then 1 else 2 * Pow2(n - 1)
  }

  function Min(a: int, b: int): int { if a <= b then a else b }

  function Max(a: int, b: int): int { if a >= b then a else b }

  /** `n` zero bytes: the `ljust(16, b'\x00')` fill. */
  function Zeros(n: nat): (z: seq<byte>)
    ensures |z| == n && forall i :: 0 <= i < n ==> z[i] == 0
  {
    seq(n, _ => 0)
  }

  /** `n` zero bits (a separate function: a `bit` sequence is not a `byte` sequence). */
  function ZeroBits(n: nat): (z: seq<bit>)
    ensures |z| == n && forall i :: 0 <= i < n ==> z[i] == 0
  {
    seq(n, _ => 0)
  }

  // ----------------------------------------------------------------------
  // Payload builder
  // ----------------------------------------------------------------------

  /** One identifier field: the first 16 bytes of `id`, right-padded with zeros. */
  function Field(id: seq<byte>): (f: seq<byte>)
    ensures |f| == FIELD_SIZE
    ensures forall i :: 0 <= i < FIELD_SIZE ==> f[i] == if i < |id| then id[i] else 0
  {
    var kept := if |id| <= FIELD_SIZE then id else id[..FIELD_SIZE];
    kept + Zeros(FIELD_SIZE - |kept|)
  }

  /**
   * `_create_payload`: device field then session field. Over-long identifiers
   * are cut silently; there is no error case.
   */
  function CreatePayload(deviceId: seq<byte>, sessionId: seq<byte>): (p: seq<byte>)
    ensures |p| == PAYLOAD_SIZE
    ensures forall i :: 0 <= i < FIELD_SIZE ==>
              p[i] == if i < |deviceId| then deviceId[i] else 0
    ensures forall i :: FIELD_SIZE <= i < PAYLOAD_SIZE ==>
              p[i] == if i - FIELD_SIZE < |sessionId| then sessionId[i - FIELD_SIZE] else 0
  {
    Field(deviceId) + Field(sessionId)
  }

  // ----------------------------------------------------------------------
  // Bits of a byte
  // ----------------------------------------------------------------------

  /** `(b >> i) & 1`: bit `i` of `b`, counting from the least significant bit. */
  function Bit(b: nat, i: nat): bit
  {
    if i == 0 then b % 2 else Bit(b / 2, i - 1)
  }

  /** The `n` lowest bits of `b`, least significant first. */
  function BitsOf(b: nat, n: nat): (s: seq<bit>)
  {
    seq(n, i requires 0 <= i < n => Bit(b, i))
  }

  /** The number whose bits, least significant first, are `g`. */
  function ValueOf(g: seq<bit>): (v: nat)
    ensures v < Pow2(|g|)
  {
    if g == [] then 0 else g[0] + 2 * ValueOf(g[1..])
  }

  /** Sum of `g[t] << t` over `t < j`: the value accumulated after `j` steps. */
  function Accumulated(g: seq<bit>, j: nat): (v: nat)
    requires j <= |g|
  {
    if j == 0 then 0 else Accumulated(g, j - 1) + g[j - 1] * Pow2(j - 1)
  }

  lemma {:induction false} BitsOfTail(b: nat, n: nat)
    requires n >= 1
    ensures BitsOf(b, n)[1..] == BitsOf(b / 2, n - 1)
  {
    forall i | 0 <= i < n - 1
      ensures BitsOf(b, n)[1..][i] == BitsOf(b / 2, n - 1)[i]
    {
      assert Bit(b, i + 1) == Bit(b / 2, i);
    }
  }

  /** Reading back the low bits of a number below 2^n gives the number. */
  lemma {:induction false} ValueOfBitsOf(b: nat, n: nat)
    requires b < Pow2(n)
    ensures ValueOf(BitsOf(b, n)) == b
  {
    if n > 0 {
      BitsOfTail(b, n);
      ValueOfBitsOf(b / 2, n - 1);
    }
  }

  /** Taking the bits of the value of a bit sequence gives the sequence back. */
  lemma {:induction false} BitsOfValueOf(g: seq<bit>)
    ensures BitsOf(ValueOf(g), |g|) == g
  {
    if g != [] {
      var v := ValueOf(g);
      BitsOfTail(v, |g|);
      assert v / 2 == ValueOf(g[1..]);
      BitsOfValueOf(g[1..]);
      assert BitsOf(v, |g|)[0] == g[0];
    }
  }

  /** Accumulating bit `t` shifted left by `t` computes the value of the sequence. */
  lemma {:induction false} AccumulatedSplit(g: seq<bit>, n: nat)
    requires 1 <= n <= |g|
    ensures Accumulated(g, n) == g[0] + 2 * Accumulated(g[1..], n - 1)
  {
    if n > 1 {
      AccumulatedSplit(g, n - 1);
      if g[n - 1] == 1 {
        assert Pow2(n - 1) == 2 * Pow2(n - 2);
      }
    }
  }

  /** After `j` steps no bit at or above `j` is set, so OR-ing in bit `j` adds it. */
  lemma {:induction false} AccumulatedBelow(g: seq<bit>, j: nat)
    requires j <= |g|
    ensures Accumulated(g, j) < Pow2(j)
  {
    if j > 0 {
      AccumulatedBelow(g, j - 1);
    }
  }

  lemma {:induction false} AccumulatedIsValue(g: seq<bit>)
    ensures Accumulated(g, |g|) == ValueOf(g)
  {
    if g != [] {
      AccumulatedSplit(g, |g|);
      AccumulatedIsValue(g[1..]);
    }
  }

  /** High zero bits add nothing to a value. */
  lemma {:induction false} ValueOfZeroExtended(g: seq<bit>, n: nat)
    ensures ValueOf(g + ZeroBits(n)) == ValueOf(g)
  {
    if g == [] {
      assert g + ZeroBits(n) == ZeroBits(n);
      ValueOfZeros(n);
    } else {
      assert (g + ZeroBits(n))[1..] == g[1..] + ZeroBits(n);
      ValueOfZeroExtended(g[1..], n);
    }
  }

  lemma {:induction false} ValueOfZeros(n: nat)
    ensures ValueOf(ZeroBits(n)) == 0
  {
    if n > 0 {
      assert ZeroBits(n)[1..] == ZeroBits(n - 1);
      ValueOfZeros(n - 1);
    }
  }

  // ----------------------------------------------------------------------
  // Bit unpacking
  // ----------------------------------------------------------------------

  /** The bit sequence of a payload: each byte's 8 bits, least significant first. */
  function Unpack(p: seq<byte>): (bits: seq<bit>)
    ensures |bits| == 8 * |p|
  {
    if p == [] then [] else BitsOf(p[0], 8) + Unpack(p[1..])
  }

  lemma {:induction false} UnpackAppend(p: seq<byte>, b: byte)
    ensures Unpack(p + [b]) == Unpack(p) + BitsOf(b, 8)
  {
    if p == [] {
      assert [b][1..] == [];
    } else {
      assert (p + [b])[1..] == p[1..] + [b];
      UnpackAppend(p[1..], b);
    }
  }

  /** Element `8*k + i` of the bit sequence is `(p[k] >> i) & 1`. */
  lemma {:induction false} UnpackAt(p: seq<byte>, j: nat)
    requires j < 8 * |p|
    ensures Unpack(p)[j] == Bit(p[j / 8], j % 8)
  {
    if j >= 8 {
      UnpackAt(p[1..], j - 8);
    }
  }

  /** The bits of two byte sequences are the bits of each, one after the other. */
  lemma {:induction false} UnpackConcat(a: seq<byte>, b: seq<byte>)
    ensures Unpack(a + b) == Unpack(a) + Unpack(b)
  {
    if a != [] {
      assert (a + b)[1..] == a[1..] + b;
      UnpackConcat(a[1..], b);
    } else {
      assert a + b == b;
    }
  }

  /** Zero bytes unpack to zero bits. */
  lemma UnpackZeros(n: nat)
    ensures Unpack(Zeros(n)) == ZeroBits(8 * n)
  {
    forall j | 0 <= j < 8 * n
      ensures Unpack(Zeros(n))[j] == 0
    {
      UnpackAt(Zeros(n), j);
      BitOfZero(j % 8);
    }
  }

  /**
   * `_payload_to_bits`: appends bit `i` of every byte, bytes in order and bits
   * from the least significant up.
   */
  method PayloadToBits(payload: seq<byte>) returns (bits: seq<bit>)
    ensures |bits| == 8 * |payload|
    ensures forall j :: 0 <= j < |bits| ==> bits[j] == Bit(payload[j / 8], j % 8)
    ensures bits == Unpack(payload)
  {
    bits := [];
    for k := 0 to |payload|
      invariant bits == Unpack(payload[..k])
    {
      var byte := payload[k];
      for i := 0 to 8
        invariant bits == Unpack(payload[..k]) + BitsOf(byte, i)
      {
        bits := bits + [Bit(byte, i)];
        assert BitsOf(byte, i + 1) == BitsOf(byte, i) + [Bit(byte, i)];
      }
      assert payload[..k + 1] == payload[..k] + [byte];
      UnpackAppend(payload[..k], byte);
    }
    assert payload[..|payload|] == payload;
    forall j | 0 <= j < |bits|
      ensures bits[j] == Bit(payload[j / 8], j % 8)
    {
      UnpackAt(payload, j);
    }
  }

  // ----------------------------------------------------------------------
  // Bit packing
  // ----------------------------------------------------------------------

  /** A group of at most 8 bits, filled up to 8 with zero bits at the high end. */
  function Pad8(g: seq<bit>): (r: seq<bit>)
    requires |g| <= 8
  {
    g + ZeroBits(8 - |g|)
  }

  /** One packed byte from a group of at most 8 bits. */
  function PackByte(g: seq<bit>): (v: byte)
    requires |g| <= 8
  {
    assert Pow2(8) == 256;
    ValueOf(Pad8(g))
  }

  /** Packs consecutive groups of 8 bits (the last one possibly shorter) into bytes. */
  function PackGroups(bits: seq<bit>): (p: seq<byte>)
    ensures |p| == (|bits| + 7) / 8
    decreases |bits|
  {
    if bits == [] then []
    else
      var n := Min(8, |bits|);
      [PackByte(bits[..n])] + PackGroups(bits[n..])
  }

  /** `_bits_to_payload` as a function: only the first 256 bits are packed. */
  function Pack(bits: seq<bit>): (p: seq<byte>)
  {
    PackGroups(if |bits| <= PAYLOAD_BITS then bits else bits[..PAYLOAD_BITS])
  }

  /**
   * The inner loop of `_bits_to_payload`: ORs bit `j` shifted left by `j` into
   * a fresh byte, for the 8 bits of a padded group. The OR is written as an
   * addition, since bit `j` of the accumulator is still clear.
   */
  method AccumulateByte(byteBits: seq<bit>) returns (byteVal: byte)
    requires |byteBits| == 8
    ensures byteVal == ValueOf(byteBits)
  {
    var acc: nat := 0;
    for j := 0 to 8
      invariant acc == Accumulated(byteBits, j) < Pow2(j)
    {
      acc := acc + byteBits[j] * Pow2(j);
      AccumulatedBelow(byteBits, j + 1);
    }
    AccumulatedIsValue(byteBits);
    assert Pow2(8) == 256;
    byteVal := acc;
  }

  /**
   * `_bits_to_payload`: takes the first 256 bits and packs each group of 8
   * (the last one zero-padded at the high end) into one byte.
   */
  method BitsToPayload(bits: seq<bit>) returns (payload: seq<byte>)
    ensures |payload| == (Min(|bits|, PAYLOAD_BITS) + 7) / 8
    ensures payload == Pack(bits)
  {
    var taken := if |bits| <= PAYLOAD_BITS then bits else bits[..PAYLOAD_BITS];
    payload := [];
    var i := 0;
    while i < |taken|
      invariant 0 <= i
      invariant payload + PackGroups(taken[Min(i, |taken|)..]) == PackGroups(taken)
      decreases |taken| - i
    {
      var end := Min(i + 8, |taken|);
      ghost var group := taken[i..end];
      var byteBits := taken[i..end];
      if |byteBits| < 8 {
        byteBits := byteBits + ZeroBits(8 - |byteBits|);
      }
      assert byteBits == Pad8(group);
      var byteVal := AccumulateByte(byteBits);
      PackGroupsStep(taken, i);
      ghost var rest := PackGroups(taken[end..]);
      ConcatAssoc(payload, [byteVal], rest);
      payload := payload + [byteVal];
      i := i + 8;
      assert Min(i, |taken|) == end;
    }
    assert taken[|taken|..] == [];
  }

  lemma ConcatAssoc(a: seq<byte>, b: seq<byte>, c: seq<byte>)
    ensures a + b + c == a + (b + c)
  {
  }

  /** Packing from position `i` emits the group starting at `i`, then the rest. */
  lemma PackGroupsStep(bits: seq<bit>, i: nat)
    requires i < |bits|
    ensures PackGroups(bits[i..]) ==
            [PackByte(bits[i..Min(i + 8, |bits|)])] + PackGroups(bits[Min(i + 8, |bits|)..])
  {
    assert bits[i..][..Min(8, |bits| - i)] == bits[i..Min(i + 8, |bits|)];
    assert bits[i..][Min(8, |bits| - i)..] == bits[Min(i + 8, |bits|)..];
  }

  /** Packing inverts unpacking for every payload of at most 32 bytes. */
  lemma {:induction false} PackUnpack(p: seq<byte>)
    requires |p| <= PAYLOAD_SIZE
    ensures Pack(Unpack(p)) == p
  {
    PackGroupsUnpack(p);
  }

  lemma {:induction false} PackGroupsUnpack(p: seq<byte>)
    ensures PackGroups(Unpack(p)) == p
  {
    if p != [] {
      var bits := Unpack(p);
      assert bits[..8] == BitsOf(p[0], 8);
      assert bits[8..] == Unpack(p[1..]);
      assert Pad8(BitsOf(p[0], 8)) == BitsOf(p[0], 8);
      assert Pow2(8) == 256;
      ValueOfBitsOf(p[0], 8);
      PackGroupsUnpack(p[1..]);
    }
  }

  /** Unpacking inverts packing for every whole number of bytes up to 256 bits. */
  lemma {:induction false} UnpackPack(bits: seq<bit>)
    requires |bits| <= PAYLOAD_BITS && |bits| % 8 == 0
    ensures Unpack(Pack(bits)) == bits
  {
    UnpackPackGroups(bits);
  }

  lemma {:induction false} UnpackPackGroups(bits: seq<bit>)
    requires |bits| % 8 == 0
    ensures Unpack(PackGroups(bits)) == bits
    decreases |bits|
  {
    if bits != [] {
      var g := bits[..8];
      assert Pad8(g) == g;
      BitsOfValueOf(g);
      UnpackPackGroups(bits[8..]);
      assert bits == g + bits[8..];
    }
  }

  /**
   * A final group of fewer than 8 bits packs to the value of those bits alone:
   * the missing high bits count as zeros.
   */
  lemma PackFinalGroup(bits: seq<bit>)
    requires |bits| <= PAYLOAD_BITS && |bits| % 8 != 0
    ensures var p := Pack(bits);
            |p| == |bits| / 8 + 1 && p[|p| - 1] == ValueOf(bits[8 * (|bits| / 8)..])
  {
    PackGroupsFinal(bits);
  }

  lemma {:induction false} PackGroupsFinal(bits: seq<bit>)
    requires |bits| % 8 != 0
    ensures |PackGroups(bits)| == |bits| / 8 + 1
    ensures PackGroups(bits)[|bits| / 8] == ValueOf(bits[8 * (|bits| / 8)..])
    decreases |bits|
  {
    if |bits| < 8 {
      ValueOfZeroExtended(bits, 8 - |bits|);
      assert bits[..Min(8, |bits|)] == bits;
      assert bits[8 * (|bits| / 8)..] == bits;
    } else {
      var rest := bits[8..];
      assert |rest| / 8 == |bits| / 8 - 1;
      assert rest[8 * (|rest| / 8)..] == bits[8 * (|bits| / 8)..];
      PackGroupsFinal(rest);
      assert PackGroups(bits) == [PackByte(bits[..8])] + PackGroups(rest);
    }
  }

  /** Every bit of zero is zero. */
  lemma {:induction false} BitOfZero(i: nat)
    ensures Bit(0, i) == 0
  {
    if i > 0 {
      BitOfZero(i - 1);
    }
  }

  /** 256 zero bits pack into 32 zero bytes. */
  lemma PackZeroBits()
    ensures Pack(ZeroBits(PAYLOAD_BITS)) == Zeros(PAYLOAD_SIZE)
  {
    var z := Zeros(PAYLOAD_SIZE);
    forall j | 0 <= j < 8 * PAYLOAD_SIZE
      ensures Unpack(z)[j] == ZeroBits(PAYLOAD_BITS)[j]
    {
      UnpackAt(z, j);
      BitOfZero(j % 8);
    }
    assert Unpack(z) == ZeroBits(PAYLOAD_BITS);
    PackUnpack(z);
  }

  // ----------------------------------------------------------------------
  // Identifier parsing
  // ----------------------------------------------------------------------

  /** `rstrip(b'\x00')`: the longest prefix that does not end in a zero byte. */
  function StripTrailingZeros(s: seq<byte>): (r: seq<byte>)
    ensures |r| <= |s| && r == s[..|r|]
    ensures forall i :: |r| <= i < |s| ==> s[i] == 0
    ensures r == [] || r[|r| - 1] != 0
  {
    if s == [] || s[|s| - 1] != 0 then s else StripTrailingZeros(s[..|s| - 1])
  }

  /** Splits a payload into the (stripped) device and session identifiers. */
  function ParseIdentifiers(p: seq<byte>): (ids: (seq<byte>, seq<byte>))
    requires |p| == PAYLOAD_SIZE
  {
    (StripTrailingZeros(p[..FIELD_SIZE]), StripTrailingZeros(p[FIELD_SIZE..PAYLOAD_SIZE]))
  }

  lemma {:induction false} StripZeroExtended(s: seq<byte>, n: nat)
    ensures StripTrailingZeros(s + Zeros(n)) == StripTrailingZeros(s)
  {
    if n > 0 {
      assert (s + Zeros(n))[..|s + Zeros(n)| - 1] == s + Zeros(n - 1);
      StripZeroExtended(s, n - 1);
    } else {
      assert s + Zeros(0) == s;
    }
  }

  /**
   * Parsing a built payload gives back each identifier cut to 16 bytes and
   * stripped of trailing zero bytes.
   */
  lemma IdentifiersRoundTrip(deviceId: seq<byte>, sessionId: seq<byte>)
    ensures ParseIdentifiers(CreatePayload(deviceId, sessionId)) ==
            (StripTrailingZeros(deviceId[..Min(FIELD_SIZE, |deviceId|)]),
             StripTrailingZeros(sessionId[..Min(FIELD_SIZE, |sessionId|)]))
  {
    var p := CreatePayload(deviceId, sessionId);
    assert p[..FIELD_SIZE] == Field(deviceId);
    assert p[FIELD_SIZE..PAYLOAD_SIZE] == Field(sessionId);
    FieldStrip(deviceId);
    FieldStrip(sessionId);
  }

  lemma FieldStrip(id: seq<byte>)
    ensures StripTrailingZeros(Field(id)) == StripTrailingZeros(id[..Min(FIELD_SIZE, |id|)])
  {
    var kept := if |id| <= FIELD_SIZE then id else id[..FIELD_SIZE];
    assert kept == id[..Min(FIELD_SIZE, |id|)];
    StripZeroExtended(kept, FIELD_SIZE - |kept|);
  }

  /**
   * An identifier of at most 16 bytes that does not end in a zero byte survives
   * the payload unchanged.
   */
  lemma ShortIdentifiersRoundTrip(deviceId: seq<byte>, sessionId: seq<byte>)
    requires |deviceId| <= FIELD_SIZE && |sessionId| <= FIELD_SIZE
    requires deviceId == [] || deviceId[|deviceId| - 1] != 0
    requires sessionId == [] || sessionId[|sessionId| - 1] != 0
    ensures ParseIdentifiers(CreatePayload(deviceId, sessionId)) == (deviceId, sessionId)
  {
    IdentifiersRoundTrip(deviceId, sessionId);
    assert deviceId[..Min(FIELD_SIZE, |deviceId|)] == deviceId;
    assert sessionId[..Min(FIELD_SIZE, |sessionId|)] == sessionId;
  }

  // ----------------------------------------------------------------------
  // Hex rendering of a payload (`bytes.hex()`)
  // ----------------------------------------------------------------------

  const HEX_DIGITS: string := "0123456789abcdef"

  function HexDigit(n: nat): (c: char)
    requires n < 16
    ensures c == HEX_DIGITS[n]
  {
    if n < 10 then ('0' as int + n) as char else ('a' as int + n - 10) as char
  }

  /** The value of a lower-case hex digit, or none for any other character. */
  function DigitValue(c: char): (v: int)
    ensures -1 <= v < 16
  {
    if '0' <= c <= '9' then c as int - '0' as int
    else if 'a' <= c <= 'f' then c as int - 'a' as int + 10
    else -1
  }

  /** Two lower-case hex digits per byte, high nibble first. */
  function Hex(p: seq<byte>): (s: string)
    ensures |s| == 2 * |p|
  {
    if p == [] then "" else [HexDigit(p[0] / 16), HexDigit(p[0] % 16)] + Hex(p[1..])
  }

  /** Reads back bytes from pairs of lower-case hex digits; stops at anything else. */
  function FromHex(s: string): seq<byte>
  {
    if |s| < 2 then []
    else
      var hi, lo := DigitValue(s[0]), DigitValue(s[1]);
      if hi < 0 || lo < 0 then [] else [hi * 16 + lo] + FromHex(s[2..])
  }

  /** The hex rendering loses nothing: it reads back as the same bytes. */
  lemma {:induction false} HexRoundTrip(p: seq<byte>)
    ensures FromHex(Hex(p)) == p
  {
    if p != [] {
      var s := Hex(p);
      assert DigitValue(HexDigit(p[0] / 16)) == p[0] / 16;
      assert DigitValue(HexDigit(p[0] % 16)) == p[0] % 16;
      assert s[2..] == Hex(p[1..]);
      HexRoundTrip(p[1..]);
    }
  }

  /** Zero bytes render as as many pairs of `'0'` digits. */
  lemma {:induction false} HexZeros(n: nat)
    ensures Hex(Zeros(n)) == seq(2 * n, _ => '0')
  {
    if n > 0 {
      assert Zeros(n)[1..] == Zeros(n - 1);
      HexZeros(n - 1);
    }
  }
}
