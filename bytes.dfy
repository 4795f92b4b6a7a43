/**
 * Octets and the little-endian integer layouts that every binary format of the
 * system uses (`byteorder::LittleEndian` and `u32::from_le_bytes` in the source).
 */
module Bytes {

  /** An octet. */
  type byte = b: int | 0 <= b < 256

  const U16_LIMIT: nat := 0x1_0000
  const U32_LIMIT: nat := 0x1_0000_0000
  const I16_MIN: int := -0x8000
  const I32_MIN: int := -0x8000_0000
  const I32_MAX: int := 0x7FFF_FFFF

  /** The bytes of an ASCII string literal; only ever applied to literals. */
  function Ascii(s: string): (r: seq<byte>)
    ensures |r| == |s|
  {
    seq(|s|, i requires 0 <= i < |s| => (s[i] as int) % 256)
  }

  // ---------------------------------------------------------------------------
  // Unsigned 16 and 32 bit words

  /** One base-256 digit split off the bottom of a number. */
  lemma DigitStep(d: int, q: int)
    requires 0 <= d < 256
    ensures (d + 256 * q) % 256 == d && (d + 256 * q) / 256 == q
  {
  }

  function EncodeU16(x: nat): (r: seq<byte>)
    requires x < U16_LIMIT
    ensures |r| == 2 && r[0] == x % 256
  {
    [x % 256, x / 256]
  }

  function DecodeU16(s: seq<byte>): (x: nat)
    requires |s| == 2
    ensures x < U16_LIMIT && x % 256 == s[0]
  {
    s[0] as int + 256 * s[1] as int
  }

  lemma U16RoundTrip(x: nat)
    requires x < U16_LIMIT
    ensures DecodeU16(EncodeU16(x)) == x
  {
  }

  lemma U16Canonical(s: seq<byte>)
    requires |s| == 2
    ensures EncodeU16(DecodeU16(s)) == s
  {
  }

  function EncodeU32(x: nat): (r: seq<byte>)
    requires x < U32_LIMIT
    ensures |r| == 4 && r[0] == x % 256
  {
    [x % 256, x / 256 % 256, x / 256 / 256 % 256, x / 256 / 256 / 256]
  }

  function DecodeU32(s: seq<byte>): (x: nat)
    requires |s| == 4
    ensures x < U32_LIMIT && x % 256 == s[0]
  {
    s[0] as int + 256 * (s[1] as int + 256 * (s[2] as int + 256 * s[3] as int))
  }

  lemma U32RoundTrip(x: nat)
    requires x < U32_LIMIT
    ensures DecodeU32(EncodeU32(x)) == x
  {
    var q1 := x / 256;
    var q2 := q1 / 256;
    assert x == x % 256 + 256 * q1;
    assert q1 == q1 % 256 + 256 * q2;
    assert q2 == q2 % 256 + 256 * (q2 / 256);
  }

  lemma U32Canonical(s: seq<byte>)
    requires |s| == 4
    ensures EncodeU32(DecodeU32(s)) == s
  {
    var t2 := s[2] as int + 256 * s[3] as int;
    var t1 := s[1] as int + 256 * t2;
    DigitStep(s[0], t1);
    DigitStep(s[1], t2);
    DigitStep(s[2], s[3]);
  }

  // ---------------------------------------------------------------------------
  // Two's complement 16 and 32 bit words

  function EncodeI16(v: int): (r: seq<byte>)
    requires I16_MIN <= v < -I16_MIN
    ensures |r| == 2
  {
    EncodeU16(if v < 0 then v + U16_LIMIT else v)
  }

  function DecodeI16(s: seq<byte>): (v: int)
    requires |s| == 2
    ensures I16_MIN <= v < -I16_MIN
    ensures v >= 0 <==> s[1] < 0x80
  {
    var u := DecodeU16(s);
    if u < 0x8000 then u else u - U16_LIMIT
  }

  lemma I16RoundTrip(v: int)
    requires I16_MIN <= v < -I16_MIN
    ensures DecodeI16(EncodeI16(v)) == v
  {
    U16RoundTrip(if v < 0 then v + U16_LIMIT else v);
  }

  function EncodeI32(v: int): (r: seq<byte>)
    requires I32_MIN <= v <= I32_MAX
    ensures |r| == 4
  {
    EncodeU32(if v < 0 then v + U32_LIMIT else v)
  }

  function DecodeI32(s: seq<byte>): (v: int)
    requires |s| == 4
    ensures I32_MIN <= v <= I32_MAX
    ensures v >= 0 <==> s[3] < 0x80
  {
    var u := DecodeU32(s);
    if u <= I32_MAX then u else u - U32_LIMIT
  }

  lemma I32RoundTrip(v: int)
    requires I32_MIN <= v <= I32_MAX
    ensures DecodeI32(EncodeI32(v)) == v
  {
    U32RoundTrip(if v < 0 then v + U32_LIMIT else v);
  }

  /** A non-negative `i32` and a `u32` below 2^31 have the same four bytes. */
  lemma I32MatchesU32(v: nat)
    requires v <= I32_MAX
    ensures EncodeI32(v) == EncodeU32(v)
  {
  }

  // ---------------------------------------------------------------------------
  // Byte strings written one after the other

  /** The pieces concatenated in order, as consecutive `write_all` calls lay them down. */
  function Flatten(parts: seq<seq<byte>>): seq<byte>
    decreases |parts|
  {
    if parts == [] then [] else Flatten(parts[..|parts| - 1]) + parts[|parts| - 1]
  }

  /** Writing one more piece appends it. */
  lemma FlattenSnoc(parts: seq<seq<byte>>, p: seq<byte>)
    ensures Flatten(parts + [p]) == Flatten(parts) + p
  {
    assert (parts + [p])[..|parts|] == parts;
  }

  /** Flattening distributes over concatenation. */
  lemma {:induction false} FlattenAppend(a: seq<seq<byte>>, b: seq<seq<byte>>)
    ensures Flatten(a + b) == Flatten(a) + Flatten(b)
    decreases |b|
  {
    if b == [] {
      assert a + b == a;
    } else {
      var init := b[..|b| - 1];
      var last := b[|b| - 1];
      assert a + b == (a + init) + [last];
      assert b == init + [last];
      FlattenSnoc(a + init, last);
      FlattenSnoc(init, last);
      FlattenAppend(a, init);
    }
  }

  /** The first piece comes first. */
  lemma FlattenCons(p: seq<byte>, parts: seq<seq<byte>>)
    ensures Flatten([p] + parts) == p + Flatten(parts)
  {
    FlattenAppend([p], parts);
    assert Flatten([p]) == Flatten([]) + p;
  }
}
