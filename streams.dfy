/**
 * The byte streams the converters and the extractor read from and write to:
 * a seekable reader over a file's bytes (`BufReader<File>` with `Read`, `Seek`
 * and `byteorder::ReadBytesExt`) and an append-only writer (`BufWriter<File>`
 * with `WriteBytesExt`).
 *
 * Beside the two classes, `Take*` functions describe each read on the bytes
 * that remain: they are what the specifications of the readers are written in.
 */
module Streams {
  import opened Wrappers
  import opened Bytes

  /** A value decoded from the front of a byte sequence, and the bytes after it. */
  datatype Read<T> = Read(value: T, rest: seq<byte>)

  function TakeBytes(s: seq<byte>, n: nat): (r: Option<Read<seq<byte>>>)
    ensures r.Some? <==> n <= |s|
    ensures r.Some? ==> |r.value.value| == n && r.value.value + r.value.rest == s
  {
    if n <= |s| then Some(Read(s[..n], s[n..])) else None
  }

  function TakeU8(s: seq<byte>): (r: Option<Read<byte>>)
    ensures r.Some? <==> 1 <= |s|
    ensures r.Some? ==> [r.value.value] + r.value.rest == s
  {
    if 1 <= |s| then Some(Read(s[0], s[1..])) else None
  }

  function TakeU16(s: seq<byte>): (r: Option<Read<nat>>)
    ensures r.Some? <==> 2 <= |s|
    ensures r.Some? ==> r.value.value < U16_LIMIT && r.value.rest == s[2..]
  {
    if 2 <= |s| then Some(Read(DecodeU16(s[..2]), s[2..])) else None
  }

  function TakeU32(s: seq<byte>): (r: Option<Read<nat>>)
    ensures r.Some? <==> 4 <= |s|
    ensures r.Some? ==> r.value.value < U32_LIMIT && r.value.rest == s[4..]
  {
    if 4 <= |s| then Some(Read(DecodeU32(s[..4]), s[4..])) else None
  }

  function TakeI16(s: seq<byte>): (r: Option<Read<int>>)
    ensures r.Some? <==> 2 <= |s|
    ensures r.Some? ==> I16_MIN <= r.value.value < -I16_MIN && r.value.rest == s[2..]
  {
    if 2 <= |s| then Some(Read(DecodeI16(s[..2]), s[2..])) else None
  }

  function TakeI32(s: seq<byte>): (r: Option<Read<int>>)
    ensures r.Some? <==> 4 <= |s|
    ensures r.Some? ==> I32_MIN <= r.value.value <= I32_MAX && r.value.rest == s[4..]
  {
    if 4 <= |s| then Some(Read(DecodeI32(s[..4]), s[4..])) else None
  }

  /** Reading back a written word yields it and leaves what followed. */
  lemma TakeU16Encoded(x: nat, rest: seq<byte>)
    requires x < U16_LIMIT
    ensures TakeU16(EncodeU16(x) + rest) == Some(Read(x, rest))
  {
    assert (EncodeU16(x) + rest)[..2] == EncodeU16(x);
    U16RoundTrip(x);
  }

  lemma TakeU32Encoded(x: nat, rest: seq<byte>)
    requires x < U32_LIMIT
    ensures TakeU32(EncodeU32(x) + rest) == Some(Read(x, rest))
  {
    assert (EncodeU32(x) + rest)[..4] == EncodeU32(x);
    U32RoundTrip(x);
  }

  lemma TakeI16Encoded(v: int, rest: seq<byte>)
    requires I16_MIN <= v < -I16_MIN
    ensures TakeI16(EncodeI16(v) + rest) == Some(Read(v, rest))
  {
    assert (EncodeI16(v) + rest)[..2] == EncodeI16(v);
    I16RoundTrip(v);
  }

  lemma TakeI32Encoded(v: int, rest: seq<byte>)
    requires I32_MIN <= v <= I32_MAX
    ensures TakeI32(EncodeI32(v) + rest) == Some(Read(v, rest))
  {
    assert (EncodeI32(v) + rest)[..4] == EncodeI32(v);
    I32RoundTrip(v);
  }

  lemma TakeBytesPrefix(b: seq<byte>, rest: seq<byte>)
    ensures TakeBytes(b + rest, |b|) == Some(Read(b, rest))
  {
    assert (b + rest)[..|b|] == b;
  }

  /** The value of a read, without what remains. */
  function ValueOf<T>(r: Option<Read<T>>): Option<T>
  {
    match r
    case None => None
    case Some(rd) => Some(rd.value)
  }

  /** A reader over the bytes of a file, with a cursor that may pass the end. */
  class Reader {
    const data: seq<byte>
    var pos: nat

    constructor (data: seq<byte>)
      ensures this.data == data && pos == 0
    {
      this.data := data;
      pos := 0;
    }

    /** The bytes from the cursor to the end of the file. */
    function Rest(): seq<byte>
      reads this
    {
      if pos <= |data| then data[pos..] else []
    }

    /** `seek(SeekFrom::Start(p))`: seeking past the end succeeds, the next read fails. */
    method Seek(p: nat)
      modifies this
      ensures pos == p
    {
      pos := p;
    }

    /** `seek(SeekFrom::Current(n))` for a forward distance. */
    method Skip(n: nat)
      modifies this
      ensures pos == old(pos) + n
    {
      pos := pos + n;
    }

    /** `read_exact` into a buffer of `n` bytes; fails when fewer remain. */
    method ReadExact(n: nat) returns (r: Option<seq<byte>>)
      modifies this
      ensures r == ValueOf(TakeBytes(old(Rest()), n))
      ensures r.Some? ==> Rest() == TakeBytes(old(Rest()), n).value.rest
    {
      var rest := Rest();
      if n <= |rest| {
        r := Some(rest[..n]);
        pos := pos + n;
      } else {
        r := None;
      }
    }

    method ReadU8() returns (r: Option<byte>)
      modifies this
      ensures r == ValueOf(TakeU8(old(Rest())))
      ensures r.Some? ==> Rest() == TakeU8(old(Rest())).value.rest
    {
      var b := ReadExact(1);
      r := if b.Some? then Some(b.value[0]) else None;
    }

    method ReadU16() returns (r: Option<nat>)
      modifies this
      ensures r == ValueOf(TakeU16(old(Rest())))
      ensures r.Some? ==> Rest() == TakeU16(old(Rest())).value.rest
    {
      var b := ReadExact(2);
      r := if b.Some? then Some(DecodeU16(b.value)) else None;
    }

    method ReadU32() returns (r: Option<nat>)
      modifies this
      ensures r == ValueOf(TakeU32(old(Rest())))
      ensures r.Some? ==> Rest() == TakeU32(old(Rest())).value.rest
    {
      var b := ReadExact(4);
      r := if b.Some? then Some(DecodeU32(b.value)) else None;
    }

    method ReadI16() returns (r: Option<int>)
      modifies this
      ensures r == ValueOf(TakeI16(old(Rest())))
      ensures r.Some? ==> Rest() == TakeI16(old(Rest())).value.rest
    {
      var b := ReadExact(2);
      r := if b.Some? then Some(DecodeI16(b.value)) else None;
    }

    method ReadI32() returns (r: Option<int>)
      modifies this
      ensures r == ValueOf(TakeI32(old(Rest())))
      ensures r.Some? ==> Rest() == TakeI32(old(Rest())).value.rest
    {
      var b := ReadExact(4);
      r := if b.Some? then Some(DecodeI32(b.value)) else None;
    }
  }

  /** `b` starts with `a`: a writer that held `a` has since only had bytes appended. */
  ghost predicate Prefix(a: seq<byte>, b: seq<byte>)
  {
    a <= b
  }

  /** Appending keeps what was there before. */
  lemma PrefixAppend(a: seq<byte>, x: seq<byte>)
    ensures Prefix(a, a + x) && Prefix(a, a)
  {
  }

  /** Appending to what starts with `a` keeps `a` at the front. */
  lemma PrefixGrow(a: seq<byte>, b: seq<byte>, x: seq<byte>)
    requires Prefix(a, b)
    ensures Prefix(a, b + x)
  {
  }

  /** What starts with something that starts with `a` starts with `a`. */
  lemma PrefixTrans(a: seq<byte>, b: seq<byte>, c: seq<byte>)
    requires Prefix(a, b) && Prefix(b, c)
    ensures Prefix(a, c)
  {
  }

  /** An append-only byte sink; writes to it do not fail in this model. */
  class Writer {
    var bytes: seq<byte>

    constructor ()
      ensures bytes == []
    {
      bytes := [];
    }

    /** `write_all`. */
    method Write(b: seq<byte>)
      modifies this
      ensures bytes == old(bytes) + b
    {
      bytes := bytes + b;
    }

    method WriteU8(x: byte)
      modifies this
      ensures bytes == old(bytes) + [x]
    {
      bytes := bytes + [x];
    }

    method WriteU16(x: nat)
      requires x < U16_LIMIT
      modifies this
      ensures bytes == old(bytes) + EncodeU16(x)
    {
      bytes := bytes + EncodeU16(x);
    }

    method WriteU32(x: nat)
      requires x < U32_LIMIT
      modifies this
      ensures bytes == old(bytes) + EncodeU32(x)
    {
      bytes := bytes + EncodeU32(x);
    }

    method WriteI32(v: int)
      requires I32_MIN <= v <= I32_MAX
      modifies this
      ensures bytes == old(bytes) + EncodeI32(v)
    {
      bytes := bytes + EncodeI32(v);
    }
  }
}
