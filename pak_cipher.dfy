/**
 * Key search for encrypted PAK entries (`decrypt_with_keys` in
 * src-tauri/src/pak.rs): AES-256 in ECB mode with PKCS#7 padding
 * (section 6.3 of RFC 5652, for 16-byte blocks), followed by zlib inflate.
 *
 * The AES-256 block function and the zlib decoder are not part of this model:
 * they are given by the caller as a `Codec`. ECB chaining, the padding check
 * and the order in which keys are tried are modelled exactly.
 */
module PakCipher {
  import opened Wrappers
  import opened Bytes
  import opened PakKeys

  const BLOCK_SIZE: nat := 16

  type Block = b: seq<byte> | |b| == BLOCK_SIZE witness seq(16, _ => 0)

  /**
   * The external primitives: AES-256 decryption of one block under a key, and
   * a zlib stream decoder (`read_to_end` on a `ZlibDecoder`), `None` when the
   * stream is malformed.
   */
  datatype Codec = Codec(aes: (Key, Block) -> Block, inflate: seq<byte> -> Option<seq<byte>>)

  // ---------------------------------------------------------------------------
  // ECB mode

  /** ECB decryption: each 16-byte block is decrypted on its own, in place. */
  function EcbDecrypt(codec: Codec, key: Key, data: seq<byte>): (r: seq<byte>)
    requires |data| % BLOCK_SIZE == 0
    ensures |r| == |data|
    decreases |data|
  {
    if data == [] then [] else codec.aes(key, data[..BLOCK_SIZE]) + EcbDecrypt(codec, key, data[BLOCK_SIZE..])
  }

  /** Block `i` of the plaintext depends only on block `i` of the ciphertext. */
  lemma {:induction false} EcbDecryptBlock(codec: Codec, key: Key, data: seq<byte>, i: nat)
    requires |data| % BLOCK_SIZE == 0 && i < |data| / BLOCK_SIZE
    ensures EcbDecrypt(codec, key, data)[BLOCK_SIZE * i..BLOCK_SIZE * i + BLOCK_SIZE]
         == codec.aes(key, data[BLOCK_SIZE * i..BLOCK_SIZE * i + BLOCK_SIZE])
    decreases i
  {
    if i > 0 {
      var tail := data[BLOCK_SIZE..];
      EcbDecryptBlock(codec, key, tail, i - 1);
      assert tail[BLOCK_SIZE * (i - 1)..BLOCK_SIZE * (i - 1) + BLOCK_SIZE]
          == data[BLOCK_SIZE * i..BLOCK_SIZE * i + BLOCK_SIZE];
    }
  }

  /** Decrypting two runs of blocks is decrypting their concatenation. */
  lemma {:induction false} EcbDecryptAppend(codec: Codec, key: Key, a: seq<byte>, b: seq<byte>)
    requires |a| % BLOCK_SIZE == 0 && |b| % BLOCK_SIZE == 0
    ensures EcbDecrypt(codec, key, a + b) == EcbDecrypt(codec, key, a) + EcbDecrypt(codec, key, b)
    decreases |a|
  {
    if a != [] {
      assert (a + b)[..BLOCK_SIZE] == a[..BLOCK_SIZE];
      assert (a + b)[BLOCK_SIZE..] == a[BLOCK_SIZE..] + b;
      EcbDecryptAppend(codec, key, a[BLOCK_SIZE..], b);
    } else {
      assert a + b == b;
    }
  }

  // ---------------------------------------------------------------------------
  // PKCS#7 padding

  /** Whether the last `n` bytes of `p` all equal `n`. */
  predicate PaddedBy(p: seq<byte>, n: nat)
    requires n <= |p|
  {
    forall i :: |p| - n <= i < |p| ==> p[i] == n
  }

  /**
   * PKCS#7 unpadding of a decrypted buffer: the last byte gives the padding
   * length, which must lie in 1..16, and every padding byte must equal it.
   */
  function Pkcs7Unpad(p: seq<byte>): Option<seq<byte>>
  {
    if p == [] then None
    else
      var n := p[|p| - 1];
      if n == 0 || n > BLOCK_SIZE || n > |p| then None
      else if PaddedBy(p, n) then Some(p[..|p| - n])
      else None
  }

  /** PKCS#7 padding of a message to whole blocks; the partner of `Pkcs7Unpad`. */
  function Pkcs7Pad(m: seq<byte>): (p: seq<byte>)
    ensures |p| % BLOCK_SIZE == 0 && |m| < |p| <= |m| + BLOCK_SIZE
  {
    var n := BLOCK_SIZE - |m| % BLOCK_SIZE;
    m + seq(n, _ => n)
  }

  /** Unpadding succeeds on a whole-block buffer exactly when it is a padded message, and returns that message. */
  lemma Pkcs7UnpadIff(p: seq<byte>, m: seq<byte>)
    requires |p| % BLOCK_SIZE == 0
    ensures Pkcs7Unpad(p) == Some(m) <==> p == Pkcs7Pad(m)
  {
    if p == Pkcs7Pad(m) {
      var n := BLOCK_SIZE - |m| % BLOCK_SIZE;
      assert p[|p| - 1] == n;
      assert p[..|p| - n] == m;
    }
    if Pkcs7Unpad(p) == Some(m) {
      var n := p[|p| - 1];
      assert p[..|p| - n] == m;
      assert |m| % BLOCK_SIZE == BLOCK_SIZE - n;
      assert p == m + seq(n, _ => n);
    }
  }

  // ---------------------------------------------------------------------------
  // One key

  /** Decrypting one more block extends the decrypted prefix by that block's plaintext. */
  lemma EcbDecryptStep(codec: Codec, key: Key, cipher: seq<byte>, lo: nat)
    requires lo % BLOCK_SIZE == 0 && lo + BLOCK_SIZE <= |cipher|
    ensures EcbDecrypt(codec, key, cipher[..lo + BLOCK_SIZE])
         == EcbDecrypt(codec, key, cipher[..lo]) + codec.aes(key, cipher[lo..lo + BLOCK_SIZE])
  {
    var block := cipher[lo..lo + BLOCK_SIZE];
    assert cipher[..lo] + block == cipher[..lo + BLOCK_SIZE];
    EcbDecryptAppend(codec, key, cipher[..lo], block);
    assert block[..BLOCK_SIZE] == block && block[BLOCK_SIZE..] == [];
  }

  /** Decrypts the block at `lo` in place and leaves every other byte alone. */
  method DecryptBlock(codec: Codec, key: Key, buf: array<byte>, lo: nat)
    requires lo + BLOCK_SIZE <= buf.Length
    modifies buf
    ensures buf[..lo] == old(buf[..lo])
    ensures buf[lo..lo + BLOCK_SIZE] == codec.aes(key, old(buf[lo..lo + BLOCK_SIZE]))
    ensures buf[lo + BLOCK_SIZE..] == old(buf[lo + BLOCK_SIZE..])
  {
    var plain := codec.aes(key, buf[lo..lo + BLOCK_SIZE]);
    forall k | 0 <= k < BLOCK_SIZE {
      buf[lo + k] := plain[k];
    }
  }

  /**
   * `decrypt_padded_mut::<Pkcs7>` on a mutable buffer: a buffer that is not
   * whole blocks is refused untouched; otherwise every block is decrypted in
   * place and the padding is checked. Returns the unpadded length.
   */
  method DecryptPaddedInPlace(codec: Codec, key: Key, buf: array<byte>) returns (len: Option<nat>)
    modifies buf
    ensures buf.Length % BLOCK_SIZE != 0 ==> buf[..] == old(buf[..]) && len == None
    ensures buf.Length % BLOCK_SIZE == 0 ==> buf[..] == EcbDecrypt(codec, key, old(buf[..]))
    ensures len.Some? <==> buf.Length % BLOCK_SIZE == 0 && Pkcs7Unpad(buf[..]).Some?
    ensures len.Some? ==> len.value <= buf.Length && buf[..len.value] == Pkcs7Unpad(buf[..]).value
  {
    if buf.Length % BLOCK_SIZE != 0 {
      return None;
    }
    ghost var cipher := buf[..];
    var blocks := buf.Length / BLOCK_SIZE;
    for b := 0 to blocks
      invariant buf[..BLOCK_SIZE * b] == EcbDecrypt(codec, key, cipher[..BLOCK_SIZE * b])
      invariant buf[BLOCK_SIZE * b..] == cipher[BLOCK_SIZE * b..]
    {
      var lo := BLOCK_SIZE * b;
      ghost var before := buf[..];
      assert before[lo..lo + BLOCK_SIZE] == cipher[lo..lo + BLOCK_SIZE] by {
        assert before[lo..] == cipher[lo..];
      }
      DecryptBlock(codec, key, buf, lo);
      EcbDecryptStep(codec, key, cipher, lo);
      assert buf[..lo + BLOCK_SIZE] == buf[..lo] + buf[lo..lo + BLOCK_SIZE];
    }
    assert buf[..] == buf[..BLOCK_SIZE * blocks];
    assert cipher == cipher[..BLOCK_SIZE * blocks];
    var u := Pkcs7Unpad(buf[..]);
    if u.Some? {
      len := Some(|u.value|);
    } else {
      len := None;
    }
  }

  /** The zlib output of a buffer, accepted only when the stream decodes to something. */
  function Inflated(codec: Codec, data: seq<byte>): (r: Option<seq<byte>>)
    ensures r.Some? ==> r.value != [] && codec.inflate(data) == r
    ensures r.None? <==> codec.inflate(data).None? || codec.inflate(data) == Some([])
  {
    match codec.inflate(data)
    case None => None
    case Some(out) => if out == [] then None else Some(out)
  }

  /**
   * What one key yields for an entry's ciphertext. The padding check decides
   * whether the key is tried at all; the zlib decoder then reads the whole
   * decrypted buffer, padding bytes included, as the source passes it the
   * buffer and not the unpadded slice.
   */
  function TryKey(codec: Codec, key: Key, data: seq<byte>): Option<seq<byte>>
  {
    if |data| % BLOCK_SIZE == 0 && Pkcs7Unpad(EcbDecrypt(codec, key, data)).Some? then
      Inflated(codec, EcbDecrypt(codec, key, data))
    else None
  }

  /** The output of the first key, in list order, that yields one. */
  function FirstSuccess(codec: Codec, keys: seq<Key>, data: seq<byte>): Option<seq<byte>>
  {
    if keys == [] then None
    else if TryKey(codec, keys[0], data).Some? then TryKey(codec, keys[0], data)
    else FirstSuccess(codec, keys[1..], data)
  }

  /**
   * `decrypt_with_keys`: tries each key on a fresh copy of the ciphertext and
   * returns the first non-empty inflated output. `winner` is the position of
   * the key that produced it.
   */
  method DecryptWithKeys(codec: Codec, keys: seq<Key>, data: seq<byte>) returns (r: Option<seq<byte>>, ghost winner: nat)
    ensures r == FirstSuccess(codec, keys, data)
    ensures r.Some? ==> winner < |keys| && r == TryKey(codec, keys[winner], data) && r.value != []
    ensures forall j :: 0 <= j < |keys| && (r.None? || j < winner) ==> TryKey(codec, keys[j], data).None?
  {
    winner := 0;
    for i := 0 to |keys|
      invariant forall j :: 0 <= j < i ==> TryKey(codec, keys[j], data).None?
      invariant FirstSuccess(codec, keys, data) == FirstSuccess(codec, keys[i..], data)
    {
      var buf := new byte[|data|](k requires 0 <= k < |data| => data[k]);
      assert buf[..] == data;
      var len := DecryptPaddedInPlace(codec, keys[i], buf);
      if len.Some? {
        var decompressed := codec.inflate(buf[..]);
        if decompressed.Some? && decompressed.value != [] {
          assert TryKey(codec, keys[i], data) == decompressed;
          r, winner := decompressed, i;
          return;
        }
      }
      assert TryKey(codec, keys[i], data).None?;
      assert keys[i..][1..] == keys[i + 1..];
    }
    r := None;
  }

  /** Keys after the one that succeeds never influence the result. */
  lemma {:induction false} FirstSuccessExtend(codec: Codec, keys: seq<Key>, more: seq<Key>, data: seq<byte>)
    requires FirstSuccess(codec, keys, data).Some?
    ensures FirstSuccess(codec, keys + more, data) == FirstSuccess(codec, keys, data)
    decreases |keys|
  {
    assert (keys + more)[0] == keys[0];
    if TryKey(codec, keys[0], data).None? {
      assert (keys + more)[1..] == keys[1..] + more;
      FirstSuccessExtend(codec, keys[1..], more, data);
    }
  }

  /** Keys that all fail may be dropped from the front of the list. */
  lemma {:induction false} FirstSuccessSkip(codec: Codec, failed: seq<Key>, keys: seq<Key>, data: seq<byte>)
    requires forall j :: 0 <= j < |failed| ==> TryKey(codec, failed[j], data).None?
    ensures FirstSuccess(codec, failed + keys, data) == FirstSuccess(codec, keys, data)
    decreases |failed|
  {
    if failed != [] {
      assert (failed + keys)[0] == failed[0];
      assert (failed + keys)[1..] == failed[1..] + keys;
      FirstSuccessSkip(codec, failed[1..], keys, data);
    } else {
      assert failed + keys == keys;
    }
  }
}
