/**
 * `pak_extract` (src-tauri/src/pak.rs): reads the header and the directory of
 * a PAK archive, then decides for every entry whether its bytes are inflated
 * directly or decrypted with the key list first, and where the output goes.
 *
 * The file system is reduced to values: the archive is its bytes, the key
 * list is its lines (or `None` when it cannot be opened), and what a worker
 * does with one entry is an `Outcome`.
 */
module PakExtract {
  import opened Wrappers
  import opened Bytes
  import opened Text
  import opened Streams
  import opened PakKeys
  import opened PakCipher
  import opened PakArchive

  /** The bytes in front of an encrypted entry's ciphertext. */
  const CIPHER_PREFIX: nat := 16

  /** The directory every entry is extracted under. */
  const EXPORT_DIR: Text := Ascii("Export")

  /** Output-path components holding this text are dropped. */
  const PAK_MARKER: Text := Ascii(".pak")

  /** The errors `pak_extract` returns through `?`: a file that cannot be opened, a read past the end. */
  datatype IoError = NotFound | UnexpectedEof

  /** What the worker for one entry does: writes a file, writes nothing, or panics on an `unwrap`. */
  datatype Outcome = Written(path: seq<Text>, data: seq<byte>) | NotWritten | Panicked

  // ---------------------------------------------------------------------------
  // Routing

  /** Entries that are never decrypted: executables, libraries and the anti-cheat and test branches. */
  predicate IsExempt(name: Text)
  {
    EndsWith(name, Ascii(".exe")) || EndsWith(name, Ascii(".dll"))
      || Contains(name, Ascii("xigncode")) || Contains(name, Ascii("testbranch"))
  }

  /**
   * The decompressed bytes of one entry, if any: exempt entries and all
   * entries of an unencrypted archive are inflated as they are; the others
   * are decrypted from byte 16 on, and only when they are longer than that.
   */
  function EntryPayload(codec: Codec, encryption: bool, keys: seq<Key>, name: Text, data: seq<byte>): Option<seq<byte>>
  {
    if !IsExempt(name) && encryption then
      if |data| > CIPHER_PREFIX then FirstSuccess(codec, keys, data[CIPHER_PREFIX..]) else None
    else Inflated(codec, data)
  }

  /** Direct inflation happens exactly for exempt entries and for unencrypted archives. */
  lemma PayloadDirect(codec: Codec, encryption: bool, keys: seq<Key>, name: Text, data: seq<byte>)
    requires !encryption || IsExempt(name)
    ensures EntryPayload(codec, encryption, keys, name, data) == Inflated(codec, data)
    ensures EntryPayload(codec, encryption, keys, name, data).Some? ==> EntryPayload(codec, encryption, keys, name, data).value != []
  {
  }

  /**
   * An encrypted entry yields output only when it is longer than 16 bytes and
   * some key decrypts what follows them; the output is that of the first such
   * key, and never empty.
   */
  lemma PayloadEncrypted(codec: Codec, keys: seq<Key>, name: Text, data: seq<byte>)
    requires !IsExempt(name)
    ensures var p := EntryPayload(codec, true, keys, name, data);
            (p.Some? ==> |data| > CIPHER_PREFIX && p.value != []
                         && exists k :: 0 <= k < |keys| && p == TryKey(codec, keys[k], data[CIPHER_PREFIX..]))
            && (|data| > CIPHER_PREFIX && (exists k :: 0 <= k < |keys| && TryKey(codec, keys[k], data[CIPHER_PREFIX..]).Some?) ==> p.Some?)
  {
    if |data| > CIPHER_PREFIX {
      FirstSuccessSpec(codec, keys, data[CIPHER_PREFIX..]);
    }
  }

  /** `FirstSuccess` finds an output exactly when some key yields one, and returns one of theirs. */
  lemma {:induction false} FirstSuccessSpec(codec: Codec, keys: seq<Key>, data: seq<byte>)
    ensures var r := FirstSuccess(codec, keys, data);
            (r.Some? ==> r.value != [] && exists k :: 0 <= k < |keys| && r == TryKey(codec, keys[k], data))
            && ((exists k :: 0 <= k < |keys| && TryKey(codec, keys[k], data).Some?) ==> r.Some?)
    decreases |keys|
  {
    if keys != [] {
      FirstSuccessSpec(codec, keys[1..], data);
      var r := FirstSuccess(codec, keys, data);
      if TryKey(codec, keys[0], data).Some? {
        var t := codec.inflate(EcbDecrypt(codec, keys[0], data));
        assert r == TryKey(codec, keys[0], data);
      } else {
        if r.Some? {
          var k :| 0 <= k < |keys[1..]| && r == TryKey(codec, keys[1..][k], data);
          assert keys[1..][k] == keys[k + 1];
        }
        if exists k :: 0 <= k < |keys| && TryKey(codec, keys[k], data).Some? {
          var k :| 0 <= k < |keys| && TryKey(codec, keys[k], data).Some?;
          assert k != 0;
          assert keys[1..][k - 1] == keys[k];
        }
      }
    }
  }

  // ---------------------------------------------------------------------------
  // Output location

  /** The output location's components without those that contain `.pak`, in order. */
  function CleanRoot(root: seq<Text>): (r: seq<Text>)
    ensures |r| <= |root|
    ensures forall i :: 0 <= i < |r| ==> r[i] in root && !Contains(r[i], PAK_MARKER)
  {
    if root == [] then []
    else
      var last := root[|root| - 1];
      CleanRoot(root[..|root| - 1]) + (if Contains(last, PAK_MARKER) then [] else [last])
  }

  /** Every component free of `.pak` is kept, and a location without such components is kept whole. */
  lemma {:induction false} CleanRootKeeps(root: seq<Text>)
    ensures forall c | c in root && !Contains(c, PAK_MARKER) :: c in CleanRoot(root)
    ensures (forall c | c in root :: !Contains(c, PAK_MARKER)) ==> CleanRoot(root) == root
    decreases |root|
  {
    if root != [] {
      var init := root[..|root| - 1];
      CleanRootKeeps(init);
      assert root == init + [root[|root| - 1]];
      forall c | c in root && !Contains(c, PAK_MARKER)
        ensures c in CleanRoot(root)
      {
        if c in init {
          assert c in CleanRoot(init);
        }
      }
    }
  }

  /**
   * Cleaning keeps order: the cleaned location of two runs of components is
   * the cleaned first run followed by the cleaned second.
   */
  lemma {:induction false} CleanRootAppend(a: seq<Text>, b: seq<Text>)
    ensures CleanRoot(a + b) == CleanRoot(a) + CleanRoot(b)
    decreases |b|
  {
    if b == [] {
      assert a + b == a;
    } else {
      var init := b[..|b| - 1];
      assert (a + b)[..|a + b| - 1] == a + init;
      CleanRootAppend(a, init);
    }
  }

  /** Cleaning is idempotent. */
  lemma CleanRootIdempotent(root: seq<Text>)
    ensures CleanRoot(CleanRoot(root)) == CleanRoot(root)
  {
    CleanRootKeeps(CleanRoot(root));
  }

  /** Where an entry is written: the cleaned location, then `Export`, then the entry's path. */
  function OutputPath(root: seq<Text>, name: Text): (p: seq<Text>)
    ensures |p| >= 2 && p[|p| - 2] == EXPORT_DIR && p[|p| - 1] == name
    ensures p[..|p| - 2] == CleanRoot(root)
  {
    CleanRoot(root) + [EXPORT_DIR, name]
  }

  // ---------------------------------------------------------------------------
  // One entry

  /** The entry's bytes, or `None` when `read_exact` runs past the end of the archive. */
  function EntryBytes(input: seq<byte>, e: Entry): (r: Option<seq<byte>>)
    ensures r.Some? ==> |r.value| == e.compressedSize
    ensures e.offset + e.compressedSize <= |input| ==> r == Some(input[e.offset..e.offset + e.compressedSize])
    ensures r.None? <==> e.compressedSize > 0 && e.offset + e.compressedSize > |input|
  {
    var rest := if e.offset <= |input| then input[e.offset..] else [];
    assert e.offset + e.compressedSize <= |input| ==> rest[..e.compressedSize] == input[e.offset..e.offset + e.compressedSize];
    ValueOf(TakeBytes(rest, e.compressedSize))
  }

  /** What the worker does with one entry. */
  function EntryOutcome(input: seq<byte>, root: seq<Text>, encryption: bool, keys: seq<Key>, codec: Codec, e: Entry): Outcome
  {
    match EntryBytes(input, e)
    case None => Panicked
    case Some(data) =>
      var name := FirstPiece(e.path);
      match EntryPayload(codec, encryption, keys, name, data)
      case None => NotWritten
      case Some(out) => Written(OutputPath(root, name), out)
  }

  /**
   * The body of the per-entry worker: reads the entry's bytes from a fresh
   * handle, cuts the path at its first NUL, decrypts or inflates, and names
   * the output file.
   */
  method ExtractEntry(input: seq<byte>, root: seq<Text>, encryption: bool, keys: seq<Key>, codec: Codec, e: Entry)
    returns (o: Outcome)
    ensures o == EntryOutcome(input, root, encryption, keys, codec, e)
  {
    var fs := new Reader(input);
    fs.Seek(e.offset);
    var compressedData := fs.ReadExact(e.compressedSize);
    if compressedData.None? {
      return Panicked;
    }
    var data := compressedData.value;
    var name := FirstPiece(e.path);
    var writeData := DecodeEntry(codec, encryption, keys, name, data);
    if writeData.Some? {
      o := Written(OutputPath(root, name), writeData.value);
    } else {
      o := NotWritten;
    }
  }

  /** The decrypt-or-inflate step of the worker. */
  method DecodeEntry(codec: Codec, encryption: bool, keys: seq<Key>, name: Text, data: seq<byte>) returns (writeData: Option<seq<byte>>)
    ensures writeData == EntryPayload(codec, encryption, keys, name, data)
    ensures writeData.Some? ==> writeData.value != []
  {
    writeData := None;
    if !IsExempt(name) && encryption {
      if |data| > CIPHER_PREFIX {
        ghost var winner;
        writeData, winner := DecryptWithKeys(codec, keys, data[CIPHER_PREFIX..]);
      }
    } else {
      var decompressed := codec.inflate(data);
      if decompressed.Some? && decompressed.value != [] {
        writeData := decompressed;
      }
    }
  }

  lemma PayloadNonEmpty(codec: Codec, encryption: bool, keys: seq<Key>, name: Text, data: seq<byte>)
    ensures EntryPayload(codec, encryption, keys, name, data).Some? ==> EntryPayload(codec, encryption, keys, name, data).value != []
  {
    if !IsExempt(name) && encryption && |data| > CIPHER_PREFIX {
      FirstSuccessSpec(codec, keys, data[CIPHER_PREFIX..]);
    }
  }

  // ---------------------------------------------------------------------------
  // The whole archive

  /** Every entry handled by its own worker, in directory order. */
  function Outcomes(input: seq<byte>, root: seq<Text>, encryption: bool, keys: seq<Key>, codec: Codec, entries: seq<Entry>)
    : (os: seq<Outcome>)
    ensures |os| == |entries|
  {
    seq(|entries|, i requires 0 <= i < |entries| => EntryOutcome(input, root, encryption, keys, codec, entries[i]))
  }

  /** Reading the directory, then handling every entry. */
  function ExtractEntries(input: seq<byte>, h: Header, root: seq<Text>, encryption: bool, keys: seq<Key>, codec: Codec)
    : Result<seq<Outcome>, IoError>
  {
    match Directory(input, h)
    case None => Err(UnexpectedEof)
    case Some(entries) => Ok(Outcomes(input, root, encryption, keys, codec, entries))
  }

  /**
   * The result of `pak_extract`: the header is read first; with encryption on,
   * the key list must open and hold a key (an empty list ends the call
   * successfully before the directory is read); then the whole directory is
   * read, and only then is every entry handled.
   */
  function Extraction(input: Option<seq<byte>>, root: seq<Text>, encryption: bool, keyFile: Option<seq<Option<Text>>>, codec: Codec)
    : Result<seq<Outcome>, IoError>
  {
    if input.None? then Err(NotFound)
    else match DecodeHeader(input.value)
      case None => Err(UnexpectedEof)
      case Some(h) =>
        if !encryption then ExtractEntries(input.value, h, root, false, [], codec)
        else if keyFile.None? then Err(NotFound)
        else if KeyList(keyFile.value) == [] then Ok([])
        else ExtractEntries(input.value, h, root, true, KeyList(keyFile.value), codec)
  }

  /** The parallel loop over the entries, taken one entry at a time. */
  method HandleEntries(input: seq<byte>, root: seq<Text>, encryption: bool, keys: seq<Key>, codec: Codec, entries: seq<Entry>)
    returns (outcomes: seq<Outcome>)
    ensures outcomes == Outcomes(input, root, encryption, keys, codec, entries)
  {
    outcomes := [];
    for i := 0 to |entries|
      invariant |outcomes| == i
      invariant forall j :: 0 <= j < i ==> outcomes[j] == EntryOutcome(input, root, encryption, keys, codec, entries[j])
    {
      var o := ExtractEntry(input, root, encryption, keys, codec, entries[i]);
      outcomes := outcomes + [o];
    }
  }

  /** The directory loop followed by the entry loop. */
  method ReadAndHandle(fs: Reader, h: Header, root: seq<Text>, encryption: bool, keys: seq<Key>, codec: Codec)
    returns (r: Result<seq<Outcome>, IoError>)
    modifies fs
    ensures r == ExtractEntries(fs.data, h, root, encryption, keys, codec)
  {
    var fileInfos := ReadDirectory(fs, h);
    if fileInfos.None? {
      return Err(UnexpectedEof);
    }
    var outcomes := HandleEntries(fs.data, root, encryption, keys, codec, fileInfos.value);
    r := Ok(outcomes);
  }

  /** `pak_extract`. */
  method PakExtract(input: Option<seq<byte>>, root: seq<Text>, encryption: bool, keyFile: Option<seq<Option<Text>>>, codec: Codec)
    returns (r: Result<seq<Outcome>, IoError>)
    ensures r == Extraction(input, root, encryption, keyFile, codec)
  {
    if input.None? {
      return Err(NotFound);
    }
    var fs := new Reader(input.value);
    var header := ReadHeader(fs);
    if header.None? {
      return Err(UnexpectedEof);
    }
    var keys: seq<Key> := [];
    if encryption {
      if keyFile.None? {
        return Err(NotFound);
      }
      keys := LoadKeys(keyFile.value);
      if |keys| == 0 {
        return Ok([]);
      }
    }
    r := ReadAndHandle(fs, header.value, root, encryption, keys, codec);
  }

  /** With encryption on and no usable key, nothing is extracted, however the directory looks. */
  lemma NoKeysNoOutput(input: seq<byte>, root: seq<Text>, keyFile: seq<Option<Text>>, codec: Codec)
    requires DecodeHeader(input).Some? && KeyList(keyFile) == []
    ensures Extraction(Some(input), root, true, Some(keyFile), codec) == Ok([])
  {
  }

  /** A directory record past the end of the archive fails the call before any entry is handled. */
  lemma TruncatedDirectoryNoOutput(input: seq<byte>, root: seq<Text>, encryption: bool, keyFile: Option<seq<Option<Text>>>, codec: Codec, i: nat)
    requires DecodeHeader(input).Some? && i < DecodeHeader(input).value.fileCount && !SlotFits(input, DecodeHeader(input).value, i)
    requires encryption ==> keyFile.Some? && KeyList(keyFile.value) != []
    ensures Extraction(Some(input), root, encryption, keyFile, codec) == Err(UnexpectedEof)
  {
    DirectoryShort(input, DecodeHeader(input).value, i);
  }

  /** A written entry carries data, and its file name holds no NUL. */
  predicate WellWritten(o: Outcome)
  {
    o.Written? ==> o.data != [] && o.path != [] && NUL !in o.path[|o.path| - 1]
  }

  /**
   * Once the directory is read, every record is handled once, in order, and
   * every written entry is well written.
   */
  lemma ExtractEntriesSpec(input: seq<byte>, h: Header, root: seq<Text>, encryption: bool, keys: seq<Key>, codec: Codec)
    requires Directory(input, h).Some?
    ensures var r := ExtractEntries(input, h, root, encryption, keys, codec);
            r.Ok? && |r.value| == h.fileCount && forall i :: 0 <= i < |r.value| ==> WellWritten(r.value[i])
  {
    OutcomesWellWritten(input, root, encryption, keys, codec, Directory(input, h).value);
  }

  lemma OutcomesWellWritten(input: seq<byte>, root: seq<Text>, encryption: bool, keys: seq<Key>, codec: Codec, entries: seq<Entry>)
    ensures var os := Outcomes(input, root, encryption, keys, codec, entries);
            forall i :: 0 <= i < |os| ==> WellWritten(os[i])
  {
    var os := Outcomes(input, root, encryption, keys, codec, entries);
    forall i | 0 <= i < |os|
      ensures WellWritten(os[i])
    {
      EntryWellWritten(input, root, encryption, keys, codec, entries[i]);
    }
  }

  lemma EntryWellWritten(input: seq<byte>, root: seq<Text>, encryption: bool, keys: seq<Key>, codec: Codec, e: Entry)
    ensures WellWritten(EntryOutcome(input, root, encryption, keys, codec, e))
  {
    EntryOutcomeSpec(input, root, encryption, keys, codec, e);
  }

  /**
   * A worker panics exactly when the entry's bytes run past the end of the
   * archive; a written entry carries non-empty data and goes to the cleaned
   * output location, under `Export`, at the entry's path cut at its first NUL.
   */
  lemma EntryOutcomeSpec(input: seq<byte>, root: seq<Text>, encryption: bool, keys: seq<Key>, codec: Codec, e: Entry)
    ensures var o := EntryOutcome(input, root, encryption, keys, codec, e);
            (o.Panicked? <==> e.compressedSize > 0 && e.offset + e.compressedSize > |input|)
            && (o.Written? ==> o.data != [] && o.path == CleanRoot(root) + [EXPORT_DIR, FirstPiece(e.path)]
                               && NUL !in o.path[|o.path| - 1])
  {
    if EntryBytes(input, e).Some? {
      PayloadNonEmpty(codec, encryption, keys, FirstPiece(e.path), EntryBytes(input, e).value);
    }
  }
}
