/**
 * The layout of a PAK archive as `pak_extract` (src-tauri/src/pak.rs) reads
 * it: a 16-byte header at offset 256 and a directory of fixed-stride records,
 * each a 256-byte NUL-padded path field followed by 24 bytes of sizes and
 * offsets.
 */
module PakArchive {
  import opened Wrappers
  import opened Bytes
  import opened Text
  import opened Streams

  const HEADER_OFFSET: nat := 256
  const HEADER_SIZE: nat := 16
  const PATH_FIELD_SIZE: nat := 256
  const INFO_SIZE: nat := 24
  /** The bytes of a record that are read. */
  const RECORD_SIZE: nat := PATH_FIELD_SIZE + INFO_SIZE
  /** The distance between two records; the 36 bytes after each record are not read. */
  const RECORD_STRIDE: nat := 316

  /** The header fields; all three are little-endian `u32`. */
  datatype Header = Header(version: nat, fileCount: nat, fileInfoOffset: nat)

  /** One directory record: the stored path and where the entry's bytes lie. */
  datatype Entry = Entry(path: Text, compressedSize: nat, offset: nat)

  // ---------------------------------------------------------------------------
  // Header

  /** The header of an archive image, or `None` when the file ends before it does. */
  function DecodeHeader(file: seq<byte>): (h: Option<Header>)
    ensures h.Some? <==> HEADER_OFFSET + HEADER_SIZE <= |file|
    ensures h.Some? ==> h.value.version < U32_LIMIT && h.value.fileCount < U32_LIMIT && h.value.fileInfoOffset < U32_LIMIT
  {
    if |file| < HEADER_OFFSET + HEADER_SIZE then None
    else Some(Header(DecodeU32(file[256..260]), DecodeU32(file[260..264]), DecodeU32(file[264..268])))
  }

  /** The 16 header bytes of a header; the last four are not read and are written as zero. */
  function EncodeHeader(h: Header): (r: seq<byte>)
    requires h.version < U32_LIMIT && h.fileCount < U32_LIMIT && h.fileInfoOffset < U32_LIMIT
    ensures |r| == HEADER_SIZE
  {
    EncodeU32(h.version) + EncodeU32(h.fileCount) + EncodeU32(h.fileInfoOffset) + [0, 0, 0, 0]
  }

  /** A header written at offset 256 is read back whatever surrounds it. */
  lemma HeaderRoundTrip(prolog: seq<byte>, h: Header, rest: seq<byte>)
    requires |prolog| == HEADER_OFFSET
    requires h.version < U32_LIMIT && h.fileCount < U32_LIMIT && h.fileInfoOffset < U32_LIMIT
    ensures DecodeHeader(prolog + EncodeHeader(h) + rest) == Some(h)
  {
    var f := prolog + EncodeHeader(h) + rest;
    assert f[256..260] == EncodeU32(h.version);
    assert f[260..264] == EncodeU32(h.fileCount);
    assert f[264..268] == EncodeU32(h.fileInfoOffset);
    U32RoundTrip(h.version);
    U32RoundTrip(h.fileCount);
    U32RoundTrip(h.fileInfoOffset);
  }

  /** Seeks to offset 256 and reads the 16 header bytes. */
  method ReadHeader(input: Reader) returns (h: Option<Header>)
    modifies input
    ensures h == DecodeHeader(input.data)
  {
    hide DecodeU32;
    input.Seek(HEADER_OFFSET);
    var buffer := input.ReadExact(HEADER_SIZE);
    if buffer.None? {
      return None;
    }
    var b := buffer.value;
    assert b == input.data[256..272];
    assert b[0..4] == input.data[256..260] && b[4..8] == input.data[260..264] && b[8..12] == input.data[264..268];
    h := Some(Header(DecodeU32(b[0..4]), DecodeU32(b[4..8]), DecodeU32(b[8..12])));
  }

  // ---------------------------------------------------------------------------
  // Records

  /** The stored path: trailing NULs removed, then leading backslashes. */
  function EntryPath(field: seq<byte>): (p: Text)
    ensures p == [] || p[0] != BACKSLASH
  {
    TrimStartBy(TrimEndBy(field, {NUL}), {BACKSLASH})
  }

  /** A record from its path field and its info bytes; the size and the offset are info bytes 8..12 and 12..16. */
  function DecodeRecord(pathField: seq<byte>, info: seq<byte>): Entry
    requires |info| == INFO_SIZE
  {
    Entry(EntryPath(pathField), DecodeU32(info[8..12]), DecodeU32(info[12..16]))
  }

  /** A well-formed stored path: fits the field, has no NUL and does not start with a backslash. */
  predicate StorablePath(p: Text)
  {
    |p| <= PATH_FIELD_SIZE && NUL !in p && (p == [] || p[0] != BACKSLASH)
  }

  /** A storable record; the eight bytes before the size and the eight after the offset are written as zero. */
  function EncodeRecord(e: Entry): (r: seq<byte>)
    requires StorablePath(e.path) && e.compressedSize < U32_LIMIT && e.offset < U32_LIMIT
    ensures |r| == RECORD_SIZE
  {
    e.path + seq(PATH_FIELD_SIZE - |e.path|, _ => NUL)
      + seq(8, _ => 0) + EncodeU32(e.compressedSize) + EncodeU32(e.offset) + seq(8, _ => 0)
  }

  /** Dropping trailing bytes of a set undoes appending them to text that does not end in one. */
  lemma {:induction false} TrimEndPadding(s: Text, pad: seq<byte>, drop: set<byte>)
    requires forall i :: 0 <= i < |pad| ==> pad[i] in drop
    requires s == [] || s[|s| - 1] !in drop
    ensures TrimEndBy(s + pad, drop) == s
    decreases |pad|
  {
    if pad == [] {
      assert s + pad == s;
    } else {
      assert (s + pad)[..|s + pad| - 1] == s + pad[..|pad| - 1];
      TrimEndPadding(s, pad[..|pad| - 1], drop);
    }
  }

  /** Reading a record back yields the record written. */
  lemma RecordRoundTrip(e: Entry)
    requires StorablePath(e.path) && e.compressedSize < U32_LIMIT && e.offset < U32_LIMIT
    ensures DecodeRecord(EncodeRecord(e)[..PATH_FIELD_SIZE], EncodeRecord(e)[PATH_FIELD_SIZE..]) == e
  {
    hide EncodeU32, DecodeU32, TrimEndBy;
    var r := EncodeRecord(e);
    var pad := seq(PATH_FIELD_SIZE - |e.path|, _ => NUL);
    assert r[..PATH_FIELD_SIZE] == e.path + pad;
    TrimEndPadding(e.path, pad, {NUL});
    var info := r[PATH_FIELD_SIZE..];
    var size := EncodeU32(e.compressedSize);
    var offset := EncodeU32(e.offset);
    assert info == seq(8, _ => 0) + size + offset + seq(8, _ => 0);
    assert info[8..12] == EncodeU32(e.compressedSize);
    assert info[12..16] == EncodeU32(e.offset);
    U32RoundTrip(e.compressedSize);
    U32RoundTrip(e.offset);
  }

  // ---------------------------------------------------------------------------
  // The directory

  /** Where record `i` starts. */
  function SlotStart(h: Header, i: nat): nat
  {
    h.fileInfoOffset + i * 316
  }

  /** Whether record `i` lies inside the file. */
  predicate SlotFits(file: seq<byte>, h: Header, i: nat)
  {
    SlotStart(h, i) + RECORD_SIZE <= |file|
  }

  /** Record `i` of the directory. */
  function RecordAt(file: seq<byte>, h: Header, i: nat): Entry
    requires SlotFits(file, h, i)
  {
    var start := SlotStart(h, i);
    DecodeRecord(file[start..start + PATH_FIELD_SIZE], file[start + PATH_FIELD_SIZE..start + RECORD_SIZE])
  }

  /** Whether every record of the directory lies inside the file. */
  predicate DirectoryFits(file: seq<byte>, h: Header)
  {
    forall i :: 0 <= i < h.fileCount ==> SlotFits(file, h, i)
  }

  /** The directory: all `fileCount` records in order, or `None` when one of them passes the end of the file. */
  function Directory(file: seq<byte>, h: Header): (r: Option<seq<Entry>>)
    ensures r.Some? ==> |r.value| == h.fileCount
  {
    if DirectoryFits(file, h) then
      Some(seq(h.fileCount, i requires 0 <= i < h.fileCount && DirectoryFits(file, h) => RecordAt(file, h, i)))
    else None
  }

  /** A directory is the list of its records. */
  lemma DirectoryOfRecords(file: seq<byte>, h: Header, entries: seq<Entry>)
    requires |entries| == h.fileCount
    requires forall i :: 0 <= i < |entries| ==> SlotFits(file, h, i) && entries[i] == RecordAt(file, h, i)
    ensures Directory(file, h) == Some(entries)
  {
    var d := Directory(file, h).value;
    forall i | 0 <= i < |entries|
      ensures d[i] == entries[i]
    {
    }
    assert d == entries;
  }

  /** One record that passes the end of the file spoils the whole directory. */
  lemma DirectoryShort(file: seq<byte>, h: Header, i: nat)
    requires i < h.fileCount && !SlotFits(file, h, i)
    ensures Directory(file, h) == None
  {
  }

  /** Seeks to slot `i` and reads its path field, then its info bytes. */
  method ReadRecord(input: Reader, h: Header, i: nat) returns (e: Option<Entry>)
    modifies input
    ensures e.Some? <==> SlotFits(input.data, h, i)
    ensures e.Some? ==> e.value == RecordAt(input.data, h, i)
  {
    var start := h.fileInfoOffset + i * RECORD_STRIDE;
    input.Seek(start);
    ghost var slot := input.Rest();
    var pathField := input.ReadExact(PATH_FIELD_SIZE);
    if pathField.None? {
      return None;
    }
    ghost var afterPath := input.Rest();
    var info := input.ReadExact(INFO_SIZE);
    if info.None? {
      return None;
    }
    RecordRead(input.data, h, i, pathField.value, info.value, input.Rest());
    e := Some(DecodeRecord(pathField.value, info.value));
  }

  /**
   * The directory loop: reads the records in order; a short read ends the
   * whole operation.
   */
  method ReadDirectory(input: Reader, h: Header) returns (r: Option<seq<Entry>>)
    modifies input
    ensures r == Directory(input.data, h)
  {
    hide *;
    var entries: seq<Entry> := [];
    while |entries| < h.fileCount
      invariant |entries| <= h.fileCount
      invariant forall i :: 0 <= i < |entries| ==> SlotFits(input.data, h, i) && entries[i] == RecordAt(input.data, h, i)
    {
      var entry := ReadRecord(input, h, |entries|);
      if entry.None? {
        DirectoryShort(input.data, h, |entries|);
        return None;
      }
      ghost var before := entries;
      entries := entries + [entry.value];
      forall i | 0 <= i < |entries|
        ensures SlotFits(input.data, h, i) && entries[i] == RecordAt(input.data, h, i)
      {
        if i < |before| {
          assert entries[i] == before[i];
        }
      }
    }
    DirectoryOfRecords(input.data, h, entries);
    r := Some(entries);
  }

  /** The two reads of one slot together decode record `i`. */
  lemma RecordRead(file: seq<byte>, h: Header, i: nat, pathField: seq<byte>, info: seq<byte>, tail: seq<byte>)
    requires SlotStart(h, i) <= |file| && |pathField| == PATH_FIELD_SIZE && |info| == INFO_SIZE
    requires pathField + info + tail == file[SlotStart(h, i)..]
    ensures SlotFits(file, h, i)
    ensures RecordAt(file, h, i) == DecodeRecord(pathField, info)
  {
    var start := SlotStart(h, i);
    var rest := file[start..];
    assert file[start..start + PATH_FIELD_SIZE] == rest[..PATH_FIELD_SIZE] == pathField;
    assert file[start + PATH_FIELD_SIZE..start + RECORD_SIZE] == rest[PATH_FIELD_SIZE..RECORD_SIZE] == info;
  }

  /** A directory image: each record followed by the 36 unread bytes of its slot. */
  function EncodeDirectory(entries: seq<Entry>): (r: seq<byte>)
    requires forall e | e in entries :: StorablePath(e.path) && e.compressedSize < U32_LIMIT && e.offset < U32_LIMIT
    ensures |r| == |entries| * 316
  {
    if entries == [] then []
    else
      var last := entries[|entries| - 1];
      EncodeDirectory(entries[..|entries| - 1]) + EncodeRecord(last) + seq(RECORD_STRIDE - RECORD_SIZE, _ => 0)
  }

  /** Record `i` of a directory image sits at slot `i`. */
  lemma {:induction false} EncodeDirectorySlot(entries: seq<Entry>, i: nat)
    requires forall e | e in entries :: StorablePath(e.path) && e.compressedSize < U32_LIMIT && e.offset < U32_LIMIT
    requires i < |entries|
    ensures EncodeDirectory(entries)[i * 316..i * 316 + RECORD_SIZE] == EncodeRecord(entries[i])
    decreases |entries|
  {
    var init := entries[..|entries| - 1];
    var image := EncodeDirectory(entries);
    var front := EncodeDirectory(init);
    assert image == front + EncodeRecord(entries[|entries| - 1]) + seq(RECORD_STRIDE - RECORD_SIZE, _ => 0);
    if i < |entries| - 1 {
      assert init[i] == entries[i];
      EncodeDirectorySlot(init, i);
      assert image[i * 316..i * 316 + RECORD_SIZE] == front[i * 316..i * 316 + RECORD_SIZE];
    } else {
      assert i * 316 == |front|;
    }
  }

  /** A slice of the middle part of a concatenation. */
  lemma SliceOfMiddle(front: seq<byte>, mid: seq<byte>, back: seq<byte>, lo: nat, hi: nat)
    requires lo <= hi <= |mid|
    ensures (front + mid + back)[|front| + lo..|front| + hi] == mid[lo..hi]
  {
    assert front + mid + back == front + (mid + back);
  }

  /** The two slices of slot `i` when a directory image is placed at the directory offset. */
  lemma SlotSlices(front: seq<byte>, image: seq<byte>, payload: seq<byte>, h: Header, i: nat, record: seq<byte>)
    requires |front| == h.fileInfoOffset && |record| == RECORD_SIZE
    requires i * 316 + RECORD_SIZE <= |image| && image[i * 316..i * 316 + RECORD_SIZE] == record
    ensures SlotFits(front + image + payload, h, i)
    ensures (front + image + payload)[SlotStart(h, i)..SlotStart(h, i) + PATH_FIELD_SIZE] == record[..PATH_FIELD_SIZE]
    ensures (front + image + payload)[SlotStart(h, i) + PATH_FIELD_SIZE..SlotStart(h, i) + RECORD_SIZE] == record[PATH_FIELD_SIZE..]
  {
    var lo := i * 316;
    SliceOfMiddle(front, image, payload, lo, lo + PATH_FIELD_SIZE);
    SliceOfMiddle(front, image, payload, lo + PATH_FIELD_SIZE, lo + RECORD_SIZE);
    assert image[lo..lo + PATH_FIELD_SIZE] == record[..PATH_FIELD_SIZE];
    assert image[lo + PATH_FIELD_SIZE..lo + RECORD_SIZE] == record[PATH_FIELD_SIZE..];
  }

  /** Record `i` is decoded from the two slices of its slot. */
  lemma RecordAtSlices(file: seq<byte>, h: Header, i: nat, pathField: seq<byte>, info: seq<byte>)
    requires SlotFits(file, h, i) && |info| == INFO_SIZE
    requires file[SlotStart(h, i)..SlotStart(h, i) + PATH_FIELD_SIZE] == pathField
    requires file[SlotStart(h, i) + PATH_FIELD_SIZE..SlotStart(h, i) + RECORD_SIZE] == info
    ensures RecordAt(file, h, i) == DecodeRecord(pathField, info)
  {
  }

  /** A record found in slot `i` of a directory image placed at the directory offset is record `i` of the file. */
  lemma SlotOfImage(front: seq<byte>, image: seq<byte>, payload: seq<byte>, h: Header, i: nat, record: seq<byte>)
    requires |front| == h.fileInfoOffset && |record| == RECORD_SIZE
    requires i * 316 + RECORD_SIZE <= |image| && image[i * 316..i * 316 + RECORD_SIZE] == record
    ensures SlotFits(front + image + payload, h, i)
    ensures RecordAt(front + image + payload, h, i) == DecodeRecord(record[..PATH_FIELD_SIZE], record[PATH_FIELD_SIZE..])
  {
    SlotSlices(front, image, payload, h, i, record);
    RecordAtSlices(front + image + payload, h, i, record[..PATH_FIELD_SIZE], record[PATH_FIELD_SIZE..]);
  }

  /** Record `i` is read back from a directory image placed at the directory offset. */
  lemma ImageRecord(front: seq<byte>, h: Header, entries: seq<Entry>, payload: seq<byte>, i: nat)
    requires |front| == h.fileInfoOffset
    requires forall e | e in entries :: StorablePath(e.path) && e.compressedSize < U32_LIMIT && e.offset < U32_LIMIT
    requires i < |entries|
    ensures SlotFits(front + EncodeDirectory(entries) + payload, h, i)
    ensures RecordAt(front + EncodeDirectory(entries) + payload, h, i) == entries[i]
  {
    EncodeDirectorySlot(entries, i);
    SlotOfImage(front, EncodeDirectory(entries), payload, h, i, EncodeRecord(entries[i]));
    RecordRoundTrip(entries[i]);
  }

  /**
   * An archive written with a header whose directory offset points at a
   * directory image lists exactly the entries it was written with.
   */
  lemma DirectoryRoundTrip(prolog: seq<byte>, version: nat, entries: seq<Entry>, payload: seq<byte>)
    requires |prolog| == HEADER_OFFSET && version < U32_LIMIT && |entries| < U32_LIMIT
    requires forall e | e in entries :: StorablePath(e.path) && e.compressedSize < U32_LIMIT && e.offset < U32_LIMIT
    ensures var h := Header(version, |entries|, HEADER_OFFSET + HEADER_SIZE);
            var file := prolog + EncodeHeader(h) + EncodeDirectory(entries) + payload;
            DecodeHeader(file) == Some(h) && Directory(file, h) == Some(entries)
  {
    hide EncodeDirectory, EncodeHeader, DecodeHeader, Directory, StorablePath;
    var h := Header(version, |entries|, HEADER_OFFSET + HEADER_SIZE);
    var image := EncodeDirectory(entries);
    var front := prolog + EncodeHeader(h);
    assert DecodeHeader(front + image + payload) == Some(h) by {
      HeaderRoundTrip(prolog, h, image + payload);
      assert front + image + payload == prolog + EncodeHeader(h) + (image + payload);
    }
    DirectoryOfImage(front, h, entries, payload);
  }

  /** The directory read from a directory image placed at the directory offset. */
  lemma DirectoryOfImage(front: seq<byte>, h: Header, entries: seq<Entry>, payload: seq<byte>)
    requires |front| == h.fileInfoOffset && h.fileCount == |entries|
    requires forall e | e in entries :: StorablePath(e.path) && e.compressedSize < U32_LIMIT && e.offset < U32_LIMIT
    ensures Directory(front + EncodeDirectory(entries) + payload, h) == Some(entries)
  {
    var file := front + EncodeDirectory(entries) + payload;
    forall i | 0 <= i < |entries|
      ensures SlotFits(file, h, i) && entries[i] == RecordAt(file, h, i)
    {
      ImageRecord(front, h, entries, payload, i);
    }
    DirectoryOfRecords(file, h, entries);
  }

  // ---------------------------------------------------------------------------
  // The name an entry is written under

  /** `split('\0').next()`: the text before the first NUL. */
  function FirstPiece(s: Text): Text
  {
    Split(s, NUL)[0]
  }

  lemma FirstPieceCons(u: Text)
    requires u != [] && u[0] != NUL
    ensures FirstPiece(u) == [u[0]] + FirstPiece(u[1..])
  {
    if NUL in u {
      assert NUL in u[1..];
      var i := IndexOf(u, NUL);
      assert u[1..][..i - 1] == u[1..i];
    } else {
      assert NUL !in u[1..];
    }
  }

  lemma FirstPieceOfPrefix(s: Text, k: nat)
    requires k <= |s| && NUL !in s[..k] && (k == |s| || s[k] == NUL)
    ensures FirstPiece(s) == s[..k]
  {
    if k < |s| {
      IndexOfUnique(s, NUL, k);
    } else {
      assert s[..k] == s;
    }
  }

  lemma IndexOfFirst(s: Text, b: byte, j: nat)
    requires j < |s| && s[j] == b
    ensures IndexOf(s, b) <= j
    decreases j
  {
    if s[0] != b {
      IndexOfFirst(s[1..], b, j - 1);
    }
  }

  /** Leading backslashes may be removed before or after cutting at the first NUL. */
  lemma {:induction false} FirstPieceTrimStart(u: Text)
    ensures FirstPiece(TrimStartBy(u, {BACKSLASH})) == TrimStartBy(FirstPiece(u), {BACKSLASH})
    decreases |u|
  {
    if u == [] {
      assert FirstPiece(u) == [];
    } else if u[0] == BACKSLASH {
      assert TrimStartBy(u, {BACKSLASH}) == TrimStartBy(u[1..], {BACKSLASH});
      FirstPieceCons(u);
      var x := FirstPiece(u[1..]);
      assert ([u[0]] + x)[1..] == x;
      assert TrimStartBy([u[0]] + x, {BACKSLASH}) == TrimStartBy(x, {BACKSLASH});
      FirstPieceTrimStart(u[1..]);
    } else if u[0] != NUL {
      assert TrimStartBy(u, {BACKSLASH}) == u;
      FirstPieceCons(u);
      assert TrimStartBy(FirstPiece(u), {BACKSLASH}) == FirstPiece(u);
    } else {
      assert TrimStartBy(u, {BACKSLASH}) == u;
      FirstPieceOfPrefix(u, 0);
    }
  }

  /** Trailing NULs do not change the text before the first NUL. */
  lemma FirstPieceTrimEnd(field: Text)
    ensures FirstPiece(TrimEndBy(field, {NUL})) == FirstPiece(field)
  {
    var t := TrimEndBy(field, {NUL});
    if NUL in field {
      var k := IndexOf(field, NUL);
      FirstPieceOfPrefix(field, k);
      if |t| > k {
        assert t[..k] == field[..k];
        FirstPieceOfPrefix(t, k);
      } else {
        assert field[|t|] in {NUL};
        IndexOfFirst(field, NUL, |t|);
        assert t == field[..k];
        FirstPieceOfPrefix(t, |t|);
      }
    } else {
      assert t == field;
    }
  }
  /**
   * The path an entry is extracted to is the path field up to its first NUL,
   * with leading backslashes removed: it holds no NUL and does not start with
   * a backslash.
   */
  lemma EntryNameOfField(field: seq<byte>)
    ensures FirstPiece(EntryPath(field)) == TrimStartBy(FirstPiece(field), {BACKSLASH})
    ensures NUL !in FirstPiece(EntryPath(field))
    ensures FirstPiece(EntryPath(field)) == [] || FirstPiece(EntryPath(field))[0] != BACKSLASH
  {
    FirstPieceTrimStart(TrimEndBy(field, {NUL}));
    FirstPieceTrimEnd(field);
  }
}
