/**
 * The action-file converter (`convert_act_v6_to_v5`): it reads a version 6 (or
 * later) action file and writes the same file in the version 5 layout, copying
 * every field through a reader and a writer in lockstep and dropping the two
 * bytes version 6 added (one per action, one per signal).
 *
 * `Convert` states the outcome on the input's bytes: the input parsed at its
 * own version and encoded again at version 5, in the place `ActPath` computes.
 * The methods do the copying step by step, as the source does, and are proved
 * to produce exactly that. When a read fails after the output file was
 * created, the buffered writer is dropped and flushes what it holds: the file
 * then starts with the header, version 5, the count and every action copied
 * whole before the one that failed.
 */
module ActConverter {
  import opened Wrappers
  import opened Bytes
  import opened Text
  import opened Streams
  import opened ActFormat
  import opened ActPath

  /** The version the converter writes, and the first version it converts from. */
  const TARGET_VERSION: u32 := 5
  const FIRST_CONVERTED_VERSION: nat := 6

  /** What one call does: its result, and the directory and file it creates. */
  datatype Outcome =
    | InvalidFileName                                      // the input path has no file name
    | ReadFailed                                           // the header or the version could not be read
    | NotConverted                                         // `Ok(false)`: older than version 6, nothing created
    | Truncated(directory: Path, created: Option<Path>, keeps: seq<byte>)  // an error after the directory was
                                                                          // created; a file created starts with `keeps`
    | Converted(directory: Path, file: Path, bytes: seq<byte>)  // `Ok(true)`: the file written

  /**
   * The actions read whole from `s`, at most `count`, before the first that
   * cannot be read.
   */
  function WholeActions(s: seq<byte>, count: nat, version: nat): (r: Read<seq<Action>>)
    ensures |r.value| <= count && ParseActions(s, |r.value|, version) == Some(r) && ActionsFit(r.value)
    ensures |r.value| < count ==> ParseActions(s, |r.value| + 1, version).None?
    decreases count
  {
    if count == 0 then Read([], s)
    else
      var m := WholeActions(s, count - 1, version);
      if |m.value| < count - 1 then m
      else
        match ParseActions(s, count, version)
        case None => m
        case Some(p) =>
          ParseActionsConsumes(s, count, version);
          p
  }

  /** When action `i` is the first that cannot be read, the actions before it are those read whole. */
  lemma WholeActionsAt(s: seq<byte>, i: nat, count: nat, version: nat)
    requires i < count && ParseActions(s, i, version).Some? && ParseActions(s, i + 1, version).None?
    ensures WholeActions(s, count, version) == ParseActions(s, i, version).value
  {
    hide ParseActions, WholeActions;
    var n := |WholeActions(s, count, version).value|;
    if n < i {
      ParseActionsNone(s, n + 1, i, version);
      assert false;
    } else if n > i {
      ParseActionsNone(s, i + 1, n, version);
      assert false;
    }
  }

  /** What a file created and then cut short starts with: the header, version 5, the count, the whole actions. */
  function KeptOutput(header: seq<byte>, count: u32, rest: seq<byte>, version: nat): seq<byte>
  {
    header + EncodeU32(TARGET_VERSION) + EncodeU32(count) + EncodeActions(WholeActions(rest, count, version).value, TARGET_VERSION)
  }

  /**
   * The outcome for an input file with these bytes, file name and parent
   * directory (as text), and this output base.
   */
  function Convert(input: seq<byte>, fileName: Option<Text>, parent: Text, base: Path): (r: Outcome)
    ensures r.NotConverted? <==> fileName.Some? && HEADER_SIZE + 4 <= |input| && DecodeU32(input[32..36]) < 6
    ensures r.Converted? || r.Truncated? ==> fileName.Some? && r.directory == OutputDirectory(base, parent)
    ensures r.Converted? ==> r.file == OutputFile(r.directory, fileName.value)
  {
    if fileName.None? then InvalidFileName
    else
      match TakeBytes(input, HEADER_SIZE)
      case None => ReadFailed
      case Some(header) =>
        match TakeWord(header.rest)
        case None => ReadFailed
        case Some(version) =>
          if version.value < FIRST_CONVERTED_VERSION then NotConverted
          else
            var directory := OutputDirectory(base, parent);
            var file := OutputFile(directory, fileName.value);
            match TakeWord(version.rest)
            case None => Truncated(directory, None, [])
            case Some(count) =>
              match ParseActions(count.rest, count.value, version.value)
              case None => Truncated(directory, Some(file), KeptOutput(header.value, count.value, count.rest, version.value))
              case Some(acts) =>
                ParseActionsConsumes(count.rest, count.value, version.value);
                Converted(directory, file, EncodeFile(ActFile(header.value, TARGET_VERSION, acts.value)))
  }

  // ---------------------------------------------------------------------------
  // The copying helpers

  /** `read_string`: copies a sized string and returns its bytes (lossy UTF-8 decoding is the identity here). */
  method ReadString(fs: Reader, w: Writer) returns (r: Option<seq<byte>>)
    modifies fs, w
    ensures Prefix(old(w.bytes), w.bytes)
    ensures r == ValueOf(ParseSized(old(fs.Rest())))
    ensures r.Some? ==> fs.Rest() == ParseSized(old(fs.Rest())).value.rest
    ensures r.Some? ==> SizedFits(r.value) && w.bytes == old(w.bytes) + EncodeSized(r.value)
  {
    hide Prefix;
    ghost var s := fs.Rest();
    ghost var w0 := w.bytes;
    PrefixAppend(w0, []);
    var len := ReadWord(fs);
    if len.None? {
      return None;
    }
    w.WriteU32(len.value);
    PrefixAppend(w0, EncodeU32(len.value));
    ghost var afterLen := fs.Rest();
    var buf := fs.ReadExact(len.value);
    if buf.None? {
      return None;
    }
    w.Write(buf.value);
    PrefixGrow(w0, w0 + EncodeU32(len.value), buf.value);
    r := Some(buf.value);
    assert ParseSized(s) == Some(Read(buf.value, fs.Rest())) by {
      assert TakeWord(s) == Some(Read(len.value, afterLen));
      assert TakeBytes(afterLen, len.value) == Some(Read(buf.value, fs.Rest()));
    }
  }

  /** `read_u32::<LittleEndian>`, stated as a `TakeWord`. */
  method ReadWord(fs: Reader) returns (r: Option<u32>)
    modifies fs
    ensures r == ValueOf(TakeWord(old(fs.Rest())))
    ensures r.Some? ==> fs.Rest() == TakeWord(old(fs.Rest())).value.rest
  {
    var x := fs.ReadU32();
    if x.None? {
      return None;
    }
    r := Some(x.value as u32);
  }

  /** `read_multiple_u32`: copies `count` four-byte words verbatim. */
  method ReadMultipleU32(fs: Reader, w: Writer, count: nat) returns (ok: bool)
    modifies fs, w
    ensures Prefix(old(w.bytes), w.bytes)
    ensures var p := TakeBytes(old(fs.Rest()), 4 * count);
      (ok <==> p.Some?) && (ok ==> fs.Rest() == p.value.rest && w.bytes == old(w.bytes) + p.value.value)
  {
    hide Prefix;
    PrefixAppend(w.bytes, []);
    var buf := fs.ReadExact(count * 4);
    if buf.None? {
      return false;
    }
    PrefixAppend(w.bytes, buf.value);
    w.Write(buf.value);
    ok := true;
  }

  /** One row of `width` values, each read with `read_f32` and written back with `write_f32`: four bytes copied as they are. */
  method CopyValues(fs: Reader, w: Writer, width: nat) returns (ok: bool)
    modifies fs, w
    ensures Prefix(old(w.bytes), w.bytes)
    ensures var p := TakeBytes(old(fs.Rest()), 4 * width);
      (ok <==> p.Some?) && (ok ==> fs.Rest() == p.value.rest && w.bytes == old(w.bytes) + p.value.value)
  {
    hide Prefix, TakeBytes;
    ghost var s := fs.Rest();
    ghost var w0 := w.bytes;
    PrefixAppend(w0, []);
    ValueCopied(s, 0, TakeBytes(s[0..], 4));
    ok := true;
    var j := 0;
    while ok && j < width
      invariant j <= width
      invariant ok ==> 4 * j <= |s| && fs.Rest() == s[4 * j..] && w.bytes == w0 + s[..4 * j]
      invariant Prefix(w0, w.bytes)
      invariant !ok ==> |s| < 4 * width
    {
      ghost var before := fs.Rest();
      var v := fs.ReadExact(4);
      ValueCopied(s, j, TakeBytes(before, 4));
      if v.None? {
        ok := false;
      } else {
        PrefixGrow(w0, w.bytes, v.value);
        w.Write(v.value);
        j := j + 1;
      }
    }
    RowTaken(s, width);
  }

  /** The four bytes after the first `j` values are value `j`, or there are fewer than `j + 1` values. */
  lemma ValueCopied(s: seq<byte>, j: nat, v: Option<Read<seq<byte>>>)
    requires 4 * j <= |s| && v == TakeBytes(s[4 * j..], 4)
    ensures v.None? ==> |s| < 4 * (j + 1)
    ensures v.Some? ==>
      && 4 * (j + 1) <= |s| && v.value.rest == s[4 * (j + 1)..]
      && s[..4 * j] + v.value.value == s[..4 * (j + 1)]
    ensures s[..0] == [] && s[0..] == s
  {
  }

  /** A row is taken exactly when all its values are there. */
  lemma RowTaken(s: seq<byte>, width: nat)
    ensures TakeBytes(s, 4 * width).Some? <==> 4 * width <= |s|
    ensures 4 * width <= |s| ==> TakeBytes(s, 4 * width) == Some(Read(s[..4 * width], s[4 * width..]))
  {
  }

  /** `read_table`: copies a table of `width` values per id. */
  method ReadTable(fs: Reader, w: Writer, width: nat) returns (ok: bool)
    modifies fs, w
    ensures Prefix(old(w.bytes), w.bytes)
    ensures var p := ParseTable(old(fs.Rest()), width);
      (ok <==> p.Some?) && (ok ==> fs.Rest() == p.value.rest && w.bytes == old(w.bytes) + EncodeTable(p.value.value))
  {
    hide ParseTable, ParseRows, EncodeTable, Flatten, EncodeU32, TakeWord, Prefix;
    ghost var s := fs.Rest();
    ghost var w0 := w.bytes;
    PrefixAppend(w0, []);
    var n := ReadWord(fs);
    if n.None? {
      EmptyTableRead(s, width, []);
      return false;
    }
    w.WriteU32(n.value);
    PrefixAppend(w0, EncodeU32(n.value));
    ghost var afterCount := fs.Rest();
    if n.value == 0 {
      EmptyTableRead(s, width, afterCount);
      return true;
    }
    ghost var wk := w.bytes;
    ok := CopyTableBody(fs, w, n.value, width);
    PrefixTrans(w0, wk, w.bytes);
    TableRead(s, width, n.value, afterCount);
  }

  /** The ids of a table with a positive count, then its rows. */
  method CopyTableBody(fs: Reader, w: Writer, n: u32, width: nat) returns (ok: bool)
    modifies fs, w
    ensures Prefix(old(w.bytes), w.bytes)
    ensures var p := ParseTableBody(old(fs.Rest()), n, width);
      (ok <==> p.Some?) && (ok ==> fs.Rest() == p.value.rest && w.bytes == old(w.bytes) + p.value.value.ids + Flatten(p.value.value.rows))
  {
    hide ParseRows, Flatten, Prefix;
    ghost var s := fs.Rest();
    ghost var w0 := w.bytes;
    ok := ReadMultipleU32(fs, w, n);
    if ok {
      ghost var ids := TakeBytes(s, 4 * n).value;
      ghost var wk := w.bytes;
      ok := CopyRows(fs, w, n, width);
      PrefixTrans(w0, wk, w.bytes);
    }
  }

  /** The rows of a table (the nested loops of `read_table`). */
  method CopyRows(fs: Reader, w: Writer, count: nat, width: nat) returns (ok: bool)
    modifies fs, w
    ensures Prefix(old(w.bytes), w.bytes)
    ensures var p := ParseRows(old(fs.Rest()), count, width);
      (ok <==> p.Some?) && (ok ==> fs.Rest() == p.value.rest && w.bytes == old(w.bytes) + Flatten(p.value.value))
  {
    hide ParseRows, Flatten, Prefix, TakeBytes;
    ghost var start := fs.Rest();
    ghost var w0 := w.bytes;
    ghost var rows: seq<seq<byte>> := [];
    NoRows(start, width);
    PrefixAppend(w0, []);
    ok := true;
    var i := 0;
    while ok && i < count
      invariant i <= count
      invariant ok ==> ParseRows(start, i, width) == Some(Read(rows, fs.Rest())) && w.bytes == w0 + Flatten(rows)
      invariant Prefix(w0, w.bytes)
      invariant !ok ==> ParseRows(start, count, width).None?
    {
      ghost var before := fs.Rest();
      ghost var wb := w.bytes;
      ok := CopyValues(fs, w, width);
      PrefixTrans(w0, wb, w.bytes);
      RowCopied(start, i, rows, before, width, TakeBytes(before, 4 * width));
      if ok {
        rows := rows + [TakeBytes(before, 4 * width).value.value];
        i := i + 1;
      } else {
        ParseRowsNone(start, i + 1, count, width);
      }
    }
  }

  /** A table without a count cannot be read; a table with no ids is the count alone. */
  lemma EmptyTableRead(s: seq<byte>, width: nat, rest: seq<byte>)
    ensures TakeWord(s).None? ==> ParseTable(s, width).None?
    ensures TakeWord(s) == Some(Read(0, rest)) ==> ParseTable(s, width) == Some(Read(Table([], []), rest))
    ensures EncodeTable(Table([], [])) == EncodeU32(0)
  {
  }

  /** No rows read yet. */
  lemma NoRows(start: seq<byte>, width: nat)
    ensures ParseRows(start, 0, width) == Some(Read([], start)) && Flatten([]) == []
  {
  }

  /** How `ParseTable` reads a positive count and then the body after it. */
  lemma TableRead(s: seq<byte>, width: nat, n: u32, afterCount: seq<byte>)
    requires TakeWord(s) == Some(Read(n, afterCount)) && n > 0
    ensures ParseTable(s, width) == ParseTableBody(afterCount, n, width)
    ensures var b := ParseTableBody(afterCount, n, width);
      b.Some? ==> EncodeTable(b.value.value) == EncodeU32(n) + b.value.value.ids + Flatten(b.value.value.rows)
  {
  }

  /** One more row read after the first `i`, or the read that fails. */
  lemma RowCopied(start: seq<byte>, i: nat, rows: seq<seq<byte>>, before: seq<byte>, width: nat,
                  row: Option<Read<seq<byte>>>)
    requires ParseRows(start, i, width) == Some(Read(rows, before))
    requires TakeBytes(before, 4 * width) == row
    ensures row.None? ==> ParseRows(start, i + 1, width).None?
    ensures row.Some? ==>
      && ParseRows(start, i + 1, width) == Some(Read(rows + [row.value.value], row.value.rest))
      && Flatten(rows + [row.value.value]) == Flatten(rows) + row.value.value
  {
    if row.Some? {
      FlattenSnoc(rows, row.value.value);
    }
  }

  /** `read_variable_size_table`: copies a table whose entries are sized byte strings. */
  method ReadVariableSizeTable(fs: Reader, w: Writer) returns (ok: bool)
    modifies fs, w
    ensures Prefix(old(w.bytes), w.bytes)
    ensures ok <==> ParseLookup(old(fs.Rest())).Some?
    ensures ok ==> fs.Rest() == ParseLookup(old(fs.Rest())).value.rest
    ensures ok ==> w.bytes == old(w.bytes) + EncodeLookup(ParseLookup(old(fs.Rest())).value.value)
  {
    hide ParseLookup, ParseEntries, EncodeLookup, EncodeEntries, EncodeU32, TakeWord, LookupFits, EntriesFit, ParseSized, EncodeSized, TakeBytes, TakeU32, DecodeU32, SizedFits, Prefix;
    ghost var s := fs.Rest();
    ghost var w0 := w.bytes;
    PrefixAppend(w0, []);
    var n := ReadWord(fs);
    if n.None? {
      EmptyLookupRead(s, []);
      return false;
    }
    w.WriteU32(n.value);
    PrefixAppend(w0, EncodeU32(n.value));
    ghost var afterCount := fs.Rest();
    if n.value == 0 {
      EmptyLookupRead(s, afterCount);
      return true;
    }
    ghost var wk := w.bytes;
    ok := ReadMultipleU32(fs, w, n.value);
    PrefixTrans(w0, wk, w.bytes);
    if !ok {
      LookupRead(s, n.value, afterCount, None, None);
      return;
    }
    ghost var ids := TakeBytes(afterCount, 4 * (n.value as nat)).value;
    wk := w.bytes;
    ok := CopyEntries(fs, w, n.value);
    PrefixTrans(w0, wk, w.bytes);
    LookupRead(s, n.value, afterCount, Some(ids), ParseEntries(ids.rest, n.value));
  }

  /** The entries of a variable-size table (the loop of `read_variable_size_table`). */
  method CopyEntries(fs: Reader, w: Writer, count: nat) returns (ok: bool)
    modifies fs, w
    ensures Prefix(old(w.bytes), w.bytes)
    ensures var p := ParseEntries(old(fs.Rest()), count);
      (ok <==> p.Some?) && (ok ==> fs.Rest() == p.value.rest && w.bytes == old(w.bytes) + EncodeEntries(p.value.value))
  {
    hide ParseEntries, EncodeEntries, ParseSized, EncodeSized, EntriesFit, Prefix;
    ghost var start := fs.Rest();
    ghost var w0 := w.bytes;
    ghost var entries: seq<seq<byte>> := [];
    NoEntries(start);
    PrefixAppend(w0, []);
    ok := true;
    var i := 0;
    while ok && i < count
      invariant i <= count
      invariant ok ==> ParseEntries(start, i) == Some(Read(entries, fs.Rest()))
      invariant ok ==> EntriesFit(entries) && w.bytes == w0 + EncodeEntries(entries)
      invariant Prefix(w0, w.bytes)
      invariant !ok ==> ParseEntries(start, count).None?
    {
      ghost var before := fs.Rest();
      ghost var wb := w.bytes;
      ok := CopyEntry(fs, w);
      PrefixTrans(w0, wb, w.bytes);
      EntryCopied(start, i, entries, before, ParseSized(before));
      if ok {
        entries := entries + [ParseSized(before).value.value];
        i := i + 1;
      } else {
        ParseEntriesNone(start, i + 1, count);
      }
    }
  }

  /**
   * One entry: its size, read and written as a u32, then that many bytes.
   * (`usize::try_from` of a u32 cannot fail on the 32- and 64-bit targets the
   * tool is built for.)
   */
  method CopyEntry(fs: Reader, w: Writer) returns (ok: bool)
    modifies fs, w
    ensures Prefix(old(w.bytes), w.bytes)
    ensures var p := ParseSized(old(fs.Rest()));
      (ok <==> p.Some?) && (ok ==> fs.Rest() == p.value.rest && w.bytes == old(w.bytes) + EncodeSized(p.value.value))
  {
    hide Prefix;
    ghost var s := fs.Rest();
    ghost var w0 := w.bytes;
    PrefixAppend(w0, []);
    var size := ReadWord(fs);
    if size.None? {
      return false;
    }
    w.WriteU32(size.value);
    PrefixAppend(w0, EncodeU32(size.value));
    ghost var afterSize := fs.Rest();
    var data := fs.ReadExact(size.value);
    if data.None? {
      return false;
    }
    w.Write(data.value);
    PrefixGrow(w0, w0 + EncodeU32(size.value), data.value);
    assert TakeWord(s) == Some(Read(size.value, afterSize));
    ok := true;
  }

  /** A table without a count cannot be read; a table with no ids is the count alone. */
  lemma EmptyLookupRead(s: seq<byte>, rest: seq<byte>)
    ensures TakeWord(s).None? ==> ParseLookup(s).None?
    ensures TakeWord(s) == Some(Read(0, rest)) ==> ParseLookup(s) == Some(Read(Lookup([], []), rest))
    ensures LookupFits(Lookup([], [])) && EncodeLookup(Lookup([], [])) == EncodeU32(0)
  {
  }

  /** How `ParseLookup` reads a positive count, the ids after it and then the entries. */
  lemma LookupRead(s: seq<byte>, n: u32, afterCount: seq<byte>,
                   ids: Option<Read<seq<byte>>>, entries: Option<Read<seq<seq<byte>>>>)
    requires TakeWord(s) == Some(Read(n, afterCount)) && n > 0
    requires TakeBytes(afterCount, 4 * n) == ids
    requires ids.Some? ==> ParseEntries(ids.value.rest, n) == entries
    ensures ids.None? || entries.None? ==> ParseLookup(s).None?
    ensures ids.Some? && entries.Some? ==>
      && ParseLookup(s) == Some(Read(Lookup(ids.value.value, entries.value.value), entries.value.rest))
      && LookupFits(Lookup(ids.value.value, entries.value.value))
      && EncodeLookup(Lookup(ids.value.value, entries.value.value))
         == EncodeU32(n) + ids.value.value + EncodeEntries(entries.value.value)
  {
  }

  /** No entries read yet. */
  lemma NoEntries(start: seq<byte>)
    ensures ParseEntries(start, 0) == Some(Read([], start)) && EntriesFit([]) && EncodeEntries([]) == []
  {
  }

  /** One more entry read after the first `i`, or the read that fails. */
  lemma EntryCopied(start: seq<byte>, i: nat, entries: seq<seq<byte>>, before: seq<byte>, e: Option<Read<seq<byte>>>)
    requires ParseEntries(start, i) == Some(Read(entries, before))
    requires ParseSized(before) == e
    ensures e.None? ==> ParseEntries(start, i + 1).None?
    ensures e.Some? ==>
      && ParseEntries(start, i + 1) == Some(Read(entries + [e.value.value], e.value.rest))
      && EntriesFit(entries + [e.value.value])
      && EncodeEntries(entries + [e.value.value]) == EncodeEntries(entries) + EncodeSized(e.value.value)
  {
    if e.Some? {
      EncodeEntriesSnoc(entries, e.value.value);
    }
  }

  // ---------------------------------------------------------------------------
  // Signals, actions and the whole file

  /** One signal (the body of the inner loop): copied, less the version 6 byte at its end. */
  method ConvertSignal(fs: Reader, w: Writer, version: nat) returns (ok: bool)
    modifies fs, w
    ensures Prefix(old(w.bytes), w.bytes)
    ensures var p := ParseSignal(old(fs.Rest()), version);
      (ok <==> p.Some?)
      && (ok ==> SignalFits(p.value.value) && fs.Rest() == p.value.rest
                 && w.bytes == old(w.bytes) + EncodeSignal(p.value.value, TARGET_VERSION))
  {
    hide TakeBytes, ParseTable, ParseLookup, EncodeTable, EncodeLookup, TableFits, LookupFits, ParseByteSince,
      EncodeByteSince, ParseSignal, Prefix;
    ghost var s := fs.Rest();
    ghost var w0 := w.bytes;
    ok := ReadMultipleU32(fs, w, 4);
    ghost var head := TakeBytes(s, SIGNAL_HEAD_SIZE);
    if !ok {
      SignalRead(s, version, head, None, None, None, None, None, None);
      return;
    }
    var data := fs.ReadExact(SIGNAL_DATA_SIZE);
    ghost var block := TakeBytes(head.value.rest, SIGNAL_DATA_SIZE);
    if data.None? {
      SignalRead(s, version, head, block, None, None, None, None, None);
      return false;
    }
    PrefixGrow(w0, w.bytes, data.value);
    w.Write(data.value);
    ghost var wk := w.bytes;
    ok := ReadTable(fs, w, 2);
    PrefixTrans(w0, wk, w.bytes);
    ghost var pairs := ParseTable(block.value.rest, 2);
    if !ok {
      SignalRead(s, version, head, block, pairs, None, None, None, None);
      return;
    }
    wk := w.bytes;
    ok := ReadTable(fs, w, 3);
    PrefixTrans(w0, wk, w.bytes);
    ghost var triples := ParseTable(pairs.value.rest, 3);
    if !ok {
      SignalRead(s, version, head, block, pairs, triples, None, None, None);
      return;
    }
    wk := w.bytes;
    ok := ReadTable(fs, w, 4);
    PrefixTrans(w0, wk, w.bytes);
    ghost var quads := ParseTable(triples.value.rest, 4);
    if !ok {
      SignalRead(s, version, head, block, pairs, triples, quads, None, None);
      return;
    }
    wk := w.bytes;
    ok := ReadVariableSizeTable(fs, w);
    PrefixTrans(w0, wk, w.bytes);
    ghost var lookup := ParseLookup(quads.value.rest);
    if !ok {
      SignalRead(s, version, head, block, pairs, triples, quads, lookup, None);
      return;
    }
    wk := w.bytes;
    var act6Signal := CopyByteSince(fs, w, version >= 6, false);
    PrefixTrans(w0, wk, w.bytes);
    ghost var act6 := ParseByteSince(lookup.value.rest, version >= 6);
    SignalRead(s, version, head, block, pairs, triples, quads, lookup, act6);
    ok := act6Signal.Some?;
    if ok {
      ParseSignalConsumes(s, version);
      SignalWritten(w0, ParseSignal(s, version).value.value);
    }
  }

  /** The version 5 encoding of a signal, appended to what was written before, piece by piece. */
  lemma SignalWritten(w0: seq<byte>, sg: Signal)
    requires SignalFits(sg)
    ensures w0 + EncodeSignal(sg, TARGET_VERSION) == w0 + sg.head + sg.data + EncodeTable(sg.pairs)
      + EncodeTable(sg.triples) + EncodeTable(sg.quads) + EncodeLookup(sg.lookup)
  {
    hide EncodeTable, EncodeLookup;
    assert EncodeSignal(sg, TARGET_VERSION) == sg.head + sg.data + EncodeTable(sg.pairs) + EncodeTable(sg.triples)
      + EncodeTable(sg.quads) + EncodeLookup(sg.lookup);
  }

  /** How `ParseSignal` reads its seven parts one after the other, and stops at the first it cannot read. */
  lemma SignalRead(s: seq<byte>, version: nat, head: Option<Read<seq<byte>>>, data: Option<Read<seq<byte>>>,
                   pairs: Option<Read<Table>>, triples: Option<Read<Table>>, quads: Option<Read<Table>>,
                   lookup: Option<Read<Lookup>>, act6: Option<Read<byte>>)
    requires head == TakeBytes(s, SIGNAL_HEAD_SIZE)
    requires head.Some? ==> data == TakeBytes(head.value.rest, SIGNAL_DATA_SIZE)
    requires head.Some? && data.Some? ==> pairs == ParseTable(data.value.rest, 2)
    requires head.Some? && data.Some? && pairs.Some? ==> triples == ParseTable(pairs.value.rest, 3)
    requires head.Some? && data.Some? && pairs.Some? && triples.Some? ==> quads == ParseTable(triples.value.rest, 4)
    requires head.Some? && data.Some? && pairs.Some? && triples.Some? && quads.Some? ==>
      lookup == ParseLookup(quads.value.rest)
    requires head.Some? && data.Some? && pairs.Some? && triples.Some? && quads.Some? && lookup.Some? ==>
      act6 == ParseByteSince(lookup.value.rest, version >= 6)
    ensures ParseSignal(s, version).Some? <==>
      head.Some? && data.Some? && pairs.Some? && triples.Some? && quads.Some? && lookup.Some? && act6.Some?
    ensures ParseSignal(s, version).Some? ==>
      ParseSignal(s, version) == Some(Read(Signal(head.value.value, data.value.value, pairs.value.value,
                                                  triples.value.value, quads.value.value, lookup.value.value,
                                                  act6.value.value), act6.value.rest))
  {
  }

  /** A u32 field copied as it is. */
  method CopyWord(fs: Reader, w: Writer) returns (r: Option<u32>)
    modifies fs, w
    ensures Prefix(old(w.bytes), w.bytes)
    ensures r == ValueOf(TakeWord(old(fs.Rest())))
    ensures r.Some? ==> fs.Rest() == TakeWord(old(fs.Rest())).value.rest && w.bytes == old(w.bytes) + EncodeU32(r.value)
  {
    hide Prefix;
    PrefixAppend(w.bytes, []);
    var x := fs.ReadU32();
    if x.None? {
      return None;
    }
    PrefixAppend(w.bytes, EncodeU32(x.value));
    w.WriteU32(x.value);
    r := Some(x.value as u32);
  }

  /** The fields of an action before its signal count, the version 6 byte read and dropped. */
  method ConvertActionHead(fs: Reader, w: Writer, version: nat) returns (ok: bool)
    requires version >= FIRST_CONVERTED_VERSION
    modifies fs, w
    ensures Prefix(old(w.bytes), w.bytes)
    ensures var p := ParseActionHead(old(fs.Rest()), version);
      (ok <==> p.Some?)
      && (ok ==> ActionFits(p.value.value) && fs.Rest() == p.value.rest
                 && w.bytes == old(w.bytes) + EncodeActionHead(p.value.value, TARGET_VERSION))
  {
    hide ParseSized, TakeWord, ParseAdditions, EncodeSized, EncodeU32, EncodeAdditions, ParseActionHead, SizedFits, Prefix;
    ghost var s := fs.Rest();
    ghost var w0 := w.bytes;
    PrefixAppend(w0, []);
    ok := false;
    ghost var wk := w.bytes;
    var name := ReadString(fs, w);
    PrefixTrans(w0, wk, w.bytes);
    ghost var pName := ParseSized(s);
    if name.None? {
      ActionHeadRead(s, version, pName, None, None, None, None, None, None);
      return;
    }
    wk := w.bytes;
    var linkAniName := ReadString(fs, w);
    PrefixTrans(w0, wk, w.bytes);
    ghost var pLink := ParseSized(pName.value.rest);
    if linkAniName.None? {
      ActionHeadRead(s, version, pName, pLink, None, None, None, None, None);
      return;
    }
    wk := w.bytes;
    var length := CopyWord(fs, w);
    PrefixTrans(w0, wk, w.bytes);
    ghost var pLength := TakeWord(pLink.value.rest);
    if length.None? {
      ActionHeadRead(s, version, pName, pLink, pLength, None, None, None, None);
      return;
    }
    wk := w.bytes;
    var nextActionName := ReadString(fs, w);
    PrefixTrans(w0, wk, w.bytes);
    ghost var pNext := ParseSized(pLength.value.rest);
    if nextActionName.None? {
      ActionHeadRead(s, version, pName, pLink, pLength, pNext, None, None, None);
      return;
    }
    wk := w.bytes;
    var blendFrame := CopyWord(fs, w);
    PrefixTrans(w0, wk, w.bytes);
    ghost var pBlend := TakeWord(pNext.value.rest);
    if blendFrame.None? {
      ActionHeadRead(s, version, pName, pLink, pLength, pNext, pBlend, None, None);
      return;
    }
    wk := w.bytes;
    var nextActionFrame := CopyWord(fs, w);
    PrefixTrans(w0, wk, w.bytes);
    ghost var pFrame := TakeWord(pBlend.value.rest);
    if nextActionFrame.None? {
      ActionHeadRead(s, version, pName, pLink, pLength, pNext, pBlend, pFrame, None);
      return;
    }
    wk := w.bytes;
    ok := ConvertAdditions(fs, w, version);
    PrefixTrans(w0, wk, w.bytes);
    ghost var pAdditions := ParseAdditions(pFrame.value.rest, version);
    ActionHeadRead(s, version, pName, pLink, pLength, pNext, pBlend, pFrame, pAdditions);
    if ok {
      ParseActionHeadConsumes(s, version);
      ActionHeadWritten(w0, ParseActionHead(s, version).value.value);
    }
  }

  /** How `ParseActionHead` reads its seven parts one after the other, and stops at the first it cannot read. */
  lemma ActionHeadRead(s: seq<byte>, version: nat, name: Option<Read<seq<byte>>>, link: Option<Read<seq<byte>>>,
                       length: Option<Read<u32>>, next: Option<Read<seq<byte>>>, blend: Option<Read<u32>>,
                       frame: Option<Read<u32>>, x: Option<Read<Additions>>)
    requires name == ParseSized(s)
    requires name.Some? ==> link == ParseSized(name.value.rest)
    requires name.Some? && link.Some? ==> length == TakeWord(link.value.rest)
    requires name.Some? && link.Some? && length.Some? ==> next == ParseSized(length.value.rest)
    requires name.Some? && link.Some? && length.Some? && next.Some? ==> blend == TakeWord(next.value.rest)
    requires name.Some? && link.Some? && length.Some? && next.Some? && blend.Some? ==> frame == TakeWord(blend.value.rest)
    requires name.Some? && link.Some? && length.Some? && next.Some? && blend.Some? && frame.Some? ==>
      x == ParseAdditions(frame.value.rest, version)
    ensures ParseActionHead(s, version).Some? <==>
      name.Some? && link.Some? && length.Some? && next.Some? && blend.Some? && frame.Some? && x.Some?
    ensures ParseActionHead(s, version).Some? ==>
      ParseActionHead(s, version) == Some(Read(Action(name.value.value, link.value.value, length.value.value,
                                                      next.value.value, blend.value.value, frame.value.value,
                                                      x.value.value, []), x.value.rest))
  {
  }

  /** The version 5 encoding of an action's head, appended to what was written before, field by field. */
  lemma ActionHeadWritten(w0: seq<byte>, a: Action)
    requires ActionFits(a)
    ensures w0 + EncodeActionHead(a, TARGET_VERSION) == w0 + EncodeSized(a.name) + EncodeSized(a.linkAniName)
      + EncodeU32(a.length) + EncodeSized(a.nextActionName) + EncodeU32(a.blendFrame) + EncodeU32(a.nextActionFrame)
      + EncodeAdditions(a.additions, TARGET_VERSION)
  {
    hide EncodeSized, EncodeU32, EncodeAdditions;
    assert EncodeActionHead(a, TARGET_VERSION) == EncodeSized(a.name) + EncodeSized(a.linkAniName)
      + EncodeU32(a.length) + EncodeSized(a.nextActionName) + EncodeU32(a.blendFrame) + EncodeU32(a.nextActionFrame)
      + EncodeAdditions(a.additions, TARGET_VERSION);
  }

  /** The fields versions 2 to 6 added; the version 6 byte is read and not written. */
  method ConvertAdditions(fs: Reader, w: Writer, version: nat) returns (ok: bool)
    requires version >= FIRST_CONVERTED_VERSION
    modifies fs, w
    ensures Prefix(old(w.bytes), w.bytes)
    ensures var p := ParseAdditions(old(fs.Rest()), version);
      (ok <==> p.Some?)
      && (ok ==> fs.Rest() == p.value.rest && w.bytes == old(w.bytes) + EncodeAdditions(p.value.value, TARGET_VERSION))
  {
    hide ParseSince, ParseByteSince, EncodeSince, EncodeByteSince, ParseAdditions, Prefix;
    ghost var s := fs.Rest();
    ghost var w0 := w.bytes;
    PrefixAppend(w0, []);
    ok := false;
    ghost var wk := w.bytes;
    var unknownV2 := CopySince(fs, w, version >= 2);
    PrefixTrans(w0, wk, w.bytes);
    ghost var p2 := ParseSince(s, version >= 2);
    if unknownV2.None? {
      AdditionsRead(s, version, p2, None, None, None, None);
      return;
    }
    wk := w.bytes;
    var unknownV3 := CopySince(fs, w, version >= 3);
    PrefixTrans(w0, wk, w.bytes);
    ghost var p3 := ParseSince(p2.value.rest, version >= 3);
    if unknownV3.None? {
      AdditionsRead(s, version, p2, p3, None, None, None);
      return;
    }
    wk := w.bytes;
    var unknownV4 := CopyByteSince(fs, w, version >= 4, true);
    PrefixTrans(w0, wk, w.bytes);
    ghost var p4 := ParseByteSince(p3.value.rest, version >= 4);
    if unknownV4.None? {
      AdditionsRead(s, version, p2, p3, p4, None, None);
      return;
    }
    wk := w.bytes;
    var unknownV5 := CopySince(fs, w, version >= 5);
    PrefixTrans(w0, wk, w.bytes);
    ghost var p5 := ParseSince(p4.value.rest, version >= 5);
    if unknownV5.None? {
      AdditionsRead(s, version, p2, p3, p4, p5, None);
      return;
    }
    wk := w.bytes;
    var unknownV6 := CopyByteSince(fs, w, version >= 6, TARGET_VERSION >= 6);
    PrefixTrans(w0, wk, w.bytes);
    ghost var p6 := ParseByteSince(p5.value.rest, version >= 6);
    AdditionsRead(s, version, p2, p3, p4, p5, p6);
    ok := unknownV6.Some?;
  }

  /** How `ParseAdditions` reads its five fields one after the other, and stops at the first it cannot read. */
  lemma AdditionsRead(s: seq<byte>, version: nat, p2: Option<Read<u32>>, p3: Option<Read<u32>>,
                      p4: Option<Read<byte>>, p5: Option<Read<u32>>, p6: Option<Read<byte>>)
    requires p2 == ParseSince(s, version >= 2)
    requires p2.Some? ==> p3 == ParseSince(p2.value.rest, version >= 3)
    requires p2.Some? && p3.Some? ==> p4 == ParseByteSince(p3.value.rest, version >= 4)
    requires p2.Some? && p3.Some? && p4.Some? ==> p5 == ParseSince(p4.value.rest, version >= 5)
    requires p2.Some? && p3.Some? && p4.Some? && p5.Some? ==> p6 == ParseByteSince(p5.value.rest, version >= 6)
    ensures ParseAdditions(s, version).Some? <==> p2.Some? && p3.Some? && p4.Some? && p5.Some? && p6.Some?
    ensures ParseAdditions(s, version).Some? ==>
      ParseAdditions(s, version) == Some(Read(Additions(p2.value.value, p3.value.value, p4.value.value,
                                                        p5.value.value, p6.value.value), p6.value.rest))
  {
  }

  /** A u32 field that versions from some number on have: read, and written back, when present. */
  method CopySince(fs: Reader, w: Writer, present: bool) returns (r: Option<u32>)
    modifies fs, w
    ensures Prefix(old(w.bytes), w.bytes)
    ensures r == ValueOf(ParseSince(old(fs.Rest()), present))
    ensures r.Some? ==> fs.Rest() == ParseSince(old(fs.Rest()), present).value.rest
    ensures r.Some? ==> w.bytes == old(w.bytes) + EncodeSince(r.value, present)
  {
    hide Prefix;
    PrefixAppend(w.bytes, []);
    if present {
      r := CopyWord(fs, w);
    } else {
      r := Some(0);
    }
  }

  /** A one-byte field that versions from some number on have: read when present, and written back when `keep`. */
  method CopyByteSince(fs: Reader, w: Writer, present: bool, keep: bool) returns (r: Option<byte>)
    modifies fs, w
    ensures Prefix(old(w.bytes), w.bytes)
    ensures r == ValueOf(ParseByteSince(old(fs.Rest()), present))
    ensures r.Some? ==> fs.Rest() == ParseByteSince(old(fs.Rest()), present).value.rest
    ensures r.Some? ==> w.bytes == old(w.bytes) + EncodeByteSince(r.value, present && keep)
  {
    hide Prefix;
    PrefixAppend(w.bytes, []);
    if present {
      r := fs.ReadU8();
      if r.Some? && keep {
        PrefixAppend(w.bytes, [r.value]);
        w.WriteU8(r.value);
      }
    } else {
      r := Some(0);
    }
  }

  /** One action (the body of the outer loop), with all its signals. */
  method ConvertAction(fs: Reader, w: Writer, version: nat) returns (ok: bool)
    requires version >= FIRST_CONVERTED_VERSION
    modifies fs, w
    ensures Prefix(old(w.bytes), w.bytes)
    ensures var p := ParseAction(old(fs.Rest()), version);
      (ok <==> p.Some?)
      && (ok ==> ActionFits(p.value.value) && fs.Rest() == p.value.rest
                 && w.bytes == old(w.bytes) + EncodeAction(p.value.value, TARGET_VERSION))
  {
    hide ParseActionHead, ParseSignals, ParseSignal, EncodeSignals, EncodeSignal, EncodeActionHead, TakeWord,
      EncodeU32, ParseAction, EncodeAction, SignalFits, ActionFits, Prefix;
    ghost var s := fs.Rest();
    ghost var w0 := w.bytes;
    ok := ConvertActionHead(fs, w, version);
    ghost var head := ParseActionHead(s, version);
    if !ok {
      ActionRead(s, version, head, None, None);
      return;
    }
    ghost var wk := w.bytes;
    var signalCount := CopyWord(fs, w);
    PrefixTrans(w0, wk, w.bytes);
    ghost var count := TakeWord(head.value.rest);
    if signalCount.None? {
      ActionRead(s, version, head, count, None);
      return false;
    }
    ghost var start := fs.Rest();
    ghost var w2 := w.bytes;
    ghost var sgs: seq<Signal> := [];
    NoSignals(start, version);
    PrefixAppend(w2, []);
    var i := 0;
    while ok && i < signalCount.value
      invariant i <= signalCount.value
      invariant ok ==> ParseSignals(start, i, version) == Some(Read(sgs, fs.Rest())) && |sgs| == i
      invariant ok ==> SignalsFit(sgs) && w.bytes == w2 + EncodeSignals(sgs, TARGET_VERSION)
      invariant Prefix(w0, w2) && Prefix(w2, w.bytes)
      invariant !ok ==> ParseSignals(start, signalCount.value, version).None?
    {
      ghost var before := fs.Rest();
      ghost var wb := w.bytes;
      ok := ConvertSignal(fs, w, version);
      PrefixTrans(w2, wb, w.bytes);
      SignalCopied(start, i, sgs, before, version, ParseSignal(before, version));
      if ok {
        sgs := sgs + [ParseSignal(before, version).value.value];
        i := i + 1;
      } else {
        ParseSignalsNone(start, i + 1, signalCount.value, version);
      }
    }
    PrefixTrans(w0, w2, w.bytes);
    ActionRead(s, version, head, count, ParseSignals(start, signalCount.value, version));
    if ok {
      ParseActionConsumes(s, version);
      ActionWritten(w0, head.value.value, sgs);
    }
  }

  /** No signals read yet. */
  lemma NoSignals(start: seq<byte>, version: nat)
    ensures ParseSignals(start, 0, version) == Some(Read([], start)) && SignalsFit([])
    ensures EncodeSignals([], TARGET_VERSION) == []
  {
  }

  /** One more signal read after the first `i`, or the read that fails. */
  lemma SignalCopied(start: seq<byte>, i: nat, sgs: seq<Signal>, before: seq<byte>, version: nat,
                     sg: Option<Read<Signal>>)
    requires ParseSignals(start, i, version) == Some(Read(sgs, before)) && SignalsFit(sgs)
    requires ParseSignal(before, version) == sg
    ensures sg.None? ==> ParseSignals(start, i + 1, version).None?
    ensures sg.Some? && SignalFits(sg.value.value) ==>
      && ParseSignals(start, i + 1, version) == Some(Read(sgs + [sg.value.value], sg.value.rest))
      && SignalsFit(sgs + [sg.value.value])
      && EncodeSignals(sgs + [sg.value.value], TARGET_VERSION)
         == EncodeSignals(sgs, TARGET_VERSION) + EncodeSignal(sg.value.value, TARGET_VERSION)
  {
    if sg.Some? && SignalFits(sg.value.value) {
      EncodeSignalsSnoc(sgs, sg.value.value, TARGET_VERSION);
    }
  }

  /** How `ParseAction` reads the head, the signal count and then the signals. */
  lemma ActionRead(s: seq<byte>, version: nat, head: Option<Read<Action>>, count: Option<Read<u32>>,
                   sgs: Option<Read<seq<Signal>>>)
    requires head == ParseActionHead(s, version)
    requires head.Some? ==> count == TakeWord(head.value.rest)
    requires head.Some? && count.Some? ==> sgs == ParseSignals(count.value.rest, count.value.value, version)
    ensures ParseAction(s, version).Some? <==> head.Some? && count.Some? && sgs.Some?
    ensures ParseAction(s, version).Some? ==>
      ParseAction(s, version) == Some(Read(head.value.value.(signals := sgs.value.value), sgs.value.rest))
  {
  }

  /** The version 5 encoding of an action: its head, its signal count and its signals. */
  lemma ActionWritten(w0: seq<byte>, head: Action, sgs: seq<Signal>)
    requires ActionFits(head) && ActionFits(head.(signals := sgs))
    ensures SignalsFit(sgs)
    ensures w0 + EncodeAction(head.(signals := sgs), TARGET_VERSION) == w0 + EncodeActionHead(head, TARGET_VERSION)
      + EncodeU32(|sgs|) + EncodeSignals(sgs, TARGET_VERSION)
  {
    hide *;
    var a := head.(signals := sgs);
    HeadWithoutSignals(head, sgs);
    EncodeActionParts(a);
    AppendThree(w0, EncodeActionHead(head, TARGET_VERSION), EncodeU32(|sgs|), EncodeSignals(sgs, TARGET_VERSION));
  }

  lemma EncodeActionParts(a: Action)
    requires ActionFits(a)
    ensures SignalsFit(a.signals) && |a.signals| < U32_LIMIT
    ensures EncodeAction(a, TARGET_VERSION) == EncodeActionHead(a, TARGET_VERSION) + EncodeU32(|a.signals|)
      + EncodeSignals(a.signals, TARGET_VERSION)
  {
  }

  lemma AppendThree(w0: seq<byte>, a: seq<byte>, b: seq<byte>, c: seq<byte>)
    ensures w0 + (a + b + c) == w0 + a + b + c
  {
  }

  /** The head of an action is encoded the same whatever its signals. */
  lemma HeadWithoutSignals(head: Action, sgs: seq<Signal>)
    requires ActionFits(head) && ActionFits(head.(signals := sgs))
    ensures EncodeActionHead(head.(signals := sgs), TARGET_VERSION) == EncodeActionHead(head, TARGET_VERSION)
  {
    hide EncodeSized, EncodeU32, EncodeAdditions;
  }

  /** The outer loop of `convert_act_v6_to_v5`: `count` actions, each copied less its version 6 bytes. */
  method ConvertActions(fs: Reader, w: Writer, count: u32, version: nat) returns (ok: bool)
    requires version >= FIRST_CONVERTED_VERSION
    modifies fs, w
    ensures Prefix(old(w.bytes), w.bytes)
    ensures var p := ParseActions(old(fs.Rest()), count, version);
      (ok <==> p.Some?)
      && (ok ==> ActionsFit(p.value.value) && fs.Rest() == p.value.rest
                 && w.bytes == old(w.bytes) + EncodeActions(p.value.value, TARGET_VERSION))
    ensures !ok ==> Prefix(old(w.bytes) + EncodeActions(WholeActions(old(fs.Rest()), count, version).value, TARGET_VERSION), w.bytes)
  {
    hide ParseActions, ParseAction, EncodeActions, EncodeAction, ActionFits, WholeActions, Prefix;
    ghost var start := fs.Rest();
    ghost var w0 := w.bytes;
    ghost var acts: seq<Action> := [];
    NoActions(start, version);
    PrefixAppend(w0, []);
    ok := true;
    var i := 0;
    while ok && i < count
      invariant i <= count
      invariant ok ==> ParseActions(start, i, version) == Some(Read(acts, fs.Rest()))
      invariant ok ==> ActionsFit(acts) && w.bytes == w0 + EncodeActions(acts, TARGET_VERSION)
      invariant Prefix(w0, w.bytes)
      invariant !ok ==> ParseActions(start, count, version).None?
      invariant !ok ==> Prefix(w0 + EncodeActions(WholeActions(start, count, version).value, TARGET_VERSION), w.bytes)
    {
      ghost var before := fs.Rest();
      ghost var wb := w.bytes;
      ok := ConvertAction(fs, w, version);
      PrefixTrans(w0, wb, w.bytes);
      ActionCopied(start, i, acts, before, version, ParseAction(before, version));
      if ok {
        acts := acts + [ParseAction(before, version).value.value];
        i := i + 1;
      } else {
        ParseActionsNone(start, i + 1, count, version);
        WholeActionsAt(start, i, count, version);
        PrefixAppend(wb, []);
        PrefixTrans(w0 + EncodeActions(acts, TARGET_VERSION), wb, w.bytes);
      }
    }
  }

  /** No actions read yet. */
  lemma NoActions(start: seq<byte>, version: nat)
    ensures ParseActions(start, 0, version) == Some(Read([], start)) && ActionsFit([])
    ensures EncodeActions([], TARGET_VERSION) == []
  {
  }

  /** One more action read after the first `i`, or the read that fails. */
  lemma ActionCopied(start: seq<byte>, i: nat, acts: seq<Action>, before: seq<byte>, version: nat,
                     a: Option<Read<Action>>)
    requires ParseActions(start, i, version) == Some(Read(acts, before)) && ActionsFit(acts)
    requires ParseAction(before, version) == a
    ensures a.None? ==> ParseActions(start, i + 1, version).None?
    ensures a.Some? && ActionFits(a.value.value) ==>
      && ParseActions(start, i + 1, version) == Some(Read(acts + [a.value.value], a.value.rest))
      && ActionsFit(acts + [a.value.value])
      && EncodeActions(acts + [a.value.value], TARGET_VERSION)
         == EncodeActions(acts, TARGET_VERSION) + EncodeAction(a.value.value, TARGET_VERSION)
  {
    if a.Some? && ActionFits(a.value.value) {
      EncodeActionsSnoc(acts, a.value.value, TARGET_VERSION);
    }
  }

  /** Lines 23-35 of the source: the directory the converted file goes to, built up step by step. */
  method ComputeOutputDirectory(base: Path, parent: Text) returns (outputPath: Path)
    ensures outputPath == OutputDirectory(base, parent)
  {
    outputPath := base;
    if NamesFile(outputPath) {
      outputPath := Pop(outputPath);
    }
    var mapdata := Find(parent, MAPDATA_PROP);
    if mapdata.Some? {
      outputPath := Push(outputPath, parent[mapdata.value..]);
    } else {
      var resource := Find(parent, RESOURCE);
      if resource.Some? && !StartsWith(parent[resource.value..], RESOURCE_PROP) {
        outputPath := Push(outputPath, parent[resource.value..]);
      }
    }
  }

  /**
   * `convert_act_v6_to_v5`: the input file's bytes, its file name and parent
   * directory, and the output base are given; the result says what was
   * returned and what was created.
   */
  method ConvertActV6ToV5(input: seq<byte>, fileName: Option<Text>, parent: Text, base: Path)
    returns (r: Outcome, file: seq<byte>)
    ensures r == Convert(input, fileName, parent, base)
    ensures r.Converted? ==> file == r.bytes
    ensures r.Truncated? && r.created.Some? ==> Prefix(r.keeps, file)
    ensures !r.Converted? && !(r.Truncated? && r.created.Some?) ==> file == []
  {
    hide ParseActions, EncodeActions, OutputDirectory, EncodeU32, ActionsFit, Convert, EncodeFile, TakeBytes, TakeWord,
      WholeActions, Prefix;
    if fileName.None? {
      NoFileName(input, parent, base);
      return InvalidFileName, [];
    }
    var fs := new Reader(input);
    var header := fs.ReadExact(HEADER_SIZE);
    ghost var pHeader := TakeBytes(input, HEADER_SIZE);
    if header.None? {
      ConvertRead(input, fileName, parent, base, pHeader, None, None, None);
      return ReadFailed, [];
    }
    var version := ReadWord(fs);
    ghost var pVersion := TakeWord(pHeader.value.rest);
    if version.None? {
      ConvertRead(input, fileName, parent, base, pHeader, pVersion, None, None);
      return ReadFailed, [];
    }
    if version.value < FIRST_CONVERTED_VERSION {
      ConvertRead(input, fileName, parent, base, pHeader, pVersion, None, None);
      return NotConverted, [];
    }

    var directory := ComputeOutputDirectory(base, parent);   // then `create_dir_all`
    var outputPath := Push(directory, fileName.value);
    outputPath := SetExtension(outputPath, ACT);

    var count := ReadWord(fs);
    ghost var pCount := TakeWord(pVersion.value.rest);
    if count.None? {
      ConvertRead(input, fileName, parent, base, pHeader, pVersion, pCount, None);
      return Truncated(directory, None, []), [];
    }
    var output := new Writer();    // `File::create`
    output.Write(header.value);
    assert output.bytes == header.value by {
      assert [] + header.value == header.value;
    }
    output.WriteU32(TARGET_VERSION);
    output.WriteU32(count.value);
    ghost var w0 := output.bytes;
    assert w0 == header.value + EncodeU32(TARGET_VERSION) + EncodeU32(count.value);
    var rest := fs.Rest();
    assert rest == pCount.value.rest;
    var ok := ConvertActions(fs, output, count.value, version.value);
    ghost var pActs := ParseActions(pCount.value.rest, count.value, version.value);
    ConvertRead(input, fileName, parent, base, pHeader, pVersion, pCount, pActs);
    assert outputPath == OutputFile(directory, fileName.value);
    if !ok {
      assert KeptOutput(header.value, count.value, rest, version.value)
        == w0 + EncodeActions(WholeActions(rest, count.value, version.value).value, TARGET_VERSION);
      // the writer is flushed as it is dropped
      return Truncated(directory, Some(outputPath), KeptOutput(header.value, count.value, rest, version.value)),
        output.bytes;
    }
    FileWritten(header.value, pActs.value.value);
    assert output.bytes == EncodeFile(ActFile(header.value, TARGET_VERSION, pActs.value.value));
    r, file := Converted(directory, outputPath, output.bytes), output.bytes;
  }

  /** An input path without a file name is refused before anything is read. */
  lemma NoFileName(input: seq<byte>, parent: Text, base: Path)
    ensures Convert(input, None, parent, base) == InvalidFileName
  {
  }

  /** How `Convert` reads the header, the version, the action count and the actions, and what each failure gives. */
  lemma ConvertRead(input: seq<byte>, fileName: Option<Text>, parent: Text, base: Path,
                    header: Option<Read<seq<byte>>>, version: Option<Read<u32>>, count: Option<Read<u32>>,
                    acts: Option<Read<seq<Action>>>)
    requires fileName.Some?
    requires header == TakeBytes(input, HEADER_SIZE)
    requires header.Some? ==> version == TakeWord(header.value.rest)
    requires header.Some? && version.Some? && version.value.value >= FIRST_CONVERTED_VERSION ==>
      count == TakeWord(version.value.rest)
    requires header.Some? && version.Some? && version.value.value >= FIRST_CONVERTED_VERSION && count.Some? ==>
      acts == ParseActions(count.value.rest, count.value.value, version.value.value)
    ensures header.None? || version.None? ==> Convert(input, fileName, parent, base) == ReadFailed
    ensures header.Some? && version.Some? && version.value.value < FIRST_CONVERTED_VERSION ==>
      Convert(input, fileName, parent, base) == NotConverted
    ensures header.Some? && version.Some? && version.value.value >= FIRST_CONVERTED_VERSION ==>
      var directory := OutputDirectory(base, parent);
      var file := OutputFile(directory, fileName.value);
      && (count.None? ==> Convert(input, fileName, parent, base) == Truncated(directory, None, []))
      && (count.Some? && acts.None? ==>
            Convert(input, fileName, parent, base)
            == Truncated(directory, Some(file), KeptOutput(header.value.value, count.value.value, count.value.rest,
                                                          version.value.value)))
      && (count.Some? && acts.Some? ==>
            && |acts.value.value| == count.value.value && ActionsFit(acts.value.value)
            && Convert(input, fileName, parent, base)
               == Converted(directory, file, EncodeFile(ActFile(header.value.value, TARGET_VERSION, acts.value.value))))
  {
    if header.Some? && version.Some? && version.value.value >= FIRST_CONVERTED_VERSION && count.Some? && acts.Some? {
      ParseActionsConsumes(count.value.rest, count.value.value, version.value.value);
    }
  }

  /** The converted file: the header, version 5, the action count and the actions at version 5. */
  lemma FileWritten(header: seq<byte>, acts: seq<Action>)
    requires |acts| < U32_LIMIT && ActionsFit(acts)
    ensures EncodeFile(ActFile(header, TARGET_VERSION, acts))
      == header + EncodeU32(TARGET_VERSION) + EncodeU32(|acts|) + EncodeActions(acts, TARGET_VERSION)
  {
  }
}
