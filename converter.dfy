/**
 * Tab-separated records back to a DNT table, as `convert_to_dnt` in
 * src-tauri/src/converter.rs does it.
 *
 * A CSV reader with a tab delimiter hands over the header record and the
 * records that follow; it refuses the input when a record has a different
 * number of fields than the header. The column definitions come from the
 * headers: a header containing `_RowID` or `64` is left out, any other is
 * split at `|` into a name and a `u8` type. Each record is then encoded on its
 * own: its first field as the `i32` row id, then, for every entry of the type
 * dictionary, the field under the header `name|type`. The records are encoded
 * by parallel workers, each appending its bytes to a shared buffer when it is
 * done, so the rows reach the file in some order of the records; that order is
 * a parameter here. The source's `unwrap`s become `Panicked`, which keeps the
 * bytes the output file holds after the panic: the buffered writer is dropped
 * as the panic unwinds, and flushes what was written to it.
 */
module CsvConverter {
  import opened Wrappers
  import opened Bytes
  import opened Text
  import opened Streams
  import opened DntTable
  import opened DntImage

  /** `64`: a header containing it is not counted and not defined. */
  const MARK_64: Text := [0x36, 0x34]

  /** `_RowID`: a header containing it is not defined. */
  const ROW_ID_NAME: Text := [0x5F, 0x52, 0x6F, 0x77, 0x49, 0x44]

  /** How the conversion ends. */
  datatype Outcome =
    | Written(file: seq<byte>)  // the whole output file
    | Panicked(file: seq<byte>) // an `unwrap` failed after the output file was created; what it holds
    | Rejected                  // the reader refused a record; no output file is created

  /** A record whose length differs from the header's, which the CSV reader refuses. */
  predicate Ragged(headers: seq<Text>, records: seq<seq<Text>>)
  {
    exists k :: 0 <= k < |records| && |records[k]| != |headers|
  }

  // ---------------------------------------------------------------------------
  // The header loops

  /** How many headers contain `64`. */
  function Count64(headers: seq<Text>): (n: nat)
    ensures n <= |headers|
    decreases |headers|
  {
    if headers == [] then 0
    else Count64(headers[..|headers| - 1]) + (if Contains(headers[|headers| - 1], MARK_64) then 1 else 0)
  }

  /**
   * The column count field: one less than the headers, one less again per
   * header containing `64`, cast to `u16` (an underflow wraps, as in a
   * release build).
   */
  function ColumnCountField(headers: seq<Text>): (n: nat)
    ensures n < U16_LIMIT
  {
    (|headers| - 1 - Count64(headers)) % U16_LIMIT
  }

  /** A header that the definitions loop does not skip. */
  predicate Defines(header: Text)
  {
    !Contains(header, ROW_ID_NAME) && !Contains(header, MARK_64)
  }

  /** Definition bytes written, and the type dictionary built. */
  datatype Defs = Defs(bytes: seq<byte>, dict: seq<Column>)

  /**
   * One pass of the definitions loop: nothing for a skipped header; `None`
   * where the source panics (no `|` in the header, or a type that is not a
   * `u8`); otherwise the definition written and the dictionary after the
   * insertion.
   */
  function DefineStep(dict: seq<Column>, header: Text): Option<Defs>
  {
    if !Defines(header) then Some(Defs([], dict))
    else
      var parts := Split(header, PIPE);
      if |parts| < 2 then None
      else
        match ParseU8(parts[1])
        case None => None
        case Some(k) =>
          Some(Defs(EncodeU16(|parts[0]| % U16_LIMIT) + parts[0] + [k as byte], Insert(dict, parts[0], k as byte)))
  }

  /** The definitions loop over all headers, from an empty dictionary. */
  function Definitions(headers: seq<Text>): Option<Defs>
    decreases |headers|
  {
    if headers == [] then Some(Defs([], []))
    else
      match Definitions(headers[..|headers| - 1])
      case None => None
      case Some(d) =>
        match DefineStep(d.dict, headers[|headers| - 1])
        case None => None
        case Some(s) => Some(Defs(d.bytes + s.bytes, s.dict))
  }

  /**
   * The definition bytes in the file when the loop ends: all of them, or, when
   * a header panics, those of the headers before it.
   */
  function DefinitionsWritten(headers: seq<Text>): (b: seq<byte>)
    ensures Definitions(headers).Some? ==> b == Definitions(headers).value.bytes
    decreases |headers|
  {
    if headers == [] then []
    else
      match Definitions(headers[..|headers| - 1])
      case None => DefinitionsWritten(headers[..|headers| - 1])
      case Some(d) =>
        match DefineStep(d.dict, headers[|headers| - 1])
        case None => d.bytes
        case Some(s) => d.bytes + s.bytes
  }

  /**
   * When header `j` is the first to panic, the definitions loop fails and the
   * file keeps the definitions of the headers before `j`.
   */
  lemma {:induction false} DefinitionsWrittenAt(headers: seq<Text>, j: nat)
    requires j < |headers| && Definitions(headers[..j]).Some?
    requires DefineStep(Definitions(headers[..j]).value.dict, headers[j]).None?
    ensures Definitions(headers).None?
    ensures DefinitionsWritten(headers) == Definitions(headers[..j]).value.bytes
    decreases |headers|
  {
    var init := headers[..|headers| - 1];
    if |headers| == j + 1 {
      assert init == headers[..j];
    } else {
      assert init[..j] == headers[..j] && init[j] == headers[j];
      DefinitionsWrittenAt(init, j);
    }
  }

  // ---------------------------------------------------------------------------
  // The record encoder

  /**
   * One field under its type, `None` where the source panics. As written, every
   * type from 4 to 6 is parsed and stored as an `f32`; with `wide`, type 6 is
   * an `f64` of 8 bytes, as the reader of this format expects.
   */
  function FieldBytes(value: Text, kind: byte, floats: Floats, wide: bool): Option<seq<byte>>
  {
    if kind == STRING_KIND then
      var b := StoredText(value);
      Some(EncodeU16(|b| % U16_LIMIT) + b)
    else if kind == INT_KIND || kind == ROW_ID_KIND then
      match ParseI32(value)
      case None => None
      case Some(v) => Some(EncodeI32(v))
    else if kind == F64_KIND && wide then
      match floats.parseF64(value)
      case None => None
      case Some(d) => Some(d)
    else if F32_KIND <= kind <= F64_KIND then
      match floats.parseF32(value)
      case None => None
      case Some(w) => Some(w)
    else Some([0])
  }

  /** `Iterator::position`: the first index holding `h`, if any. */
  function Position(hs: seq<Text>, h: Text): (r: Option<nat>)
    ensures r.Some? ==> r.value < |hs| && hs[r.value] == h && h !in hs[..r.value]
    ensures r.None? ==> h !in hs
    decreases |hs|
  {
    if hs == [] then None
    else if hs[0] == h then Some(0)
    else
      match Position(hs[1..], h)
      case None => None
      case Some(i) =>
        assert hs[..i + 1] == [hs[0]] + hs[1..][..i];
        Some(i + 1)
  }

  /** The field of a record under the header of a dictionary entry, encoded. */
  function CellBytes(record: seq<Text>, headers: seq<Text>, c: Column, floats: Floats, wide: bool): Option<seq<byte>>
  {
    match Position(headers, HeaderCell(c))
    case None => None
    case Some(p) => if p < |record| then FieldBytes(record[p], c.kind, floats, wide) else None
  }

  /** The fields of a record for the dictionary entries in order. */
  function CellsBytes(record: seq<Text>, headers: seq<Text>, dict: seq<Column>, floats: Floats, wide: bool): Option<seq<byte>>
    decreases |dict|
  {
    if dict == [] then Some([])
    else
      match CellsBytes(record, headers, dict[..|dict| - 1], floats, wide)
      case None => None
      case Some(b) =>
        match CellBytes(record, headers, dict[|dict| - 1], floats, wide)
        case None => None
        case Some(c) => Some(b + c)
  }

  /** A record's bytes: its first field as the `i32` row id, then its cells. */
  function RecordBytes(record: seq<Text>, headers: seq<Text>, dict: seq<Column>, floats: Floats, wide: bool): Option<seq<byte>>
  {
    if record == [] then None
    else
      match ParseI32(record[0])
      case None => None
      case Some(id) =>
        match CellsBytes(record, headers, dict, floats, wide)
        case None => None
        case Some(b) => Some(EncodeI32(id) + b)
  }

  /** `order` lists every record index once: the order in which the workers finish. */
  predicate IsOrder(order: seq<nat>, n: nat)
  {
    && |order| == n
    && (forall k :: 0 <= k < |order| ==> order[k] < n)
    && (forall k, l :: 0 <= k < l < |order| ==> order[k] != order[l])
  }

  /** The shared buffer after every record has been appended in `order`. */
  function RowsBytes(records: seq<seq<Text>>, order: seq<nat>, headers: seq<Text>, dict: seq<Column>, floats: Floats, wide: bool): Option<seq<byte>>
    requires forall k :: 0 <= k < |order| ==> order[k] < |records|
    decreases |order|
  {
    if order == [] then Some([])
    else
      match RowsBytes(records, order[..|order| - 1], headers, dict, floats, wide)
      case None => None
      case Some(b) =>
        match RecordBytes(records[order[|order| - 1]], headers, dict, floats, wide)
        case None => None
        case Some(r) => Some(b + r)
  }

  /** The conversion, with type 6 narrowed to `f32` (as written) or kept as `f64` (`wide`). */
  function CsvDntWith(headers: seq<Text>, records: seq<seq<Text>>, order: seq<nat>, floats: Floats, wide: bool): Outcome
    requires IsOrder(order, |records|)
  {
    if Ragged(headers, records) then Rejected
    else
      var front := [0, 0, 0, 0] + EncodeU16(ColumnCountField(headers)) + EncodeU32(|records| % U32_LIMIT);
      match Definitions(headers)
      case None => Panicked(front + DefinitionsWritten(headers))
      case Some(d) =>
        match RowsBytes(records, order, headers, d.dict, floats, wide)
        case None => Panicked(front + d.bytes)
        case Some(rows) => Written(front + d.bytes + rows + END_MARK)
  }

  /** `convert_to_dnt` as written. */
  function CsvDnt(headers: seq<Text>, records: seq<seq<Text>>, order: seq<nat>, floats: Floats): Outcome
    requires IsOrder(order, |records|)
  {
    CsvDntWith(headers, records, order, floats, false)
  }

  /** `convert_to_dnt` with type 6 written as the `f64` that the reader takes back. */
  function CsvDntWide(headers: seq<Text>, records: seq<seq<Text>>, order: seq<nat>, floats: Floats): Outcome
    requires IsOrder(order, |records|)
  {
    CsvDntWith(headers, records, order, floats, true)
  }

  /**
   * What one field becomes under each type: a text with a `u16` prefix that
   * holds its length (wrapped); an `i32` that reads back as the parsed value,
   * or a panic when the text is no `i32`; four bytes of `f32` for types 4 and 5,
   * and for type 6 unless `wide`; one zero byte for a type the format does not know.
   */
  lemma FieldBytesCases(value: Text, kind: byte, floats: Floats, wide: bool)
    ensures var r := FieldBytes(value, kind, floats, wide);
      kind == STRING_KIND ==>
        && r.Some? && 2 <= |r.value| && r.value[2..] == StoredText(value)
        && DecodeU16(r.value[..2]) == |r.value[2..]| % U16_LIMIT
    ensures var r := FieldBytes(value, kind, floats, wide);
      (kind == INT_KIND || kind == ROW_ID_KIND) ==>
        && (r.Some? <==> ParseI32(value).Some?)
        && (r.Some? ==> |r.value| == 4 && DecodeI32(r.value) == ParseI32(value).value)
    ensures (kind == F32_KIND || kind == F32_ALT_KIND || (kind == F64_KIND && !wide)) ==>
      FieldBytes(value, kind, floats, wide) == floats.parseF32(value)
    ensures kind == F64_KIND && wide ==> FieldBytes(value, kind, floats, wide) == floats.parseF64(value)
    ensures !(STRING_KIND <= kind <= F64_KIND) ==> FieldBytes(value, kind, floats, wide) == Some([0])
  {
    if kind == STRING_KIND {
      var b := StoredText(value);
      U16RoundTrip(|b| % U16_LIMIT);
      assert FieldBytes(value, kind, floats, wide).value[..2] == EncodeU16(|b| % U16_LIMIT);
    } else if (kind == INT_KIND || kind == ROW_ID_KIND) && ParseI32(value).Some? {
      I32RoundTrip(ParseI32(value).value);
    }
  }

  /** An encoded record starts with its first field, which must be an `i32`, as the row id. */
  lemma RecordStartsWithId(record: seq<Text>, headers: seq<Text>, dict: seq<Column>, floats: Floats, wide: bool)
    ensures var r := RecordBytes(record, headers, dict, floats, wide);
      r.Some? ==>
        && record != [] && ParseI32(record[0]).Some?
        && 4 <= |r.value| && DecodeI32(r.value[..4]) == ParseI32(record[0]).value
  {
    var r := RecordBytes(record, headers, dict, floats, wide);
    if r.Some? {
      var id := ParseI32(record[0]).value;
      assert r.value[..4] == EncodeI32(id);
      I32RoundTrip(id);
    }
  }

  /**
   * The input is refused exactly when a record is ragged, and nothing is
   * created then. A file written, or left behind by a panic, starts with four
   * zero bytes, the column count field as a `u16` and the number of records as
   * a `u32` (wrapped). A file written goes on with the definitions and ends
   * with the end mark `5 THEND`. After a panic the file holds nothing more
   * than the definitions written before it: all of them when a record
   * panics.
   */
  lemma CsvDntLayout(headers: seq<Text>, records: seq<seq<Text>>, order: seq<nat>, floats: Floats, wide: bool)
    requires IsOrder(order, |records|)
    ensures CsvDntWith(headers, records, order, floats, wide).Rejected? <==> Ragged(headers, records)
    ensures var r := CsvDntWith(headers, records, order, floats, wide);
      r.Written? || r.Panicked? ==>
        && 10 <= |r.file| && r.file[..4] == [0, 0, 0, 0]
        && DecodeU16(r.file[4..6]) == ColumnCountField(headers)
        && DecodeU32(r.file[6..10]) == |records| % U32_LIMIT
    ensures var r := CsvDntWith(headers, records, order, floats, wide);
      r.Written? ==>
        && Definitions(headers).Some?
        && 10 + |END_MARK| <= |r.file|
        && r.file[10..10 + |Definitions(headers).value.bytes|] == Definitions(headers).value.bytes
        && r.file[|r.file| - |END_MARK|..] == END_MARK
    ensures var r := CsvDntWith(headers, records, order, floats, wide);
      r.Panicked? ==>
        && r.file[10..] == DefinitionsWritten(headers)
        && (Definitions(headers).Some? ==>
              RowsBytes(records, order, headers, Definitions(headers).value.dict, floats, wide).None?)
  {
    hide Definitions, DefinitionsWritten, RowsBytes, EncodeU16, EncodeU32;
    var r := CsvDntWith(headers, records, order, floats, wide);
    var n := ColumnCountField(headers);
    var m := |records| % U32_LIMIT;
    var front := [0, 0, 0, 0] + EncodeU16(n) + EncodeU32(m);
    if r.Written? || r.Panicked? {
      var tail := r.file[10..];
      assert r.file == front + tail;
      assert r.file[4..6] == EncodeU16(n);
      assert r.file[6..10] == EncodeU32(m);
      U16RoundTrip(n);
      U32RoundTrip(m);
    }
    if r.Written? {
      var d := Definitions(headers).value;
      var rows := RowsBytes(records, order, headers, d.dict, floats, wide).value;
      assert r.file == front + d.bytes + rows + END_MARK;
    }
  }

  // ---------------------------------------------------------------------------
  // The writer

  /** The counting loop: the column count before its cast to `u16`. */
  method CountColumns(headers: seq<Text>) returns (count: int)
    ensures count == |headers| - 1 - Count64(headers)
  {
    count := |headers| - 1;
    for i := 0 to |headers|
      invariant count == |headers| - 1 - Count64(headers[..i])
    {
      assert headers[..i + 1][..i] == headers[..i];
      if Contains(headers[i], MARK_64) {
        count := count - 1;
      }
    }
    assert headers[..|headers|] == headers;
  }

  /** One pass of the definitions loop; `None` where the source panics, before writing anything. */
  method WriteDefinition(fs: Writer, header: Text, dict: seq<Column>) returns (r: Option<seq<Column>>)
    modifies fs
    ensures r.Some? <==> DefineStep(dict, header).Some?
    ensures r.Some? ==> r.value == DefineStep(dict, header).value.dict
                        && fs.bytes == old(fs.bytes) + DefineStep(dict, header).value.bytes
    ensures r.None? ==> fs.bytes == old(fs.bytes)
  {
    hide Insert, ParseU8, Split, Contains, EncodeU16;
    if Contains(header, ROW_ID_NAME) || Contains(header, MARK_64) {
      return Some(dict);
    }
    var parts := Split(header, PIPE);
    if |parts| < 2 {
      return None;
    }
    var colName := parts[0];
    var parsed := ParseU8(parts[1]);
    if parsed.None? {
      return None;
    }
    var typeByte: byte := parsed.value as byte;
    fs.WriteU16(|colName| % U16_LIMIT);
    fs.Write(colName);
    fs.WriteU8(typeByte);
    r := Some(Insert(dict, colName, typeByte));
  }

  /** The definitions loop: writes the definitions and returns the type dictionary. */
  method WriteDefinitions(fs: Writer, headers: seq<Text>) returns (r: Option<seq<Column>>)
    modifies fs
    ensures r.Some? <==> Definitions(headers).Some?
    ensures r.Some? ==> r.value == Definitions(headers).value.dict
                        && fs.bytes == old(fs.bytes) + Definitions(headers).value.bytes
    ensures r.None? ==> fs.bytes == old(fs.bytes) + DefinitionsWritten(headers)
  {
    hide *;
    DefinitionsStep(headers, 0);
    var dict: seq<Column> := [];
    assert fs.bytes[|old(fs.bytes)|..] == [];
    var ok := true;
    var i := 0;
    while ok && i < |headers|
      invariant i <= |headers|
      invariant ok ==> |old(fs.bytes)| <= |fs.bytes| && fs.bytes[..|old(fs.bytes)|] == old(fs.bytes)
      invariant ok ==> Definitions(headers[..i]) == Some(Defs(fs.bytes[|old(fs.bytes)|..], dict))
      invariant !ok ==> Definitions(headers).None? && fs.bytes == old(fs.bytes) + DefinitionsWritten(headers)
      decreases |headers| - i, ok
    {
      DefinitionsStep(headers, i + 1);
      ghost var before := fs.bytes;
      var next := WriteDefinition(fs, headers[i], dict);
      if next.None? {
        DefinitionsWrittenAt(headers, i);
        AppendedWhole(old(fs.bytes), fs.bytes);
        ok := false;
      } else {
        dict := next.value;
        AppendedTail(old(fs.bytes), before, fs.bytes);
        i := i + 1;
      }
    }
    if ok {
      assert headers[..i] == headers;
      AppendedWhole(old(fs.bytes), fs.bytes);
      r := Some(dict);
    } else {
      r := None;
    }
  }

  /** One field under its type, written to a record's local buffer; `false` where the source panics. */
  method WriteField(buf: Writer, value: Text, kind: byte, floats: Floats) returns (ok: bool)
    modifies buf
    ensures ok <==> FieldBytes(value, kind, floats, false).Some?
    ensures ok ==> buf.bytes == old(buf.bytes) + FieldBytes(value, kind, floats, false).value
  {
    hide StoredText, ParseI32, EncodeU16, EncodeI32;
    ok := true;
    match kind {
      case 1 =>
        var encodedValue := StoredText(value);
        buf.WriteU16(|encodedValue| % U16_LIMIT);
        buf.Write(encodedValue);
      case 2 | 3 =>
        var intValue := ParseI32(value);
        if intValue.None? {
          return false;
        }
        buf.WriteI32(intValue.value);
      case 4 | 5 | 6 =>
        var floatValue := floats.parseF32(value);
        if floatValue.None? {
          return false;
        }
        buf.Write(floatValue.value);
      case _ =>
        buf.WriteU8(0);
    }
  }

  /** The body of one parallel task: the bytes of one record, or `None` where the source panics. */
  method EncodeRow(record: seq<Text>, headers: seq<Text>, dict: seq<Column>, floats: Floats) returns (r: Option<seq<byte>>)
    ensures r == RecordBytes(record, headers, dict, floats, false)
  {
    hide *;
    RecordBytesStep(record, headers, dict, floats, false);
    if record == [] {
      return None;
    }
    var rowId := ParseI32(record[0]);
    if rowId.None? {
      return None;
    }
    var localBuffer := new Writer();
    localBuffer.WriteI32(rowId.value);
    CellsBytesStep(record, headers, dict, floats, false, 0);
    assert localBuffer.bytes[4..] == [];
    var ok := true;
    var i := 0;
    while ok && i < |dict|
      invariant i <= |dict|
      invariant ok ==> |localBuffer.bytes| >= 4 && localBuffer.bytes[..4] == EncodeI32(rowId.value)
      invariant ok ==> CellsBytes(record, headers, dict[..i], floats, false) == Some(localBuffer.bytes[4..])
      invariant !ok ==> CellsBytes(record, headers, dict, floats, false).None?
      decreases |dict| - i, ok
    {
      CellsBytesStep(record, headers, dict, floats, false, i + 1);
      ghost var before := localBuffer.bytes;
      var position := Position(headers, HeaderCell(dict[i]));
      if position.None? || position.value >= |record| {
        CellsBytesNone(record, headers, dict, floats, false, i + 1);
        ok := false;
      } else {
        var fieldOk := WriteField(localBuffer, record[position.value], dict[i].kind, floats);
        if !fieldOk {
          CellsBytesNone(record, headers, dict, floats, false, i + 1);
          ok := false;
        } else {
          AppendedTail(EncodeI32(rowId.value), before, localBuffer.bytes);
          i := i + 1;
        }
      }
    }
    if ok {
      assert dict[..i] == dict;
      AppendedWhole(EncodeI32(rowId.value), localBuffer.bytes);
      r := Some(localBuffer.bytes);
    } else {
      r := None;
    }
  }

  /** The parallel loop: each record's bytes appended to the shared buffer, in the order the tasks finish. */
  method WriteRows(buffer: Writer, records: seq<seq<Text>>, order: seq<nat>, headers: seq<Text>, dict: seq<Column>, floats: Floats)
    returns (ok: bool)
    requires forall k :: 0 <= k < |order| ==> order[k] < |records|
    modifies buffer
    ensures ok <==> RowsBytes(records, order, headers, dict, floats, false).Some?
    ensures ok ==> buffer.bytes == old(buffer.bytes) + RowsBytes(records, order, headers, dict, floats, false).value
  {
    hide *;
    RowsBytesStep(records, order, headers, dict, floats, false, 0);
    assert buffer.bytes[|old(buffer.bytes)|..] == [];
    ok := true;
    var k := 0;
    while ok && k < |order|
      invariant k <= |order|
      invariant ok ==> |old(buffer.bytes)| <= |buffer.bytes| && buffer.bytes[..|old(buffer.bytes)|] == old(buffer.bytes)
      invariant ok ==> RowsBytes(records, order[..k], headers, dict, floats, false) == Some(buffer.bytes[|old(buffer.bytes)|..])
      invariant !ok ==> RowsBytes(records, order, headers, dict, floats, false).None?
      decreases |order| - k, ok
    {
      RowsBytesStep(records, order, headers, dict, floats, false, k + 1);
      ghost var before := buffer.bytes;
      var localBuffer := EncodeRow(records[order[k]], headers, dict, floats);
      if localBuffer.None? {
        RowsBytesNone(records, order, headers, dict, floats, false, k + 1);
        ok := false;
      } else {
        buffer.Write(localBuffer.value);
        AppendedTail(old(buffer.bytes), before, buffer.bytes);
        k := k + 1;
      }
    }
    if ok {
      assert order[..k] == order;
      AppendedWhole(old(buffer.bytes), buffer.bytes);
    }
  }

  /** `convert_to_dnt`: how it ends, and the whole output file when it is written. */
  method ConvertToDnt(headers: seq<Text>, records: seq<seq<Text>>, order: seq<nat>, floats: Floats) returns (result: Outcome)
    requires IsOrder(order, |records|)
    ensures result == CsvDnt(headers, records, order, floats)
  {
    hide Definitions, RowsBytes, Count64, EncodeU16, EncodeU32, RecordBytes, Ascii;
    if exists k :: 0 <= k < |records| && |records[k]| != |headers| {
      return Rejected;
    }
    var fs := new Writer();
    fs.Write([0, 0, 0, 0]);
    var actualColumnCount := CountColumns(headers);
    fs.WriteU16(actualColumnCount % U16_LIMIT);
    fs.WriteU32(|records| % U32_LIMIT);
    ghost var front := fs.bytes;
    assert front == [0, 0, 0, 0] + EncodeU16(ColumnCountField(headers)) + EncodeU32(|records| % U32_LIMIT);
    var typeDictionary := WriteDefinitions(fs, headers);
    if typeDictionary.None? {
      return Panicked(fs.bytes);    // the writer is flushed as the panic unwinds
    }
    ghost var defs := Definitions(headers).value;
    var buffer := new Writer();
    var ok := WriteRows(buffer, records, order, headers, typeDictionary.value, floats);
    assert fs.bytes == front + defs.bytes;
    if !ok {
      return Panicked(fs.bytes);
    }
    ghost var rows := buffer.bytes;
    fs.Write(buffer.bytes);
    fs.Write([5]);
    fs.Write(Ascii("THEND"));
    assert fs.bytes == front + defs.bytes + rows + END_MARK;
    result := Written(fs.bytes);
  }

  // ---------------------------------------------------------------------------
  // Unfolding one step of the specification functions

  /** A sequence that extends `prefix`, after one more append, still extends it, by the bytes appended. */
  lemma AppendedTail(prefix: seq<byte>, before: seq<byte>, after: seq<byte>)
    requires |prefix| <= |before| && before[..|prefix|] == prefix
    requires |before| <= |after| && after[..|before|] == before
    ensures |prefix| <= |after| && after[..|prefix|] == prefix
    ensures after[|prefix|..] == before[|prefix|..] + after[|before|..]
  {
    assert after[..|prefix|] == after[..|before|][..|prefix|];
  }

  lemma AppendedWhole(prefix: seq<byte>, after: seq<byte>)
    requires |prefix| <= |after| && after[..|prefix|] == prefix
    ensures after == prefix + after[|prefix|..]
  {
  }

  lemma DefinitionsStep(headers: seq<Text>, i: nat)
    requires i <= |headers|
    ensures Definitions(headers[..0]) == Some(Defs([], []))
    ensures 0 < i ==> (Definitions(headers[..i]) ==
      match Definitions(headers[..i - 1])
       case None => None
       case Some(d) =>
         match DefineStep(d.dict, headers[i - 1])
         case None => None
         case Some(s) => Some(Defs(d.bytes + s.bytes, s.dict)))
  {
    if 0 < i {
      assert headers[..i][..i - 1] == headers[..i - 1];
    }
  }

  lemma RecordBytesStep(record: seq<Text>, headers: seq<Text>, dict: seq<Column>, floats: Floats, wide: bool)
    ensures record == [] ==> RecordBytes(record, headers, dict, floats, wide).None?
    ensures record != [] && ParseI32(record[0]).None? ==> RecordBytes(record, headers, dict, floats, wide).None?
    ensures record != [] && ParseI32(record[0]).Some? ==>
      RecordBytes(record, headers, dict, floats, wide) ==
        (match CellsBytes(record, headers, dict, floats, wide)
         case None => None
         case Some(b) => Some(EncodeI32(ParseI32(record[0]).value) + b))
  {
  }

  lemma CellsBytesStep(record: seq<Text>, headers: seq<Text>, dict: seq<Column>, floats: Floats, wide: bool, i: nat)
    requires i <= |dict|
    ensures CellsBytes(record, headers, dict[..0], floats, wide) == Some([])
    ensures 0 < i ==> (CellsBytes(record, headers, dict[..i], floats, wide) ==
      match CellsBytes(record, headers, dict[..i - 1], floats, wide)
       case None => None
       case Some(b) =>
         match Position(headers, HeaderCell(dict[i - 1]))
         case None => None
         case Some(p) =>
           if p < |record| then
             match FieldBytes(record[p], dict[i - 1].kind, floats, wide)
             case None => None
             case Some(c) => Some(b + c)
           else None)
  {
    if 0 < i {
      assert dict[..i][..i - 1] == dict[..i - 1];
    }
  }

  lemma {:induction false} CellsBytesNone(record: seq<Text>, headers: seq<Text>, dict: seq<Column>, floats: Floats, wide: bool, i: nat)
    requires i <= |dict| && CellsBytes(record, headers, dict[..i], floats, wide).None?
    ensures CellsBytes(record, headers, dict, floats, wide).None?
    decreases |dict| - i
  {
    if i < |dict| {
      CellsBytesStep(record, headers, dict, floats, wide, i + 1);
      CellsBytesNone(record, headers, dict, floats, wide, i + 1);
    } else {
      assert dict[..i] == dict;
    }
  }

  lemma RowsBytesStep(records: seq<seq<Text>>, order: seq<nat>, headers: seq<Text>, dict: seq<Column>, floats: Floats, wide: bool, k: nat)
    requires forall j :: 0 <= j < |order| ==> order[j] < |records|
    requires k <= |order|
    ensures RowsBytes(records, order[..0], headers, dict, floats, wide) == Some([])
    ensures 0 < k ==> (RowsBytes(records, order[..k], headers, dict, floats, wide) ==
      match RowsBytes(records, order[..k - 1], headers, dict, floats, wide)
       case None => None
       case Some(b) =>
         match RecordBytes(records[order[k - 1]], headers, dict, floats, wide)
         case None => None
         case Some(r) => Some(b + r))
  {
    if 0 < k {
      assert order[..k][..k - 1] == order[..k - 1];
    }
  }

  lemma {:induction false} RowsBytesNone(records: seq<seq<Text>>, order: seq<nat>, headers: seq<Text>, dict: seq<Column>, floats: Floats, wide: bool, k: nat)
    requires forall j :: 0 <= j < |order| ==> order[j] < |records|
    requires k <= |order| && RowsBytes(records, order[..k], headers, dict, floats, wide).None?
    ensures RowsBytes(records, order, headers, dict, floats, wide).None?
    decreases |order| - k
  {
    if k < |order| {
      RowsBytesStep(records, order, headers, dict, floats, wide, k + 1);
      RowsBytesNone(records, order, headers, dict, floats, wide, k + 1);
    } else {
      assert order[..k] == order;
    }
  }
}
