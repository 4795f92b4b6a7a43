/**
 * Tab-separated text back to a DNT table (`convert_to_dnt` in
 * src-tauri/src/dnt_converter.rs).
 *
 * The first line holds the `name|type` header fields. Every field that splits
 * into exactly two pieces at `|` contributes a type (its second piece read as
 * a `u8`, 0 when that fails), and, unless its name contains `RowID`, a column
 * definition. Every non-blank line that follows is a row: its trimmed text
 * split at tabs, the field at position `i` encoded by the `i`-th type.
 */
module DntConverter {
  import opened Wrappers
  import opened Bytes
  import opened Text
  import opened Streams
  import opened DntTable
  import opened DntImage

  // ---------------------------------------------------------------------------
  // Lines

  /** What `read_line` reads first: the text up to and including the first line feed. */
  function HeaderText(t: Text): Text
  {
    if LF in t then t[..IndexOf(t, LF) + 1] else t
  }

  /** What the `lines()` that follow read from. */
  function Body(t: Text): Text
  {
    if LF in t then t[IndexOf(t, LF) + 1..] else []
  }

  /** The first line and the rest make up the whole text; the first line has one line feed at most, at its end. */
  lemma HeaderThenBody(t: Text)
    ensures HeaderText(t) + Body(t) == t
    ensures HeaderText(t) == [] || LF !in HeaderText(t)[..|HeaderText(t)| - 1]
  {
  }

  /** The header fields: the first line trimmed, cut at tabs. */
  function HeaderFields(t: Text): (fs: seq<Text>)
    ensures |fs| >= 1
  {
    Split(Trim(HeaderText(t)), TAB)
  }

  predicate Blank(l: Text)
  {
    Trim(l) == []
  }

  /** The lines that are not blank, in order (`filter_map` over `lines()`). */
  function NonBlank(ls: seq<Text>): (r: seq<Text>)
    ensures |r| <= |ls|
    ensures forall i :: 0 <= i < |r| ==> !Blank(r[i]) && r[i] in ls
    decreases |ls|
  {
    if ls == [] then []
    else
      var init := NonBlank(ls[..|ls| - 1]);
      var last := ls[|ls| - 1];
      assert forall l | l in ls[..|ls| - 1] :: l in ls;
      if Blank(last) then init else init + [last]
  }

  /** The row lines. */
  function RowLinesOf(t: Text): seq<Text>
  {
    NonBlank(Lines(Body(t)))
  }

  // ---------------------------------------------------------------------------
  // The header fields

  /** `RowID`. */
  const ROW_ID_MARK: Text := [0x52, 0x6F, 0x77, 0x49, 0x44]

  /** The type a field contributes: none unless it has exactly two pieces, 0 when the second is no `u8`. */
  function FieldType(field: Text): (r: seq<byte>)
    ensures |r| <= 1
    ensures |r| == 1 <==> |Split(field, PIPE)| == 2
  {
    var parts := Split(field, PIPE);
    if |parts| == 2 then
      match ParseU8(parts[1])
      case None => [0]
      case Some(k) => [k]
    else []
  }

  /** The types of all fields, in order (`field_types`). */
  function FieldTypes(fields: seq<Text>): seq<byte>
    decreases |fields|
  {
    if fields == [] then [] else FieldType(fields[0]) + FieldTypes(fields[1..])
  }

  /** The definition a field writes: none unless it has exactly two pieces and its name does not contain `RowID`. */
  function Definition(field: Text): seq<byte>
  {
    var parts := Split(field, PIPE);
    if |parts| == 2 && !Contains(parts[0], ROW_ID_MARK) then
      EncodeU16(|parts[0]| % U16_LIMIT) + parts[0] + FieldType(field)
    else []
  }

  function Definitions(fields: seq<Text>): seq<byte>
    decreases |fields|
  {
    if fields == [] then [] else Definition(fields[0]) + Definitions(fields[1..])
  }

  // ---------------------------------------------------------------------------
  // The rows

  /** The type for field `i`, 0 past the end of the types. */
  function TypeAt(types: seq<byte>, i: nat): byte
  {
    if i < |types| then types[i] else 0
  }

  /**
   * One field under its type: text with its `u16` length (wrapping), commas
   * restored from `^`; a decimal `i32`, 0 when it does not parse; the bytes of
   * an `f32` or `f64`, zero when it does not parse; one zero byte for any other type.
   */
  function EncodeValue(value: Text, kind: byte, floats: Floats): seq<byte>
  {
    if kind == STRING_KIND then
      var b := Replace(StoredText(value), CARET, COMMA);
      EncodeU16(|b| % U16_LIMIT) + b
    else if kind == INT_KIND || kind == ROW_ID_KIND then
      EncodeI32(match ParseI32(value) case None => 0 case Some(v) => v)
    else if kind == F32_KIND || kind == F32_ALT_KIND then
      match floats.parseF32(value) case None => [0, 0, 0, 0] case Some(w) => w
    else if kind == F64_KIND then
      match floats.parseF64(value) case None => [0, 0, 0, 0, 0, 0, 0, 0] case Some(d) => d
    else [0]
  }

  /** The types after the first (none left when there are none). */
  function Later(types: seq<byte>): seq<byte>
  {
    if types == [] then [] else types[1..]
  }

  /** The fields of a row, each under the type at its position. */
  function EncodeFields(values: seq<Text>, types: seq<byte>, floats: Floats): seq<byte>
    decreases |values|
  {
    if values == [] then []
    else EncodeValue(values[0], TypeAt(types, 0), floats) + EncodeFields(values[1..], Later(types), floats)
  }

  /** The fields of a row line: as written, the line is trimmed before it is cut at tabs. */
  function RowFields(row: Text, trimmed: bool): seq<Text>
  {
    if trimmed then Split(Trim(row), TAB) else Split(row, TAB)
  }

  function EncodeRowLines(rows: seq<Text>, types: seq<byte>, floats: Floats, trimmed: bool): seq<byte>
    decreases |rows|
  {
    if rows == [] then []
    else EncodeFields(RowFields(rows[0], trimmed), types, floats) + EncodeRowLines(rows[1..], types, floats, trimmed)
  }

  /** Everything in front of the rows: the zeroed preamble, the counts and the definitions. */
  function Front(t: Text): seq<byte>
  {
    var fields := HeaderFields(t);
    [0, 0, 0, 0] + EncodeU16((|fields| - 1) % U16_LIMIT) + EncodeU32(|RowLinesOf(t)| % U32_LIMIT) + Definitions(fields)
  }

  /** The file written for a text, with the row lines trimmed or not. */
  function DntOfWith(t: Text, floats: Floats, trimmed: bool): seq<byte>
  {
    Front(t) + EncodeRowLines(RowLinesOf(t), FieldTypes(HeaderFields(t)), floats, trimmed) + END_MARK
  }

  /** The file `convert_to_dnt` writes. */
  function DntOf(t: Text, floats: Floats): seq<byte>
  {
    DntOfWith(t, floats, true)
  }

  /** The file written when row lines are cut at tabs without being trimmed first. */
  function DntOfUntrimmed(t: Text, floats: Floats): seq<byte>
  {
    DntOfWith(t, floats, false)
  }

  /**
   * What one field becomes under each type: a text with a `u16` prefix that
   * holds its length (wrapped), an `i32` that reads back as the parsed value
   * or 0, four or eight zero bytes for a float that does not parse, and a
   * single zero byte for a type the format does not know.
   */
  lemma EncodeValueCases(value: Text, kind: byte, floats: Floats)
    ensures var r := EncodeValue(value, kind, floats);
      kind == STRING_KIND ==>
        && 2 <= |r| && r[2..] == Replace(StoredText(value), CARET, COMMA)
        && DecodeU16(r[..2]) == |r[2..]| % U16_LIMIT
    ensures var r := EncodeValue(value, kind, floats);
      (kind == INT_KIND || kind == ROW_ID_KIND) ==>
        |r| == 4 && DecodeI32(r) == (if ParseI32(value).Some? then ParseI32(value).value else 0)
    ensures var r := EncodeValue(value, kind, floats);
      (kind == F32_KIND || kind == F32_ALT_KIND) ==>
        r == if floats.parseF32(value).Some? then floats.parseF32(value).value else [0, 0, 0, 0]
    ensures var r := EncodeValue(value, kind, floats);
      kind == F64_KIND ==>
        r == if floats.parseF64(value).Some? then floats.parseF64(value).value else [0, 0, 0, 0, 0, 0, 0, 0]
    ensures !(STRING_KIND <= kind <= F64_KIND) ==> EncodeValue(value, kind, floats) == [0]
  {
    var r := EncodeValue(value, kind, floats);
    if kind == STRING_KIND {
      var b := Replace(StoredText(value), CARET, COMMA);
      U16RoundTrip(|b| % U16_LIMIT);
      assert r[..2] == EncodeU16(|b| % U16_LIMIT);
    } else if kind == INT_KIND || kind == ROW_ID_KIND {
      I32RoundTrip(match ParseI32(value) case None => 0 case Some(v) => v);
    }
  }

  /** A field past the last header type is written as one zero byte, whatever its text. */
  lemma MissingTypeWritesZero(value: Text, types: seq<byte>, i: nat, floats: Floats)
    requires |types| <= i
    ensures EncodeValue(value, TypeAt(types, i), floats) == [0]
  {
    EncodeValueCases(value, TypeAt(types, i), floats);
  }

  /**
   * The layout of the file written: four zero bytes, the number of header
   * fields less one as a `u16`, the number of row lines as a `u32` (both
   * wrapped), the column definitions, and the end mark `5 THEND` last.
   */
  lemma DntLayout(t: Text, floats: Floats, trimmed: bool)
    ensures var out := DntOfWith(t, floats, trimmed);
      && 10 + |END_MARK| <= |out| && out[..4] == [0, 0, 0, 0]
      && DecodeU16(out[4..6]) == (|HeaderFields(t)| - 1) % U16_LIMIT
      && DecodeU32(out[6..10]) == |RowLinesOf(t)| % U32_LIMIT
      && out[10..10 + |Definitions(HeaderFields(t))|] == Definitions(HeaderFields(t))
      && out[|out| - |END_MARK|..] == END_MARK
  {
    hide HeaderFields, Definitions, EncodeRowLines, RowLinesOf, FieldTypes, EncodeU16, EncodeU32;
    var fields := HeaderFields(t);
    var defs := Definitions(fields);
    var n := (|fields| - 1) % U16_LIMIT;
    var m := |RowLinesOf(t)| % U32_LIMIT;
    var rows := EncodeRowLines(RowLinesOf(t), FieldTypes(fields), floats, trimmed);
    var out := DntOfWith(t, floats, trimmed);
    assert out == [0, 0, 0, 0] + EncodeU16(n) + EncodeU32(m) + defs + rows + END_MARK;
    assert |EncodeU16(n)| == 2 && |EncodeU32(m)| == 4;
    assert out[4..6] == EncodeU16(n);
    assert out[6..10] == EncodeU32(m);
    U16RoundTrip(n);
    U32RoundTrip(m);
  }

  // ---------------------------------------------------------------------------
  // The writer

  /** The bytes of one field, kind by kind. */
  lemma EncodeValueByKind(value: Text, kind: byte, floats: Floats)
    ensures kind == STRING_KIND ==>
      var b := Replace(StoredText(value), CARET, COMMA);
      EncodeValue(value, kind, floats) == EncodeU16(|b| % U16_LIMIT) + b
    ensures (kind == INT_KIND || kind == ROW_ID_KIND) ==>
      EncodeValue(value, kind, floats) == EncodeI32(match ParseI32(value) case None => 0 case Some(v) => v)
    ensures (kind == F32_KIND || kind == F32_ALT_KIND) ==>
      EncodeValue(value, kind, floats) == match floats.parseF32(value) case None => [0, 0, 0, 0] case Some(w) => w
    ensures kind == F64_KIND ==>
      EncodeValue(value, kind, floats) == match floats.parseF64(value) case None => [0, 0, 0, 0, 0, 0, 0, 0] case Some(d) => d
    ensures kind !in {STRING_KIND, INT_KIND, ROW_ID_KIND, F32_KIND, F32_ALT_KIND, F64_KIND} ==>
      EncodeValue(value, kind, floats) == [0]
  {
  }

  /** A string field: its stored length, then its stored text. */
  method WriteText(fs: Writer, value: Text)
    modifies fs
    ensures var b := Replace(StoredText(value), CARET, COMMA);
      fs.bytes == old(fs.bytes) + (EncodeU16(|b| % U16_LIMIT) + b)
  {
    hide Replace, StoredText, EncodeU16;
    var encodedValue := Replace(StoredText(value), CARET, COMMA);
    fs.WriteU16(|encodedValue| % U16_LIMIT);
    fs.Write(encodedValue);
  }

  /** Writes one field under its type. */
  method WriteValue(fs: Writer, value: Text, fieldType: byte, floats: Floats)
    modifies fs
    ensures fs.bytes == old(fs.bytes) + EncodeValue(value, fieldType, floats)
  {
    hide Replace, StoredText, ParseI32, EncodeU16, EncodeI32, EncodeValue;
    EncodeValueByKind(value, fieldType, floats);
    if fieldType == STRING_KIND {
      WriteText(fs, value);
    } else if fieldType == INT_KIND || fieldType == ROW_ID_KIND {
      var intValue := match ParseI32(value) case None => 0 case Some(v) => v;
      fs.WriteI32(intValue);
    } else if fieldType == F32_KIND || fieldType == F32_ALT_KIND {
      var floatValue := match floats.parseF32(value) case None => [0, 0, 0, 0] case Some(w) => w;
      fs.Write(floatValue);
    } else if fieldType == F64_KIND {
      var doubleValue := match floats.parseF64(value) case None => [0, 0, 0, 0, 0, 0, 0, 0] case Some(d) => d;
      fs.Write(doubleValue);
    } else {
      fs.WriteU8(0);
    }
  }

  /** One pass of the header loop: the field's type, if any, and its definition, if any. */
  method WriteDefinition(fs: Writer, field: Text) returns (fieldType: seq<byte>)
    modifies fs
    ensures fieldType == FieldType(field)
    ensures fs.bytes == old(fs.bytes) + Definition(field)
  {
    var parts := Split(field, PIPE);
    fieldType := [];
    if |parts| == 2 {
      var fieldName := parts[0];
      var kind: byte := match ParseU8(parts[1]) case None => 0 case Some(k) => k;
      fieldType := [kind];
      if !Contains(fieldName, ROW_ID_MARK) {
        fs.WriteU16(|fieldName| % U16_LIMIT);
        fs.Write(fieldName);
        fs.WriteU8(kind);
      }
    }
  }

  /** The header loop: collects the types and writes the definitions. */
  method WriteDefinitions(fs: Writer, fields: seq<Text>) returns (fieldTypes: seq<byte>)
    modifies fs
    ensures fieldTypes == FieldTypes(fields)
    ensures fs.bytes == old(fs.bytes) + Definitions(fields)
  {
    hide *;
    FieldTypesSnoc([], []);
    DefinitionsSnoc([], []);
    fieldTypes := [];
    for i := 0 to |fields|
      invariant fieldTypes == FieldTypes(fields[..i])
      invariant fs.bytes == old(fs.bytes) + Definitions(fields[..i])
    {
      assert fields[..i + 1] == fields[..i] + [fields[i]];
      FieldTypesSnoc(fields[..i], fields[i]);
      DefinitionsSnoc(fields[..i], fields[i]);
      var fieldType := WriteDefinition(fs, fields[i]);
      fieldTypes := fieldTypes + fieldType;
    }
    assert fields[..|fields|] == fields;
  }

  /** One pass of the row loop: every field of one row line under the type at its position. */
  method WriteFields(fs: Writer, row: Text, fieldTypes: seq<byte>, floats: Floats)
    modifies fs
    ensures fs.bytes == old(fs.bytes) + EncodeFields(RowFields(row, true), fieldTypes, floats)
  {
    hide *;
    var rowFields := RowFields(row, true);
    EncodeFieldsSnoc([], [], fieldTypes, floats);
    for index := 0 to |rowFields|
      invariant fs.bytes == old(fs.bytes) + EncodeFields(rowFields[..index], fieldTypes, floats)
    {
      EncodeFieldsSnoc(rowFields[..index], rowFields[index], fieldTypes, floats);
      assert rowFields[..index + 1] == rowFields[..index] + [rowFields[index]];
      var fieldType := TypeAt(fieldTypes, index);
      WriteValue(fs, rowFields[index], fieldType, floats);
    }
    assert rowFields[..|rowFields|] == rowFields;
  }

  /** The row loop. */
  method WriteRowLines(fs: Writer, rowLines: seq<Text>, fieldTypes: seq<byte>, floats: Floats)
    modifies fs
    ensures fs.bytes == old(fs.bytes) + EncodeRowLines(rowLines, fieldTypes, floats, true)
  {
    hide *;
    EncodeRowLinesSnoc([], [], fieldTypes, floats, true);
    ghost var prefix := fs.bytes;
    var k := 0;
    while k < |rowLines|
      invariant k <= |rowLines|
      invariant fs.bytes == prefix + EncodeRowLines(rowLines[..k], fieldTypes, floats, true)
    {
      EncodeRowLinesSnoc(rowLines[..k], rowLines[k], fieldTypes, floats, true);
      assert rowLines[..k + 1] == rowLines[..k] + [rowLines[k]];
      WriteFields(fs, rowLines[k], fieldTypes, floats);
      k := k + 1;
    }
    assert rowLines[..|rowLines|] == rowLines;
  }

  /** `convert_to_dnt`: the bytes written to the output file. */
  method ConvertToDnt(input: Text, floats: Floats) returns (out: seq<byte>)
    ensures out == DntOf(input, floats)
  {
    hide HeaderFields, RowLinesOf, Definitions, EncodeRowLines, FieldTypes, EncodeU16, EncodeU32;
    var fields := HeaderFields(input);
    var rowLines := RowLinesOf(input);
    var fs := new Writer();
    fs.Write([0, 0, 0, 0]);
    fs.WriteU16((|fields| - 1) % U16_LIMIT);
    fs.WriteU32(|rowLines| % U32_LIMIT);
    var fieldTypes := WriteDefinitions(fs, fields);
    assert fs.bytes == Front(input);
    WriteRowLines(fs, rowLines, fieldTypes, floats);
    fs.Write([5]);
    fs.Write(Ascii("THEND"));
    out := fs.bytes;
  }

  // ---------------------------------------------------------------------------
  // One more piece at the end

  lemma {:induction false} FieldTypesSnoc(fields: seq<Text>, f: Text)
    ensures FieldTypes([]) == []
    ensures FieldTypes(fields + [f]) == FieldTypes(fields) + FieldType(f)
    decreases |fields|
  {
    hide FieldType;
    if fields != [] {
      assert (fields + [f])[1..] == fields[1..] + [f];
      FieldTypesSnoc(fields[1..], f);
    } else {
      assert FieldTypes([f]) == FieldType(f) + FieldTypes([]);
    }
  }

  lemma {:induction false} DefinitionsSnoc(fields: seq<Text>, f: Text)
    ensures Definitions([]) == []
    ensures Definitions(fields + [f]) == Definitions(fields) + Definition(f)
    decreases |fields|
  {
    hide Definition;
    if fields != [] {
      assert (fields + [f])[1..] == fields[1..] + [f];
      DefinitionsSnoc(fields[1..], f);
    } else {
      assert Definitions([f]) == Definition(f) + Definitions([]);
    }
  }

  /** The type at position `i + 1` is the type at position `i` of the later types. */
  lemma TypeAtLater(types: seq<byte>, i: nat)
    ensures TypeAt(types, i + 1) == TypeAt(Later(types), i)
  {
  }

  lemma {:induction false} EncodeFieldsSnoc(values: seq<Text>, v: Text, types: seq<byte>, floats: Floats)
    ensures EncodeFields([], types, floats) == []
    ensures EncodeFields(values + [v], types, floats) == EncodeFields(values, types, floats) + EncodeValue(v, TypeAt(types, |values|), floats)
    decreases |values|
  {
    hide EncodeValue;
    if values != [] {
      assert (values + [v])[1..] == values[1..] + [v];
      EncodeFieldsSnoc(values[1..], v, Later(types), floats);
      TypeAtLater(types, |values| - 1);
    } else {
      assert EncodeFields([v], types, floats) == EncodeValue(v, TypeAt(types, 0), floats) + EncodeFields([], Later(types), floats);
    }
  }

  lemma {:induction false} EncodeRowLinesSnoc(rows: seq<Text>, row: Text, types: seq<byte>, floats: Floats, trimmed: bool)
    ensures EncodeRowLines([], types, floats, trimmed) == []
    ensures EncodeRowLines(rows + [row], types, floats, trimmed)
            == EncodeRowLines(rows, types, floats, trimmed) + EncodeFields(RowFields(row, trimmed), types, floats)
    decreases |rows|
  {
    hide EncodeFields, RowFields;
    if rows != [] {
      assert (rows + [row])[1..] == rows[1..] + [row];
      EncodeRowLinesSnoc(rows[1..], row, types, floats, trimmed);
    } else {
      assert EncodeRowLines([row], types, floats, trimmed)
             == EncodeFields(RowFields(row, trimmed), types, floats) + EncodeRowLines([], types, floats, trimmed);
    }
  }
}
