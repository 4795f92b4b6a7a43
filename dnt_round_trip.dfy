/**
 * A DNT file written out as text by `convert_to_tsv` and read back by
 * `convert_to_dnt` (both in src-tauri/src/dnt_converter.rs) is the same file,
 * as long as the texts of the table hold none of the bytes the text format
 * gives a meaning to. Row lines are cut at tabs without being trimmed first:
 * with the trim that `convert_to_dnt` applies, a row whose last cell is empty
 * loses that cell.
 */
module DntRoundTrip {
  import opened Wrappers
  import opened Bytes
  import opened Text
  import opened DntTable
  import opened DntImage
  import opened DntConverter

  /** The text `convert_to_tsv` writes for the file of a table (see `TsvOfEncoded`). */
  function TsvText(t: Table, floats: Floats): Text
  {
    HeaderLine([RowIdColumn(Escaped)] + t.columns) + [LF] + RowsText(t.rows, Escaped, floats)
  }

  /** A column whose header cell reads back as its name and type. */
  predicate ColumnWritable(c: Column)
  {
    && Unseparated(c.name) && PIPE !in c.name
    && !Contains(c.name, ROW_ID_MARK)
    && STRING_KIND <= c.kind <= F64_KIND
  }

  /** A cell whose text reads back as the cell. */
  predicate CellWritable(c: Cell, floats: Floats)
  {
    match c
    case Str(b) => Unseparated(b) && CARET !in b && !EndsWith(b, POINT_ZERO)
    case Single(w) => Unseparated(floats.showF32(w)) && floats.parseF32(floats.showF32(w)) == Some(w)
    case Double(d) => Unseparated(floats.showF64(d)) && floats.parseF64(floats.showF64(d)) == Some(d)
    case _ => true
  }

  /** A row whose id is an `i32` and whose cells read back. */
  predicate RecordWritable(r: Record, floats: Floats)
  {
    r.id <= I32_MAX && forall j :: 0 <= j < |r.cells| ==> CellWritable(r.cells[j], floats)
  }

  predicate ColumnsWritable(cols: seq<Column>)
  {
    forall i :: 0 <= i < |cols| ==> ColumnWritable(cols[i])
  }

  predicate Writable(t: Table, floats: Floats)
  {
    ColumnsWritable(t.columns) && forall k :: 0 <= k < |t.rows| ==> RecordWritable(t.rows[k], floats)
  }

  /** The type bytes of a dictionary. */
  function Kinds(dict: seq<Column>): (ks: seq<byte>)
    ensures |ks| == |dict|
  {
    seq(|dict|, i requires 0 <= i < |dict| => dict[i].kind)
  }

  // ---------------------------------------------------------------------------
  // The header line

  /** A header cell splits at `|` into the name and the type in decimal. */
  lemma HeaderCellSplit(c: Column)
    requires PIPE !in c.name
    ensures Split(HeaderCell(c), PIPE) == [c.name, NatToDecimal(c.kind)]
  {
    var d := NatToDecimal(c.kind);
    DecimalHasNoSeparators(c.kind);
    assert [c.name, d][1..] == [d];
    assert Join([c.name, d], PIPE) == HeaderCell(c);
    SplitJoin([c.name, d], PIPE);
  }

  /** What the header loop makes of the header cell of a column. */
  lemma HeaderCellField(c: Column)
    requires PIPE !in c.name
    ensures FieldType(HeaderCell(c)) == [c.kind]
    ensures Definition(HeaderCell(c))
            == if Contains(c.name, ROW_ID_MARK) then [] else EncodeU16(|c.name| % U16_LIMIT) + c.name + [c.kind]
  {
    HeaderCellSplit(c);
    ParseU8Format(c.kind);
  }

  /** A header cell holds no separator and ends with a digit. */
  lemma HeaderCellShape(c: Column)
    requires Unseparated(c.name)
    ensures HeaderCell(c) != [] && Unseparated(HeaderCell(c))
    ensures c.name != [] ==> HeaderCell(c)[0] == c.name[0]
    ensures HeaderCell(c)[|HeaderCell(c)| - 1] !in WHITESPACE
  {
    DecimalHasNoSeparators(c.kind);
  }

  /** The row-id key `_RowID`: no separator, no leading whitespace, and it contains `RowID`. */
  lemma RowIdKeyShape()
    ensures Unseparated(RowIdKey(Escaped)) && PIPE !in RowIdKey(Escaped)
    ensures RowIdKey(Escaped) != [] && RowIdKey(Escaped)[0] !in WHITESPACE
    ensures Contains(RowIdKey(Escaped), ROW_ID_MARK)
  {
    var key: Text := [0x5F, 0x52, 0x6F, 0x77, 0x49, 0x44];
    assert RowIdKey(Escaped) == key;
    hide RowIdKey, Ascii;
    assert OccursAt(key, ROW_ID_MARK, 1);
    ContainsIff(key, ROW_ID_MARK);
  }

  /** The row-id entry of the dictionary has a type and no definition. */
  lemma RowIdHeaderCell()
    ensures Unseparated(RowIdKey(Escaped)) && PIPE !in RowIdKey(Escaped)
    ensures RowIdKey(Escaped) != [] && RowIdKey(Escaped)[0] !in WHITESPACE
    ensures FieldType(HeaderCell(RowIdColumn(Escaped))) == [ROW_ID_KIND]
    ensures Definition(HeaderCell(RowIdColumn(Escaped))) == []
  {
    RowIdKeyShape();
    hide RowIdKey, Ascii, HeaderCell, FieldType, Definition, Contains, Unseparated;
    HeaderCellField(RowIdColumn(Escaped));
  }

  /** The types collected from the header cells are the types of the dictionary. */
  lemma {:induction false} HeaderCellsTypes(dict: seq<Column>)
    requires forall i :: 0 <= i < |dict| ==> PIPE !in dict[i].name
    ensures FieldTypes(HeaderCells(dict)) == Kinds(dict)
    decreases |dict|
  {
    hide HeaderCell, FieldType, Split, ParseU8, NatToDecimal;
    if dict != [] {
      assert HeaderCells(dict)[1..] == HeaderCells(dict[1..]);
      HeaderCellField(dict[0]);
      HeaderCellsTypes(dict[1..]);
      assert Kinds(dict) == [dict[0].kind] + Kinds(dict[1..]);
    }
  }

  /** The definitions written for the header cells of the columns are the columns' encoding. */
  lemma {:induction false} HeaderCellsDefinitions(cols: seq<Column>)
    requires ColumnsWritable(cols)
    requires forall i :: 0 <= i < |cols| ==> |cols[i].name| < U16_LIMIT
    ensures Definitions(HeaderCells(cols)) == EncodeColumns(cols)
    decreases |cols|
  {
    hide HeaderCell, FieldType, Definition, Split, ParseU8, NatToDecimal, Contains, EncodeU16;
    if cols != [] {
      assert HeaderCells(cols)[1..] == HeaderCells(cols[1..]);
      HeaderCellField(cols[0]);
      HeaderCellsDefinitions(cols[1..]);
    }
  }

  /** The header line holds no separator but tabs, and is its own trim. */
  lemma HeaderLineShape(cols: seq<Column>)
    requires ColumnsWritable(cols)
    ensures var h := HeaderLine([RowIdColumn(Escaped)] + cols);
      LF !in h && h != [] && Trim(h + [LF]) == h
      && Split(h, TAB) == HeaderCells([RowIdColumn(Escaped)] + cols)
  {
    var dict := [RowIdColumn(Escaped)] + cols;
    var cells := HeaderCells(dict);
    var h := HeaderLine(dict);
    hide HeaderCell, Join, Split, Trim, RowIdKey;
    RowIdHeaderCell();
    forall i | 0 <= i < |dict|
      ensures cells[i] != [] && Unseparated(cells[i]) && cells[i][|cells[i]| - 1] !in WHITESPACE
    {
      if i > 0 {
        assert dict[i] == cols[i - 1];
        assert ColumnWritable(cols[i - 1]);
      } else {
        assert dict[0] == RowIdColumn(Escaped);
      }
      HeaderCellShape(dict[i]);
    }
    HeaderCellShape(dict[0]);
    assert h == Join(cells, TAB);
    JoinFree(cells, TAB, LF);
    JoinFirst(cells, TAB);
    JoinLast(cells, TAB);
    var last := cells[|cells| - 1];
    assert h[|h| - 1] == last[|last| - 1] by {
      assert h[|h| - |last|..] == last;
    }
    TrimLineFeed(h);
    SplitJoin(cells, TAB);
  }

  /** Reading the header of the text: the first line and the rest. */
  lemma TsvTextParts(t: Table, floats: Floats)
    requires ColumnsWritable(t.columns)
    ensures HeaderFields(TsvText(t, floats)) == HeaderCells([RowIdColumn(Escaped)] + t.columns)
    ensures Body(TsvText(t, floats)) == RowsText(t.rows, Escaped, floats)
  {
    var h := HeaderLine([RowIdColumn(Escaped)] + t.columns);
    var s := TsvText(t, floats);
    hide HeaderLine, RowsText, Split, Trim, Join, HeaderCells, ColumnsWritable;
    HeaderLineShape(t.columns);
    assert s[|h|] == LF && s[..|h|] == h;
    IndexOfUnique(s, LF, |h|);
    assert HeaderText(s) == h + [LF];
  }

  // ---------------------------------------------------------------------------
  // The rows

  /** The text of a writable cell holds no separator. */
  lemma CellTextUnseparated(c: Cell, floats: Floats)
    requires CellWritable(c, floats)
    ensures Unseparated(CellText(c, Escaped, floats))
  {
    match c
    case Str(b) =>
      assert forall i :: 0 <= i < |b| ==> Replace(b, COMMA, CARET)[i] in {b[i], CARET};
    case Int(v) =>
      DecimalHasNoSeparators(v);
    case _ =>
  }

  /** The fields of a row line: the id, then the cells' texts. */
  lemma RowLineFields(r: Record, floats: Floats)
    requires RecordWritable(r, floats)
    ensures var l := RowLine(r, Escaped, floats);
      Split(l, TAB) == [NatToDecimal(r.id)] + CellTexts(r.cells, Escaped, floats)
      && IsLine(l) && !Blank(l)
  {
    hide Join, Split, Trim, CellText, NatToDecimal, CellWritable;
    var parts := [NatToDecimal(r.id)] + CellTexts(r.cells, Escaped, floats);
    DecimalHasNoSeparators(r.id);
    forall i | 0 <= i < |parts|
      ensures Unseparated(parts[i])
    {
      if i > 0 {
        CellTextUnseparated(r.cells[i - 1], floats);
      }
    }
    SplitJoin(parts, TAB);
    JoinFree(parts, TAB, LF);
    JoinFree(parts, TAB, CR);
    JoinFirst(parts, TAB);
    TrimNonEmpty(Join(parts, TAB));
  }

  /** No line that is not blank is filtered out. */
  lemma {:induction false} NonBlankKeeps(ls: seq<Text>)
    requires forall i :: 0 <= i < |ls| ==> !Blank(ls[i])
    ensures NonBlank(ls) == ls
    decreases |ls|
  {
    hide Blank;
    if ls != [] {
      NonBlankKeeps(ls[..|ls| - 1]);
      assert ls[..|ls| - 1] + [ls[|ls| - 1]] == ls;
    }
  }

  /** The row lines read from the text are the lines of the rows. */
  lemma TsvTextRowLines(t: Table, floats: Floats)
    requires Writable(t, floats)
    ensures RowLinesOf(TsvText(t, floats)) == RowLines(t.rows, Escaped, floats)
  {
    var ls := RowLines(t.rows, Escaped, floats);
    TsvTextParts(t, floats);
    RowsTextLines(t.rows, Escaped, floats);
    forall k | 0 <= k < |ls|
      ensures IsLine(ls[k]) && !Blank(ls[k])
    {
      RowLineFields(t.rows[k], floats);
    }
    LinesUnlines(ls);
    NonBlankKeeps(ls);
  }

  /** A text that does not end in `.0` does not after commas become carets. */
  lemma ShownEnding(b: Text)
    ensures EndsWith(Replace(b, COMMA, CARET), POINT_ZERO) ==> EndsWith(b, POINT_ZERO)
  {
    var s := Replace(b, COMMA, CARET);
    if EndsWith(s, POINT_ZERO) {
      assert s[|s| - 2..] == POINT_ZERO;
      assert s[|s| - 2] == 0x2E && s[|s| - 1] == 0x30;
      assert b[|b| - 2] == 0x2E && b[|b| - 1] == 0x30;
      assert b[|b| - 2..] == POINT_ZERO;
    }
  }

  /** A writable cell's text, read back under the cell's type, is the cell's encoding. */
  lemma CellEncoding(c: Cell, kind: byte, floats: Floats)
    requires CellFits(c, kind) && CellWritable(c, floats)
    requires STRING_KIND <= kind <= F64_KIND
    ensures EncodeValue(CellText(c, Escaped, floats), kind, floats) == EncodeCell(c, kind)
  {
    hide EncodeU16, EncodeI32, ParseI32, IntToDecimal, Replace, StoredText, EndsWith;
    match c
    case Str(b) =>
      var s := Replace(b, COMMA, CARET);
      ShownEnding(b);
      assert StoredText(s) == s;
      ReplaceRoundTrip(b, COMMA, CARET);
    case Int(v) =>
      ParseI32Format(v);
    case _ =>
  }

  /** The texts of the cells of a row, read back under the columns' types, are the cells' encoding. */
  lemma {:induction false} CellsEncoding(cells: seq<Cell>, cols: seq<Column>, floats: Floats)
    requires CellsFit(cells, cols) && ColumnsWritable(cols)
    requires forall j :: 0 <= j < |cells| ==> CellWritable(cells[j], floats)
    ensures EncodeFields(CellTexts(cells, Escaped, floats), Kinds(cols), floats) == EncodeCells(cells, cols)
    decreases |cells|
  {
    var texts := CellTexts(cells, Escaped, floats);
    if cells != [] {
      assert texts[1..] == CellTexts(cells[1..], Escaped, floats);
      assert Later(Kinds(cols)) == Kinds(cols[1..]);
      CellEncoding(cells[0], cols[0].kind, floats);
      CellsEncoding(cells[1..], cols[1..], floats);
    }
  }

  /** A row line, read back, is the row's encoding. */
  lemma RecordEncoding(r: Record, cols: seq<Column>, floats: Floats)
    requires RecordFits(r, cols) && RecordWritable(r, floats) && ColumnsWritable(cols)
    ensures EncodeFields(RowFields(RowLine(r, Escaped, floats), false), Kinds([RowIdColumn(Escaped)] + cols), floats)
            == EncodeRecord(r, cols)
  {
    hide RowLine, EncodeValue, NatToDecimal, EncodeU32, EncodeCells, CellTexts, Split, CellWritable, CellsFit,
      ColumnWritable, EncodeFields, Kinds, Later, TypeAt;
    var values := [NatToDecimal(r.id)] + CellTexts(r.cells, Escaped, floats);
    var types := Kinds([RowIdColumn(Escaped)] + cols);
    RowLineFields(r, floats);
    assert RowFields(RowLine(r, Escaped, floats), false) == values;
    assert values[1..] == CellTexts(r.cells, Escaped, floats);
    RowIdKindFirst(cols);
    EncodeFieldsCons(values, types, floats);
    IdEncoding(r.id, floats);
    CellsEncoding(r.cells, cols, floats);
  }

  /** The row-id type comes first; the columns' types follow. */
  lemma RowIdKindFirst(cols: seq<Column>)
    ensures var types := Kinds([RowIdColumn(Escaped)] + cols);
      TypeAt(types, 0) == ROW_ID_KIND && Later(types) == Kinds(cols)
  {
    var types := Kinds([RowIdColumn(Escaped)] + cols);
    assert Later(types) == Kinds(cols);
  }

  /** The fields of a non-empty row: the first under the first type, then the rest under the others. */
  lemma EncodeFieldsCons(values: seq<Text>, types: seq<byte>, floats: Floats)
    requires values != []
    ensures EncodeFields(values, types, floats)
            == EncodeValue(values[0], TypeAt(types, 0), floats) + EncodeFields(values[1..], Later(types), floats)
  {
  }

  /** The id field, read back under the row-id type, is the id as a `u32`. */
  lemma IdEncoding(id: nat, floats: Floats)
    requires id <= I32_MAX
    ensures EncodeValue(NatToDecimal(id), ROW_ID_KIND, floats) == EncodeU32(id)
  {
    ParseI32Format(id);
    I32MatchesU32(id);
  }

  /** All row lines, read back, are the rows' encoding. */
  lemma {:induction false} RecordsEncoding(rows: seq<Record>, cols: seq<Column>, floats: Floats)
    requires ColumnsWritable(cols)
    requires forall k :: 0 <= k < |rows| ==> RecordFits(rows[k], cols) && RecordWritable(rows[k], floats)
    ensures EncodeRowLines(RowLines(rows, Escaped, floats), Kinds([RowIdColumn(Escaped)] + cols), floats, false)
            == EncodeRecords(rows, cols)
    decreases |rows|
  {
    if rows != [] {
      assert RowLines(rows, Escaped, floats)[1..] == RowLines(rows[1..], Escaped, floats);
      RecordEncoding(rows[0], cols, floats);
      RecordsEncoding(rows[1..], cols, floats);
    }
  }

  // ---------------------------------------------------------------------------
  // The whole file

  /**
   * Reading back the text of a table, with row lines cut at tabs as they
   * are, writes exactly the file of the table.
   */
  lemma DntOfTsvText(t: Table, floats: Floats)
    requires Storable(t, Escaped) && Writable(t, floats)
    ensures DntOfUntrimmed(TsvText(t, floats), floats) == EncodeTable(t, Escaped)
  {
    var s := TsvText(t, floats);
    var dict := [RowIdColumn(Escaped)] + t.columns;
    hide TsvText, HeaderFields, RowLinesOf, Definitions, FieldTypes, EncodeRowLines, HeaderCells, HeaderLine,
      RowsText, RowLines, EncodeColumns, EncodeRecords, HeaderCell, Definition, Kinds, EncodeU16, EncodeU32;
    TsvTextParts(t, floats);
    TsvTextRowLines(t, floats);
    DefinitionsOfDictionary(t.columns);
    forall i | 0 <= i < |dict|
      ensures PIPE !in dict[i].name
    {
      if i > 0 {
        assert dict[i] == t.columns[i - 1];
      }
    }
    HeaderCellsTypes(dict);
    RecordsEncoding(t.rows, t.columns, floats);
  }

  /** The definitions written for the header cells of the whole dictionary: none for the row-id entry. */
  lemma DefinitionsOfDictionary(cols: seq<Column>)
    requires ColumnsWritable(cols)
    requires forall i :: 0 <= i < |cols| ==> |cols[i].name| < U16_LIMIT
    ensures Definitions(HeaderCells([RowIdColumn(Escaped)] + cols)) == EncodeColumns(cols)
  {
    hide Definition, HeaderCell, EncodeColumns, FieldType, ColumnsWritable, RowIdColumn, Split, Contains, ParseU8;
    var dict := [RowIdColumn(Escaped)] + cols;
    RowIdHeaderCell();
    assert HeaderCells(dict)[1..] == HeaderCells(cols);
    HeaderCellsDefinitions(cols);
  }

  /** File to text to file: `convert_to_tsv` then `convert_to_dnt` (without the row trim) restores the file. */
  lemma FileTextFile(t: Table, floats: Floats)
    requires Storable(t, Escaped) && Writable(t, floats)
    ensures TsvOf(EncodeTable(t, Escaped), Escaped, floats) == Converted(TsvText(t, floats))
    ensures DntOfUntrimmed(TsvText(t, floats), floats) == EncodeTable(t, Escaped)
  {
    TsvOfEncoded(t, Escaped, floats);
    DntOfTsvText(t, floats);
  }

  // ---------------------------------------------------------------------------
  // The row trim as written

  /** Trimming row lines that are their own trim changes nothing. */
  lemma {:induction false} TrimmedAgrees(ls: seq<Text>, types: seq<byte>, floats: Floats)
    requires forall k :: 0 <= k < |ls| ==> Trim(ls[k]) == ls[k]
    ensures EncodeRowLines(ls, types, floats, true) == EncodeRowLines(ls, types, floats, false)
    decreases |ls|
  {
    if ls != [] {
      TrimmedAgrees(ls[1..], types, floats);
    }
  }

  /** As written, the text reads back to the file when no row line has whitespace at either end. */
  lemma DntOfTsvTextTrimmed(t: Table, floats: Floats)
    requires Storable(t, Escaped) && Writable(t, floats)
    requires forall k :: 0 <= k < |t.rows| ==> Trim(RowLine(t.rows[k], Escaped, floats)) == RowLine(t.rows[k], Escaped, floats)
    ensures DntOf(TsvText(t, floats), floats) == EncodeTable(t, Escaped)
  {
    hide TsvText, RowLinesOf, HeaderFields, FieldTypes, EncodeRowLines, Front, EncodeTable, RowLine, Trim,
      Storable, Writable;
    TsvTextRowLines(t, floats);
    TrimmedAgrees(RowLines(t.rows, Escaped, floats), FieldTypes(HeaderFields(TsvText(t, floats))), floats);
    DntOfTsvText(t, floats);
  }

  /** One text column and one row whose cell is empty: its line is `7` and a tab. */
  const EMPTY_LAST_CELL: Table := Table([Column([0x61], STRING_KIND)], [Record(7, [Str([])])])

  /** `a` contains neither `_RowID` nor `RowID`. */
  lemma ShortNameUnmarked()
    ensures !Contains([0x61], Ascii("_RowID")) && !Contains([0x61], ROW_ID_MARK)
  {
    var name: Text := [0x61];
    assert |Ascii("_RowID")| == 6;
    assert !StartsWith(name, Ascii("_RowID")) && !StartsWith(name[1..], Ascii("_RowID"));
    assert !StartsWith(name, ROW_ID_MARK) && !StartsWith(name[1..], ROW_ID_MARK);
  }

  lemma ShortColumnWritable()
    ensures ColumnWritable(Column([0x61], STRING_KIND)) && !SkipsColumn(Escaped, [0x61]) && |[0x61]| < U16_LIMIT
  {
    ShortNameUnmarked();
  }

  lemma EmptyCellRecordWritable(floats: Floats)
    ensures RecordWritable(Record(7, [Str([])]), floats) && RecordFits(Record(7, [Str([])]), [Column([0x61], STRING_KIND)])
  {
    assert CellWritable(Str([]), floats);
  }

  /** A table of one column and one row is storable and writable when the column and the row are. */
  lemma SingleWritable(c: Column, r: Record, floats: Floats)
    requires |c.name| < U16_LIMIT && !SkipsColumn(Escaped, c.name) && ColumnWritable(c)
    requires RecordFits(r, [c]) && RecordWritable(r, floats)
    requires PIPE !in RowIdKey(Escaped)
    ensures Storable(Table([c], [r]), Escaped) && Writable(Table([c], [r]), floats) && ColumnsWritable([c])
    ensures var dict := [RowIdColumn(Escaped)] + [c];
      Kinds(dict) == [ROW_ID_KIND, c.kind] && forall i :: 0 <= i < |dict| ==> PIPE !in dict[i].name
  {
    hide RecordFits, RecordWritable, SkipsColumn;
    var dict := [RowIdColumn(Escaped)] + [c];
    assert dict == [RowIdColumn(Escaped), c];
  }

  lemma EmptyLastCellValue()
    ensures EMPTY_LAST_CELL == Table([Column([0x61], STRING_KIND)], [Record(7, [Str([])])])
  {
  }

  lemma EmptyLastCellWritable(floats: Floats)
    ensures Storable(EMPTY_LAST_CELL, Escaped) && Writable(EMPTY_LAST_CELL, floats)
    ensures ColumnsWritable(EMPTY_LAST_CELL.columns)
    ensures var dict := [RowIdColumn(Escaped)] + EMPTY_LAST_CELL.columns;
      Kinds(dict) == [ROW_ID_KIND, STRING_KIND] && forall i :: 0 <= i < |dict| ==> PIPE !in dict[i].name
  {
    hide *;
    EmptyLastCellValue();
    RowIdHeaderCell();
    ShortColumnWritable();
    EmptyCellRecordWritable(floats);
    SingleWritable(Column([0x61], STRING_KIND), Record(7, [Str([])]), floats);
  }

  /** The one row of that table is written as `7` and a tab. */
  lemma EmptyLastCellRowLine(floats: Floats)
    ensures RowLine(EMPTY_LAST_CELL.rows[0], Escaped, floats) == [0x37, TAB]
  {
    hide Trim, Split, EncodeValue, EncodeFields, EncodeRowLines;
    var r := EMPTY_LAST_CELL.rows[0];
    assert NatToDecimal(7) == [0x37];
    assert CellTexts(r.cells, Escaped, floats) == [[]];
    assert Join([[0x37], []], TAB) == [0x37, TAB];
  }

  /** Trimmed, the line loses its tab and cuts into one field; untrimmed, into two. */
  lemma EmptyLastCellSplits()
    ensures Trim([0x37, TAB]) == [0x37]
    ensures Split([0x37], TAB) == [[0x37]] && Split([0x37, TAB], TAB) == [[0x37], []]
  {
    hide EncodeValue, EncodeFields, EncodeRowLines, RowLine, Join;
    var line: Text := [0x37, TAB];
    assert Trim(line) == [0x37];
    assert Split([0x37], TAB) == [[0x37]];
    assert Split(line, TAB) == [[0x37], []];
  }

  /** The id field takes four bytes; the empty text two more. */
  lemma EmptyLastCellFields(floats: Floats)
    ensures |EncodeFields([[0x37]], [ROW_ID_KIND, STRING_KIND], floats)| == 4
    ensures |EncodeFields([[0x37], []], [ROW_ID_KIND, STRING_KIND], floats)| == 6
  {
    hide Trim, Split, EncodeRowLines, RowLine, Join;
    var types: seq<byte> := [ROW_ID_KIND, STRING_KIND];
    assert |EncodeValue([0x37], ROW_ID_KIND, floats)| == 4;
    assert |EncodeValue([], STRING_KIND, floats)| == 2;
    assert |EncodeFields([[0x37]], types, floats)| == 4;
    assert |EncodeFields([[0x37], []], types, floats)| == 6;
  }

  /** The one row line of that table, and what reading it back makes of it, with and without the trim. */
  lemma EmptyLastCellLine(floats: Floats)
    ensures RowLines(EMPTY_LAST_CELL.rows, Escaped, floats) == [[0x37, TAB]]
    ensures |EncodeRowLines([[0x37, TAB]], [ROW_ID_KIND, STRING_KIND], floats, true)| == 4
    ensures |EncodeRowLines([[0x37, TAB]], [ROW_ID_KIND, STRING_KIND], floats, false)| == 6
  {
    hide Trim, Split, EncodeValue, EncodeFields, RowLine, Join, CellTexts, NatToDecimal;
    EmptyLastCellRowLine(floats);
    EmptyLastCellSplits();
    EmptyLastCellFields(floats);
    var line: Text := [0x37, TAB];
    assert RowFields(line, true) == [[0x37]];
    assert RowFields(line, false) == [[0x37], []];
  }

  /**
   * As written, the row trim drops the empty last cell of that row, so the
   * file read back is two bytes short of the file written out.
   */
  lemma TrimDropsEmptyLastCell(floats: Floats)
    ensures Storable(EMPTY_LAST_CELL, Escaped) && Writable(EMPTY_LAST_CELL, floats)
    ensures |DntOf(TsvText(EMPTY_LAST_CELL, floats), floats)| + 2 == |EncodeTable(EMPTY_LAST_CELL, Escaped)|
  {
    var t := EMPTY_LAST_CELL;
    var s := TsvText(t, floats);
    var dict := [RowIdColumn(Escaped)] + t.columns;
    hide *;
    EmptyLastCellWritable(floats);
    EmptyLastCellLine(floats);
    DntOfTsvText(t, floats);
    TsvTextParts(t, floats);
    TsvTextRowLines(t, floats);
    HeaderCellsTypes(dict);
    TrimmedLength(s, floats);
  }

  /** The file read back with and without the row trim differs only in the rows. */
  lemma TrimmedLength(s: Text, floats: Floats)
    ensures var rows := RowLinesOf(s);
      var types := FieldTypes(HeaderFields(s));
      |DntOf(s, floats)| + |EncodeRowLines(rows, types, floats, false)|
      == |DntOfUntrimmed(s, floats)| + |EncodeRowLines(rows, types, floats, true)|
  {
    hide RowLinesOf, FieldTypes, HeaderFields, EncodeRowLines, Front;
  }
}
