/**
 * What `convert_to_dnt` of src-tauri/src/converter.rs makes of the text that
 * `convert_to_tsv` of the same file writes.
 *
 * The text of a table has the header record `_RowID|3|3` followed by one
 * `name|type` per column, and one record per row: the row id, then the cell
 * texts. When no field holds a tab or a line break or opens with a quote,
 * cutting the text's lines at tabs gives exactly those records. With type 6 written as the `f64` the reader takes back, converting
 * those records gives back the table file, its rows in the order the workers
 * finished them. As written, type 6 is narrowed to an `f32`, and a table with
 * an `f64` column does not come back.
 */
module CsvRoundTrip {
  import opened Wrappers
  import opened Bytes
  import opened Text
  import opened DntTable
  import opened DntImage
  import opened CsvConverter

  /** The header record of a table's text. */
  function TsvHeaders(t: Table): (hs: seq<Text>)
    ensures |hs| == |t.columns| + 1
  {
    HeaderCells([RowIdColumn(Plain)] + t.columns)
  }

  /** The record of one row: its id, then its cell texts. */
  function TsvRecord(r: Record, floats: Floats): (fs: seq<Text>)
    ensures |fs| == |r.cells| + 1
  {
    [NatToDecimal(r.id)] + CellTexts(r.cells, Plain, floats)
  }

  function TsvRecords(rows: seq<Record>, floats: Floats): (rs: seq<seq<Text>>)
    ensures |rs| == |rows|
  {
    seq(|rows|, k requires 0 <= k < |rows| => TsvRecord(rows[k], floats))
  }

  /** The rows in the given order. */
  function Reordered(rows: seq<Record>, order: seq<nat>): (rs: seq<Record>)
    requires forall k :: 0 <= k < |order| ==> order[k] < |rows|
    ensures |rs| == |order|
  {
    seq(|order|, k requires 0 <= k < |order| => rows[order[k]])
  }

  /**
   * A field that the tab-separated reader takes as it stands: no tab or line
   * break would cut it, and no quote opens it.
   */
  predicate PlainField(b: Text)
  {
    Unseparated(b) && (b == [] || b[0] != QUOTE)
  }

  /**
   * A column whose header cell is read as one field and splits back into its
   * name and type, and is neither skipped nor uncounted.
   */
  predicate HeaderWritable(c: Column)
  {
    PlainField(c.name) && PIPE !in c.name && Defines(HeaderCell(c)) && STRING_KIND <= c.kind <= F64_KIND
  }

  /**
   * A cell whose text is read as one field and stored as the cell: text that
   * does not end in `.0` (the writer would drop it), floats whose text parses
   * back to them.
   */
  predicate FieldWritable(c: Cell, floats: Floats)
  {
    match c
    case Str(b) => PlainField(b) && !EndsWith(b, POINT_ZERO)
    case Single(w) => PlainField(floats.showF32(w)) && floats.parseF32(floats.showF32(w)) == Some(w)
    case Double(d) => PlainField(floats.showF64(d)) && floats.parseF64(floats.showF64(d)) == Some(d)
    case _ => true
  }

  /** A row whose id the writer's `i32` holds and whose cells come back. */
  predicate RecordWritable(r: Record, floats: Floats)
  {
    r.id <= I32_MAX && forall i :: 0 <= i < |r.cells| ==> FieldWritable(r.cells[i], floats)
  }

  predicate HeadersWritable(cols: seq<Column>)
  {
    forall i :: 0 <= i < |cols| ==> HeaderWritable(cols[i])
  }

  predicate Writable(t: Table, floats: Floats)
  {
    && HeadersWritable(t.columns)
    && (forall k :: 0 <= k < |t.rows| ==> RecordWritable(t.rows[k], floats))
  }

  // ---------------------------------------------------------------------------
  // The header record

  /** The row-id header cell is `_RowID|3|3`. */
  lemma RowIdHeader()
    ensures HeaderCell(RowIdColumn(Plain)) == [0x5F, 0x52, 0x6F, 0x77, 0x49, 0x44, 0x7C, 0x33, 0x7C, 0x33]
  {
    assert RowIdKey(Plain) == [0x5F, 0x52, 0x6F, 0x77, 0x49, 0x44, 0x7C, 0x33];
  }

  /** A text without the first byte of `p` does not contain `p`. */
  lemma {:induction false} WithoutFirstByte(s: Text, p: Text)
    requires p != [] && p[0] !in s
    ensures !Contains(s, p)
    decreases |s|
  {
    if s != [] {
      assert s[1..] == s[|s| - |s[1..]|..];
      assert forall b :: b in s[1..] ==> b in s;
      WithoutFirstByte(s[1..], p);
    }
  }

  /** `_RowID|3|3` is skipped by the definitions loop and counted as a column. */
  lemma RowIdHeaderSkipped()
    ensures !Defines(HeaderCell(RowIdColumn(Plain)))
    ensures !Contains(HeaderCell(RowIdColumn(Plain)), MARK_64)
  {
    RowIdHeader();
    var h := HeaderCell(RowIdColumn(Plain));
    hide HeaderCell, RowIdColumn;
    assert StartsWith(h, ROW_ID_NAME);
    WithoutFirstByte(h, MARK_64);
  }

  /** The header record: the row-id cell, then the cell of each column. */
  lemma TsvHeadersAt(t: Table)
    ensures TsvHeaders(t)[0] == HeaderCell(RowIdColumn(Plain))
    ensures forall i :: 0 <= i < |t.columns| ==> TsvHeaders(t)[i + 1] == HeaderCell(t.columns[i])
  {
    var d := [RowIdColumn(Plain)] + t.columns;
    forall i | 0 <= i < |t.columns|
      ensures TsvHeaders(t)[i + 1] == HeaderCell(t.columns[i])
    {
      assert d[i + 1] == t.columns[i];
    }
  }

  /** A header cell splits at `|` into the name and the type. */
  lemma HeaderCellSplit(c: Column)
    requires PIPE !in c.name
    ensures Split(HeaderCell(c), PIPE) == [c.name, NatToDecimal(c.kind)]
  {
    var d := NatToDecimal(c.kind);
    DecimalHasNoSeparators(c.kind);
    assert [c.name, d][1..] == [d];
    assert Join([c.name, d], PIPE) == HeaderCell(c);
    SplitJoin([c.name, d], PIPE);
  }

  /** No header of a writable table contains `64`, so none is taken off the count. */
  lemma {:induction false} Count64None(hs: seq<Text>)
    requires forall i :: 0 <= i < |hs| ==> !Contains(hs[i], MARK_64)
    ensures Count64(hs) == 0
    decreases |hs|
  {
    if hs != [] {
      Count64None(hs[..|hs| - 1]);
    }
  }

  /** The column count field of a table's text is the number of its columns. */
  lemma ColumnCountOfText(t: Table)
    requires |t.columns| < U16_LIMIT && HeadersWritable(t.columns)
    ensures ColumnCountField(TsvHeaders(t)) == |t.columns|
  {
    var hs := TsvHeaders(t);
    RowIdHeaderSkipped();
    TsvHeadersAt(t);
    hide Contains, HeaderCell, HeaderCells, TsvHeaders;
    forall i | 0 <= i < |hs|
      ensures !Contains(hs[i], MARK_64)
    {
      if i > 0 {
        assert hs[i] == HeaderCell(t.columns[i - 1]);
      }
    }
    Count64None(hs);
  }

  lemma {:induction false} EncodeColumnsSnoc(cols: seq<Column>, c: Column)
    requires forall i :: 0 <= i < |cols| ==> |cols[i].name| < U16_LIMIT
    requires |c.name| < U16_LIMIT
    ensures EncodeColumns(cols + [c]) == EncodeColumns(cols) + EncodeColumn(c)
    decreases |cols|
  {
    hide EncodeColumn;
    if cols == [] {
      assert EncodeColumns([c]) == EncodeColumn(c) + EncodeColumns([]);
    } else {
      assert (cols + [c])[1..] == cols[1..] + [c];
      EncodeColumnsSnoc(cols[1..], c);
    }
  }

  /** A column's header cell defines exactly that column, after the columns before it. */
  lemma DefineColumn(cols: seq<Column>, c: Column)
    requires HeaderWritable(c) && |c.name| < U16_LIMIT
    requires !HasName(cols, c.name)
    ensures DefineStep(cols, HeaderCell(c)) == Some(Defs(EncodeColumn(c), cols + [c]))
  {
    hide Split, ParseU8, NatToDecimal, Insert, EncodeU16, Contains, HeaderCell, HasName, PlainField;
    HeaderCellSplit(c);
    ParseU8Format(c.kind);
    InsertNew(cols, c);
  }

  /** The row-id header alone defines nothing. */
  lemma RowIdDefinesNothing()
    ensures Definitions([HeaderCell(RowIdColumn(Plain))]) == Some(Defs([], []))
  {
    RowIdHeaderSkipped();
    var h := HeaderCell(RowIdColumn(Plain));
    hide HeaderCell, RowIdColumn, Contains;
    DefinitionsStep([h], 1);
    assert [h][..1] == [h] && [h][0] == h;
    assert DefineStep([], h) == Some(Defs([], []));
    var e: seq<byte> := [];
    assert Definitions([h][..0]) == Some(Defs(e, []));
    assert e + e == e;
    assert Definitions([h][..1]) == Some(Defs(e + e, []));
  }

  /** One more column header after headers that defined `prev` defines `prev` and that column. */
  lemma DefinitionsAppend(hs: seq<Text>, prev: seq<Column>, c: Column)
    requires forall i :: 0 <= i < |prev| ==> |prev[i].name| < U16_LIMIT
    requires Definitions(hs) == Some(Defs(EncodeColumns(prev), prev))
    requires HeaderWritable(c) && |c.name| < U16_LIMIT && !HasName(prev, c.name)
    ensures Definitions(hs + [HeaderCell(c)]) == Some(Defs(EncodeColumns(prev + [c]), prev + [c]))
  {
    DefineColumn(prev, c);
    EncodeColumnsSnoc(prev, c);
    hide DefineStep, EncodeColumns, EncodeColumn;
    assert (hs + [HeaderCell(c)])[..|hs|] == hs;
  }

  /** The definitions loop over the first `j` column headers writes those columns. */
  lemma {:induction false} DefinitionsPrefix(t: Table, j: nat)
    requires Storable(t, Plain) && HeadersWritable(t.columns)
    requires j <= |t.columns|
    ensures Definitions(TsvHeaders(t)[..j + 1]) == Some(Defs(EncodeColumns(t.columns[..j]), t.columns[..j]))
    decreases j
  {
    var hs := TsvHeaders(t);
    TsvHeadersAt(t);
    hide Split, Insert, EncodeU16, Contains, HeaderCell, ParseU8, NatToDecimal, HeaderCells, EncodeColumn, TsvHeaders;
    if j == 0 {
      RowIdDefinesNothing();
      assert hs[..1] == [HeaderCell(RowIdColumn(Plain))];
      assert t.columns[..0] == [];
    } else {
      DefinitionsPrefix(t, j - 1);
      var c := t.columns[j - 1];
      var prev := t.columns[..j - 1];
      assert !HasName(prev, c.name) by {
        forall i | 0 <= i < |prev|
          ensures prev[i].name != c.name
        {
          assert prev[i] == t.columns[i];
        }
      }
      assert hs[..j + 1] == hs[..j] + [HeaderCell(c)];
      DefinitionsAppend(hs[..j], prev, c);
      assert prev + [c] == t.columns[..j];
    }
  }

  /** The definitions loop over a table's header record writes its definitions and builds its columns. */
  lemma DefinitionsOfText(t: Table)
    requires Storable(t, Plain) && HeadersWritable(t.columns)
    ensures Definitions(TsvHeaders(t)) == Some(Defs(EncodeColumns(t.columns), t.columns))
  {
    DefinitionsPrefix(t, |t.columns|);
    assert TsvHeaders(t)[..|t.columns| + 1] == TsvHeaders(t);
    assert t.columns[..|t.columns|] == t.columns;
  }

  // ---------------------------------------------------------------------------
  // The records

  /** A header cell of a writable column appears in the header record only at that column's place. */
  lemma HeaderPosition(t: Table, i: nat)
    requires Storable(t, Plain) && HeadersWritable(t.columns)
    requires i < |t.columns|
    ensures Position(TsvHeaders(t), HeaderCell(t.columns[i])) == Some(i + 1)
  {
    var hs := TsvHeaders(t);
    var c := t.columns[i];
    var h := HeaderCell(c);
    TsvHeadersAt(t);
    RowIdHeaderSkipped();
    HeaderCellSplit(c);
    hide Contains, HeaderCells, TsvHeaders, NatToDecimal;
    forall m | 0 <= m < i + 1
      ensures hs[m] != h
    {
      if m > 0 {
        var e := t.columns[m - 1];
        HeaderCellSplit(e);
        assert e.name != c.name;
      }
    }
    assert h !in hs[..i + 1];
    assert hs[i + 1] == h;
  }

  /** A writable cell comes back from its text as the bytes the table file holds for it. */
  lemma FieldEncoding(c: Cell, kind: byte, floats: Floats)
    requires CellFits(c, kind) && FieldWritable(c, floats)
    requires STRING_KIND <= kind <= F64_KIND
    ensures FieldBytes(CellText(c, Plain, floats), kind, floats, true) == Some(EncodeCell(c, kind))
  {
    hide EncodeU16, EncodeI32, ParseI32, IntToDecimal, StoredText, Replace, EndsWith;
    match c
    case Str(b) =>
      assert CellText(c, Plain, floats) == b && StoredText(b) == b;
    case Int(v) =>
      ParseI32Format(v);
    case _ =>
  }

  lemma {:induction false} EncodeCellsSnoc(cells: seq<Cell>, cols: seq<Column>, c: Cell, col: Column)
    requires CellsFit(cells, cols) && CellFits(c, col.kind)
    ensures CellsFit(cells + [c], cols + [col])
    ensures EncodeCells(cells + [c], cols + [col]) == EncodeCells(cells, cols) + EncodeCell(c, col.kind)
    decreases |cells|
  {
    var cs := cells + [c];
    var ks := cols + [col];
    assert CellsFit(cs, ks) by {
      forall i | 0 <= i < |cs|
        ensures CellFits(cs[i], ks[i].kind)
      {
        if i < |cells| {
          assert cs[i] == cells[i] && ks[i] == cols[i];
        }
      }
    }
    if cells == [] {
      assert cs[1..] == [] && ks[1..] == [];
    } else {
      assert cs[1..] == cells[1..] + [c] && ks[1..] == cols[1..] + [col];
      EncodeCellsSnoc(cells[1..], cols[1..], c, col);
    }
  }

  /** A row of a writable table, and its columns. */
  predicate RowContext(t: Table, r: Record, floats: Floats)
  {
    Storable(t, Plain) && HeadersWritable(t.columns) && RecordFits(r, t.columns) && RecordWritable(r, floats)
  }

  lemma SliceSnoc<T>(s: seq<T>, j: nat)
    requires 0 < j <= |s|
    ensures s[..j - 1] + [s[j - 1]] == s[..j]
  {
  }

  /** What the `j`-th column of a row contributes: its header's place, its field, and that field's bytes. */
  lemma CellStep(t: Table, r: Record, floats: Floats, j: nat)
    requires RowContext(t, r, floats)
    requires 0 < j <= |t.columns|
    ensures |r.cells| == |t.columns| && CellFits(r.cells[j - 1], t.columns[j - 1].kind)
    ensures Position(TsvHeaders(t), HeaderCell(t.columns[j - 1])) == Some(j)
    ensures TsvRecord(r, floats)[j] == CellText(r.cells[j - 1], Plain, floats)
    ensures FieldBytes(CellText(r.cells[j - 1], Plain, floats), t.columns[j - 1].kind, floats, true)
            == Some(EncodeCell(r.cells[j - 1], t.columns[j - 1].kind))
  {
    hide FieldBytes, CellText, EncodeCell, HeaderCell, Position, TsvHeaders;
    HeaderPosition(t, j - 1);
    FieldEncoding(r.cells[j - 1], t.columns[j - 1].kind, floats);
  }

  /** No cells: nothing fits and nothing is encoded. */
  lemma NoCells(cells: seq<Cell>, cols: seq<Column>)
    ensures CellsFit(cells[..0], cols[..0]) && EncodeCells(cells[..0], cols[..0]) == []
  {
    assert cells[..0] == [] && cols[..0] == [];
  }

  /** The fields of a row's record under the first `j` columns are the bytes of its first `j` cells. */
  lemma {:induction false} CellsPrefix(t: Table, r: Record, floats: Floats, j: nat)
    requires RowContext(t, r, floats)
    requires j <= |t.columns|
    ensures |r.cells| == |t.columns|
    ensures CellsFit(r.cells[..j], t.columns[..j])
    ensures CellsBytes(TsvRecord(r, floats), TsvHeaders(t), t.columns[..j], floats, true)
            == Some(EncodeCells(r.cells[..j], t.columns[..j]))
    decreases j
  {
    var record := TsvRecord(r, floats);
    var hs := TsvHeaders(t);
    var cols := t.columns;
    CellsBytesStep(record, hs, cols, floats, true, j);
    if j == 0 {
      NoCells(r.cells, cols);
      assert |r.cells| == |t.columns| by {
        assert RecordFits(r, t.columns);
      }
    } else {
      CellsPrefix(t, r, floats, j - 1);
      CellStep(t, r, floats, j);
      hide *;
      var c := r.cells[j - 1];
      var col := cols[j - 1];
      EncodeCellsSnoc(r.cells[..j - 1], cols[..j - 1], c, col);
      SliceSnoc(r.cells, j);
      SliceSnoc(cols, j);
    }
  }

  /** A row's record comes back as the row's bytes in the table file. */
  lemma RecordEncoding(t: Table, r: Record, floats: Floats)
    requires RowContext(t, r, floats)
    ensures RecordBytes(TsvRecord(r, floats), TsvHeaders(t), t.columns, floats, true) == Some(EncodeRecord(r, t.columns))
  {
    CellsPrefix(t, r, floats, |t.columns|);
    assert r.cells[..|t.columns|] == r.cells && t.columns[..|t.columns|] == t.columns;
    ParseI32Format(r.id);
    I32MatchesU32(r.id);
    hide CellsBytes, EncodeCells;
    assert TsvRecord(r, floats)[0] == IntToDecimal(r.id);
  }

  lemma {:induction false} EncodeRecordsSnoc(rows: seq<Record>, r: Record, cols: seq<Column>)
    requires forall i :: 0 <= i < |rows| ==> RecordFits(rows[i], cols)
    requires RecordFits(r, cols)
    ensures EncodeRecords(rows + [r], cols) == EncodeRecords(rows, cols) + EncodeRecord(r, cols)
    decreases |rows|
  {
    hide EncodeRecord;
    if rows == [] {
      assert EncodeRecords([r], cols) == EncodeRecord(r, cols) + EncodeRecords([], cols);
    } else {
      assert (rows + [r])[1..] == rows[1..] + [r];
      EncodeRecordsSnoc(rows[1..], r, cols);
    }
  }

  /** The rows of a storable table, taken in any order, fit its columns. */
  lemma ReorderedFit(t: Table, order: seq<nat>)
    requires Storable(t, Plain)
    requires forall k :: 0 <= k < |order| ==> order[k] < |t.rows|
    ensures forall i :: 0 <= i < |order| ==> RecordFits(Reordered(t.rows, order)[i], t.columns)
  {
  }

  /** What the `k`-th task to finish contributes: its row's record and that row's bytes. */
  lemma RowStep(t: Table, floats: Floats, order: seq<nat>, k: nat)
    requires Storable(t, Plain) && Writable(t, floats)
    requires IsOrder(order, |t.rows|) && 0 < k <= |order|
    ensures order[k - 1] < |t.rows| && RecordFits(t.rows[order[k - 1]], t.columns)
    ensures TsvRecords(t.rows, floats)[order[k - 1]] == TsvRecord(t.rows[order[k - 1]], floats)
    ensures RecordBytes(TsvRecord(t.rows[order[k - 1]], floats), TsvHeaders(t), t.columns, floats, true)
            == Some(EncodeRecord(t.rows[order[k - 1]], t.columns))
    ensures Reordered(t.rows, order[..k]) == Reordered(t.rows, order[..k - 1]) + [t.rows[order[k - 1]]]
  {
    hide RecordBytes, EncodeRecord, TsvRecord, TsvHeaders, Reordered, RecordWritable, HeadersWritable;
    var r := t.rows[order[k - 1]];
    assert RowContext(t, r, floats);
    RecordEncoding(t, r, floats);
    ReorderedSnoc(t.rows, order, k);
  }

  /** One more task in the order: one more row at the end. */
  lemma ReorderedSnoc(rows: seq<Record>, order: seq<nat>, k: nat)
    requires forall i :: 0 <= i < |order| ==> order[i] < |rows|
    requires 0 < k <= |order|
    ensures Reordered(rows, order[..k]) == Reordered(rows, order[..k - 1]) + [rows[order[k - 1]]]
  {
    assert Reordered(rows, order[..k])[..k - 1] == Reordered(rows, order[..k - 1]);
  }

  /** No rows: nothing is encoded. */
  lemma NoRows(t: Table, order: seq<nat>)
    requires forall k :: 0 <= k < |order| ==> order[k] < |t.rows|
    ensures Reordered(t.rows, order[..0]) == [] && EncodeRecords([], t.columns) == []
  {
  }

  /** The shared buffer after the first `k` tasks holds those rows' bytes in that order. */
  lemma {:induction false} RowsPrefix(t: Table, floats: Floats, order: seq<nat>, k: nat)
    requires Storable(t, Plain) && Writable(t, floats)
    requires IsOrder(order, |t.rows|) && k <= |order|
    ensures forall i :: 0 <= i < k ==> RecordFits(Reordered(t.rows, order[..k])[i], t.columns)
    ensures RowsBytes(TsvRecords(t.rows, floats), order[..k], TsvHeaders(t), t.columns, floats, true)
            == Some(EncodeRecords(Reordered(t.rows, order[..k]), t.columns))
    decreases k
  {
    var records := TsvRecords(t.rows, floats);
    var hs := TsvHeaders(t);
    ReorderedFit(t, order[..k]);
    RowsBytesStep(records, order, hs, t.columns, floats, true, k);
    if k == 0 {
      NoRows(t, order);
    } else {
      RowsPrefix(t, floats, order, k - 1);
      RowStep(t, floats, order, k);
      ReorderedFit(t, order[..k - 1]);
      hide *;
      var r := t.rows[order[k - 1]];
      EncodeRecordsSnoc(Reordered(t.rows, order[..k - 1]), r, t.columns);
    }
  }

  // ---------------------------------------------------------------------------
  // The text, cut into records

  /** The records a tab-separated reader without quoting finds in a text: its lines, each cut at tabs. */
  function TabRecords(text: Text): (rs: seq<seq<Text>>)
    ensures |rs| == |Lines(text)|
  {
    seq(|Lines(text)|, i requires 0 <= i < |Lines(text)| => Split(Lines(text)[i], TAB))
  }

  predicate PlainRecord(fields: seq<Text>)
  {
    forall j :: 0 <= j < |fields| ==> PlainField(fields[j])
  }

  /** A header cell is a plain field when its column's name is. */
  lemma HeaderCellPlain(c: Column)
    requires PlainField(c.name)
    ensures PlainField(HeaderCell(c))
  {
    DecimalHasNoSeparators(c.kind);
    assert HeaderCell(c) == c.name + [PIPE] + IntToDecimal(c.kind);
  }

  /** The header line: one line that cuts at tabs into the header record, every field plain. */
  lemma HeaderLineRecord(t: Table)
    requires HeadersWritable(t.columns)
    ensures var h := HeaderLine([RowIdColumn(Plain)] + t.columns);
      && IsLine(h) && CR !in h && Split(h, TAB) == TsvHeaders(t) && PlainRecord(TsvHeaders(t))
  {
    var dict := [RowIdColumn(Plain)] + t.columns;
    var cells := TsvHeaders(t);
    hide HeaderCell, Join, Split, RowIdColumn;
    RowIdHeader();
    TsvHeadersAt(t);
    forall i | 0 <= i < |cells|
      ensures PlainField(cells[i])
    {
      if i > 0 {
        assert HeaderWritable(t.columns[i - 1]);
        HeaderCellPlain(t.columns[i - 1]);
      }
    }
    SplitJoin(cells, TAB);
    JoinFree(cells, TAB, LF);
    JoinFree(cells, TAB, CR);
  }

  /** The text of a writable cell is a plain field. */
  lemma CellTextPlain(c: Cell, floats: Floats)
    requires FieldWritable(c, floats)
    ensures PlainField(CellText(c, Plain, floats))
  {
    match c
    case Int(v) =>
      DecimalHasNoSeparators(v);
    case _ =>
  }

  /** A row line: one line that cuts at tabs into the row's record, every field plain. */
  lemma RowLineRecord(r: Record, floats: Floats)
    requires RecordWritable(r, floats)
    ensures var l := RowLine(r, Plain, floats);
      && IsLine(l) && CR !in l && Split(l, TAB) == TsvRecord(r, floats) && PlainRecord(TsvRecord(r, floats))
  {
    var parts := TsvRecord(r, floats);
    hide Join, Split, CellText, NatToDecimal, FieldWritable;
    DecimalHasNoSeparators(r.id);
    forall j | 0 <= j < |parts|
      ensures PlainField(parts[j])
    {
      if j > 0 {
        CellTextPlain(r.cells[j - 1], floats);
      }
    }
    SplitJoin(parts, TAB);
    JoinFree(parts, TAB, LF);
    JoinFree(parts, TAB, CR);
  }

  /**
   * What `convert_to_tsv` writes for the file of a writable table, cut into
   * lines and at tabs, is the header record followed by one record per row,
   * and no field in it is one that a tab-separated reader would cut further
   * or unquote.
   */
  lemma TextRecords(t: Table, floats: Floats)
    requires Storable(t, Plain) && Writable(t, floats)
    ensures var out := TsvOf(EncodeTable(t, Plain), Plain, floats);
      && out.Converted?
      && TabRecords(out.output) == [TsvHeaders(t)] + TsvRecords(t.rows, floats)
      && (forall i :: 0 <= i < |TabRecords(out.output)| ==> PlainRecord(TabRecords(out.output)[i]))
  {
    hide HeaderLine, RowLine, RowsText, Lines, Split, TsvOf, EncodeTable, TsvHeaders, TsvRecord, Storable,
      PlainRecord, IsLine, RowIdColumn;
    var h := HeaderLine([RowIdColumn(Plain)] + t.columns);
    var ls := [h] + RowLines(t.rows, Plain, floats);
    var text := h + [LF] + RowsText(t.rows, Plain, floats);
    TsvOfEncoded(t, Plain, floats);
    RowsTextLines(t.rows, Plain, floats);
    assert ls[1..] == RowLines(t.rows, Plain, floats);
    assert Unlines(ls) == text;
    HeaderLineRecord(t);
    forall k | 0 <= k < |t.rows|
      ensures IsLine(RowLine(t.rows[k], Plain, floats))
      ensures Split(RowLine(t.rows[k], Plain, floats), TAB) == TsvRecord(t.rows[k], floats)
      ensures PlainRecord(TsvRecord(t.rows[k], floats))
    {
      assert RecordWritable(t.rows[k], floats);
      RowLineRecord(t.rows[k], floats);
    }
    assert forall i :: 0 <= i < |ls| ==> IsLine(ls[i]) by {
      forall i | 0 <= i < |ls|
        ensures IsLine(ls[i])
      {
        if i > 0 {
          assert ls[i] == RowLine(t.rows[i - 1], Plain, floats);
        }
      }
    }
    LinesUnlines(ls);
    var recs := [TsvHeaders(t)] + TsvRecords(t.rows, floats);
    forall i | 0 <= i < |ls|
      ensures Split(ls[i], TAB) == recs[i]
    {
      if i > 0 {
        assert ls[i] == RowLine(t.rows[i - 1], Plain, floats);
        assert recs[i] == TsvRecord(t.rows[i - 1], floats);
      }
    }
  }

  /** The rows of a storable table in any order form a storable table. */
  lemma ReorderedStorable(t: Table, order: seq<nat>)
    requires Storable(t, Plain) && IsOrder(order, |t.rows|)
    ensures Storable(Table(t.columns, Reordered(t.rows, order)), Plain)
  {
  }

  /**
   * The round trip with type 6 kept as `f64`: the records of a writable
   * table's text, encoded in any completion order, are the table file with
   * its rows in that order.
   */
  lemma CsvRoundTrip(t: Table, floats: Floats, order: seq<nat>)
    requires Storable(t, Plain) && Writable(t, floats)
    requires IsOrder(order, |t.rows|)
    ensures Storable(Table(t.columns, Reordered(t.rows, order)), Plain)
    ensures CsvDntWide(TsvHeaders(t), TsvRecords(t.rows, floats), order, floats)
            == Written(EncodeTable(Table(t.columns, Reordered(t.rows, order)), Plain))
  {
    ReorderedStorable(t, order);
    TextShape(t, floats, order);
    ColumnCountOfText(t);
    DefinitionsOfText(t);
    RowsPrefix(t, floats, order, |order|);
    assert order[..|order|] == order;
    hide Storable, Writable, IsOrder, RowsBytes, Definitions, EncodeColumns, EncodeRecords, TsvHeaders, TsvRecords,
      Reordered, ColumnCountField, Ragged, EncodeU16, EncodeU32;
  }

  /** The records of a table's text all have the header's length, and there is one per row. */
  lemma TextShape(t: Table, floats: Floats, order: seq<nat>)
    requires Storable(t, Plain) && IsOrder(order, |t.rows|)
    ensures !Ragged(TsvHeaders(t), TsvRecords(t.rows, floats))
    ensures |TsvRecords(t.rows, floats)| % U32_LIMIT == |Reordered(t.rows, order)|
  {
    var hs := TsvHeaders(t);
    var records := TsvRecords(t.rows, floats);
    forall k | 0 <= k < |records|
      ensures |records[k]| == |hs|
    {
      assert |records[k]| == |t.rows[k].cells| + 1;
      assert RecordFits(t.rows[k], t.columns);
    }
  }

  // ---------------------------------------------------------------------------
  // As written, type 6 does not come back

  /** A table with one `f64` column named `x` and one row, of id 0. */
  function OneDouble(d: Word8): Table
  {
    Table([Column([0x78], F64_KIND)], [Record(0, [Double(d)])])
  }

  /** `x|6` does not contain `64` or `_RowID`. */
  lemma DoubleHeaderDefines()
    ensures HeaderCell(Column([0x78], F64_KIND)) == [0x78, PIPE, 0x36]
    ensures Defines(HeaderCell(Column([0x78], F64_KIND)))
  {
    var h: Text := [0x78, PIPE, 0x36];
    assert NatToDecimal(6) == [0x36];
    assert HeaderCell(Column([0x78], F64_KIND)) == h;
    WithoutFirstByte(h, ROW_ID_NAME);
    assert h[1..] == [PIPE, 0x36] && h[1..][1..] == [0x36] && h[1..][1..][1..] == [];
    assert !Contains(h[1..][1..][1..], MARK_64);
    assert !Contains(h[1..][1..], MARK_64);
    assert !Contains(h[1..], MARK_64);
  }

  /** The one-double table can be stored, and its text written, when the `f64` text parses back. */
  lemma OneDoubleWritable(d: Word8, floats: Floats)
    requires PlainField(floats.showF64(d)) && floats.parseF64(floats.showF64(d)) == Some(d)
    ensures Storable(OneDouble(d), Plain) && Writable(OneDouble(d), floats) && IsOrder([0], 1)
    ensures Reordered(OneDouble(d).rows, [0]) == OneDouble(d).rows
  {
    DoubleHeaderDefines();
    var t := OneDouble(d);
    assert RecordFits(t.rows[0], t.columns);
    assert RecordWritable(t.rows[0], floats);
    assert HeaderWritable(t.columns[0]);
    assert [0x78] != RowIdKey(Plain);
  }

  /** The record of the one-double table's row: `0`, then the text of the double. */
  lemma OneDoubleRecord(d: Word8, floats: Floats)
    ensures TsvRecords(OneDouble(d).rows, floats) == [[NatToDecimal(0), floats.showF64(d)]]
  {
    var r := Record(0, [Double(d)]);
    assert CellTexts([Double(d)], Plain, floats) == [floats.showF64(d)];
    assert TsvRecord(r, floats) == [NatToDecimal(0), floats.showF64(d)];
    assert TsvRecords([r], floats)[0] == TsvRecord(r, floats);
  }

  /** The cells of the one-double row: the field bytes of the double's text under type 6. */
  lemma OneDoubleCells(d: Word8, floats: Floats, wide: bool)
    requires PlainField(floats.showF64(d)) && floats.parseF64(floats.showF64(d)) == Some(d)
    ensures var t := OneDouble(d);
            var field := FieldBytes(floats.showF64(d), F64_KIND, floats, wide);
            var cells := CellsBytes([NatToDecimal(0), floats.showF64(d)], TsvHeaders(t), t.columns, floats, wide);
            (field.None? ==> cells.None?) && (field.Some? ==> cells == Some(field.value))
  {
    var t := OneDouble(d);
    OneDoubleWritable(d, floats);
    HeaderPosition(t, 0);
    var record := [NatToDecimal(0), floats.showF64(d)];
    CellsBytesStep(record, TsvHeaders(t), t.columns, floats, wide, 1);
    assert t.columns[..1] == t.columns;
    hide *;
    var field := FieldBytes(floats.showF64(d), F64_KIND, floats, wide);
    if field.Some? {
      assert [] + field.value == field.value;
    }
  }

  /** The row bytes of the one-double table: the id, then the double's field bytes. */
  lemma OneDoubleRows(d: Word8, floats: Floats, wide: bool)
    requires PlainField(floats.showF64(d)) && floats.parseF64(floats.showF64(d)) == Some(d)
    ensures var t := OneDouble(d);
            var field := FieldBytes(floats.showF64(d), F64_KIND, floats, wide);
            var rows := RowsBytes(TsvRecords(t.rows, floats), [0], TsvHeaders(t), t.columns, floats, wide);
            && (field.None? ==> rows.None?) && (field.Some? ==> rows == Some(EncodeI32(0) + field.value))
            && (wide ==> field == Some(d)) && (!wide && field.Some? ==> |field.value| == 4)
  {
    var t := OneDouble(d);
    var recs := TsvRecords(t.rows, floats);
    var record := [NatToDecimal(0), floats.showF64(d)];
    OneDoubleRecord(d, floats);
    OneDoubleCells(d, floats, wide);
    ParseI32Format(0);
    RecordBytesStep(record, TsvHeaders(t), t.columns, floats, wide);
    RowsBytesStep(recs, [0], TsvHeaders(t), t.columns, floats, wide, 1);
    assert [0][..1] == [0];
    assert wide ==> FieldBytes(floats.showF64(d), F64_KIND, floats, wide) == Some(d);
    hide *;
    var field := FieldBytes(floats.showF64(d), F64_KIND, floats, wide);
    assert record[0] == IntToDecimal(0);
    if field.Some? {
      assert [] + (EncodeI32(0) + field.value) == EncodeI32(0) + field.value;
    }
  }

  /**
   * As written, the text of a table with an `f64` column does not come back:
   * the conversion panics, or writes a file four bytes shorter than the
   * table's, while the corrected conversion writes the table's file.
   */
  lemma NarrowedDouble(d: Word8, floats: Floats)
    requires PlainField(floats.showF64(d)) && floats.parseF64(floats.showF64(d)) == Some(d)
    ensures Storable(OneDouble(d), Plain) && Writable(OneDouble(d), floats) && IsOrder([0], 1)
    ensures var t := OneDouble(d);
            CsvDntWide(TsvHeaders(t), TsvRecords(t.rows, floats), [0], floats) == Written(EncodeTable(t, Plain))
    ensures var t := OneDouble(d);
            var narrow := CsvDnt(TsvHeaders(t), TsvRecords(t.rows, floats), [0], floats);
            narrow.Panicked? || (narrow.Written? && |narrow.file| + 4 == |EncodeTable(t, Plain)|)
  {
    var t := OneDouble(d);
    OneDoubleWritable(d, floats);
    hide OneDouble, Storable, Writable, IsOrder, RowsBytes, Definitions, TsvHeaders, TsvRecords, Reordered, Ragged,
      EncodeColumns, EncodeRecords, EncodeU16, EncodeU32, ColumnCountField, FieldBytes, EncodeI32;
    CsvRoundTrip(t, floats, [0]);
    TextShape(t, floats, [0]);
    DefinitionsOfText(t);
    OneDoubleRows(d, floats, false);
    OneDoubleRows(d, floats, true);
  }
}
