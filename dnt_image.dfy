/**
 * The bytes of a well-formed DNT table, as the two writers lay them out, and
 * the proof that the reader of `DntTable` reads such a file back: the
 * dictionary it builds is the row-id entry followed by the columns, and every
 * row comes back whole.
 */
module DntImage {
  import opened Wrappers
  import opened Bytes
  import opened Text
  import opened Streams
  import opened DntTable

  /** A table: its column definitions in order, and its rows. */
  datatype Table = Table(columns: seq<Column>, rows: seq<Record>)

  /** Longest text a cell can hold: the reader takes its length as an `i16`. */
  const MAX_CELL_TEXT: nat := 0x8000

  /** A cell that a column of the given type stores and reads back as it is. */
  predicate CellFits(c: Cell, kind: byte)
  {
    match c
    case Str(b) => kind == STRING_KIND && |b| < MAX_CELL_TEXT
    case Int(v) => (kind == INT_KIND || kind == ROW_ID_KIND) && I32_MIN <= v <= I32_MAX
    case Single(_) => kind == F32_KIND || kind == F32_ALT_KIND
    case Double(_) => kind == F64_KIND
    case Missing => !(STRING_KIND <= kind <= F64_KIND)
  }

  /** The bytes of one cell: a `u16` length and the text, an `i32`, or the raw float bytes. */
  function EncodeCell(c: Cell, kind: byte): (r: seq<byte>)
    requires CellFits(c, kind)
    ensures c.Missing? <==> r == []
  {
    match c
    case Str(b) => EncodeU16(|b|) + b
    case Int(v) => EncodeI32(v)
    case Single(w) => w
    case Double(d) => d
    case Missing => []
  }

  /** Reading a cell of the right type takes back exactly its bytes. */
  lemma TakeCellEncoded(c: Cell, kind: byte, rest: seq<byte>)
    requires CellFits(c, kind)
    ensures TakeCell(EncodeCell(c, kind) + rest, kind) == Some(Read(c, rest))
  {
    var s := EncodeCell(c, kind) + rest;
    match c
    case Str(b) =>
      assert EncodeU16(|b|) == EncodeI16(|b|);
      assert s == EncodeI16(|b|) + (b + rest);
      TakeI16Encoded(|b|, b + rest);
      if |b| > 0 {
        TakeBytesPrefix(b, rest);
      }
    case Int(v) =>
      TakeI32Encoded(v, rest);
    case Single(w) =>
      TakeBytesPrefix(w, rest);
    case Double(d) =>
      TakeBytesPrefix(d, rest);
    case Missing =>
      assert s == rest;
  }

  /** Whether each cell fits the column at its position. */
  predicate CellsFit(cells: seq<Cell>, cols: seq<Column>)
  {
    |cells| == |cols| && forall i :: 0 <= i < |cells| ==> CellFits(cells[i], cols[i].kind)
  }

  /** The cells of a row, one after the other. */
  function EncodeCells(cells: seq<Cell>, cols: seq<Column>): (r: seq<byte>)
    requires CellsFit(cells, cols)
    decreases |cells|
  {
    if cells == [] then [] else EncodeCell(cells[0], cols[0].kind) + EncodeCells(cells[1..], cols[1..])
  }

  /** No column of the list is one that the reader skips. */
  predicate NoneSkipped(dialect: Dialect, cols: seq<Column>)
  {
    forall i :: 0 <= i < |cols| ==> !SkipsColumn(dialect, cols[i].name)
  }

  /** Reading the cells of a row takes back the cells written. */
  lemma {:induction false} ReadCellsEncoded(cells: seq<Cell>, cols: seq<Column>, dialect: Dialect, acc: seq<Cell>, rest: seq<byte>)
    requires CellsFit(cells, cols) && NoneSkipped(dialect, cols)
    ensures ReadCells(EncodeCells(cells, cols) + rest, cols, dialect, acc) == Some(Read(acc + cells, rest))
    decreases |cells|
  {
    hide ReadCells, TakeCell, SkipsColumn, EncodeCell;
    if cells == [] {
      assert EncodeCells(cells, cols) + rest == rest && acc + cells == acc;
      ReadCellsStep(rest, cols, dialect, acc);
    } else {
      var tail := EncodeCells(cells[1..], cols[1..]) + rest;
      assert EncodeCells(cells, cols) + rest == EncodeCell(cells[0], cols[0].kind) + tail;
      TakeCellEncoded(cells[0], cols[0].kind, tail);
      ReadCellsStep(EncodeCells(cells, cols) + rest, cols, dialect, acc);
      ReadCellsEncoded(cells[1..], cols[1..], dialect, acc + [cells[0]], rest);
      assert acc + [cells[0]] + cells[1..] == acc + cells;
    }
  }

  /** A row that the file can store: a `u32` id and a fitting cell per column. */
  predicate RecordFits(r: Record, cols: seq<Column>)
  {
    r.id < U32_LIMIT && CellsFit(r.cells, cols)
  }

  function EncodeRecord(r: Record, cols: seq<Column>): seq<byte>
    requires RecordFits(r, cols)
  {
    EncodeU32(r.id) + EncodeCells(r.cells, cols)
  }

  /** Reading a row takes back the row written; the row-id entry in front is skipped. */
  lemma TakeRowEncoded(r: Record, cols: seq<Column>, dialect: Dialect, rest: seq<byte>)
    requires RecordFits(r, cols) && NoneSkipped(dialect, cols)
    ensures TakeRow(EncodeRecord(r, cols) + rest, [RowIdColumn(dialect)] + cols, dialect) == Some(Read(r, rest))
  {
    hide ReadCells, EncodeCells;
    var cellBytes := EncodeCells(r.cells, cols) + rest;
    assert EncodeRecord(r, cols) + rest == EncodeU32(r.id) + cellBytes;
    TakeU32Encoded(r.id, cellBytes);
    RowIdKeySkipped(dialect);
    var dict := [RowIdColumn(dialect)] + cols;
    ReadCellsStep(cellBytes, dict, dialect, []);
    assert dict[1..] == cols;
    ReadCellsEncoded(r.cells, cols, dialect, [], rest);
    assert [] + r.cells == r.cells;
  }

  /** The rows, one after the other. */
  function EncodeRecords(rows: seq<Record>, cols: seq<Column>): seq<byte>
    requires forall i :: 0 <= i < |rows| ==> RecordFits(rows[i], cols)
    decreases |rows|
  {
    if rows == [] then [] else EncodeRecord(rows[0], cols) + EncodeRecords(rows[1..], cols)
  }

  /** Reading as many rows as were written takes them all back, and the read is complete. */
  lemma {:induction false} ReadRowsEncoded(rows: seq<Record>, cols: seq<Column>, dialect: Dialect, acc: seq<Record>, rest: seq<byte>)
    requires forall i :: 0 <= i < |rows| ==> RecordFits(rows[i], cols)
    requires NoneSkipped(dialect, cols)
    ensures ReadRows(EncodeRecords(rows, cols) + rest, |rows|, [RowIdColumn(dialect)] + cols, dialect, acc) == Rows(acc + rows, true)
    decreases |rows|
  {
    hide ReadRows, TakeRow, EncodeRecord;
    var dict := [RowIdColumn(dialect)] + cols;
    var s := EncodeRecords(rows, cols) + rest;
    ReadRowsStep(s, |rows|, dict, dialect, acc);
    if rows != [] {
      var tail := EncodeRecords(rows[1..], cols) + rest;
      assert s == EncodeRecord(rows[0], cols) + tail;
      TakeRowEncoded(rows[0], cols, dialect, tail);
      ReadRowsEncoded(rows[1..], cols, dialect, acc + [rows[0]], rest);
      assert acc + [rows[0]] + rows[1..] == acc + rows;
    }
  }

  /** A column definition: `u16` name length, the name, the type byte. */
  function EncodeColumn(c: Column): (r: seq<byte>)
    requires |c.name| < U16_LIMIT
    ensures |r| == |c.name| + 3
  {
    EncodeU16(|c.name|) + c.name + [c.kind]
  }

  function EncodeColumns(cols: seq<Column>): seq<byte>
    requires forall i :: 0 <= i < |cols| ==> |cols[i].name| < U16_LIMIT
    decreases |cols|
  {
    if cols == [] then [] else EncodeColumn(cols[0]) + EncodeColumns(cols[1..])
  }

  /** A name not yet in the dictionary goes to its end. */
  lemma InsertNew(dict: seq<Column>, c: Column)
    requires !HasName(dict, c.name)
    ensures Insert(dict, c.name, c.kind) == dict + [c]
  {
  }

  /** One step of the definitions reader. */
  lemma ReadColumnsStep(s: seq<byte>, n: nat, dict: seq<Column>)
    ensures n == 0 ==> ReadColumns(s, n, dict) == Some(Read(dict, s))
    ensures n > 0 && TakeColumn(s).Some? ==>
              var c := TakeColumn(s).value;
              ReadColumns(s, n, dict) == ReadColumns(c.rest, n - 1, Insert(dict, c.value.name, c.value.kind))
  {
  }

  /** Reading a definition takes back the column written. */
  lemma TakeColumnEncoded(c: Column, rest: seq<byte>)
    requires |c.name| < U16_LIMIT
    ensures TakeColumn(EncodeColumn(c) + rest) == Some(Read(c, rest))
  {
    hide TakeU16, TakeBytes, EncodeU16;
    var s := EncodeColumn(c) + rest;
    assert s == EncodeU16(|c.name|) + (c.name + ([c.kind] + rest));
    TakeU16Encoded(|c.name|, c.name + ([c.kind] + rest));
    TakeBytesPrefix(c.name, [c.kind] + rest);
  }

  /** Reading the definitions back appends them to the dictionary when no name repeats. */
  lemma {:induction false} ReadColumnsEncoded(cols: seq<Column>, dict: seq<Column>, rest: seq<byte>)
    requires forall i :: 0 <= i < |cols| ==> |cols[i].name| < U16_LIMIT
    requires Distinct(dict + cols)
    ensures ReadColumns(EncodeColumns(cols) + rest, |cols|, dict) == Some(Read(dict + cols, rest))
    decreases |cols|
  {
    hide ReadColumns, TakeColumn, Insert, EncodeColumn;
    var s := EncodeColumns(cols) + rest;
    ReadColumnsStep(s, |cols|, dict);
    if cols == [] {
      assert s == rest && dict + cols == dict;
    } else {
      var c := cols[0];
      var tail := EncodeColumns(cols[1..]) + rest;
      assert s == EncodeColumn(c) + tail;
      TakeColumnEncoded(c, tail);
      assert !HasName(dict, c.name) by {
        forall i | 0 <= i < |dict|
          ensures dict[i].name != c.name
        {
          assert (dict + cols)[i] == dict[i] && (dict + cols)[|dict|] == c;
        }
      }
      InsertNew(dict, c);
      assert dict + [c] + cols[1..] == dict + cols;
      ReadColumnsEncoded(cols[1..], dict + [c], rest);
    }
  }

  /** A table the file format can hold and the reader of `dialect` reads back unchanged. */
  predicate Storable(t: Table, dialect: Dialect)
  {
    && |t.columns| < U16_LIMIT
    && |t.rows| < U32_LIMIT
    && (forall i :: 0 <= i < |t.columns| ==> |t.columns[i].name| < U16_LIMIT)
    && Distinct(t.columns)
    && NoneSkipped(dialect, t.columns)
    && (forall i :: 0 <= i < |t.rows| ==> RecordFits(t.rows[i], t.columns))
  }

  /** The file: four zero bytes, the counts, the definitions, the rows, and the end mark. */
  function EncodeTable(t: Table, dialect: Dialect): seq<byte>
    requires Storable(t, dialect)
  {
    [0, 0, 0, 0] + EncodeU16(|t.columns|) + EncodeU32(|t.rows|)
      + EncodeColumns(t.columns) + EncodeRecords(t.rows, t.columns) + END_MARK
  }

  /** The row-id entry and the columns of a storable table have distinct names. */
  lemma DictionaryDistinct(t: Table, dialect: Dialect)
    requires Storable(t, dialect)
    ensures Distinct([RowIdColumn(dialect)] + t.columns)
  {
    RowIdKeySkipped(dialect);
    var d := [RowIdColumn(dialect)] + t.columns;
    forall i, j | 0 <= i < j < |d|
      ensures d[i].name != d[j].name
    {
      if i == 0 {
        assert d[j] == t.columns[j - 1];
      } else {
        assert d[i] == t.columns[i - 1] && d[j] == t.columns[j - 1];
      }
    }
  }

  /**
   * Reading a written table: the dictionary is the row-id entry followed by
   * the columns in order, and all rows come back, complete.
   */
  lemma DecodeEncoded(t: Table, dialect: Dialect)
    requires Storable(t, dialect)
    ensures DecodeTable(EncodeTable(t, dialect), dialect)
            == Some(Decoded([RowIdColumn(dialect)] + t.columns, Rows(t.rows, true)))
  {
    hide ReadColumns, ReadRows, EncodeColumns, EncodeRecords;
    var file := EncodeTable(t, dialect);
    var recs := EncodeRecords(t.rows, t.columns) + END_MARK;
    var defs := EncodeColumns(t.columns) + recs;
    assert file[PREAMBLE_SIZE..] == EncodeU16(|t.columns|) + (EncodeU32(|t.rows|) + defs);
    TakeU16Encoded(|t.columns|, EncodeU32(|t.rows|) + defs);
    TakeU32Encoded(|t.rows|, defs);
    DictionaryDistinct(t, dialect);
    ReadColumnsEncoded(t.columns, [RowIdColumn(dialect)], recs);
    ReadRowsEncoded(t.rows, t.columns, dialect, [], END_MARK);
    assert [] + t.rows == t.rows;
  }

  /** The text of a written table: its header line, then one line per row, and nothing is lost. */
  lemma TsvOfEncoded(t: Table, dialect: Dialect, floats: Floats)
    requires Storable(t, dialect)
    ensures TsvOf(EncodeTable(t, dialect), dialect, floats)
            == Converted(HeaderLine([RowIdColumn(dialect)] + t.columns) + [LF] + RowsText(t.rows, dialect, floats))
  {
    DecodeEncoded(t, dialect);
  }

  // ---------------------------------------------------------------------------
  // What both writers do to a text cell

  /** `.0` and `0.0`. */
  const POINT_ZERO: Text := [0x2E, 0x30]
  const ZERO_POINT_ZERO: Text := [0x30, 0x2E, 0x30]

  /**
   * A text cell as the writers store it: the empty text and `0.0` become
   * empty, a trailing `.0` is dropped, anything else is kept.
   */
  function StoredText(value: Text): (r: Text)
    ensures EndsWith(value, POINT_ZERO) ==> r == [] || r + POINT_ZERO == value
    ensures !EndsWith(value, POINT_ZERO) ==> r == value
    ensures r == [] <==> value == [] || value == ZERO_POINT_ZERO || value == POINT_ZERO
  {
    if value == [] || value == ZERO_POINT_ZERO then []
    else if EndsWith(value, POINT_ZERO) then value[..|value| - 2]
    else value
  }
}
