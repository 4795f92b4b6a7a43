/**
 * The DNT table format and its conversion to tab-separated text
 * (`convert_to_tsv` in src-tauri/src/converter.rs and in
 * src-tauri/src/dnt_converter.rs; the two copies differ only in what
 * `Dialect` names).
 *
 * A table file holds four bytes that are skipped, a `u16` column count, a
 * `u32` row count, one definition per column (`u16` name length, the name,
 * one type byte) and then the rows: a `u32` row id followed by one cell per
 * column whose width depends on the column's type. The text form has a header
 * line of `name|type` cells and one line per row, cells separated by tabs.
 */
module DntTable {
  import opened Wrappers
  import opened Bytes
  import opened Text
  import opened Streams

  /** Bytes in front of the column count that the reader skips and the writers zero. */
  const PREAMBLE_SIZE: nat := 4

  /** The type codes: length-prefixed text, 32-bit integers, `f32` and `f64`. */
  const STRING_KIND: byte := 1
  const INT_KIND: byte := 2
  const ROW_ID_KIND: byte := 3
  const F32_KIND: byte := 4
  const F32_ALT_KIND: byte := 5
  const F64_KIND: byte := 6

  /** The bytes after the last row: byte 5, then `THEND`. */
  const END_MARK: seq<byte> := [5] + Ascii("THEND")

  /** The raw little-endian bytes of an `f32` and of an `f64`. */
  type Word4 = w: seq<byte> | |w| == 4 witness [0, 0, 0, 0]
  type Word8 = w: seq<byte> | |w| == 8 witness [0, 0, 0, 0, 0, 0, 0, 0]

  /**
   * Floating-point text conversion, which this model does not interpret:
   * `to_string` of an `f32`/`f64` given by its bytes, and `str::parse`,
   * failing or yielding the bytes of the parsed value.
   */
  datatype Floats = Floats(
    showF32: Word4 -> Text,
    showF64: Word8 -> Text,
    parseF32: Text -> Option<Word4>,
    parseF64: Text -> Option<Word8>)

  // ---------------------------------------------------------------------------
  // The type dictionary (an `IndexMap` from column name to type byte)

  datatype Column = Column(name: Text, kind: byte)

  predicate HasName(dict: seq<Column>, name: Text)
  {
    exists i :: 0 <= i < |dict| && dict[i].name == name
  }

  /** Names in a dictionary are unique, as keys of a map are. */
  predicate Distinct(dict: seq<Column>)
  {
    forall i, j :: 0 <= i < j < |dict| ==> dict[i].name != dict[j].name
  }

  /**
   * `IndexMap::insert`: a new name goes to the end; a name already present
   * keeps its place and takes the new type.
   */
  function Insert(dict: seq<Column>, name: Text, kind: byte): (d: seq<Column>)
    ensures |d| == |dict| + (if HasName(dict, name) then 0 else 1)
    ensures forall i :: 0 <= i < |dict| ==> d[i].name == dict[i].name && (dict[i].name != name ==> d[i] == dict[i])
    ensures forall i :: 0 <= i < |d| && d[i].name == name ==> d[i].kind == kind
    ensures HasName(d, name)
  {
    if HasName(dict, name) then
      var d := seq(|dict|, i requires 0 <= i < |dict| => if dict[i].name == name then Column(name, kind) else dict[i]);
      var i :| 0 <= i < |dict| && dict[i].name == name;
      assert d[i].name == name;
      d
    else
      var d := dict + [Column(name, kind)];
      assert d[|dict|].name == name;
      d
  }

  /** Inserting keeps the names unique. */
  lemma InsertDistinct(dict: seq<Column>, name: Text, kind: byte)
    requires Distinct(dict)
    ensures Distinct(Insert(dict, name, kind))
  {
  }

  // ---------------------------------------------------------------------------
  // The two dialects

  /**
   * `Plain` is converter.rs: the row-id entry is keyed `_RowID|3`, only that
   * exact name is skipped in the rows, and text cells are copied as they are.
   * `Escaped` is dnt_converter.rs: the key is `_RowID`, every column whose name
   * contains `_RowID` is skipped, and commas in text cells become `^`.
   */
  datatype Dialect = Plain | Escaped

  function RowIdKey(dialect: Dialect): Text
  {
    if dialect == Plain then Ascii("_RowID|3") else Ascii("_RowID")
  }

  predicate SkipsColumn(dialect: Dialect, name: Text)
  {
    if dialect == Plain then name == Ascii("_RowID|3") else Contains(name, Ascii("_RowID"))
  }

  function Shown(dialect: Dialect, b: Text): Text
  {
    if dialect == Plain then b else Replace(b, COMMA, CARET)
  }

  /** The row-id entry itself is always skipped when the cells of a row are read. */
  lemma RowIdKeySkipped(dialect: Dialect)
    ensures SkipsColumn(dialect, RowIdKey(dialect))
  {
    if dialect == Escaped {
      assert OccursAt(RowIdKey(dialect), Ascii("_RowID"), 0);
      ContainsIff(RowIdKey(dialect), Ascii("_RowID"));
    }
  }

  // ---------------------------------------------------------------------------
  // Reading, as functions on the bytes that remain

  /** One column definition: `u16` length, the name's bytes, the type byte. */
  function TakeColumn(s: seq<byte>): (r: Option<Read<Column>>)
    ensures r.Some? ==> |r.value.rest| < |s|
  {
    match TakeU16(s)
    case None => None
    case Some(len) =>
      match TakeBytes(len.rest, len.value)
      case None => None
      case Some(name) =>
        match TakeU8(name.rest)
        case None => None
        case Some(kind) => Some(Read(Column(name.value, kind.value), kind.rest))
  }

  /** `n` more column definitions, inserted into `dict` one after the other. */
  function ReadColumns(s: seq<byte>, n: nat, dict: seq<Column>): Option<Read<seq<Column>>>
    decreases n
  {
    if n == 0 then Some(Read(dict, s))
    else
      match TakeColumn(s)
      case None => None
      case Some(c) => ReadColumns(c.rest, n - 1, Insert(dict, c.value.name, c.value.kind))
  }

  /**
   * A cell as stored: text with its bytes as read, a 32-bit integer, the four
   * bytes of an `f32`, the eight bytes of an `f64`, or nothing at all (a
   * column of unknown type).
   */
  datatype Cell = Str(bytes: Text) | Int(v: int) | Single(w: Word4) | Double(d: Word8) | Missing

  /**
   * One cell of a column of the given type. A text cell has an `i16` length;
   * a length of zero or less stands for the empty text and nothing follows
   * it. An unknown type reads nothing.
   */
  function TakeCell(s: seq<byte>, kind: byte): Option<Read<Cell>>
  {
    if kind == STRING_KIND then
      (match TakeI16(s)
       case None => None
       case Some(len) =>
         if len.value > 0 then
           (match TakeBytes(len.rest, len.value)
            case None => None
            case Some(b) => Some(Read(Str(b.value), b.rest)))
         else Some(Read(Str([]), len.rest)))
    else if kind == INT_KIND || kind == ROW_ID_KIND then
      (match TakeI32(s)
       case None => None
       case Some(v) => Some(Read(Int(v.value), v.rest)))
    else if kind == F32_KIND || kind == F32_ALT_KIND then
      (match TakeBytes(s, 4)
       case None => None
       case Some(w) => Some(Read(Single(w.value), w.rest)))
    else if kind == F64_KIND then
      (match TakeBytes(s, 8)
       case None => None
       case Some(w) => Some(Read(Double(w.value), w.rest)))
    else Some(Read(Missing, s))
  }

  /** A cell as a TSV cell: integers in decimal, text with the dialect's escaping, nothing for a missing cell. */
  function CellText(c: Cell, dialect: Dialect, floats: Floats): Text
  {
    match c
    case Str(b) => Shown(dialect, b)
    case Int(v) => IntToDecimal(v)
    case Single(w) => floats.showF32(w)
    case Double(w) => floats.showF64(w)
    case Missing => []
  }

  /** What each kind of cell consumes. */
  lemma CellWidths(s: seq<byte>, kind: byte)
    ensures !(1 <= kind <= 6) ==> TakeCell(s, kind) == Some(Read(Missing, s))
    ensures kind == STRING_KIND && |s| >= 2 && DecodeI16(s[..2]) <= 0 ==>
              TakeCell(s, kind) == Some(Read(Str([]), s[2..]))
    ensures kind == STRING_KIND && |s| >= 2 && DecodeI16(s[..2]) > 0 ==>
              var n := DecodeI16(s[..2]);
              (TakeCell(s, kind).Some? <==> 2 + n <= |s|)
              && (2 + n <= |s| ==> TakeCell(s, kind) == Some(Read(Str(s[2..2 + n]), s[2 + n..])))
    ensures (kind == INT_KIND || kind == ROW_ID_KIND) && |s| >= 4 ==>
              TakeCell(s, kind) == Some(Read(Int(DecodeI32(s[..4])), s[4..]))
    ensures (kind == F32_KIND || kind == F32_ALT_KIND) && |s| >= 4 ==> TakeCell(s, kind) == Some(Read(Single(s[..4]), s[4..]))
    ensures kind == F64_KIND && |s| >= 8 ==> TakeCell(s, kind) == Some(Read(Double(s[..8]), s[8..]))
    ensures 1 <= kind <= 6 && |s| < 2 ==> TakeCell(s, kind).None?
  {
    if kind == STRING_KIND && |s| >= 2 && DecodeI16(s[..2]) > 0 {
      var n := DecodeI16(s[..2]);
      if 2 + n <= |s| {
        assert s[2..][..n] == s[2..2 + n];
        assert s[2..][n..] == s[2 + n..];
      }
    }
  }

  /** The cells of the columns in `dict`, after those already in `acc`; skipped columns read nothing. */
  function ReadCells(s: seq<byte>, dict: seq<Column>, dialect: Dialect, acc: seq<Cell>): Option<Read<seq<Cell>>>
    decreases |dict|
  {
    if dict == [] then Some(Read(acc, s))
    else if SkipsColumn(dialect, dict[0].name) then ReadCells(s, dict[1..], dialect, acc)
    else
      match TakeCell(s, dict[0].kind)
      case None => None
      case Some(c) => ReadCells(c.rest, dict[1..], dialect, acc + [c.value])
  }

  /** A row as stored: its id and its cells. */
  datatype Record = Record(id: nat, cells: seq<Cell>)

  /** One row: the `u32` row id, then the cells. */
  function TakeRow(s: seq<byte>, dict: seq<Column>, dialect: Dialect): Option<Read<Record>>
  {
    match TakeU32(s)
    case None => None
    case Some(id) =>
      match ReadCells(id.rest, dict, dialect, [])
      case None => None
      case Some(cells) => Some(Read(Record(id.value, cells.value), cells.rest))
  }

  /** The rows read, and whether all that were announced could be read. */
  datatype Rows = Rows(records: seq<Record>, complete: bool)

  function ReadRows(s: seq<byte>, n: nat, dict: seq<Column>, dialect: Dialect, acc: seq<Record>): Rows
    decreases n
  {
    if n == 0 then Rows(acc, true)
    else
      match TakeRow(s, dict, dialect)
      case None => Rows(acc, false)
      case Some(row) => ReadRows(row.rest, n - 1, dict, dialect, acc + [row.value])
  }

  /** One step of the row loop. */
  lemma ReadRowsStep(s: seq<byte>, n: nat, dict: seq<Column>, dialect: Dialect, acc: seq<Record>)
    ensures n == 0 ==> ReadRows(s, n, dict, dialect, acc) == Rows(acc, true)
    ensures n > 0 && TakeRow(s, dict, dialect).None? ==> ReadRows(s, n, dict, dialect, acc) == Rows(acc, false)
    ensures n > 0 && TakeRow(s, dict, dialect).Some? ==>
              var row := TakeRow(s, dict, dialect).value;
              ReadRows(s, n, dict, dialect, acc) == ReadRows(row.rest, n - 1, dict, dialect, acc + [row.value])
  {
  }

  /** The texts of some cells. */
  function CellTexts(cells: seq<Cell>, dialect: Dialect, floats: Floats): (ts: seq<Text>)
    ensures |ts| == |cells|
  {
    seq(|cells|, i requires 0 <= i < |cells| => CellText(cells[i], dialect, floats))
  }

  /** A row's line: the row id in decimal, then its cells, separated by tabs. */
  function RowLine(r: Record, dialect: Dialect, floats: Floats): Text
  {
    Join([NatToDecimal(r.id)] + CellTexts(r.cells, dialect, floats), TAB)
  }

  function RowLines(rs: seq<Record>, dialect: Dialect, floats: Floats): (ls: seq<Text>)
    ensures |ls| == |rs|
  {
    seq(|rs|, i requires 0 <= i < |rs| => RowLine(rs[i], dialect, floats))
  }

  /** The text of the row lines, each ended by a line feed. */
  function RowsText(rs: seq<Record>, dialect: Dialect, floats: Floats): Text
  {
    if rs == [] then [] else RowsText(rs[..|rs| - 1], dialect, floats) + RowLine(rs[|rs| - 1], dialect, floats) + [LF]
  }

  /** The row text is the lines of the rows, as `writeln!` writes them. */
  lemma {:induction false} RowsTextLines(rs: seq<Record>, dialect: Dialect, floats: Floats)
    ensures RowsText(rs, dialect, floats) == Unlines(RowLines(rs, dialect, floats))
    decreases |rs|
  {
    if rs != [] {
      var init := rs[..|rs| - 1];
      RowsTextLines(init, dialect, floats);
      assert RowLines(rs, dialect, floats) == RowLines(init, dialect, floats) + [RowLine(rs[|rs| - 1], dialect, floats)];
      UnlinesSnoc(RowLines(init, dialect, floats), RowLine(rs[|rs| - 1], dialect, floats));
    }
  }

  /** The header cell of one dictionary entry: its name, `|`, its type in decimal. */
  function HeaderCell(c: Column): Text
  {
    c.name + [PIPE] + NatToDecimal(c.kind)
  }

  function HeaderCells(dict: seq<Column>): (cs: seq<Text>)
    ensures |cs| == |dict|
  {
    seq(|dict|, i requires 0 <= i < |dict| => HeaderCell(dict[i]))
  }

  /** The header line: the header cells separated by tabs. */
  function HeaderLine(dict: seq<Column>): Text
  {
    Join(HeaderCells(dict), TAB)
  }

  /**
   * What a conversion leaves behind: the whole output, or, when a read fails,
   * the output written so far (`None` when the failure came before the output
   * file was created).
   */
  datatype Converted = Converted(output: Text) | Failed(written: Option<Text>)

  /** The entry the dictionary starts with, standing for the row id. */
  function RowIdColumn(dialect: Dialect): Column
  {
    Column(RowIdKey(dialect), ROW_ID_KIND)
  }

  /** The decoded table: the dictionary, and the rows that could be read. */
  datatype Decoded = Decoded(dict: seq<Column>, rows: Rows)

  /** The table as the reader sees it, or `None` when a read before the rows fails. */
  function DecodeTable(input: seq<byte>, dialect: Dialect): Option<Decoded>
  {
    var s := if PREAMBLE_SIZE <= |input| then input[PREAMBLE_SIZE..] else [];
    match TakeU16(s)
    case None => None
    case Some(columnCount) =>
      match TakeU32(columnCount.rest)
      case None => None
      case Some(rowCount) =>
        match ReadColumns(rowCount.rest, columnCount.value, [RowIdColumn(dialect)])
        case None => None
        case Some(dict) => Some(Decoded(dict.value, ReadRows(dict.rest, rowCount.value, dict.value, dialect, [])))
  }

  /** `convert_to_tsv` on the bytes of a table file. */
  function TsvOf(input: seq<byte>, dialect: Dialect, floats: Floats): Converted
  {
    match DecodeTable(input, dialect)
    case None => Failed(None)
    case Some(t) =>
      var text := HeaderLine(t.dict) + [LF] + RowsText(t.rows.records, dialect, floats);
      if t.rows.complete then Converted(text) else Failed(Some(text))
  }

  /** Reading more definitions keeps the entries already there, in place, and the names unique. */
  lemma {:induction false} ReadColumnsKeeps(s: seq<byte>, n: nat, dict: seq<Column>)
    requires Distinct(dict)
    ensures var r := ReadColumns(s, n, dict);
      r.Some? ==>
        && |dict| <= |r.value.value| && Distinct(r.value.value)
        && forall i :: 0 <= i < |dict| ==> r.value.value[i].name == dict[i].name
    decreases n
  {
    hide Insert, TakeColumn, Distinct;
    if n > 0 && TakeColumn(s).Some? {
      var c := TakeColumn(s).value;
      var d := Insert(dict, c.value.name, c.value.kind);
      InsertDistinct(dict, c.value.name, c.value.kind);
      ReadColumnsKeeps(c.rest, n - 1, d);
      assert ReadColumns(s, n, dict) == ReadColumns(c.rest, n - 1, d);
    }
  }

  /** The dictionary of a table starts with the row-id entry, and no name appears in it twice. */
  lemma DictionaryStartsWithRowId(input: seq<byte>, dialect: Dialect)
    ensures var t := DecodeTable(input, dialect);
      t.Some? ==> t.value.dict != [] && t.value.dict[0].name == RowIdKey(dialect) && Distinct(t.value.dict)
  {
    var s := if PREAMBLE_SIZE <= |input| then input[PREAMBLE_SIZE..] else [];
    var columnCount := TakeU16(s);
    if columnCount.Some? {
      var rowCount := TakeU32(columnCount.value.rest);
      if rowCount.Some? {
        ReadColumnsKeeps(rowCount.value.rest, columnCount.value.value, [RowIdColumn(dialect)]);
      }
    }
  }

  /** How many columns of `dict` a row holds a cell for. */
  function KeptColumns(dict: seq<Column>, dialect: Dialect): (n: nat)
    ensures n <= |dict|
    decreases |dict|
  {
    if dict == [] then 0
    else (if SkipsColumn(dialect, dict[0].name) then 0 else 1) + KeptColumns(dict[1..], dialect)
  }

  /** Reading the cells adds one cell per column not skipped, after those already read. */
  lemma {:induction false} ReadCellsCount(s: seq<byte>, dict: seq<Column>, dialect: Dialect, acc: seq<Cell>)
    ensures var r := ReadCells(s, dict, dialect, acc);
      r.Some? ==> |r.value.value| == |acc| + KeptColumns(dict, dialect) && r.value.value[..|acc|] == acc
    decreases |dict|
  {
    if dict != [] {
      if SkipsColumn(dialect, dict[0].name) {
        ReadCellsCount(s, dict[1..], dialect, acc);
      } else if TakeCell(s, dict[0].kind).Some? {
        var c := TakeCell(s, dict[0].kind).value;
        ReadCellsCount(c.rest, dict[1..], dialect, acc + [c.value]);
        var r := ReadCells(s, dict, dialect, acc);
        if r.Some? {
          assert r.value.value[..|acc|] == r.value.value[..|acc| + 1][..|acc|];
        }
      }
    }
  }

  /** A row read has one cell per column not skipped, so its line has that many cells after the row id. */
  lemma TakeRowCells(s: seq<byte>, dict: seq<Column>, dialect: Dialect)
    ensures var r := TakeRow(s, dict, dialect);
      r.Some? ==> |r.value.value.cells| == KeptColumns(dict, dialect)
  {
    var id := TakeU32(s);
    if id.Some? {
      ReadCellsCount(id.value.rest, dict, dialect, []);
    }
  }

  // ---------------------------------------------------------------------------
  // Reading, step by step on a reader

  /** Reads one cell, as the `match type_byte` of the row loop does, and gives its text. */
  method ReadCell(fs: Reader, kind: byte, dialect: Dialect, floats: Floats) returns (r: Option<Text>, ghost cell: Cell)
    modifies fs
    ensures r.Some? <==> TakeCell(old(fs.Rest()), kind).Some?
    ensures r.Some? ==> TakeCell(old(fs.Rest()), kind) == Some(Read(cell, fs.Rest())) && r.value == CellText(cell, dialect, floats)
  {
    if kind == STRING_KIND {
      var length := fs.ReadI16();
      if length.None? {
        return None, Missing;
      }
      if length.value > 0 {
        var stringValue := fs.ReadExact(length.value);
        if stringValue.None? {
          return None, Missing;
        }
        r, cell := Some(Shown(dialect, stringValue.value)), Str(stringValue.value);
      } else {
        r, cell := Some([]), Str([]);
      }
    } else if kind == INT_KIND || kind == ROW_ID_KIND {
      var v := fs.ReadI32();
      if v.None? {
        return None, Missing;
      }
      r, cell := Some(IntToDecimal(v.value)), Int(v.value);
    } else if kind == F32_KIND || kind == F32_ALT_KIND {
      var w := fs.ReadExact(4);
      if w.None? {
        return None, Missing;
      }
      r, cell := Some(floats.showF32(w.value)), Single(w.value);
    } else if kind == F64_KIND {
      var w := fs.ReadExact(8);
      if w.None? {
        return None, Missing;
      }
      r, cell := Some(floats.showF64(w.value)), Double(w.value);
    } else {
      r, cell := Some([]), Missing;
    }
  }

  /** The column-definition loop: `count` definitions inserted into `dict`. */
  method ReadTypeDictionary(fs: Reader, count: nat, dict: seq<Column>) returns (r: Option<seq<Column>>)
    modifies fs
    ensures r == ValueOf(ReadColumns(old(fs.Rest()), count, dict))
    ensures r.Some? ==> fs.Rest() == ReadColumns(old(fs.Rest()), count, dict).value.rest
  {
    var typeDictionary := dict;
    for i := 0 to count
      invariant ReadColumns(fs.Rest(), count - i, typeDictionary) == ReadColumns(old(fs.Rest()), count, dict)
    {
      ghost var before := fs.Rest();
      var length := fs.ReadU16();
      if length.None? {
        return None;
      }
      var nameBytes := fs.ReadExact(length.value);
      if nameBytes.None? {
        return None;
      }
      var typeByte := fs.ReadU8();
      if typeByte.None? {
        return None;
      }
      assert TakeColumn(before) == Some(Read(Column(nameBytes.value, typeByte.value), fs.Rest()));
      typeDictionary := Insert(typeDictionary, nameBytes.value, typeByte.value);
    }
    r := Some(typeDictionary);
  }

  /** One step of the cell reader. */
  lemma ReadCellsStep(s: seq<byte>, dict: seq<Column>, dialect: Dialect, acc: seq<Cell>)
    ensures dict == [] ==> ReadCells(s, dict, dialect, acc) == Some(Read(acc, s))
    ensures dict != [] && SkipsColumn(dialect, dict[0].name) ==>
              ReadCells(s, dict, dialect, acc) == ReadCells(s, dict[1..], dialect, acc)
    ensures dict != [] && !SkipsColumn(dialect, dict[0].name) && TakeCell(s, dict[0].kind).None? ==>
              ReadCells(s, dict, dialect, acc) == None
    ensures dict != [] && !SkipsColumn(dialect, dict[0].name) && TakeCell(s, dict[0].kind).Some? ==>
              var c := TakeCell(s, dict[0].kind).value;
              ReadCells(s, dict, dialect, acc) == ReadCells(c.rest, dict[1..], dialect, acc + [c.value])
  {
  }

  /** Appending a cell appends its text. */
  lemma CellTextsSnoc(cells: seq<Cell>, c: Cell, dialect: Dialect, floats: Floats)
    ensures CellTexts(cells + [c], dialect, floats) == CellTexts(cells, dialect, floats) + [CellText(c, dialect, floats)]
  {
  }

  /** The cell loop of one row: the texts of the cells of every column that is not skipped. */
  method ReadCellTexts(fs: Reader, dict: seq<Column>, dialect: Dialect, floats: Floats)
    returns (r: Option<seq<Text>>, ghost cells: seq<Cell>)
    modifies fs
    ensures r.Some? <==> ReadCells(old(fs.Rest()), dict, dialect, []).Some?
    ensures r.Some? ==> ReadCells(old(fs.Rest()), dict, dialect, []) == Some(Read(cells, fs.Rest()))
                        && r.value == CellTexts(cells, dialect, floats)
  {
    assert CellTexts([], dialect, floats) == [];
    hide *;
    cells := [];
    var texts: seq<Text> := [];
    for j := 0 to |dict|
      invariant ReadCells(fs.Rest(), dict[j..], dialect, cells) == ReadCells(old(fs.Rest()), dict, dialect, [])
      invariant texts == CellTexts(cells, dialect, floats)
    {
      ReadCellsStep(fs.Rest(), dict[j..], dialect, cells);
      assert dict[j..][0] == dict[j] && dict[j..][1..] == dict[j + 1..];
      if !SkipsColumn(dialect, dict[j].name) {
        var value, cell := ReadCell(fs, dict[j].kind, dialect, floats);
        if value.None? {
          return None, [];
        }
        CellTextsSnoc(cells, cell, dialect, floats);
        texts := texts + [value.value];
        cells := cells + [cell];
      }
    }
    ReadCellsStep(fs.Rest(), dict[|dict|..], dialect, cells);
    r := Some(texts);
  }

  /** One row: the row id and the cell of every column that is not skipped, as a line. */
  method ReadRow(fs: Reader, dict: seq<Column>, dialect: Dialect, floats: Floats) returns (r: Option<Text>, ghost row: Record)
    modifies fs
    ensures r.Some? <==> TakeRow(old(fs.Rest()), dict, dialect).Some?
    ensures r.Some? ==> TakeRow(old(fs.Rest()), dict, dialect) == Some(Read(row, fs.Rest())) && r.value == RowLine(row, dialect, floats)
  {
    var num4 := fs.ReadU32();
    if num4.None? {
      return None, Record(0, []);
    }
    var texts, cells := ReadCellTexts(fs, dict, dialect, floats);
    if texts.None? {
      return None, Record(0, []);
    }
    r, row := Some(Join([NatToDecimal(num4.value)] + texts.value, TAB)), Record(num4.value, cells);
  }

  /** Appending one record to the row text appends its line. */
  lemma RowsTextSnoc(rs: seq<Record>, r: Record, dialect: Dialect, floats: Floats)
    ensures RowsText(rs + [r], dialect, floats) == RowsText(rs, dialect, floats) + RowLine(r, dialect, floats) + [LF]
  {
    assert (rs + [r])[..|rs|] == rs;
  }

  /** One pass of the row loop: a row read, and its line written. */
  method CopyRow(fs: Reader, output: Writer, dict: seq<Column>, dialect: Dialect, floats: Floats,
                 ghost n: nat, ghost rows: seq<Record>, ghost prefix: Text)
    returns (ok: bool, ghost row: Record)
    requires n > 0
    requires output.bytes == prefix + RowsText(rows, dialect, floats)
    modifies fs, output
    ensures ok ==> ReadRows(old(fs.Rest()), n, dict, dialect, rows) == ReadRows(fs.Rest(), n - 1, dict, dialect, rows + [row])
    ensures ok ==> output.bytes == prefix + RowsText(rows + [row], dialect, floats)
    ensures !ok ==> ReadRows(old(fs.Rest()), n, dict, dialect, rows) == Rows(rows, false)
    ensures !ok ==> output.bytes == old(output.bytes)
  {
    hide *;
    ReadRowsStep(fs.Rest(), n, dict, dialect, rows);
    var rowData;
    rowData, row := ReadRow(fs, dict, dialect, floats);
    if rowData.None? {
      return false, row;
    }
    output.Write(rowData.value + [LF]);
    RowsTextSnoc(rows, row, dialect, floats);
    ok := true;
  }

  /** The row loop: each row read is written as a line; the first failing read ends the call. */
  method WriteRows(fs: Reader, output: Writer, count: nat, dict: seq<Column>, dialect: Dialect, floats: Floats)
    returns (complete: bool)
    modifies fs, output
    ensures var rows := ReadRows(old(fs.Rest()), count, dict, dialect, []);
            complete == rows.complete && output.bytes == old(output.bytes) + RowsText(rows.records, dialect, floats)
  {
    assert RowsText([], dialect, floats) == [];
    hide *;
    ghost var rows: seq<Record> := [];
    ghost var prefix := output.bytes;
    var i := 0;
    complete := true;
    while complete && i < count
      invariant i <= count
      invariant complete ==> ReadRows(fs.Rest(), count - i, dict, dialect, rows) == ReadRows(old(fs.Rest()), count, dict, dialect, [])
      invariant !complete ==> ReadRows(old(fs.Rest()), count, dict, dialect, []) == Rows(rows, false)
      invariant output.bytes == prefix + RowsText(rows, dialect, floats)
      decreases count - i + (if complete then 1 else 0)
    {
      ghost var row;
      complete, row := CopyRow(fs, output, dict, dialect, floats, count - i, rows, prefix);
      if complete {
        rows := rows + [row];
        i := i + 1;
      }
    }
    if complete {
      ReadRowsStep(fs.Rest(), 0, dict, dialect, rows);
    }
  }

  /** `convert_to_tsv`. */
  method ConvertToTsv(input: seq<byte>, dialect: Dialect, floats: Floats) returns (r: Converted)
    ensures r == TsvOf(input, dialect, floats)
  {
    var fs := new Reader(input);
    fs.Skip(PREAMBLE_SIZE);
    ghost var s := fs.Rest();
    assert s == if PREAMBLE_SIZE <= |input| then input[PREAMBLE_SIZE..] else [];
    var columnCount := fs.ReadU16();
    if columnCount.None? {
      return Failed(None);
    }
    var rowCount := fs.ReadU32();
    if rowCount.None? {
      return Failed(None);
    }
    var typeDictionary := ReadTypeDictionary(fs, columnCount.value, [RowIdColumn(dialect)]);
    if typeDictionary.None? {
      return Failed(None);
    }
    var header := HeaderLine(typeDictionary.value);
    ghost var rowsStart := fs.Rest();
    ghost var rows := ReadRows(rowsStart, rowCount.value, typeDictionary.value, dialect, []);
    assert DecodeTable(input, dialect) == Some(Decoded(typeDictionary.value, rows));
    var output := new Writer();
    output.Write(header + [LF]);
    assert fs.Rest() == rowsStart;
    assert output.bytes == header + [LF];
    var complete := WriteRows(fs, output, rowCount.value, typeDictionary.value, dialect, floats);
    assert complete == rows.complete;
    r := if complete then Converted(output.bytes) else Failed(Some(output.bytes));
  }
}
