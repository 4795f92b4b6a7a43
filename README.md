# Dragon-Miku game-file tools, modelled in Dafny

Dragon-Miku is a desktop tool for the files of a Dragon Nest client. Its core
handles three formats:

- **PAK archives** (`src-tauri/src/pak.rs`). A 16-byte header sits at offset 256. It gives the number of entries and
  where the directory starts. Each directory record is 316 bytes apart from the next and holds a 256-byte
  NUL-padded path plus a 24-byte info block. The info block gives the compressed size and the offset of the
  entry. `pak_extract` reads the header, loads the key list when encryption is on (`load_keys`), reads the
  whole directory, and then handles every entry in parallel. An exempt entry (`.exe`, `.dll`, `xigncode`,
  `testbranch`) and every entry of an unencrypted archive is zlib-inflated as it is. Any other entry has a
  16-byte prefix skipped, and its ciphertext is tried against every key in turn (`decrypt_with_keys`): AES-256 in
  ECB mode, PKCS#7 unpadding, then zlib inflation. The first non-empty result wins. Output goes under
  `Export` below the output location, with the path components containing `.pak` removed.
- **DNT tables**. Two near-copies convert between the binary table format and tab-separated text:
  `src-tauri/src/converter.rs` and `src-tauri/src/dnt_converter.rs`. A DNT file has four preamble bytes, a `u16`
  column count, a `u32` row count and the column definitions (name and type byte). Then come the rows: a `u32` id
  and one cell per column (text with an `i16` length, `i32`, `f32` or `f64`). The file ends with `5 THEND`.
  `convert_to_tsv` writes a header line of `name|type` cells, starting with the row-id entry, and one line per row.
  The two `convert_to_dnt` functions go back. converter.rs uses a CSV reader and parallel workers; dnt_converter.rs
  reads plain lines and escapes commas as `^`.
- **ACT animation files** (`src-tauri/src/act_converter.rs`). `convert_act_v6_to_v5` copies a version 6 file to a
  version 5 one. It drops the one byte per action and the one byte per signal that version 6 added, and writes the
  output under a directory derived from the input's `mapdata\resource\prop` or `resource` location.

The model represents:

- byte strings as `seq<byte>`;
- readers and writers as classes over a byte sequence (`Streams.Reader`, `Streams.Writer`);
- each loop of the source as a method proved against a specification function;
- AES, zlib and float formatting, which are foreign code, as function-valued parameters (`PakCipher.Codec`,
  `DntTable.Floats`).

What the source does with the file system becomes a value: an `Outcome`, a `Converted` or `Failed` result, or an
`IoError`.

Modules:

- `Bytes`, `Streams` and `Text`: little-endian words, the reader and writer classes, and the text helpers of Rust's
  `str`;
- `PakKeys`, `PakCipher`, `PakArchive` and `PakExtract`: pak.rs;
- `DntTable` and `DntImage`: the reader shared by both `convert_to_tsv` functions, and an encoder of whole tables;
- `DntConverter` and `DntRoundTrip`: dnt_converter.rs `convert_to_dnt`;
- `CsvConverter` and `CsvRoundTrip`: converter.rs `convert_to_dnt`;
- `ActFormat`, `ActPath`, `ActConverter` and `ActProperties`: act_converter.rs.

## Model

| member | source | states |
|---|---|---|
| PakKeys.KeyOf | src-tauri/src/pak.rs:20-25 | an accepted line gives a 32-byte key: its trimmed 31 bytes followed by one zero byte |
| PakKeys.KeysOfLine | src-tauri/src/pak.rs:19-26 | a line yields a key exactly when it could be read and its trimmed text is 31 bytes long; otherwise nothing |
| PakKeys.LoadKeys | src-tauri/src/pak.rs:13-30 | the keys loaded are exactly the key list of the lines read, in file order, and never more keys than lines |
| PakKeys.KeyListAppend | src-tauri/src/pak.rs:18-28 | the keys of two runs of lines are the keys of the first run followed by the keys of the second, so file order is kept |
| PakKeys.KeyListSound | src-tauri/src/pak.rs:18-28 | every key in the list comes from some accepted line |
| PakKeys.KeyListComplete | src-tauri/src/pak.rs:18-28 | the key of every accepted line is in the list |
| PakCipher.EcbDecryptBlock | src-tauri/src/pak.rs:35-38 | ECB mode: block i of the plaintext is the block cipher applied to block i of the ciphertext alone |
| PakCipher.EcbDecryptAppend | src-tauri/src/pak.rs:35-38 | decrypting two whole-block runs one after the other equals decrypting their concatenation |
| PakCipher.Pkcs7UnpadIff | src-tauri/src/pak.rs:38 | unpadding a whole-block buffer gives m exactly when the buffer is m with PKCS#7 padding, so unpadding inverts padding in both directions |
| PakCipher.Pkcs7Pad | src-tauri/src/pak.rs:38 | padding gives a whole number of blocks, 1 to 16 bytes longer than the message |
| PakCipher.DecryptBlock | src-tauri/src/pak.rs:38 | decrypting one block in place replaces exactly that block and leaves the rest of the buffer unchanged |
| PakCipher.DecryptPaddedInPlace | src-tauri/src/pak.rs:37-38 | a buffer that is not whole blocks is refused and left unchanged; otherwise it holds the ECB decryption, and a length is returned exactly when the PKCS#7 padding is valid, marking the unpadded message |
| PakCipher.Inflated | src-tauri/src/pak.rs:39-43 | inflation counts as success only when zlib succeeds with non-empty output, and then gives that output |
| PakCipher.DecryptWithKeys | src-tauri/src/pak.rs:32-47 | the result is the first key's result that succeeds: it comes from the winning key, is non-empty, and every earlier key fails; with no result, every key fails |
| PakCipher.FirstSuccessExtend | src-tauri/src/pak.rs:33-45 | keys after the first key that succeeds have no influence on the result |
| PakCipher.FirstSuccessSkip | src-tauri/src/pak.rs:33-45 | keys that fail can be removed from the front without changing the result |
| PakExtract.FirstSuccessSpec | src-tauri/src/pak.rs:32-47 | the key search finds output exactly when some key yields output, and what it returns is the non-empty output of one of the keys |
| PakArchive.DecodeHeader | src-tauri/src/pak.rs:50-57 | the header reads successfully exactly when the archive holds 256 + 16 bytes; its fields are `u32`s |
| PakArchive.HeaderRoundTrip | src-tauri/src/pak.rs:51-57 | a header written at offset 256 reads back unchanged, whatever bytes surround it |
| PakArchive.ReadHeader | src-tauri/src/pak.rs:50-57 | the seek and `read_exact` on the archive give exactly the decoded header, or fail exactly when it is short |
| PakArchive.EntryPath | src-tauri/src/pak.rs:75-78 | the path of a record, trimmed of NUL padding at the end and backslashes at the start, never starts with a backslash |
| PakArchive.RecordRoundTrip | src-tauri/src/pak.rs:73-85 | a record written as path field plus info block reads back as the same path, size and offset |
| PakArchive.ReadRecord | src-tauri/src/pak.rs:72-85 | reading record i succeeds exactly when its 280 bytes at offset + 316·i lie inside the archive, and then gives that record |
| PakArchive.Directory | src-tauri/src/pak.rs:70-86 | a directory that reads successfully holds exactly file_count records |
| PakArchive.DirectoryOfRecords | src-tauri/src/pak.rs:70-86 | when every slot fits, the directory is the records of the slots in order |
| PakArchive.DirectoryShort | src-tauri/src/pak.rs:71-81 | one record that runs past the end makes the whole directory read fail |
| PakArchive.ReadDirectory | src-tauri/src/pak.rs:70-86 | the directory loop gives exactly the file_count records in slot order, or fails exactly when `Directory` does |
| PakArchive.DirectoryRoundTrip | src-tauri/src/pak.rs:50-86 | an archive written with a header and a directory of entries reads back as exactly those entries, in order |
| PakArchive.DirectoryOfImage | src-tauri/src/pak.rs:70-86 | a directory image placed at the info offset reads back as its entries, whatever follows |
| PakArchive.EntryNameOfField | src-tauri/src/pak.rs:75-94 | the name a worker uses (the path cut at its first NUL) is the field's first NUL-free piece without leading backslashes: it holds no NUL and does not start with a backslash |
| PakExtract.PayloadDirect | src-tauri/src/pak.rs:98-111 | exempt entries, and every entry when encryption is off, are only inflated, and their output is non-empty |
| PakExtract.PayloadEncrypted | src-tauri/src/pak.rs:98-104 | a non-exempt entry in an encrypted archive yields output only when it is longer than 16 bytes and some key decrypts what follows them; it then yields the non-empty output of a key |
| PakExtract.CleanRoot | src-tauri/src/pak.rs:113-117 | the cleaned output location keeps only components of the original, none of which contains `.pak` |
| PakExtract.CleanRootKeeps | src-tauri/src/pak.rs:113-117 | every component without `.pak` is kept, and a location without `.pak` anywhere is unchanged |
| PakExtract.CleanRootAppend | src-tauri/src/pak.rs:113-117 | cleaning works component by component: cleaning two runs of components one after the other is cleaning them together |
| PakExtract.CleanRootIdempotent | src-tauri/src/pak.rs:113-117 | cleaning twice is cleaning once |
| PakExtract.OutputPath | src-tauri/src/pak.rs:113-119 | the output path is the cleaned location, then `Export`, then the entry name |
| PakExtract.EntryBytes | src-tauri/src/pak.rs:89-92 | the entry's bytes are the compressed_size bytes at its offset; the read fails exactly when they run past the end of the archive |
| PakExtract.DecodeEntry | src-tauri/src/pak.rs:96-111 | the decrypt-or-inflate branch computes exactly the routed payload, and a payload is never empty |
| PakExtract.ExtractEntry | src-tauri/src/pak.rs:89-127 | the worker for one entry ends with the entry's specified outcome |
| PakExtract.EntryOutcomeSpec | src-tauri/src/pak.rs:88-127 | a worker panics exactly when its read runs past the end; a written entry has non-empty data and goes to cleaned location + `Export` + the NUL-cut name, which holds no NUL |
| PakExtract.HandleEntries | src-tauri/src/pak.rs:88-128 | every directory entry is handled once, and outcome i belongs to entry i |
| PakExtract.ReadAndHandle | src-tauri/src/pak.rs:70-128 | the directory is read completely before any entry is handled; a short directory fails with no outcome |
| PakExtract.PakExtract | src-tauri/src/pak.rs:49-131 | the whole call gives exactly the specified extraction: an error for a missing archive, header or key file, nothing for an empty key list, and otherwise the outcomes of all entries |
| PakExtract.NoKeysNoOutput | src-tauri/src/pak.rs:59-64 | with encryption on and no usable key, the call succeeds and extracts nothing, whatever the directory holds |
| PakExtract.TruncatedDirectoryNoOutput | src-tauri/src/pak.rs:70-86 | a directory record past the end of the archive fails the call with an end-of-file error before any entry is handled |
| PakExtract.ExtractEntriesSpec | src-tauri/src/pak.rs:70-128 | once the directory is read, there are exactly file_count outcomes, and every written one has data and a NUL-free name |
| DntTable.Insert | src-tauri/src/converter.rs:17-28 | the `IndexMap` insert: a new name is appended; a name already present keeps its place and takes the new type; other entries do not change |
| DntTable.InsertDistinct | src-tauri/src/converter.rs:17-28 | inserting keeps the dictionary's names unique |
| DntTable.ReadColumnsKeeps | src-tauri/src/converter.rs:21-28 | reading definitions keeps the entries already in the dictionary, in place, and keeps names unique |
| DntTable.DictionaryStartsWithRowId | src-tauri/src/converter.rs:17-28 | a decoded dictionary starts with the row-id entry and holds no name twice |
| DntTable.RowIdKeySkipped | src-tauri/src/converter.rs:42-45 | in either dialect the row-id entry itself is skipped when the cells of a row are read |
| DntTable.CellWidths | src-tauri/src/converter.rs:46-61 | what each type consumes: an `i16` length and that many bytes for text (nothing more for a length ≤ 0), 4 bytes for types 2 to 5, 8 for type 6, nothing for an unknown type |
| DntTable.ReadCellsCount | src-tauri/src/converter.rs:42-63 | reading a row's cells gives one cell per dictionary column that is not skipped, after those already read |
| DntTable.TakeRowCells | src-tauri/src/converter.rs:37-63 | a row read has its id plus one cell per column not skipped |
| DntTable.RowsTextLines | src-tauri/src/converter.rs:64 | the row text is the row lines, each ended by a line feed |
| DntTable.ReadCell | src-tauri/src/dnt_converter.rs:43-58 | reading one cell on the reader succeeds exactly when the cell parse does, consumes what it consumes, and gives the cell's text |
| DntTable.ReadTypeDictionary | src-tauri/src/converter.rs:21-28 | the column loop gives exactly the dictionary of the definitions parse and leaves the reader after them |
| DntTable.ReadCellTexts | src-tauri/src/converter.rs:42-63 | the cell loop succeeds exactly when the cells parse, and gives their texts |
| DntTable.ReadRow | src-tauri/src/converter.rs:38-63 | one row on the reader succeeds exactly when the row parse does, and gives the row's line |
| DntTable.CopyRow | src-tauri/src/converter.rs:37-65 | a row that reads is appended as one line; a row that fails stops the loop with nothing more written |
| DntTable.WriteRows | src-tauri/src/converter.rs:37-65 | the row loop writes the lines of exactly the rows that could be read, and reports whether all row_count rows were read |
| DntTable.ConvertToTsv | src-tauri/src/converter.rs:10-68 | `convert_to_tsv` gives exactly the specified text: header line and row lines, or the text written before a failing read; with the `Escaped` dialect the same method is `convert_to_tsv` of src-tauri/src/dnt_converter.rs (lines 7-65: key `_RowID`, every name containing `_RowID` skipped, commas shown as `^`) |
| DntImage.TakeCellEncoded | src-tauri/src/converter.rs:46-61 | a cell written under its type reads back as the same cell |
| DntImage.ReadCellsEncoded | src-tauri/src/converter.rs:42-63 | a row's cells written in column order read back as the same cells |
| DntImage.TakeRowEncoded | src-tauri/src/converter.rs:37-63 | a row written as id plus cells reads back as the same row |
| DntImage.ReadRowsEncoded | src-tauri/src/converter.rs:37-65 | a run of rows reads back as the same rows, all complete |
| DntImage.TakeColumnEncoded | src-tauri/src/converter.rs:22-27 | a column definition written as length, name and type reads back unchanged |
| DntImage.ReadColumnsEncoded | src-tauri/src/converter.rs:21-28 | distinct column definitions read back, appended to the dictionary in order |
| DntImage.DecodeEncoded | src-tauri/src/converter.rs:10-28 | an encoded table decodes to its own columns after the row-id entry, and to its own rows, complete |
| DntImage.TsvOfEncoded | src-tauri/src/converter.rs:30-65 | converting an encoded table to text succeeds with the header line of its dictionary and the lines of its rows |
| DntImage.StoredText | src-tauri/src/converter.rs:116-122 | a text cell is stored empty exactly when it is empty, `0.0` or `.0`; a trailing `.0` is dropped; other text is kept |
| DntConverter.HeaderThenBody | src-tauri/src/dnt_converter.rs:71-76 | the first line read and the lines that follow together make up the whole input; the first line has a line feed only at its end |
| DntConverter.HeaderFields | src-tauri/src/dnt_converter.rs:74 | the header always has at least one field, so the field count `len - 1` never underflows |
| DntConverter.NonBlank | src-tauri/src/dnt_converter.rs:76-83 | the row lines are input lines that are not blank, in input order |
| DntConverter.FieldType | src-tauri/src/dnt_converter.rs:95-98 | a field contributes a type exactly when it splits into exactly two pieces at the bar character |
| DntConverter.EncodeValueCases | src-tauri/src/dnt_converter.rs:114-149 | a text field is its stored text with `^` turned back into commas, behind a `u16` length; an integer reads back as the parsed value or 0; a float that does not parse is zero bytes; an unknown type writes one zero byte |
| DntConverter.MissingTypeWritesZero | src-tauri/src/dnt_converter.rs:115 | a field past the last header type is written as one zero byte |
| DntConverter.EncodeFieldsSnoc | src-tauri/src/dnt_converter.rs:114-115 | the field at position i of a row is encoded with the type at position i |
| DntConverter.DntLayout | src-tauri/src/dnt_converter.rs:85-154 | the output has four zero bytes, the field count less one as `u16`, the row count as `u32` (both wrapped), the definitions, and `5 THEND` last |
| DntConverter.WriteDefinition | src-tauri/src/dnt_converter.rs:94-109 | one pass of the header loop returns the field's type, if any, and writes its definition, if any |
| DntConverter.WriteDefinitions | src-tauri/src/dnt_converter.rs:93-110 | the header loop collects all types in order and writes all definitions |
| DntConverter.WriteValue | src-tauri/src/dnt_converter.rs:116-149 | writing one field appends exactly its encoding under its type |
| DntConverter.WriteFields | src-tauri/src/dnt_converter.rs:113-150 | one row line appends its trimmed fields, each under the type at its position |
| DntConverter.WriteRowLines | src-tauri/src/dnt_converter.rs:112-151 | the row loop appends the encodings of all row lines in order |
| DntConverter.ConvertToDnt | src-tauri/src/dnt_converter.rs:67-157 | `convert_to_dnt` writes exactly the specified file for the input text |
| DntRoundTrip.DntOfTsvText | src-tauri/src/dnt_converter.rs:67-157 | without the row trim, the text of a writable table converts back to exactly that table's file |
| DntRoundTrip.FileTextFile | src-tauri/src/dnt_converter.rs:7-157 | a writable table's file converts to text, and that text converts (without the row trim) back to the same file |
| DntRoundTrip.DntOfTsvTextTrimmed | src-tauri/src/dnt_converter.rs:112-113 | when no row line has whitespace at either end, the row trim changes nothing and the round trip holds as written |
| DntRoundTrip.TrimDropsEmptyLastCell | src-tauri/src/dnt_converter.rs:113 | as written, a table whose row ends in an empty text cell comes back two bytes short: the trim drops the empty last cell |
| CsvConverter.FieldBytesCases | src-tauri/src/converter.rs:114-137 | a text field is its stored text behind a `u16` length; an integer that does not parse panics and one that does reads back as its value; types 4 and 5 (and, as written, 6) are `f32`; an unknown type writes one zero byte |
| CsvConverter.RecordStartsWithId | src-tauri/src/converter.rs:109-111 | an encoded record starts with its first field, which must parse as an `i32`, as the row id |
| CsvConverter.CsvDntLayout | src-tauri/src/converter.rs:70-148 | the input is refused exactly when a record is ragged; a written file has four zero bytes, the column count field, the record count as `u32`, the definitions, and `5 THEND` last; a file left by a panic starts with the same ten bytes, followed by the definitions written before the panic and nothing more |
| CsvConverter.DefinitionsWritten | src-tauri/src/converter.rs:90-104 | the definitions in the file when the header loop ends: all of them when no header panics |
| CsvConverter.DefinitionsWrittenAt | src-tauri/src/converter.rs:90-104 | when header j is the first that panics, the loop fails and the file holds exactly the definitions of the headers before j |
| CsvConverter.ConvertToDnt | src-tauri/src/converter.rs:70-149 | `convert_to_dnt` writes exactly the specified outcome for the records, appended in the given worker order; after a panic the file holds what the writer had taken, flushed as it is dropped |
| CsvConverter.EncodeRow | src-tauri/src/converter.rs:108-141 | one worker's buffer is exactly the record's bytes, with type 6 narrowed to `f32` as written; `None` stands for a panic |
| CsvConverter.CountColumns | src-tauri/src/converter.rs:80-87 | the column count is the header count less one, less one per header containing `64`; it can go below zero, and the cast to `u16` wraps it |
| CsvConverter.WriteDefinitions | src-tauri/src/converter.rs:90-104 | the definitions loop succeeds exactly when no header panics; it then builds the dictionary and writes the definitions in header order |
| CsvRoundTrip.RowIdHeader | src-tauri/src/converter.rs:19 | the reader's row-id header cell is `_RowID`, then a bar and `3`, twice |
| CsvRoundTrip.RowIdHeaderSkipped | src-tauri/src/converter.rs:93 | that cell contains `_RowID`, so the writer defines no column for it |
| CsvRoundTrip.ColumnCountOfText | src-tauri/src/converter.rs:80-87 | for a table's own text, the column count field is the table's number of columns |
| CsvRoundTrip.DefinitionsOfText | src-tauri/src/converter.rs:90-104 | for a table's own text, the definitions are the table's columns and the dictionary is those columns in order |
| CsvRoundTrip.HeaderPosition | src-tauri/src/converter.rs:113 | the header of column i is found at position i + 1 |
| CsvRoundTrip.RecordEncoding | src-tauri/src/converter.rs:108-138 | the text record of a row encodes back to the row's bytes |
| CsvRoundTrip.TextRecords | src-tauri/src/converter.rs:30-74 | the text written for a writable table, cut into lines and each line at its tabs, is exactly the header record followed by the row records, and no field of them holds a tab or a line break or opens with a quote |
| CsvRoundTrip.CsvRoundTrip | src-tauri/src/converter.rs:70-149 | with type 6 kept as `f64`, the records of a writable table's text convert back to the table's file, with rows in the order the workers finished |
| CsvRoundTrip.NarrowedDouble | src-tauri/src/converter.rs:130-133 | as written, a table with one `f64` column does not round-trip: the result panics or is four bytes short, while the wide version round-trips |
| ActFormat.TakeWord | src-tauri/src/act_converter.rs:15 | reading a `u32` succeeds exactly when four bytes remain, and gives back their encoding |
| ActFormat.ParseSizedEncoded | src-tauri/src/act_converter.rs:104-111 | a length-prefixed string reads back unchanged |
| ActFormat.ParseTableEncoded | src-tauri/src/act_converter.rs:120-133 | a table (count, ids, count rows of float_count words) reads back unchanged |
| ActFormat.ParseTableBody | src-tauri/src/act_converter.rs:123-131 | a table body is count ids and count rows of exactly float_count 4-byte values, and is exactly the bytes consumed |
| ActFormat.ParseLookupEncoded | src-tauri/src/act_converter.rs:135-153 | a variable-size table (count, ids, count sized entries) reads back unchanged |
| ActFormat.ParseSignalEncoded | src-tauri/src/act_converter.rs:84-97 | a signal (four words, 256 data bytes, three tables, a lookup, the version 6 byte) reads back unchanged |
| ActFormat.ParseAdditionsEncoded | src-tauri/src/act_converter.rs:61-79 | the version-dependent fields of an action read back unchanged for its version |
| ActFormat.ParseActionEncoded | src-tauri/src/act_converter.rs:51-98 | an action written for a version reads back unchanged |
| ActFormat.ParseFileEncoded | src-tauri/src/act_converter.rs:13-99 | a whole file (header, version, action count, actions) reads back unchanged |
| ActFormat.ActionsShrink | src-tauri/src/act_converter.rs:77-97 | a version 6 encoding is longer than the version 5 one by one byte per action plus one per signal |
| ActPath.Stem | src-tauri/src/act_converter.rs:39-40 | the stem is the name up to its last dot when it has an extension, and the whole name otherwise |
| ActPath.ActExtension | src-tauri/src/act_converter.rs:40 | a name ending in `.act` has that extension, and its stem is what precedes it |
| ActPath.BaseDirectory | src-tauri/src/act_converter.rs:23-27 | the output base loses its last component exactly when that component has an extension |
| ActPath.ParentNamesNoFile | src-tauri/src/act_converter.rs:25-26 | a base ending in `..` names no file and is kept whole, since `..` has no extension |
| ActPath.KeptSuffix | src-tauri/src/act_converter.rs:29-35 | the part of the parent kept is a suffix starting at `mapdata\resource\prop` or at `resource` |
| ActPath.MapdataKept | src-tauri/src/act_converter.rs:29-30 | when `mapdata\resource\prop` occurs, the parent from its first occurrence on is kept |
| ActPath.ResourceKept | src-tauri/src/act_converter.rs:31-34 | otherwise, from the first `resource` on, the parent is kept unless it starts `resource\prop` there |
| ActPath.NothingKept | src-tauri/src/act_converter.rs:29-35 | a parent with neither text adds nothing to the output directory |
| ActPath.OutputDirectory | src-tauri/src/act_converter.rs:23-35 | the output directory extends the base directory |
| ActPath.OutputFileName | src-tauri/src/act_converter.rs:39-40 | the output file sits in the output directory and is named after the input's stem with the extension `act` |
| ActConverter.Convert | src-tauri/src/act_converter.rs:6-102 | a file below version 6 is left alone exactly when the name, header and version can be read; a converted or truncated run uses the derived directory, and a converted one the derived file |
| ActConverter.WholeActions | src-tauri/src/act_converter.rs:50-99 | the actions read whole before the first that cannot be read: at most count of them, and when fewer, the next one fails to read |
| ActConverter.WholeActionsAt | src-tauri/src/act_converter.rs:50-99 | when action i is the first that cannot be read, the actions read whole are exactly the first i |
| ActConverter.ReadString | src-tauri/src/act_converter.rs:104-111 | copies exactly one length-prefixed string and fails exactly when it cannot be read |
| ActConverter.ReadMultipleU32 | src-tauri/src/act_converter.rs:113-118 | copies exactly count 4-byte values or fails when they are not there |
| ActConverter.ReadTable | src-tauri/src/act_converter.rs:120-133 | copies exactly one table as parsed, or fails exactly when it does not parse |
| ActConverter.CopyTableBody | src-tauri/src/act_converter.rs:123-131 | copies exactly the ids and the count rows of float_count values |
| ActConverter.ReadVariableSizeTable | src-tauri/src/act_converter.rs:135-153 | succeeds exactly when a variable-size table parses, consumes it, and writes it unchanged |
| ActConverter.ConvertSignal | src-tauri/src/act_converter.rs:84-97 | copies one signal as version 5 writes it, dropping its version 6 byte |
| ActConverter.ConvertAdditions | src-tauri/src/act_converter.rs:61-79 | copies the fields of versions 2 to 5 and drops the version 6 byte |
| ActConverter.ConvertAction | src-tauri/src/act_converter.rs:51-98 | copies one action as version 5 encodes it |
| ActConverter.ConvertActions | src-tauri/src/act_converter.rs:50-99 | copies count actions as version 5 encodes them, or fails exactly when they do not parse, having written at least the actions read whole before the failure |
| ActConverter.ComputeOutputDirectory | src-tauri/src/act_converter.rs:23-35 | computes exactly the specified output directory |
| ActConverter.ConvertActV6ToV5 | src-tauri/src/act_converter.rs:6-102 | `convert_act_v6_to_v5` ends with exactly the specified outcome; the file it creates holds the converted bytes, or, when a read fails after it is created, starts with the bytes the outcome keeps; no file is created otherwise |
| ActProperties.ConvertParses | src-tauri/src/act_converter.rs:13-99 | a conversion succeeds exactly when the input has a file name and parses as a file of version 6 or later; the bytes written are that file encoded as version 5 |
| ActProperties.ConvertKeepsHeader | src-tauri/src/act_converter.rs:46-48 | the output starts with the input's 32 header bytes, then version 5, then the input's action count |
| ActProperties.TruncatedKeeps | src-tauri/src/act_converter.rs:44-99 | when the actions cannot all be read, the file created begins with the input's header, version 5 and the input's count, then the actions read whole (fewer than the count, the next one unreadable) encoded at version 5; the input is then no readable file |
| ActProperties.ConvertLength | src-tauri/src/act_converter.rs:50-99 | the output is the input read, less one byte per action and one per signal |
| ActProperties.ActionsDowngraded | src-tauri/src/act_converter.rs:77-97 | clearing the version 6 bytes changes nothing in a version 5 encoding |
| ActProperties.ConvertRoundTrip | src-tauri/src/act_converter.rs:6-102 | the output reads back, to its last byte, as a version 5 file with the input's header and actions, only their version 6 bytes cleared |

## Left out

- AES-256 and zlib inflation are foreign code. They are parameters of type `PakCipher.Codec`, and nothing is assumed about them.
- The text forms of `f32` and `f64` (`to_string`, `parse`) are the parameters of `DntTable.Floats`. The round trips assume only that parsing a shown value gives the value back.
- Concurrency is not modelled:
  - The PAK entry workers are modelled one per entry, in directory order, each as an `Outcome`.
  - In converter.rs the order in which workers append to the shared buffer is the parameter `order`, a permutation of the records.
  - Mutex poisoning, and a panic in one worker aborting the others, are not modelled.
- File-system effects are reduced to values:
  - In `pak_extract`, an archive or key file that cannot be opened is a `None` input.
  - The converters take their input as bytes or text already read: the `Err` returned when the input cannot be opened
    (src-tauri/src/converter.rs:11 and 71, src-tauri/src/dnt_converter.rs:8 and 68, src-tauri/src/act_converter.rs:10)
    is not modelled. Each is returned before anything is created.
  - `create_dir_all`, `File::create` and write errors, and the panics of their `unwrap`s in the PAK workers, are not modelled.
  - Outputs are byte sequences, not files.
- PakExtract.OutputPath: the entry name is one path component. How the operating system splits it at separators, and `join` with an absolute name replacing the whole path, are not modelled.
- The header `version` field of a PAK archive is read and ignored, as in the source.
- Text is UTF-8 bytes and no decoding is modelled:
  - `str::from_utf8(..).unwrap()` on a column name cannot panic in the model.
  - `from_utf8_lossy` and `to_string_lossy` are the identity.
  - Lines that fail to decode in `load_keys` and in dnt_converter.rs are modelled as unreadable lines (`None`) or not at all.
- PakKeys.KeyOf: `trim` removes only ASCII whitespace. Unicode whitespace outside ASCII is not removed.
- DntConverter.HeaderFields: `trim` removes only ASCII whitespace, as in PakKeys.KeyOf.
- CsvRoundTrip.CsvRoundTrip: starts from the records, not the text. The `csv` crate's quoting and escaping are not modelled: records are given as fields, and only its refusal of a record with the wrong number of fields is modelled (`Ragged`). CsvRoundTrip.TextRecords shows that the text of a writable table, cut at line ends and tabs, gives exactly those records with no field holding a tab or a line break or opening with a quote. That the crate reads such text back as those records is not modelled.
- ActConverter.Convert: when an action fails part way, the file also holds the fields of that action copied before the failing read. `Truncated` keeps, and the method promises, only the prefix of whole actions before it.
- ActPath: components are compared as written. `/`, which Windows also takes as a separator, is an ordinary byte, and `.` components and repeated separators are not normalised away.
- ActConverter.ReadVariableSizeTable: `usize::try_from` of a `u32` always succeeds on the 64-bit targets the tool ships for, so the "Size too large" error is not modelled.
- The Tauri command layer (lib.rs) and the user interface are not part of this model.

## Findings

| source | as written | input that shows it | evidently intended | confidence | as-written member | corrected member |
|---|---|---|---|---|---|---|
| src-tauri/src/converter.rs:130-133 | types 4 to 6 are parsed and stored as `f32`, but the reader (converter.rs:59) reads type 6 as an 8-byte `f64` | a table with one column `x` of type 6 and one row: its text converts back to a file 4 bytes short, or panics | type 6 written as an 8-byte `f64`, so the text of a table converts back to the table's file | not executed | CsvRoundTrip.NarrowedDouble | CsvRoundTrip.CsvRoundTrip |
| src-tauri/src/dnt_converter.rs:113 | each row line is trimmed before it is split at tabs, so an empty last cell (a trailing tab) is dropped and the rest of the file shifts | a table with one text column and a row `7`, `""`: its line `7\t` comes back 2 bytes short | the row line split without trimming, so the text of a table converts back to the table's file | not executed | DntRoundTrip.TrimDropsEmptyLastCell | DntRoundTrip.FileTextFile |
