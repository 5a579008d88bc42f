# craft-sqlite page-1 decoder, modelled in Dafny

craft-sqlite answers two commands on an SQLite database file. `.dbinfo`
prints the page size and the number of cells on page 1. `.tables` prints the
names of the user tables. Both work on fixed byte offsets of the first page.
`.tables` walks the cell-pointer array of the schema page, decodes each table
leaf cell and its record, slices the `name` column out of the record, and
keeps the names that do not start with `sqlite_`.

The model covers that decoder, taken out of `main` in `src/main.rs`:

- `bytes.dfy` (module `Bytes`) holds the byte type and the two-byte
  big-endian reads. `BE16` is `u16::from_be_bytes`. `ReadBE16` is nom's
  `be_u16`, which returns an error when fewer than two bytes remain.
- `varint.dfy` (module `Varint`) holds `get_varint`, written as the method
  `GetVarint`. It uses a cursor `(buf, pos)` in place of the suffix slice, and
  its loop is proved against the functions `Length` and `Value`. The module
  also has an encoder, the shortest SQLite varint, and the round trip between
  the two.
- `header.dfy` (module `Header`) holds the `.dbinfo` reads: the page size at
  file offset 16 and the cell count at offset 3 of the B-tree page header.
- `cell.dfy` (module `Cell`) holds the body of the `.tables` loop.
  - It skips the payload-length and row-id varints.
  - It takes the record.
  - It splits off the body at the header length.
  - It reads the two serial types after the header-length varint.
  - It slices out the second column.
  - The partners of these decoders are a record writer and a cell layout;
    round-trip lemmas connect the two.
- `tables.dfy` (module `Tables`) holds the `.tables` loop itself, as the
  method `ListTables`. It is proved against `UserTables(CellNames(page, n))`,
  and lemmas state order, membership, multiplicity and length of that list.

The code slices the second column of the schema row (`name`), starting after
the first column (`type`). `Cell.RecordRoundTrip` proves that the name written
as the second column, after `type`, is the one recovered.

## Model

| member | source | states |
|---|---|---|
| Bytes.BE16 | src/main.rs:46 | the two bytes read big-endian: the value is below 2^16, its high byte is the first byte and its low byte the second |
| Bytes.ReadBE16 | src/main.rs:66 | `be_u16` succeeds exactly when two bytes remain; it then advances the cursor by two and yields their big-endian value; otherwise it yields the truncated-pointer-array error |
| Bytes.BE16Injective | src/main.rs:66 | two big-endian reads agree exactly when they read the same two bytes |
| Header.PageSize | src/main.rs:46 | the page size is below 2^16, with byte 16 as its high byte and byte 17 as its low byte |
| Header.NumCells | src/main.rs:50-51 | the cell count of the second 100-byte read is the big-endian value of its bytes 3 and 4 |
| Header.ReadDbInfo | src/main.rs:40-53 | `.dbinfo` reports `file[16]*256 + file[17]` as the page size and `file[103]*256 + file[104]` as the table count |
| Header.PageSize4096 | src/main.rs:46 | bytes 0x10 0x00 at offset 16 declare 4096-byte pages |
| Varint.Low7Bits | src/main.rs:16 | `0x7F & b` is below 0x80 |
| Varint.Low7Bound | src/main.rs:13-18 | `n` bytes contribute fewer than `128^n` to the accumulator |
| Varint.Length | src/main.rs:13-24 | get_varint consumes between 1 and 9 bytes, all inside the input |
| Varint.Value | src/main.rs:13-23 | the decoded value is below 2^64, so the `u64` shifts never drop a bit |
| Varint.StopsAtFirstClear | src/main.rs:13-18 | decoding stops at the first of bytes 1..8 whose high bit is clear; it consumes that many bytes and yields the big-endian concatenation of their low 7 bits |
| Varint.AllEightContinue | src/main.rs:19-23 | when the first eight bytes all have the high bit set, nine bytes are consumed and the ninth contributes all eight of its bits |
| Varint.Consumed | src/main.rs:13-23 | conversely, every decoded varint has one of those two shapes |
| Varint.SingleByte | src/main.rs:13-17 | a first byte with its high bit clear is consumed alone and is the value |
| Varint.GetVarint | src/main.rs:9-25 | the loop returns the cursor after exactly the consumed bytes, between 1 and 9 of them, and the decoded value |
| Varint.DecodePlacedShort | src/main.rs:13-18 | bytes placed anywhere that end at their first clear high bit within eight are read back as their 7-bit groups |
| Varint.DecodePlacedLong | src/main.rs:13-23 | nine placed bytes whose first eight have the high bit set are read back as eight 7-bit groups followed by the ninth byte |
| Varint.DecodeShortForm | src/main.rs:13-18 | the one-byte-per-group encoding of a value below 2^56 is read back as that value, consuming exactly its bytes |
| Varint.DecodeLongForm | src/main.rs:19-23 | the nine-byte encoding of a value from 2^56 to 2^64 is read back as that value |
| Varint.DecodeEncode | src/main.rs:9-25 | round trip: wherever the encoding of a `u64` sits, get_varint reads that value and leaves the cursor right after the encoding, so the rest of the input is returned unchanged |
| Cell.TextSerialType | src/main.rs:81-82 | the serial type written for a text of `len` bytes is at least 13 and `(t - 13) >> 1` gives `len` back |
| Cell.Record | src/main.rs:69-74 | the record is exactly the payload-length many bytes after the two leading varints |
| Cell.DecodeRecordName | src/main.rs:75-83 | splitting the body off at the header length and slicing `body[(t1-13)>>1 .. + (t2-13)>>1]` yields the record's name |
| Cell.DecodeCellName | src/main.rs:68-83 | skipping the payload-length and row-id varints and decoding the record yields the cell's name |
| Cell.RecordFields | src/main.rs:75-83 | a record whose header-length varint (of any length) and the two serial types right after it decode as given is well formed, and its name is the corresponding body slice |
| Cell.RecordFromParts | src/main.rs:75-83 | a record laid out with a one-byte header length followed by two text serial types decodes to the second text of its body |
| Cell.RecordRoundTrip | src/main.rs:75-83 | a record written with `type` and `name` as its first two text columns, followed by any further columns, decodes to `name` |
| Cell.CellFields | src/main.rs:69-74 | a cell whose two leading varints and record lie as given is well formed, and its name is the record's name |
| Cell.CellRoundTrip | src/main.rs:69-83 | a cell written anywhere in a page as payload length, row id and record decodes to the record's name |
| Cell.SchemaRowRoundTrip | src/main.rs:69-83 | a schema row written as a cell anywhere in a page decodes to its `name` |
| Tables.UserTables | src/main.rs:85-87 | the filter keeps at most as many names as it is given |
| Tables.UserTablesAppend | src/main.rs:85-87 | filtering distributes over concatenation, so kept names stay in order |
| Tables.UserTablesCount | src/main.rs:85-87 | each name that does not start with `sqlite_` is kept as often as it occurs, with no deduplication; internal names are dropped |
| Tables.UserTablesMembers | src/main.rs:85-87 | a name is kept exactly when it occurs and does not start with `sqlite_` |
| Tables.UserTablesSplit | src/main.rs:85-87 | splitting the names anywhere splits the kept names at the same place |
| Tables.NumTables | src/main.rs:60 | the `.tables` table count is below 2^16, with page byte 103 as its high byte and byte 104 as its low byte |
| Tables.CellNames | src/main.rs:64-65 | the list of decoded names has one entry per cell pointer read |
| Tables.CellNamesAt | src/main.rs:64-71 | entry `i` of the list is the name of the cell that pointer `i`, at bytes `108+2i` and `109+2i`, addresses |
| Tables.UserTablesStep | src/main.rs:83-87 | one more cell appends its name to the result unless the name starts with `sqlite_` |
| Tables.ListTables | src/main.rs:60-90 | reading `num_tables` pointers in ascending order yields the filtered names of those cells when the pointer array fits the page; otherwise it yields `be_u16`'s error |
| Tables.TablesInCellOrder | src/main.rs:64-89 | the names listed from the first `k` cells are a prefix of the result, and the rest come from the later cells |
| Tables.ListedNames | src/main.rs:64-87 | for any page, a name is listed exactly when `NameOf` gives it for one of the first `n` cells and it does not start with `sqlite_`; at most `n` names are listed |
| Tables.ListedCellNames | src/main.rs:64-87 | when the first `n` cells all decode, a name is listed exactly when one of those cells decodes to it and it does not start with `sqlite_`; at most `n` names are listed |
| Tables.TableCountsAgree | src/main.rs:50-60 | `.dbinfo` and `.tables` read the table count from the same two file bytes, 103 and 104 |
| Tables.InternalExamples | src/main.rs:85 | `sqlite_sequence` is filtered out and `sqlite2_custom` is kept |

## Left out

- Argument parsing and command dispatch (`src/main.rs:29-38, 94`) are glue around the decoder.
- Opening and reading the file are left out. The model takes the bytes as sequences: the whole file for `.dbinfo`, and the fixed 4096-byte buffer for `.tables`.
- Printing and joining the names are left out.
- The UTF-8 check (`String::from_utf8(..).unwrap()`) is left out. Names are byte sequences, and the `sqlite_` test is done on bytes.
- Rust panics are modelled as preconditions, not as errors:
  - out-of-range slicing when a varint or a cell runs past its buffer;
  - a pointer past the page;
  - a serial type below 13, which underflows the `u64` subtraction.

  `Varint.Complete`, `Cell.RecordWellFormed`, `Cell.WellFormed` and `Tables.CellsWellFormed` state when no panic occurs. `Tables.ListTables` requires this only for the cells the loop reaches before a pointer read fails.
- `Tables.NameOf` gives the empty name for a cell that would make the source panic. It only fills the specification list for cells that `Tables.ListTables` never decodes.
- Only the `be_u16` shortfall is a returned error, as in the source. `nom` and `anyhow` are not modelled beyond that two-byte read.
- The page size is returned raw. The format's reading of 1 as 65536 is not applied, and neither is it by the source.
- The `.tables` buffer is 4096 bytes whatever the page size is. Interior pages, overflow pages and non-text serial types are not handled by the source, and not by the model.
- `Cell.EncodeRecord` writes only records whose header length fits one byte. It is the partner for the round-trip lemmas, and the decoder is not restricted by it.
- `Varint.DecodeEncode` covers the shortest encoding that SQLite writes. Longer, non-canonical encodings are decoded by the same `Varint.Value`, whose shape `Varint.StopsAtFirstClear` and `Varint.AllEightContinue` state for any bytes.
