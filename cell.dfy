/** One table B-tree leaf cell of the schema page, decoded as the `.tables`
    loop body does: payload length, row id, then the record, whose header
    length splits off the body and whose first two serial types locate the
    second column, the table's `name`. */
module Cell {
  import opened Bytes
  import opened Varint

  /** Serial types below 13 would underflow the source's `u64` subtraction. */
  const MinTextSerialType: nat := 13

  /** The byte length of a text column with serial type `t`: `(t - 13) >> 1`. */
  function TextLength(t: nat): nat
    requires t >= MinTextSerialType
  {
    (t - MinTextSerialType) / 2
  }

  /** The serial type of a text column of `len` bytes. */
  function TextSerialType(len: nat): (t: nat)
    ensures t >= MinTextSerialType && TextLength(t) == len
  {
    2 * len + MinTextSerialType
  }

  /** Where the record's header puts the serial type of its first column ... */
  function FirstTypeAt(record: seq<byte>): nat
    requires Complete(record, 0)
  {
    Length(record, 0)
  }

  /** ... and of its second. */
  function SecondTypeAt(record: seq<byte>): nat
    requires Complete(record, 0) && Complete(record, FirstTypeAt(record))
  {
    FirstTypeAt(record) + Length(record, FirstTypeAt(record))
  }

  /** The record can be decoded without a panic: its header-length varint and
      the two serial-type varints after it lie inside the record, the header
      length does not pass its end, both serial types are at least 13, and the
      second column's span lies inside the body. */
  predicate RecordWellFormed(record: seq<byte>)
  {
    && Complete(record, 0)
    && Value(record, 0) <= |record|
    && Complete(record, FirstTypeAt(record))
    && Complete(record, SecondTypeAt(record))
    && MinTextSerialType <= Value(record, FirstTypeAt(record))
    && MinTextSerialType <= Value(record, SecondTypeAt(record))
    && TextLength(Value(record, FirstTypeAt(record))) + TextLength(Value(record, SecondTypeAt(record)))
       <= |record| - Value(record, 0)
  }

  /** The bytes sliced out of the record body: they start after the first
      column (whose length the first serial type gives) and run for the length
      the second serial type gives. */
  function RecordName(record: seq<byte>): (name: seq<byte>)
    requires RecordWellFormed(record)
  {
    var start := TextLength(Value(record, FirstTypeAt(record)));
    record[Value(record, 0)..][start .. start + TextLength(Value(record, SecondTypeAt(record)))]
  }

  /** Where the row-id varint of the cell at `addr` starts: after its
      payload-length varint. */
  function RowIdAt(page: seq<byte>, addr: nat): nat
    requires Complete(page, addr)
  {
    addr + Length(page, addr)
  }

  /** Where the record of the cell at `addr` starts: after its payload-length
      and row-id varints. */
  function RecordStart(page: seq<byte>, addr: nat): nat
    requires Complete(page, addr) && Complete(page, RowIdAt(page, addr))
  {
    RowIdAt(page, addr) + Length(page, RowIdAt(page, addr))
  }

  /** The payload-length varint of the cell at `addr`, the row-id varint after
      it and the payload-length many bytes after that lie inside the page. */
  predicate RecordInPage(page: seq<byte>, addr: nat)
  {
    Complete(page, addr) && Complete(page, RowIdAt(page, addr)) &&
    RecordStart(page, addr) + Value(page, addr) <= |page|
  }

  /** The record of the cell at `addr`: the payload-length many bytes after
      the two leading varints. */
  function Record(page: seq<byte>, addr: nat): (record: seq<byte>)
    requires RecordInPage(page, addr)
    ensures |record| == Value(page, addr)
  {
    page[RecordStart(page, addr) .. RecordStart(page, addr) + Value(page, addr)]
  }

  /** The cell at `addr` can be decoded without a panic. */
  predicate WellFormed(page: seq<byte>, addr: nat)
  {
    RecordInPage(page, addr) && RecordWellFormed(Record(page, addr))
  }

  function CellName(page: seq<byte>, addr: nat): seq<byte>
    requires WellFormed(page, addr)
  {
    RecordName(Record(page, addr))
  }

  /** The record half of the `.tables` loop body: splits the body off at the
      header length, reads the two serial types that follow the header-length
      varint and slices the second column out of the body. */
  method DecodeRecordName(record: seq<byte>) returns (name: seq<byte>)
    requires RecordWellFormed(record)
    ensures name == RecordName(record)
  {
    var h, headerLength := GetVarint(record, 0);
    assert h == FirstTypeAt(record);
    var body := record[headerLength..];
    var h2, recordType := GetVarint(record, h);
    assert h2 == SecondTypeAt(record);
    var _, serialType := GetVarint(record, h2);
    var start := (recordType - 13) / 2;
    var end := start + (serialType - 13) / 2;
    assert start == TextLength(recordType) && end - start == TextLength(serialType);
    name := body[start..end];
  }

  /** The body of the `.tables` loop up to the `sqlite_` test: skips the
      payload-length and row-id varints of the cell at `addr`, takes the
      payload-length many bytes after them as the record and decodes its name. */
  method DecodeCellName(page: seq<byte>, addr: nat) returns (name: seq<byte>)
    requires WellFormed(page, addr)
    ensures name == CellName(page, addr)
  {
    var p, payloadLength := GetVarint(page, addr);
    assert p == RowIdAt(page, addr);
    var q, _ := GetVarint(page, p);
    assert q == RecordStart(page, addr);
    var record := page[q .. q + payloadLength];
    assert record == Record(page, addr);
    name := DecodeRecordName(record);
  }

  // ---------------------------------------------------------------------------
  // Writing a cell, as the partner of the decoder

  /** A record whose first two columns are the text values `typ` and `name`,
      followed by the serial types `moreTypes` and the payloads `moreBody` of
      any further columns; the header length fits one varint byte. */
  function EncodeRecord(typ: seq<byte>, name: seq<byte>, moreTypes: seq<byte>, moreBody: seq<byte>): (r: seq<byte>)
    requires |typ| < NineByteMin && |name| < NineByteMin && |moreTypes| < 100
    ensures |r| == HeaderLength(|typ|, |name|, moreTypes) + |typ| + |name| + |moreBody|
  {
    var header := Encode(TextSerialType(|typ|)) + Encode(TextSerialType(|name|)) + moreTypes;
    [1 + |header|] + header + (typ + name + moreBody)
  }

  function HeaderLength(typLen: nat, nameLen: nat, moreTypes: seq<byte>): (n: nat)
    requires typLen < NineByteMin && nameLen < NineByteMin && |moreTypes| < 100
    ensures n < 0x80
  {
    1 + |Encode(TextSerialType(typLen))| + |Encode(TextSerialType(nameLen))| + |moreTypes|
  }

  /** What the decoder reads from a record, field by field. */
  lemma RecordFields(r: seq<byte>, headerLength: nat, h1: nat, h2: nat, t1: nat, t2: nat)
    requires Complete(r, 0) && Length(r, 0) == h1 && Value(r, 0) == headerLength && headerLength <= |r|
    requires Complete(r, h1) && h1 + Length(r, h1) == h2 && Value(r, h1) == t1
    requires Complete(r, h2) && Value(r, h2) == t2
    requires MinTextSerialType <= t1 && MinTextSerialType <= t2
    requires TextLength(t1) + TextLength(t2) <= |r| - headerLength
    ensures RecordWellFormed(r)
    ensures RecordName(r) == r[headerLength..][TextLength(t1) .. TextLength(t1) + TextLength(t2)]
  {
  }

  lemma SplitAt(x: byte, e1: seq<byte>, e2: seq<byte>, m: seq<byte>, tail: seq<byte>)
    ensures var r := [x] + (e1 + e2 + m) + tail;
            && r[0] == x
            && r[1 .. 1 + |e1|] == e1
            && r[1 + |e1| .. 1 + |e1| + |e2|] == e2
            && r[1 + |e1 + e2 + m|..] == tail
  {
    var r := [x] + (e1 + e2 + m) + tail;
    assert r[1 .. 1 + |e1|] == e1;
    assert r[1 + |e1| .. 1 + |e1| + |e2|] == e2;
  }

  /** Where the pieces of an encoded record lie. */
  lemma RecordLayout(typ: seq<byte>, name: seq<byte>, moreTypes: seq<byte>, moreBody: seq<byte>)
    requires |typ| < NineByteMin && |name| < NineByteMin && |moreTypes| < 100
    ensures var r := EncodeRecord(typ, name, moreTypes, moreBody);
            var e1 := Encode(TextSerialType(|typ|));
            var e2 := Encode(TextSerialType(|name|));
            && r[0] == HeaderLength(|typ|, |name|, moreTypes)
            && r[1 .. 1 + |e1|] == e1
            && r[1 + |e1| .. 1 + |e1| + |e2|] == e2
            && r[HeaderLength(|typ|, |name|, moreTypes)..] == typ + name + moreBody
  {
    var e1 := Encode(TextSerialType(|typ|));
    var e2 := Encode(TextSerialType(|name|));
    SplitAt(HeaderLength(|typ|, |name|, moreTypes), e1, e2, moreTypes, typ + name + moreBody);
  }

  /** A record whose header-length byte, two serial types and body sit where
      `EncodeRecord` puts them decodes to the second text of the body. */
  lemma RecordFromParts(r: seq<byte>, typLen: nat, nameLen: nat, moreTypes: seq<byte>, tail: seq<byte>)
    requires typLen < NineByteMin && nameLen < NineByteMin && |moreTypes| < 100
    requires var e1 := Encode(TextSerialType(typLen));
             var e2 := Encode(TextSerialType(nameLen));
             var hl := HeaderLength(typLen, nameLen, moreTypes);
             && 1 + |e1| + |e2| <= |r| && r[0] == hl
             && r[1 .. 1 + |e1|] == e1
             && r[1 + |e1| .. 1 + |e1| + |e2|] == e2
             && hl <= |r| && r[hl..] == tail && typLen + nameLen <= |tail|
    ensures RecordWellFormed(r) && RecordName(r) == tail[typLen .. typLen + nameLen]
  {
    var t1, t2 := TextSerialType(typLen), TextSerialType(nameLen);
    var h2 := 1 + |Encode(t1)|;
    SingleByte(r, 0);
    DecodeEncode(r, 1, t1);
    DecodeEncode(r, h2, t2);
    RecordFields(r, HeaderLength(typLen, nameLen, moreTypes), 1, h2, t1, t2);
  }

  /** The decoder recovers the second column of any record written by
      `EncodeRecord`: the slice at `(t1 - 13) >> 1` skips the first column. */
  lemma RecordRoundTrip(typ: seq<byte>, name: seq<byte>, moreTypes: seq<byte>, moreBody: seq<byte>)
    requires |typ| < NineByteMin && |name| < NineByteMin && |moreTypes| < 100
    ensures RecordWellFormed(EncodeRecord(typ, name, moreTypes, moreBody))
    ensures RecordName(EncodeRecord(typ, name, moreTypes, moreBody)) == name
  {
    var tail := typ + name + moreBody;
    RecordLayout(typ, name, moreTypes, moreBody);
    RecordFromParts(EncodeRecord(typ, name, moreTypes, moreBody), |typ|, |name|, moreTypes, tail);
    assert tail[|typ| .. |typ| + |name|] == name;
  }

  /** What the decoder reads from a cell, field by field. */
  lemma CellFields(page: seq<byte>, addr: nat, p: nat, q: nat, record: seq<byte>)
    requires Complete(page, addr) && addr + Length(page, addr) == p && Value(page, addr) == |record|
    requires Complete(page, p) && p + Length(page, p) == q
    requires q + |record| <= |page| && page[q .. q + |record|] == record
    requires RecordWellFormed(record)
    ensures WellFormed(page, addr) && CellName(page, addr) == RecordName(record)
  {
    assert p == RowIdAt(page, addr);
    assert RecordStart(page, addr) == q;
    assert Record(page, addr) == record;
  }

  /** The decoder recovers the record's name from a table leaf cell written
      anywhere in a page: the record's length as a varint at `addr`, the row id
      as a varint right after it, and the record right after that. */
  lemma CellRoundTrip(page: seq<byte>, addr: nat, rowId: nat, record: seq<byte>)
    requires rowId < U64Bound && |record| < U64Bound && RecordWellFormed(record)
    requires var p := addr + |Encode(|record|)|;
             var q := p + |Encode(rowId)|;
             && q + |record| <= |page|
             && page[addr .. p] == Encode(|record|)
             && page[p .. q] == Encode(rowId)
             && page[q .. q + |record|] == record
    ensures WellFormed(page, addr) && CellName(page, addr) == RecordName(record)
  {
    var p := addr + |Encode(|record|)|;
    DecodeEncode(page, addr, |record|);
    DecodeEncode(page, p, rowId);
    CellFields(page, addr, p, p + |Encode(rowId)|, record);
  }

  /** Together: a schema row (type, name, further columns) written as a cell
      anywhere in a page is decoded to its name. */
  lemma SchemaRowRoundTrip(page: seq<byte>, addr: nat, rowId: nat, typ: seq<byte>, name: seq<byte>,
                           moreTypes: seq<byte>, moreBody: seq<byte>, record: seq<byte>)
    requires rowId < U64Bound
    requires |typ| < NineByteMin && |name| < NineByteMin && |moreTypes| < 100 && |moreBody| < NineByteMin
    requires record == EncodeRecord(typ, name, moreTypes, moreBody)
    requires var p := addr + |Encode(|record|)|;
             var q := p + |Encode(rowId)|;
             && q + |record| <= |page|
             && page[addr .. p] == Encode(|record|)
             && page[p .. q] == Encode(rowId)
             && page[q .. q + |record|] == record
    ensures WellFormed(page, addr) && CellName(page, addr) == name
  {
    RecordRoundTrip(typ, name, moreTypes, moreBody);
    CellRoundTrip(page, addr, rowId, record);
  }
}
