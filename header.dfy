/** The `.dbinfo` reads: the page size from the 100-byte database file header
    and the cell count from the B-tree page header that follows it on page 1. */
module Header {
  import opened Bytes

  /** Both `.dbinfo` reads fill the same 100-byte buffer. */
  const ChunkBytes: nat := 100

  /** Offset of the page size within the database file header. */
  const PageSizeOffset: nat := 16

  /** Offset of the cell count within a B-tree page header. */
  const CellCountOffset: nat := 3

  datatype DbInfo = DbInfo(pageSize: nat, numTables: nat)

  /** The page size: the big-endian u16 at offset 16 of the file header. The
      stored value is returned raw, so 1 (which the format uses for 65536) is 1. */
  function PageSize(header: seq<byte>): (r: nat)
    requires |header| == ChunkBytes
    ensures r < 0x1_0000
    ensures r / 256 == header[16] && r % 256 == header[17]
  {
    BE16(header, PageSizeOffset)
  }

  /** The number of cells of the page, from the second 100-byte read, which on
      page 1 holds the B-tree page header at its start. */
  function NumCells(btreeHeader: seq<byte>): (r: nat)
    requires |btreeHeader| == ChunkBytes
    ensures r < 0x1_0000
    ensures r / 256 == btreeHeader[3] && r % 256 == btreeHeader[4]
  {
    BE16(btreeHeader, CellCountOffset)
  }

  /** What `.dbinfo` reports for a file: its first 100 bytes give the page size,
      its next 100 bytes the table count. */
  function ReadDbInfo(file: seq<byte>): (r: DbInfo)
    requires 2 * ChunkBytes <= |file|
    ensures r.pageSize == (file[16] as int) * 256 + file[17]
    ensures r.numTables == (file[103] as int) * 256 + file[104]
  {
    DbInfo(PageSize(file[..ChunkBytes]), NumCells(file[ChunkBytes..2 * ChunkBytes]))
  }

  /** A header with bytes 0x10 0x00 at offset 16 declares 4096-byte pages. */
  lemma PageSize4096(header: seq<byte>)
    requires |header| == ChunkBytes && header[16] == 0x10 && header[17] == 0x00
    ensures PageSize(header) == 4096
  {
  }
}
