/** Bytes of the database file and the two-byte big-endian reads made on them. */
module Bytes {

  /** One byte of the file, as the unsigned value the source's `u8` holds. */
  type byte = x: int | 0 <= x < 256

  /** The one error the decoder returns instead of panicking: nom's `be_u16`
      found fewer than two bytes left in the cell-pointer array. */
  datatype Error = TruncatedCellPointerArray

  datatype Result<T> = Ok(value: T) | Err(error: Error)

  /** `u16::from_be_bytes([buf[off], buf[off + 1]])`: an unchecked read whose
      indexing the caller keeps in range. */
  function BE16(buf: seq<byte>, off: nat): (r: nat)
    requires off + 2 <= |buf|
    ensures r < 0x1_0000
    ensures r / 256 == buf[off] && r % 256 == buf[off + 1]
  {
    (buf[off] as int) * 256 + buf[off + 1]
  }

  /** nom's `be_u16` applied to the suffix of `buf` at `pos`: the cursor after
      the two bytes and their big-endian value, or an error when fewer than two
      bytes remain. */
  function ReadBE16(buf: seq<byte>, pos: nat): (r: Result<(nat, nat)>)
    ensures r.Ok? <==> pos + 2 <= |buf|
    ensures r.Ok? ==> r.value == (pos + 2, BE16(buf, pos))
    ensures r.Err? ==> r.error == TruncatedCellPointerArray
  {
    if pos + 2 <= |buf| then Ok((pos + 2, BE16(buf, pos))) else Err(TruncatedCellPointerArray)
  }

  /** Two big-endian reads agree exactly when they read the same two bytes. */
  lemma BE16Injective(a: seq<byte>, i: nat, b: seq<byte>, j: nat)
    requires i + 2 <= |a| && j + 2 <= |b|
    ensures BE16(a, i) == BE16(b, j) <==> a[i] == b[j] && a[i + 1] == b[j + 1]
  {
  }
}
