/** The `.tables` command on the first 4096 bytes of the file: reads the cell
    count of page 1, walks its cell-pointer array, decodes the name of every
    schema row and keeps the names that do not start with `sqlite_`. */
module Tables {
  import opened Bytes
  import opened Header
  import opened Cell

  /** The `.tables` path reads a fixed 4096-byte buffer, whatever the page size. */
  const PageBytes: nat := 4096

  /** The cell count sits 3 bytes into the B-tree page header, which on page 1
      follows the 100-byte file header. */
  const NumCellsOffset: nat := 103

  /** The cell-pointer array follows the 8-byte leaf page header. */
  const CellPointerArray: nat := 108

  /** The bytes of `sqlite_`, the prefix of SQLite's internal tables. */
  const SqlitePrefix: seq<byte> := [0x73, 0x71, 0x6c, 0x69, 0x74, 0x65, 0x5f]

  predicate IsInternal(name: seq<byte>)
  {
    |SqlitePrefix| <= |name| && name[..|SqlitePrefix|] == SqlitePrefix
  }

  // ---------------------------------------------------------------------------
  // The filter

  /** The names that are not internal, in their original order, duplicates kept. */
  function UserTables(names: seq<seq<byte>>): (r: seq<seq<byte>>)
    ensures |r| <= |names|
  {
    if names == [] then []
    else
      var last := names[|names| - 1];
      UserTables(names[..|names| - 1]) + (if IsInternal(last) then [] else [last])
  }

  /** Filtering distributes over concatenation, so the kept names stay in order. */
  lemma {:induction false} UserTablesAppend(a: seq<seq<byte>>, b: seq<seq<byte>>)
    ensures UserTables(a + b) == UserTables(a) + UserTables(b)
    decreases |b|
  {
    if b == [] {
      assert a + b == a;
    } else {
      assert (a + b)[..|a + b| - 1] == a + b[..|b| - 1];
      UserTablesAppend(a, b[..|b| - 1]);
    }
  }

  /** Every non-internal name is kept as often as it occurs; internal names are dropped. */
  lemma {:induction false} UserTablesCount(names: seq<seq<byte>>, x: seq<byte>)
    ensures multiset(UserTables(names))[x] == if IsInternal(x) then 0 else multiset(names)[x]
  {
    if names != [] {
      var init := names[..|names| - 1];
      UserTablesCount(init, x);
      assert names == init + [names[|names| - 1]];
    }
  }

  lemma UserTablesMembers(names: seq<seq<byte>>, x: seq<byte>)
    ensures x in UserTables(names) <==> x in names && !IsInternal(x)
  {
    UserTablesCount(names, x);
  }

  /** Splitting the names anywhere splits the kept names at the same place. */
  lemma UserTablesSplit(names: seq<seq<byte>>, k: nat)
    requires k <= |names|
    ensures UserTables(names) == UserTables(names[..k]) + UserTables(names[k..])
  {
    assert names == names[..k] + names[k..];
    UserTablesAppend(names[..k], names[k..]);
  }

  // ---------------------------------------------------------------------------
  // Lists indexed by cell number

  /** `[f(0), ..., f(n - 1)]`. */
  function Mapped<T>(f: nat -> T, n: nat): (r: seq<T>)
    ensures |r| == n
  {
    if n == 0 then [] else Mapped(f, n - 1) + [f(n - 1)]
  }

  lemma {:induction false} MappedAt<T>(f: nat -> T, n: nat, i: nat)
    requires i < n
    ensures Mapped(f, n)[i] == f(i)
  {
    if i < n - 1 {
      MappedAt(f, n - 1, i);
    }
  }

  lemma PrefixOfAppend<T>(s: seq<T>, x: T, k: nat)
    requires k <= |s|
    ensures (s + [x])[..k] == s[..k]
  {
  }

  lemma {:induction false} MappedPrefix<T>(f: nat -> T, k: nat, n: nat)
    requires k <= n
    ensures Mapped(f, n)[..k] == Mapped(f, k)
  {
    if k < n {
      MappedPrefix(f, k, n - 1);
      PrefixOfAppend(Mapped(f, n - 1), f(n - 1), k);
    }
  }

  lemma MappedMembers<T>(f: nat -> T, n: nat, x: T)
    ensures x in Mapped(f, n) <==> exists i :: 0 <= i < n && f(i) == x
  {
    if x in Mapped(f, n) {
      var i :| 0 <= i < n && Mapped(f, n)[i] == x;
      MappedAt(f, n, i);
    }
    if i :| 0 <= i < n && f(i) == x {
      MappedAt(f, n, i);
    }
  }

  // ---------------------------------------------------------------------------
  // The page

  /** The table count the `.tables` path reads: page bytes 103 and 104. */
  function NumTables(page: seq<byte>): (n: nat)
    requires |page| == PageBytes
    ensures n < 0x1_0000
    ensures n / 256 == page[103] && n % 256 == page[104]
  {
    BE16(page, NumCellsOffset)
  }

  /** Cell pointer `i`: the big-endian u16 at page bytes `108 + 2i` and `109 + 2i`. */
  function CellPointer(page: seq<byte>, i: nat): nat
    requires CellPointerArray + 2 * i + 2 <= |page|
  {
    BE16(page, CellPointerArray + 2 * i)
  }

  /** How many cell pointers fit in the page before `be_u16` runs out of bytes. */
  function PointersAvailable(page: seq<byte>): nat
    requires CellPointerArray <= |page|
  {
    (|page| - CellPointerArray) / 2
  }

  /** The cells the loop reaches: all of them, or those before the pointer
      whose read fails. */
  function Reached(page: seq<byte>): nat
    requires |page| == PageBytes
  {
    if NumTables(page) <= PointersAvailable(page) then NumTables(page) else PointersAvailable(page)
  }

  /** Cell pointer `i` lies in the page and the cell it addresses decodes. */
  predicate CellDecodes(page: seq<byte>, i: nat)
  {
    CellPointerArray + 2 * i + 2 <= |page| && WellFormed(page, CellPointer(page, i))
  }

  /** The first `n` cell pointers lie in the page and their cells decode. */
  predicate CellsWellFormed(page: seq<byte>, n: nat)
  {
    CellPointerArray + 2 * n <= |page| && forall i :: 0 <= i < n ==> CellDecodes(page, i)
  }

  /** The name of the cell that pointer `i` addresses, or the empty name where
      the source would panic instead. */
  function NameOf(page: seq<byte>, i: nat): seq<byte>
  {
    if CellDecodes(page, i) then CellName(page, CellPointer(page, i)) else []
  }

  function NameOfPointer(page: seq<byte>): nat -> seq<byte>
  {
    i => NameOf(page, i)
  }

  /** The names of the first `n` cells, in cell-pointer order. */
  function CellNames(page: seq<byte>, n: nat): (r: seq<seq<byte>>)
    ensures |r| == n
  {
    Mapped(NameOfPointer(page), n)
  }

  /** Entry `i` of the list is the name of the cell that pointer `i` addresses. */
  lemma CellNamesAt(page: seq<byte>, n: nat, i: nat)
    requires CellsWellFormed(page, n) && i < n
    ensures CellDecodes(page, i)
    ensures CellNames(page, n)[i] == CellName(page, CellPointer(page, i))
  {
    MappedAt(NameOfPointer(page), n, i);
  }

  /** One more cell adds its name to the list unless it is internal. */
  lemma UserTablesStep(page: seq<byte>, k: nat)
    ensures var name := NameOf(page, k);
            UserTables(CellNames(page, k + 1))
            == UserTables(CellNames(page, k)) + (if IsInternal(name) then [] else [name])
  {
    MappedPrefix(NameOfPointer(page), k, k + 1);
  }

  /** The `.tables` loop: reads `NumTables(page)` cell pointers in ascending
      order, decodes each cell's name and pushes those that are not internal.
      A pointer read past the end of the page is the error `be_u16` reports. */
  method ListTables(page: seq<byte>) returns (r: Result<seq<seq<byte>>>)
    requires |page| == PageBytes
    requires CellsWellFormed(page, Reached(page))
    ensures CellPointerArray + 2 * NumTables(page) <= |page| ==>
              r == Ok(UserTables(CellNames(page, NumTables(page))))
    ensures CellPointerArray + 2 * NumTables(page) > |page| ==>
              r == Err(TruncatedCellPointerArray)
  {
    var numTables := BE16(page, NumCellsOffset);
    var cellPtr := CellPointerArray;
    var tables := [];
    for k := 0 to numTables
      invariant cellPtr == CellPointerArray + 2 * k <= |page|
      invariant k <= Reached(page)
      invariant tables == UserTables(CellNames(page, k))
    {
      var read := ReadBE16(page, cellPtr);
      if read.Err? {
        return Err(read.error);
      }
      var next, addr := read.value.0, read.value.1;
      assert addr == CellPointer(page, k) && CellDecodes(page, k);
      UserTablesStep(page, k);
      var name := DecodeCellName(page, addr);
      if !IsInternal(name) {
        tables := tables + [name];
      }
      cellPtr := next;
    }
    r := Ok(tables);
  }

  // ---------------------------------------------------------------------------
  // Properties of the result

  /** The names listed from the first `k` cells are a prefix of those listed
      from the first `n`, and the rest come from the later cells: the result
      follows cell-pointer order. */
  lemma TablesInCellOrder(page: seq<byte>, k: nat, n: nat)
    requires k <= n
    ensures UserTables(CellNames(page, n)) == UserTables(CellNames(page, k)) + UserTables(CellNames(page, n)[k..])
  {
    MappedPrefix(NameOfPointer(page), k, n);
    UserTablesSplit(CellNames(page, n), k);
  }

  /** A name is listed exactly when one of the first `n` cells decodes to it and
      it is not internal; no more names are listed than there are cells. */
  lemma ListedNames(page: seq<byte>, n: nat, x: seq<byte>)
    ensures |UserTables(CellNames(page, n))| <= n
    ensures x in UserTables(CellNames(page, n)) <==>
              !IsInternal(x) && exists i :: 0 <= i < n && NameOf(page, i) == x
  {
    var f := NameOfPointer(page);
    UserTablesMembers(CellNames(page, n), x);
    MappedMembers(f, n, x);
    if i :| 0 <= i < n && NameOf(page, i) == x {
      assert f(i) == x;
    }
    if i :| 0 <= i < n && f(i) == x {
      assert NameOf(page, i) == x;
    }
  }

  /** Cell pointer `i` addresses a cell that decodes to `x`. */
  predicate DecodedName(page: seq<byte>, i: nat, x: seq<byte>)
  {
    CellDecodes(page, i) && CellName(page, CellPointer(page, i)) == x
  }

  /** For cells that all decode, the listed names are exactly the decoded
      names of the first `n` cells that are not internal. */
  lemma ListedCellNames(page: seq<byte>, n: nat, x: seq<byte>)
    requires CellsWellFormed(page, n)
    ensures |UserTables(CellNames(page, n))| <= n
    ensures x in UserTables(CellNames(page, n)) <==>
              !IsInternal(x) && exists i :: 0 <= i < n && DecodedName(page, i, x)
  {
    ListedNames(page, n, x);
    if i :| 0 <= i < n && NameOf(page, i) == x {
      assert CellDecodes(page, i);
      assert DecodedName(page, i, x);
    }
    if i :| 0 <= i < n && DecodedName(page, i, x) {
      assert NameOf(page, i) == x;
    }
  }

  /** `.dbinfo` and `.tables` read the table count from the same two bytes. */
  lemma TableCountsAgree(file: seq<byte>)
    requires PageBytes <= |file|
    ensures ReadDbInfo(file).numTables == NumTables(file[..PageBytes])
  {
  }

  /** The bytes of an ASCII string. */
  function Ascii(s: string): (r: seq<byte>)
    requires forall i :: 0 <= i < |s| ==> s[i] as int < 256
    ensures |r| == |s| && forall i :: 0 <= i < |s| ==> r[i] == s[i] as int
  {
    seq(|s|, i requires 0 <= i < |s| => s[i] as int)
  }

  /** `sqlite_sequence` is internal; `sqlite2_custom` is not. */
  lemma InternalExamples()
    ensures IsInternal(Ascii("sqlite_sequence"))
    ensures !IsInternal(Ascii("sqlite2_custom"))
  {
    assert Ascii("sqlite_sequence")[..7] == SqlitePrefix;
    assert Ascii("sqlite2_custom")[6] != SqlitePrefix[6];
  }
}
