/** SQLite's big-endian variable-length integer, as `get_varint` reads it:
    up to eight bytes give their low seven bits each, a byte with its high bit
    clear ends the integer, and a ninth byte, reached only when all eight
    before it have the high bit set, gives all eight of its bits. */
module Varint {
  import opened Bytes

  /** 2^56: the smallest value whose encoding needs all nine bytes. */
  const NineByteMin: nat := 0x100_0000_0000_0000

  /** 2^64: the bound of the source's `u64` accumulator. */
  const U64Bound: nat := 0x1_0000_0000_0000_0000

  function Pow128(n: nat): (r: nat)
    ensures r >= 1
  {
    if n == 0 then 1 else 128 * Pow128(n - 1)
  }

  lemma {:induction false} Pow128Monotone(m: nat, n: nat)
    requires m <= n
    ensures Pow128(m) <= Pow128(n)
    decreases n
  {
    if m < n {
      Pow128Monotone(m, n - 1);
    }
  }

  lemma Pow128Eight()
    ensures Pow128(8) == NineByteMin
  {
  }

  /** `0x7F & b`: the byte without its high bit. */
  function Low7Bits(b: byte): (r: nat)
    ensures r < 0x80
  {
    if b < 0x80 then b else b - 0x80
  }

  /** The low seven bits of the bytes `s[lo..hi]`, concatenated most
      significant first. */
  function Low7(s: seq<byte>, lo: nat, hi: nat): nat
    requires lo <= hi <= |s|
    decreases hi
  {
    if hi == lo then 0 else Low7(s, lo, hi - 1) * 128 + Low7Bits(s[hi - 1])
  }

  /** `n` bytes carry `7 * n` bits. */
  lemma {:induction false} Low7Bound(s: seq<byte>, lo: nat, hi: nat)
    requires lo <= hi <= |s|
    ensures Low7(s, lo, hi) < Pow128(hi - lo)
    decreases hi
  {
    if hi > lo {
      Low7Bound(s, lo, hi - 1);
    }
  }

  /** Two ranges holding the same bytes carry the same bits. */
  lemma {:induction false} Low7Same(s: seq<byte>, lo: nat, t: seq<byte>, lo': nat, n: nat)
    requires lo + n <= |s| && lo' + n <= |t|
    requires forall k :: lo <= k < lo + n ==> s[k] == t[k - lo + lo']
    ensures Low7(s, lo, lo + n) == Low7(t, lo', lo' + n)
  {
    if n > 0 {
      Low7Same(s, lo, t, lo', n - 1);
      assert s[lo + n - 1] == t[lo' + n - 1];
    }
  }

  // ---------------------------------------------------------------------------
  // What get_varint reads from `s` at cursor `pos` (the slice `p` of the source
  // is `s[pos..]`)

  /** The first index in `i..8` whose byte has its high bit clear or lies past
      the end of `s`, or 8 when bytes `i..7` all have the high bit set. */
  function RunEnd(s: seq<byte>, pos: nat, i: nat): (k: nat)
    requires i <= 8
    ensures i <= k <= 8
    decreases 8 - i
  {
    if i < 8 && pos + i < |s| && s[pos + i] >= 0x80 then RunEnd(s, pos, i + 1) else i
  }

  /** How many of the first eight bytes carry a set high bit before the first clear one. */
  function Run(s: seq<byte>, pos: nat): nat
  {
    RunEnd(s, pos, 0)
  }

  /** Every byte get_varint indexes lies inside `s` (otherwise the source panics). */
  predicate Complete(s: seq<byte>, pos: nat)
  {
    if Run(s, pos) < 8 then pos + Run(s, pos) < |s| else pos + 9 <= |s|
  }

  /** The number of bytes get_varint consumes. */
  function Length(s: seq<byte>, pos: nat): (n: nat)
    requires Complete(s, pos)
    ensures 1 <= n <= 9 && pos + n <= |s|
  {
    if Run(s, pos) < 8 then Run(s, pos) + 1 else 9
  }

  /** The value get_varint returns; it always fits the `u64` accumulator, so
      the source's shifts never drop a bit. */
  function Value(s: seq<byte>, pos: nat): (v: nat)
    requires Complete(s, pos)
    ensures v < U64Bound
  {
    Pow128Eight();
    if Run(s, pos) < 8 then
      Low7Bound(s, pos, pos + Run(s, pos) + 1);
      Pow128Monotone(Run(s, pos) + 1, 8);
      Low7(s, pos, pos + Run(s, pos) + 1)
    else
      Low7Bound(s, pos, pos + 8);
      Low7(s, pos, pos + 8) * 256 + s[pos + 8]
  }

  lemma {:induction false} RunEndIs(s: seq<byte>, pos: nat, i: nat, k: nat)
    requires i <= k <= 8 && pos + k <= |s|
    requires forall j :: pos + i <= j < pos + k ==> s[j] >= 0x80
    requires k < 8 ==> pos + k == |s| || s[pos + k] < 0x80
    ensures RunEnd(s, pos, i) == k
    decreases k - i
  {
    if i < k {
      RunEndIs(s, pos, i + 1, k);
    }
  }

  lemma {:induction false} RunEndSpec(s: seq<byte>, pos: nat, i: nat)
    requires i <= 8
    ensures pos + RunEnd(s, pos, i) <= |s| || RunEnd(s, pos, i) == i
    ensures forall j :: pos + i <= j < pos + RunEnd(s, pos, i) ==> s[j] >= 0x80
    ensures RunEnd(s, pos, i) < 8 ==> pos + RunEnd(s, pos, i) >= |s| || s[pos + RunEnd(s, pos, i)] < 0x80
    decreases 8 - i
  {
    if i < 8 && pos + i < |s| && s[pos + i] >= 0x80 {
      RunEndSpec(s, pos, i + 1);
      assert RunEnd(s, pos, i) == RunEnd(s, pos, i + 1);
      forall j | pos + i <= j < pos + RunEnd(s, pos, i)
        ensures s[j] >= 0x80
      {
        if j > pos + i {
          assert pos + i + 1 <= j < pos + RunEnd(s, pos, i + 1);
        }
      }
    }
  }

  /** Decoding stops at the first of bytes 1..8 whose high bit is clear, and the
      value is the big-endian concatenation of the consumed bytes' low 7 bits. */
  lemma StopsAtFirstClear(s: seq<byte>, pos: nat, k: nat)
    requires 1 <= k <= 8 && pos + k <= |s|
    requires forall j :: pos <= j < pos + k - 1 ==> s[j] >= 0x80
    requires s[pos + k - 1] < 0x80
    ensures Complete(s, pos) && Length(s, pos) == k && Value(s, pos) == Low7(s, pos, pos + k)
  {
    RunEndIs(s, pos, 0, k - 1);
  }

  /** When the first eight bytes all have the high bit set, nine bytes are
      consumed and the ninth contributes all eight of its bits. */
  lemma AllEightContinue(s: seq<byte>, pos: nat)
    requires pos + 9 <= |s|
    requires forall j :: pos <= j < pos + 8 ==> s[j] >= 0x80
    ensures Complete(s, pos) && Length(s, pos) == 9
    ensures Value(s, pos) == Low7(s, pos, pos + 8) * 256 + s[pos + 8]
  {
    RunEndIs(s, pos, 0, 8);
  }

  /** Conversely, every varint get_varint can read has one of those two shapes. */
  lemma Consumed(s: seq<byte>, pos: nat)
    requires Complete(s, pos)
    ensures Length(s, pos) <= 8 ==>
      (forall j :: pos <= j < pos + Length(s, pos) - 1 ==> s[j] >= 0x80) &&
      s[pos + Length(s, pos) - 1] < 0x80
    ensures Length(s, pos) == 9 ==> forall j :: pos <= j < pos + 8 ==> s[j] >= 0x80
  {
    RunEndSpec(s, pos, 0);
  }

  /** A first byte with its high bit clear is the whole integer. */
  lemma SingleByte(s: seq<byte>, pos: nat)
    requires pos < |s| && s[pos] < 0x80
    ensures Complete(s, pos) && Length(s, pos) == 1 && Value(s, pos) == s[pos]
  {
    StopsAtFirstClear(s, pos, 1);
  }

  /** `get_varint` with an explicit cursor in place of the returned suffix:
      decodes the varint at `buf[pos..]` and returns the position after it. */
  method GetVarint(buf: seq<byte>, pos: nat) returns (next: nat, value: nat)
    requires Complete(buf, pos)
    ensures 1 <= next - pos <= 9 && next <= |buf|
    ensures next == pos + Length(buf, pos)
    ensures value == Value(buf, pos)
  {
    var res: nat := 0;
    var i := 0;
    var done := false;
    while !done && i < 8
      invariant 0 <= i <= 8
      invariant pos + i <= |buf|
      invariant res == Low7(buf, pos, pos + i)
      invariant done ==> 1 <= i && Run(buf, pos) == i - 1
      invariant !done ==> RunEnd(buf, pos, i) == Run(buf, pos)
    {
      done := buf[pos + i] < 0x80;
      res := res * 128 + Low7Bits(buf[pos + i]);
      i := i + 1;
    }
    if !done && i == 8 {
      res := res * 256 + buf[pos + i];
      i := i + 1;
    }
    next, value := pos + i, res;
  }

  // ---------------------------------------------------------------------------
  // The encoding SQLite writes, as the partner of the decoder

  /** `n` bytes, each with the high bit set, carrying the low `7 * n` bits of `x`
      most significant first. */
  function Continued(x: nat, n: nat): (r: seq<byte>)
    ensures |r| == n
  {
    if n == 0 then [] else Continued(x / 128, n - 1) + [0x80 + x % 128]
  }

  lemma {:induction false} ContinuedHigh(x: nat, n: nat)
    ensures forall j :: 0 <= j < n ==> Continued(x, n)[j] >= 0x80
  {
    if n > 0 {
      ContinuedHigh(x / 128, n - 1);
    }
  }

  /** The number of 7-bit groups needed to write `v`. */
  function Groups(v: nat): (n: nat)
    ensures n >= 1
  {
    if v < 128 then 1 else 1 + Groups(v / 128)
  }

  lemma {:induction false} GroupsFit(v: nat, n: nat)
    requires 1 <= n && v < Pow128(n)
    ensures Groups(v) <= n
  {
    if v >= 128 {
      GroupsFit(v / 128, n - 1);
    }
  }

  lemma {:induction false} WithinGroups(v: nat)
    ensures v < Pow128(Groups(v))
  {
    if v >= 128 {
      WithinGroups(v / 128);
    }
  }

  /** One byte per 7-bit group of `v`, all but the last with the high bit set. */
  function ShortForm(v: nat): (r: seq<byte>)
    ensures |r| == Groups(v)
  {
    Continued(v / 128, Groups(v) - 1) + [v % 128]
  }

  /** Eight 7-bit groups of `v / 256`, each with the high bit set, then the
      low byte of `v`. */
  function LongForm(v: nat): (r: seq<byte>)
    ensures |r| == 9
  {
    Continued(v / 256, 8) + [v % 256]
  }

  /** The shortest SQLite varint for `v`: values below 2^56 take one byte per
      7-bit group, the others all nine bytes. */
  function Encode(v: nat): (r: seq<byte>)
    requires v < U64Bound
    ensures 1 <= |r| <= 9
  {
    if v < NineByteMin then
      Pow128Eight();
      GroupsFit(v, 8);
      ShortForm(v)
    else
      LongForm(v)
  }

  lemma MulAtLeast(d: int, k: int)
    requires d > 0 && k >= 1
    ensures d * k >= d
  {
    var m := k - 1;
    assert d * k == d * m + d;
  }

  lemma ModUnique(x: int, d: int, q: int, r: int)
    requires d > 0 && x == d * q + r && 0 <= r < d
    ensures x % d == r
  {
    var q', r' := x / d, x % d;
    assert x == d * q' + r';
    if q' > q {
      MulAtLeast(d, q' - q);
    } else if q' < q {
      MulAtLeast(d, q - q');
    }
  }

  lemma ModStep(x: nat, n: nat)
    requires n >= 1
    ensures (x / 128 % Pow128(n - 1)) * 128 + x % 128 == x % Pow128(n)
  {
    var p := Pow128(n - 1);
    assert Pow128(n) == 128 * p;
    var q := x / 128 / p;
    var r := x / 128 % p;
    assert x / 128 == p * q + r;
    assert x == (128 * p) * q + (128 * r + x % 128);
    ModUnique(x, 128 * p, q, 128 * r + x % 128);
  }

  lemma {:induction false} Low7Continued(x: nat, n: nat)
    ensures Low7(Continued(x, n), 0, n) == x % Pow128(n)
  {
    if n > 0 {
      var c := Continued(x, n);
      var c' := Continued(x / 128, n - 1);
      assert c == c' + [0x80 + x % 128];
      Low7Same(c, 0, c', 0, n - 1);
      Low7Continued(x / 128, n - 1);
      ModStep(x, n);
    }
  }

  lemma ShortFormValue(v: nat)
    ensures Low7(ShortForm(v), 0, Groups(v)) == v
  {
    var n := Groups(v);
    var c := Continued(v / 128, n - 1);
    var e := ShortForm(v);
    assert e == c + [v % 128];
    Low7Same(e, 0, c, 0, n - 1);
    Low7Continued(v / 128, n - 1);
    ModStep(v, n);
    WithinGroups(v);
    ModUnique(v, Pow128(n), 0, v);
  }

  lemma LongFormValue(v: nat)
    requires v < U64Bound
    ensures Low7(LongForm(v), 0, 8) * 256 + LongForm(v)[8] == v
  {
    Pow128Eight();
    var c := Continued(v / 256, 8);
    var e := LongForm(v);
    assert e == c + [v % 256];
    Low7Same(e, 0, c, 0, 8);
    Low7Continued(v / 256, 8);
    ModUnique(v / 256, NineByteMin, 0, v / 256);
  }

  lemma SliceBytes(s: seq<byte>, pos: nat, e: seq<byte>)
    requires pos + |e| <= |s| && s[pos .. pos + |e|] == e
    ensures forall j :: pos <= j < pos + |e| ==> s[j] == e[j - pos]
  {
    forall j | pos <= j < pos + |e|
      ensures s[j] == e[j - pos]
    {
      assert s[pos .. pos + |e|][j - pos] == s[j];
    }
  }

  /** Bytes `e` placed at `pos` whose high bits read as a varint of `|e| < 9`
      bytes are read back as the 7-bit groups of `e` ... */
  lemma DecodePlacedShort(s: seq<byte>, pos: nat, e: seq<byte>)
    requires 1 <= |e| <= 8 && pos + |e| <= |s| && s[pos .. pos + |e|] == e
    requires forall j :: 0 <= j < |e| - 1 ==> e[j] >= 0x80
    requires e[|e| - 1] < 0x80
    ensures Complete(s, pos) && Length(s, pos) == |e| && Value(s, pos) == Low7(e, 0, |e|)
  {
    SliceBytes(s, pos, e);
    StopsAtFirstClear(s, pos, |e|);
    Low7Same(s, pos, e, 0, |e|);
  }

  /** ... and nine such bytes as the 7-bit groups of the first eight followed
      by the whole ninth. */
  lemma DecodePlacedLong(s: seq<byte>, pos: nat, e: seq<byte>)
    requires |e| == 9 && pos + 9 <= |s| && s[pos .. pos + 9] == e
    requires forall j :: 0 <= j < 8 ==> e[j] >= 0x80
    ensures Complete(s, pos) && Length(s, pos) == 9 && Value(s, pos) == Low7(e, 0, 8) * 256 + e[8]
  {
    SliceBytes(s, pos, e);
    AllEightContinue(s, pos);
    Low7Same(s, pos, e, 0, 8);
  }

  lemma DecodeShortForm(s: seq<byte>, pos: nat, v: nat)
    requires Groups(v) <= 8
    requires pos + Groups(v) <= |s| && s[pos .. pos + Groups(v)] == ShortForm(v)
    ensures Complete(s, pos) && Length(s, pos) == Groups(v) && Value(s, pos) == v
  {
    var n := Groups(v);
    var e := ShortForm(v);
    assert e == Continued(v / 128, n - 1) + [v % 128];
    ContinuedHigh(v / 128, n - 1);
    DecodePlacedShort(s, pos, e);
    ShortFormValue(v);
  }

  lemma DecodeLongForm(s: seq<byte>, pos: nat, v: nat)
    requires v < U64Bound
    requires pos + 9 <= |s| && s[pos .. pos + 9] == LongForm(v)
    ensures Complete(s, pos) && Length(s, pos) == 9 && Value(s, pos) == v
  {
    var e := LongForm(v);
    assert e == Continued(v / 256, 8) + [v % 256];
    ContinuedHigh(v / 256, 8);
    DecodePlacedLong(s, pos, e);
    LongFormValue(v);
  }

  /** Round trip: wherever the encoding of a `u64` sits in a byte sequence,
      get_varint reads that value back and consumes exactly the encoding. */
  lemma DecodeEncode(s: seq<byte>, pos: nat, v: nat)
    requires v < U64Bound
    requires pos + |Encode(v)| <= |s| && s[pos .. pos + |Encode(v)|] == Encode(v)
    ensures Complete(s, pos)
    ensures Length(s, pos) == |Encode(v)|
    ensures Value(s, pos) == v
  {
    if v < NineByteMin {
      Pow128Eight();
      GroupsFit(v, 8);
      DecodeShortForm(s, pos, v);
    } else {
      DecodeLongForm(s, pos, v);
    }
  }
}
