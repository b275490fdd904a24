/** XMySQL::DumpResult: a result set packed into one buffer of bytes with offsets in place of
    pointers. One pass computes the size, a second one writes. */
module ResultDump {

  type byte = x: int | 0 <= x < 0x100
  type Bytes = seq<byte>

  const INT_MAX: int := 0x7FFF_FFFF

  /** A value of a row: NULL, or the bytes that the server sent. */
  datatype Value = Null | Data(bytes: Bytes)

  /** A result set: the field names and the rows. */
  datatype Table = Table(names: seq<Bytes>, rows: seq<seq<Value>>)

  /** Names are C strings, and every row has a value for every field. */
  predicate Regular(t: Table) {
    && (forall j :: 0 <= j < |t.names| ==> 0 !in t.names[j])
    && (forall i :: 0 <= i < |t.rows| ==> |t.rows[i]| == |t.names|)
  }

  /** mysql_fetch_lengths reports 0 for NULL. */
  function Content(v: Value): Bytes {
    if v.Null? then [] else v.bytes
  }

  function Contents(row: seq<Value>): (c: seq<Bytes>)
    ensures |c| == |row|
  {
    seq(|row|, j requires 0 <= j < |row| => Content(row[j]))
  }

  // ----- Integers in memory -----

  /** An int as four bytes, least significant first. */
  function Encoded(x: int): (s: Bytes)
    requires -INT_MAX - 1 <= x <= INT_MAX
    ensures |s| == 4
  {
    var u0 := if x < 0 then x + 0x1_0000_0000 else x;
    var u1 := u0 / 0x100;
    var u2 := u1 / 0x100;
    [u0 % 0x100, u1 % 0x100, u2 % 0x100, u2 / 0x100]
  }

  function IntAt(s: Bytes, i: int): int
    requires 0 <= i && i + 4 <= |s|
  {
    var a: int, b: int, c: int, d: int := s[i], s[i + 1], s[i + 2], s[i + 3];
    var u := a + 0x100 * b + 0x1_0000 * c + 0x100_0000 * d;
    if u > INT_MAX then u - 0x1_0000_0000 else u
  }

  lemma TwoBytes(x: int)
    ensures x / 0x100 / 0x100 == x / 0x1_0000
  {
  }

  lemma ThreeBytes(x: int)
    ensures x / 0x1_0000 / 0x100 == x / 0x100_0000
  {
  }

  lemma NextByte(u: int, x: int, k: int)
    requires u == x + 0x100 * k
    ensures u % 0x100 == x % 0x100 && u / 0x100 == x / 0x100 + k
  {
  }

  /** The bytes are the digits of x to the base 256, least significant first, in two's complement. */
  lemma EncodedDigits(x: int)
    requires -INT_MAX - 1 <= x <= INT_MAX
    ensures Encoded(x) == [x % 0x100, x / 0x100 % 0x100, x / 0x1_0000 % 0x100, x / 0x100_0000 % 0x100]
  {
    var k := if x < 0 then 1 else 0;
    var u := x + 0x1_0000_0000 * k;
    NextByte(u, x, 0x100_0000 * k);
    NextByte(u / 0x100, x / 0x100, 0x1_0000 * k);
    TwoBytes(x);
    NextByte(u / 0x100 / 0x100, x / 0x1_0000, 0x100 * k);
    ThreeBytes(x);
  }

  lemma IntRoundTrip(x: int)
    requires -INT_MAX - 1 <= x <= INT_MAX
    ensures IntAt(Encoded(x), 0) == x
  {
    var u := if x < 0 then x + 0x1_0000_0000 else x;
    var u1 := u / 0x100;
    var u2 := u1 / 0x100;
    assert u == u % 0x100 + 0x100 * (u1 % 0x100 + 0x100 * (u2 % 0x100 + 0x100 * (u2 / 0x100)));
  }

  // ----- The layout (an int takes four bytes) -----

  /** The first j items one after another, each with a NUL behind it. */
  function Items(xs: seq<Bytes>, j: nat): (s: Bytes)
    requires j <= |xs|
  {
    if j == 0 then [] else Items(xs, j - 1) + xs[j - 1] + [0]
  }

  /** The offsets of the first j items when the first one starts at base. */
  function Offsets(xs: seq<Bytes>, base: int, j: nat): (s: Bytes)
    requires j <= |xs| && 0 <= base && base + |Items(xs, j)| <= INT_MAX
    ensures |s| == 4 * j
  {
    if j == 0 then [] else Offsets(xs, base, j - 1) + Encoded(base + |Items(xs, j - 1)|)
  }

  /** The size of an offset table with its items. */
  function BlockSize(xs: seq<Bytes>): nat {
    4 * |xs| + |Items(xs, |xs|)|
  }

  /** An offset table at `at`, followed by its items. */
  function Block(xs: seq<Bytes>, at: int): (s: Bytes)
    requires 0 <= at && at + BlockSize(xs) <= INT_MAX
    ensures |s| == BlockSize(xs)
  {
    Offsets(xs, at + 4 * |xs|, |xs|) + Items(xs, |xs|)
  }

  function BlocksSize(rows: seq<seq<Value>>, i: nat): nat
    requires i <= |rows|
  {
    if i == 0 then 0 else BlocksSize(rows, i - 1) + BlockSize(Contents(rows[i - 1]))
  }

  /** The blocks of the first i rows, the first one at `at`. */
  function Blocks(rows: seq<seq<Value>>, at: int, i: nat): (s: Bytes)
    requires i <= |rows| && 0 <= at && at + BlocksSize(rows, i) <= INT_MAX
    ensures |s| == BlocksSize(rows, i)
  {
    if i == 0 then []
    else Blocks(rows, at, i - 1) + Block(Contents(rows[i - 1]), at + BlocksSize(rows, i - 1))
  }

  /** The offsets of the first i rows. */
  function RowOffsets(rows: seq<seq<Value>>, at: int, i: nat): (s: Bytes)
    requires i <= |rows| && 0 <= at && at + BlocksSize(rows, i) <= INT_MAX
    ensures |s| == 4 * i
  {
    if i == 0 then [] else RowOffsets(rows, at, i - 1) + Encoded(at + BlocksSize(rows, i - 1))
  }

  /** iSize, nFields, nRows, pFields, pRows. */
  const HEADER: int := 20

  /** Where the table of row offsets starts. */
  function RowsAt(t: Table): nat {
    HEADER + BlockSize(t.names)
  }

  /** Where the first row starts. */
  function DataAt(t: Table): nat {
    RowsAt(t) + 4 * |t.rows|
  }

  /** The size that the first pass computes. */
  function Size(t: Table): nat {
    DataAt(t) + BlocksSize(t.rows, |t.rows|)
  }

  function Header(t: Table): (s: Bytes)
    requires Size(t) <= INT_MAX
    ensures |s| == HEADER
  {
    Encoded(Size(t)) + Encoded(|t.names|) + Encoded(|t.rows|) + Encoded(HEADER) + Encoded(RowsAt(t))
  }

  /** The whole buffer. */
  function Image(t: Table): (s: Bytes)
    requires Size(t) <= INT_MAX
    ensures |s| == Size(t)
  {
    Header(t) + Block(t.names, HEADER) + RowOffsets(t.rows, DataAt(t), |t.rows|) + Blocks(t.rows, DataAt(t), |t.rows|)
  }

  lemma {:induction false} ItemsGrow(xs: seq<Bytes>, j: nat, k: nat)
    requires j <= k <= |xs|
    ensures |Items(xs, j)| <= |Items(xs, k)|
  {
    if j == k {
    } else {
      ItemsGrow(xs, j, k - 1);
    }
  }

  // ----- The first pass -----

  method SizeOfItems(xs: seq<Bytes>) returns (size: nat)
    ensures size == BlockSize(xs)
  {
    size := 0;
    for j := 0 to |xs|
      invariant size == 4 * j + |Items(xs, j)|
    {
      size := size + 4;
      size := size + |xs[j]| + 1;
    }
  }

  method ComputeSize(t: Table) returns (size: nat)
    ensures size == Size(t)
  {
    size := 4 + 4 + 4 + 4 + 4;
    var names := SizeOfItems(t.names);
    size := size + names;
    for i := 0 to |t.rows|
      invariant size == RowsAt(t) + 4 * i + BlocksSize(t.rows, i)
    {
      size := size + 4;
      var row := SizeOfItems(Contents(t.rows[i]));
      size := size + row;
    }
  }

  // ----- The second pass -----

  /** The buffer with some bytes put at a place. */
  function Put(s: Bytes, at: int, x: Bytes): (r: Bytes)
    requires 0 <= at && at + |x| <= |s|
    ensures |r| == |s|
  {
    s[..at] + x + s[at + |x|..]
  }

  lemma PutElsewhere(s: Bytes, at: int, x: Bytes, a: int, b: int)
    requires 0 <= at && at + |x| <= |s| && 0 <= a <= b <= |s| && (b <= at || at + |x| <= a)
    ensures Put(s, at, x)[a..b] == s[a..b]
  {
  }

  lemma PutHere(s: Bytes, at: int, x: Bytes)
    requires 0 <= at && at + |x| <= |s|
    ensures Put(s, at, x)[at..at + |x|] == x
  {
  }

  lemma Join(s: Bytes, a: int, b: int, c: int)
    requires 0 <= a <= b <= c <= |s|
    ensures s[a..c] == s[a..b] + s[b..c]
  {
  }

  lemma PutZeros(s: Bytes, at: int, x: Bytes, from: int, to: int)
    requires 0 <= at && at + |x| <= |s| && Zeros(s, from) && 0 <= from <= to && at + |x| <= to
    ensures Zeros(Put(s, at, x), to)
  {
  }

  /** A string copied to zeroed memory has its terminator. */
  lemma PutItem(s: Bytes, at: int, x: Bytes)
    requires 0 <= at && at + |x| + 1 <= |s| && Zeros(s, at)
    ensures Put(s, at, x)[at..at + |x| + 1] == x + [0] && Zeros(Put(s, at, x), at + |x| + 1)
  {
    var r := Put(s, at, x);
    assert r[at + |x|] == s[at + |x|] == 0;
    PutHere(s, at, x);
    Join(r, at, at + |x|, at + |x| + 1);
  }

  /** *pInteger = x */
  method PutInt(buf: array<byte>, at: int, x: int)
    requires -INT_MAX - 1 <= x <= INT_MAX && 0 <= at && at + 4 <= buf.Length
    modifies buf
    ensures buf[..] == Put(old(buf[..]), at, Encoded(x))
  {
    var e := Encoded(x);
    buf[at], buf[at + 1], buf[at + 2], buf[at + 3] := e[0], e[1], e[2], e[3];
  }

  /** memcpy(pOffset, x, length) */
  method PutBytes(buf: array<byte>, at: int, x: Bytes)
    requires 0 <= at && at + |x| <= buf.Length
    modifies buf
    ensures buf[..] == Put(old(buf[..]), at, x)
  {
    for k := 0 to |x|
      invariant forall m :: 0 <= m < buf.Length ==>
                  buf[m] == if at <= m < at + k then x[m - at] else old(buf[m])
    {
      buf[at + k] := x[k];
    }
  }

  predicate Zeros(s: Bytes, from: int) {
    forall k :: 0 <= from <= k < |s| ==> s[k] == 0
  }

  /** The buffer while j of the items are written: their offsets in the table at `at`, the items
      behind the table, nothing yet behind them. */
  ghost predicate Written(s: Bytes, before: Bytes, xs: seq<Bytes>, at: int, j: nat) {
    && |s| == |before| <= INT_MAX && 0 <= at && at + BlockSize(xs) <= |s| && j <= |xs|
    && var base := at + 4 * |xs|;
       var o := base + |Items(xs, j)|;
       && o <= |s| && s[..at] == before[..at]
       && s[at..at + 4 * j] == Offsets(xs, base, j)
       && s[base..o] == Items(xs, j)
       && Zeros(s, o)
  }

  lemma NextItem(s: Bytes, before: Bytes, xs: seq<Bytes>, at: int, j: nat)
    requires Written(s, before, xs, at, j) && j < |xs|
    ensures var o := at + 4 * |xs| + |Items(xs, j)|;
            && 0 <= at && o + |xs[j]| + 1 <= |s| <= INT_MAX
            && Written(Put(Put(s, at + 4 * j, Encoded(o)), o, xs[j]), before, xs, at, j + 1)
  {
    hide Encoded, Put, Zeros, Items, Offsets;
    var base := at + 4 * |xs|;
    var o := base + |Items(xs, j)|;
    ItemsGrow(xs, j + 1, |xs|);
    OneMore(xs, base, j);
    PutSlot(s, at, at + 4 * j, base, o, Encoded(o), xs[j]);
  }

  lemma OneMore(xs: seq<Bytes>, base: int, j: nat)
    requires j < |xs|
    ensures Items(xs, j + 1) == Items(xs, j) + xs[j] + [0]
    ensures 0 <= base && base + |Items(xs, j + 1)| <= INT_MAX ==>
              Offsets(xs, base, j + 1) == Offsets(xs, base, j) + Encoded(base + |Items(xs, j)|)
  {
  }

  /** One int at the end of the table written so far and one item behind the items written so far. */
  lemma PutSlot(s: Bytes, at: int, i: int, base: int, o: int, e: Bytes, x: Bytes)
    requires 0 <= at <= i && i + |e| <= base <= o && o + |x| + 1 <= |s| && Zeros(s, o)
    ensures var r := Put(Put(s, i, e), o, x);
            && r[..at] == s[..at] && r[at..i + |e|] == s[at..i] + e
            && r[base..o + |x| + 1] == s[base..o] + x + [0] && Zeros(r, o + |x| + 1)
  {
    hide Put, Zeros;
    var s1 := Put(s, i, e);
    var r := Put(s1, o, x);
    PutElsewhere(s, i, e, 0, at);
    PutElsewhere(s1, o, x, 0, at);
    PutElsewhere(s, i, e, at, i);
    PutHere(s, i, e);
    Join(s1, at, i, i + |e|);
    PutElsewhere(s1, o, x, at, i + |e|);
    PutElsewhere(s, i, e, base, o);
    PutElsewhere(s1, o, x, base, o);
    PutZeros(s, i, e, o, o);
    PutItem(s1, o, x);
    Join(r, base, o, o + |x| + 1);
  }

  /** An offset table and its items, written side by side by two cursors. */
  method WriteItems(buf: array<byte>, at: int, xs: seq<Bytes>) returns (offset: int)
    requires 0 <= at && at + BlockSize(xs) <= buf.Length <= INT_MAX && Zeros(buf[..], at)
    modifies buf
    ensures offset == at + BlockSize(xs) && Zeros(buf[..], offset)
    ensures buf[..at] == old(buf[..at]) && buf[at..offset] == Block(xs, at)
  {
    hide Put, Encoded, Written, Zeros;
    ghost var before := buf[..];
    var integer := at;
    offset := at + |xs| * 4;
    WrittenNone(before, xs, at);
    for j := 0 to |xs|
      invariant Written(buf[..], before, xs, at, j)
      invariant integer == at + 4 * j
      invariant offset == at + 4 * |xs| + |Items(xs, j)|
    {
      NextItem(buf[..], before, xs, at, j);
      PutInt(buf, integer, offset);
      PutBytes(buf, offset, xs[j]);
      offset := offset + |xs[j]| + 1;
      integer := integer + 4;
    }
    WrittenAll(buf[..], before, xs, at);
    assert buf[..at] == buf[..][..at] && buf[at..offset] == buf[..][at..offset];
  }

  lemma WrittenNone(s: Bytes, xs: seq<Bytes>, at: int)
    requires 0 <= at && at + BlockSize(xs) <= |s| <= INT_MAX && Zeros(s, at)
    ensures Written(s, s, xs, at, 0)
  {
  }

  lemma WrittenAll(s: Bytes, before: Bytes, xs: seq<Bytes>, at: int)
    requires Written(s, before, xs, at, |xs|)
    ensures s[..at] == before[..at] && s[at..at + BlockSize(xs)] == Block(xs, at) && Zeros(s, at + BlockSize(xs))
  {
    Join(s, at, at + 4 * |xs|, at + BlockSize(xs));
  }

  /** The buffer while i of the rows are written. */
  ghost predicate RowsWritten(s: Bytes, before: Bytes, rows: seq<seq<Value>>, at: int, i: nat) {
    && |s| == |before| <= INT_MAX && i <= |rows|
    && 0 <= at && at + 4 * |rows| + BlocksSize(rows, |rows|) <= |s|
    && var base := at + 4 * |rows|;
       var o := base + BlocksSize(rows, i);
       && o <= |s| && s[..at] == before[..at]
       && s[at..at + 4 * i] == RowOffsets(rows, base, i)
       && s[base..o] == Blocks(rows, base, i)
       && Zeros(s, o)
  }

  lemma {:induction false} BlocksGrow(rows: seq<seq<Value>>, i: nat, k: nat)
    requires i <= k <= |rows|
    ensures BlocksSize(rows, i) <= BlocksSize(rows, k)
  {
    if i == k {
    } else {
      BlocksGrow(rows, i, k - 1);
    }
  }

  lemma OneMoreRow(rows: seq<seq<Value>>, base: int, i: nat)
    requires i < |rows|
    ensures BlocksSize(rows, i + 1) == BlocksSize(rows, i) + BlockSize(Contents(rows[i]))
    ensures 0 <= base && base + BlocksSize(rows, i + 1) <= INT_MAX ==>
              var o := base + BlocksSize(rows, i);
              && RowOffsets(rows, base, i + 1) == RowOffsets(rows, base, i) + Encoded(o)
              && Blocks(rows, base, i + 1) == Blocks(rows, base, i) + Block(Contents(rows[i]), o)
  {
  }

  /** The row's offset fits the table, and its block fits the buffer, which is still zero there. */
  lemma RowFits(s: Bytes, before: Bytes, rows: seq<seq<Value>>, at: int, i: nat)
    requires RowsWritten(s, before, rows, at, i) && i < |rows|
    ensures var o := at + 4 * |rows| + BlocksSize(rows, i);
            && 0 <= at + 4 * i && at + 4 * i + 4 <= o <= INT_MAX && o + BlockSize(Contents(rows[i])) <= |s|
            && o + BlockSize(Contents(rows[i])) == at + 4 * |rows| + BlocksSize(rows, i + 1)
            && Zeros(Put(s, at + 4 * i, Encoded(o)), o)
  {
    hide Encoded, Put, Zeros, BlocksSize;
    var o := at + 4 * |rows| + BlocksSize(rows, i);
    OneMoreRow(rows, at + 4 * |rows|, i);
    BlocksGrow(rows, i + 1, |rows|);
    PutZeros(s, at + 4 * i, Encoded(o), o, o);
  }

  lemma NextRow(s: Bytes, r: Bytes, before: Bytes, rows: seq<seq<Value>>, at: int, i: nat)
    requires RowsWritten(s, before, rows, at, i) && i < |rows| && |r| == |s|
    requires var o := at + 4 * |rows| + BlocksSize(rows, i);
             var o' := at + 4 * |rows| + BlocksSize(rows, i + 1);
             && o' <= |s| && r[..o] == Put(s, at + 4 * i, Encoded(o))[..o]
             && o' == o + BlockSize(Contents(rows[i])) && r[o..o'] == Block(Contents(rows[i]), o) && Zeros(r, o')
    ensures RowsWritten(r, before, rows, at, i + 1)
  {
    hide Encoded, Put, Zeros, BlocksSize, Blocks, RowOffsets, Block;
    var base := at + 4 * |rows|;
    var o, o' := base + BlocksSize(rows, i), base + BlocksSize(rows, i + 1);
    OneMoreRow(rows, base, i);
    PutRow(s, r, at, at + 4 * i, base, o, Encoded(o));
    Join(r, base, o, o');
  }

  lemma PutRow(s: Bytes, r: Bytes, at: int, i: int, base: int, o: int, e: Bytes)
    requires 0 <= at <= i && i + |e| <= base <= o <= |s| == |r| && r[..o] == Put(s, i, e)[..o]
    ensures r[..at] == s[..at] && r[at..i + |e|] == s[at..i] + e && r[base..o] == s[base..o]
  {
    var q := Put(s, i, e);
    assert forall k :: 0 <= k < o ==> r[k] == r[..o][k] == q[..o][k] == q[k];
    PutElsewhere(s, i, e, 0, at);
    PutElsewhere(s, i, e, at, i);
    PutHere(s, i, e);
    Join(q, at, i, i + |e|);
    PutElsewhere(s, i, e, base, o);
  }

  /** The row offsets and the rows. */
  method WriteRows(buf: array<byte>, at: int, t: Table) returns (offset: int)
    requires 0 <= at && at + 4 * |t.rows| + BlocksSize(t.rows, |t.rows|) <= buf.Length <= INT_MAX
    requires Regular(t) && Zeros(buf[..], at)
    modifies buf
    ensures RowsWritten(buf[..], old(buf[..]), t.rows, at, |t.rows|)
    ensures offset == at + 4 * |t.rows| + BlocksSize(t.rows, |t.rows|)
  {
    hide Put, Encoded, BlocksSize, Blocks, RowOffsets, Block, RowsWritten, Zeros;
    ghost var before := buf[..];
    var row := at;
    offset := at + |t.rows| * 4;
    RowsWrittenNone(before, t.rows, at);
    for i := 0 to |t.rows|
      invariant RowsWritten(buf[..], before, t.rows, at, i)
      invariant row == at + 4 * i
      invariant offset == at + 4 * |t.rows| + BlocksSize(t.rows, i)
    {
      ghost var s := buf[..];
      RowFits(s, before, t.rows, at, i);
      PutInt(buf, row, offset);
      ghost var o := offset;
      offset := WriteItems(buf, offset, Contents(t.rows[i]));
      assert buf[..][..o] == buf[..o] && buf[..][o..offset] == buf[o..offset];
      NextRow(s, buf[..], before, t.rows, at, i);
      row := row + 4;
    }
  }

  lemma RowsWrittenNone(s: Bytes, rows: seq<seq<Value>>, at: int)
    requires 0 <= at && at + 4 * |rows| + BlocksSize(rows, |rows|) <= |s| <= INT_MAX && Zeros(s, at)
    ensures RowsWritten(s, s, rows, at, 0) && BlocksSize(rows, 0) == 0
  {
    hide BlocksSize, Blocks, RowOffsets;
    var base := at + 4 * |rows|;
    NoRowYet(rows, base);
    BlocksGrow(rows, 0, |rows|);
    assert s[at..at + 4 * 0] == [] && s[base..base + BlocksSize(rows, 0)] == [];
  }

  lemma NoRowYet(rows: seq<seq<Value>>, base: int)
    ensures BlocksSize(rows, 0) == 0
    ensures 0 <= base <= INT_MAX ==> RowOffsets(rows, base, 0) == [] && Blocks(rows, base, 0) == []
  {
  }

  /** A field of the same length replaced. */
  lemma PutField(s: Bytes, a: Bytes, b: Bytes, c: Bytes, e: Bytes)
    requires |a + b + c| <= |s| && s[..|a + b + c|] == a + b + c && |e| == |b|
    ensures Put(s, |a|, e)[..|a + b + c|] == a + e + c
    ensures Put(s, |a|, e)[|a + b + c|..] == s[|a + b + c|..]
  {
    var r, n := Put(s, |a|, e), |a + b + c|;
    forall k | 0 <= k < n ensures r[..n][k] == (a + e + c)[k] {
      assert s[k] == s[..n][k];
    }
  }

  /** The fixed header while its fields become known. */
  method WriteHeader(buf: array<byte>, size: int, nFields: int, nRows: int)
    requires 0 <= nFields <= INT_MAX && 0 <= nRows <= INT_MAX && HEADER <= size == buf.Length <= INT_MAX
    requires Zeros(buf[..], 0)
    modifies buf
    ensures buf[..HEADER] == Encoded(size) + Encoded(nFields) + Encoded(nRows) + Encoded(HEADER) + Encoded(-1)
    ensures Zeros(buf[..], HEADER)
  {
    hide Encoded, Zeros;
    ghost var s := buf[..];
    PutInt(buf, 0, size);
    PutInt(buf, 4, nFields);
    PutInt(buf, 8, nRows);
    PutInt(buf, 12, -1);
    PutInt(buf, 16, -1);
    FiveInts(s, Encoded(size), Encoded(nFields), Encoded(nRows), Encoded(-1), Encoded(-1));
    PutField(buf[..], Encoded(size) + Encoded(nFields) + Encoded(nRows), Encoded(-1), Encoded(-1), Encoded(HEADER));
    ghost var r := buf[..];
    PutInt(buf, 12, HEADER);
    SameTail(r, buf[..], HEADER);
  }

  lemma FiveInts(s: Bytes, a: Bytes, b: Bytes, c: Bytes, d: Bytes, e: Bytes)
    requires |a| == |b| == |c| == |d| == |e| == 4 && HEADER <= |s| && Zeros(s, 0)
    ensures var r := Put(Put(Put(Put(Put(s, 0, a), 4, b), 8, c), 12, d), 16, e);
            r[..HEADER] == a + b + c + d + e && Zeros(r, HEADER)
  {
    hide Put, Zeros;
    var s1 := Put(s, 0, a);
    var s2 := Put(s1, 4, b);
    var s3 := Put(s2, 8, c);
    var s4 := Put(s3, 12, d);
    PutNext(s, [], a);
    PutNext(s1, a, b);
    PutNext(s2, a + b, c);
    PutNext(s3, a + b + c, d);
    PutNext(s4, a + b + c + d, e);
  }

  lemma PutNext(s: Bytes, h: Bytes, e: Bytes)
    requires |h| + |e| <= |s| && s[..|h|] == h && Zeros(s, |h|)
    ensures Put(s, |h|, e)[..|h| + |e|] == h + e && Zeros(Put(s, |h|, e), |h| + |e|)
  {
    PutElsewhere(s, |h|, e, 0, |h|);
    PutHere(s, |h|, e);
    Join(Put(s, |h|, e), 0, |h|, |h| + |e|);
  }

  lemma SameTail(s: Bytes, r: Bytes, from: nat)
    requires |s| == |r| && from <= |s| && s[from..] == r[from..] && Zeros(s, from)
    ensures Zeros(r, from)
  {
    forall k | from <= k < |r| ensures r[k] == 0 {
      assert r[k] == r[from..][k - from] == s[from..][k - from] == s[k];
    }
  }

  /** Everything before the rows. */
  method WriteNames(buf: array<byte>, size: int, t: Table) returns (offset: int)
    requires size == buf.Length == Size(t) <= INT_MAX && Zeros(buf[..], 0)
    modifies buf
    ensures offset == RowsAt(t) && buf[..offset] == Header(t) + Block(t.names, HEADER) && Zeros(buf[..], offset)
  {
    assert 4 * |t.names| <= BlockSize(t.names);
    hide Encoded, Zeros, Block, BlockSize;
    WriteHeader(buf, size, |t.names|, |t.rows|);
    offset := 4 + 4 + 4 + 4 + 4;
    ghost var h := Encoded(size) + Encoded(|t.names|) + Encoded(|t.rows|) + Encoded(HEADER);
    offset := WriteItems(buf, offset, t.names);
    ghost var s := buf[..];
    Join(s, 0, HEADER, offset);
    assert s[..offset] == h + Encoded(-1) + Block(t.names, HEADER);
    PutField(s, h, Encoded(-1), Block(t.names, HEADER), Encoded(offset));
    PutInt(buf, 16, offset);
    SameTail(s, buf[..], offset);
  }

  /** DumpResult, for every result set whose size fits an int: the write pass ends exactly where the
      size pass said. */
  method DumpResult(t: Table) returns (buf: array<byte>, offset: int)
    requires Regular(t) && Size(t) <= INT_MAX
    ensures fresh(buf) && buf[..] == Image(t) && offset == buf.Length == Size(t)
  {
    hide Encoded, Block, BlockSize, Blocks, BlocksSize, RowOffsets, Header;
    var size := ComputeSize(t);
    buf := new byte[size](_ => 0);
    offset := WriteNames(buf, size, t);
    ghost var s, at := buf[..], offset;
    offset := WriteRows(buf, offset, t);
    Join(buf[..], 0, at, DataAt(t));
    Join(buf[..], 0, DataAt(t), offset);
    assert buf[..][..offset] == buf[..];
    assert s[..at] == buf[..][..at];
  }

  // ----- Reading back -----

  /** At offset o there is x with a NUL behind it. */
  predicate ItemAt(s: Bytes, o: int, x: Bytes) {
    0 <= o && o + |x| + 1 <= |s| && s[o..o + |x| + 1] == x + [0]
  }

  /** Entry j of the offset table at `at` leads to x. */
  predicate LeadsTo(s: Bytes, at: int, j: nat, x: Bytes) {
    0 <= at && at + 4 * j + 4 <= |s| && ItemAt(s, IntAt(s, at + 4 * j), x)
  }

  /** What a reader finds who follows the offsets from the header. */
  ghost predicate Describes(s: Bytes, t: Table) {
    && HEADER <= |s| && IntAt(s, 0) == |s| && IntAt(s, 4) == |t.names| && IntAt(s, 8) == |t.rows|
    && (forall j :: 0 <= j < |t.names| ==> LeadsTo(s, IntAt(s, 12), j, t.names[j]))
    && (forall i :: 0 <= i < |t.rows| ==> RowDescribes(s, IntAt(s, 16) + 4 * i, t.rows[i]))
  }

  ghost predicate RowDescribes(s: Bytes, entry: int, row: seq<Value>) {
    && 0 <= entry && entry + 4 <= |s|
    && forall j :: 0 <= j < |row| ==> LeadsTo(s, IntAt(s, entry), j, Content(row[j]))
  }

  /** The string that starts at o for a reader who stops at the first NUL. */
  function CString(s: Bytes, o: nat): Bytes
    requires o <= |s|
    decreases |s| - o
  {
    if o == |s| || s[o] == 0 then [] else [s[o]] + CString(s, o + 1)
  }

  /** Such a reader gets exactly the item if and only if the item has no NUL inside. */
  lemma {:induction false} CStringExact(s: Bytes, o: nat, x: Bytes)
    requires ItemAt(s, o, x)
    ensures CString(s, o) == x <==> 0 !in x
    decreases |x|
  {
    assert s[o] == s[o..o + |x| + 1][0];
    if x == [] {
    } else if x[0] != 0 {
      var rest := x[1..];
      assert s[o + 1..o + 1 + |rest| + 1] == s[o..o + |x| + 1][1..] == rest + [0];
      CStringExact(s, o + 1, rest);
      assert x == [x[0]] + rest;
    }
  }

  lemma IntFrom(s: Bytes, i: int, x: int)
    requires 0 <= i && i + 4 <= |s| && -INT_MAX - 1 <= x <= INT_MAX && s[i..i + 4] == Encoded(x)
    ensures IntAt(s, i) == x
  {
    IntRoundTrip(x);
    var e := s[i..i + 4];
    assert e[0] == s[i] && e[1] == s[i + 1] && e[2] == s[i + 2] && e[3] == s[i + 3];
  }

  lemma {:induction false} OffsetsAt(xs: seq<Bytes>, base: int, n: nat, j: nat)
    requires j < n <= |xs| && 0 <= base && base + |Items(xs, n)| <= INT_MAX
    ensures 0 <= base + |Items(xs, j)| <= INT_MAX
    ensures Offsets(xs, base, n)[4 * j..4 * j + 4] == Encoded(base + |Items(xs, j)|)
  {
    if j == n - 1 {
    } else {
      OffsetsAt(xs, base, n - 1, j);
    }
  }

  lemma {:induction false} ItemsAt(xs: seq<Bytes>, n: nat, j: nat)
    requires j < n <= |xs|
    ensures ItemAt(Items(xs, n), |Items(xs, j)|, xs[j])
  {
    if j == n - 1 {
    } else {
      ItemsAt(xs, n - 1, j);
    }
  }

  /** Part of a buffer seen as a part of a part. */
  lemma Within(s: Bytes, at: int, b: Bytes, i: int, j: int)
    requires 0 <= at && at + |b| <= |s| && s[at..at + |b|] == b && 0 <= i <= j <= |b|
    ensures s[at + i..at + j] == b[i..j]
  {
    var w := s[at..at + |b|];
    forall k | 0 <= k < j - i ensures s[at + i..at + j][k] == b[i..j][k] {
      assert w[i + k] == s[at + (i + k)];
    }
  }

  lemma BlockLeads(s: Bytes, xs: seq<Bytes>, at: int, j: nat)
    requires 0 <= at && at + BlockSize(xs) <= |s| <= INT_MAX && s[at..at + BlockSize(xs)] == Block(xs, at)
    requires j < |xs|
    ensures LeadsTo(s, at, j, xs[j]) && IntAt(s, at + 4 * j) == at + 4 * |xs| + |Items(xs, j)|
  {
    hide Encoded, Items, Offsets, LeadsTo, ItemAt, IntAt;
    OffsetsAt(xs, at + 4 * |xs|, |xs|, j);
    ItemsAt(xs, |xs|, j);
    LeadsFrom(s, at, Offsets(xs, at + 4 * |xs|, |xs|), Items(xs, |xs|), j, |Items(xs, j)|, xs[j]);
  }

  /** A table of offsets and the items it points to, as one part of a buffer. */
  lemma LeadsFrom(s: Bytes, at: int, os: Bytes, items: Bytes, j: nat, o: nat, x: Bytes)
    requires 0 <= at && at + |os| + |items| <= |s| <= INT_MAX && s[at..at + |os| + |items|] == os + items
    requires 4 * j + 4 <= |os| && ItemAt(items, o, x)
    requires os[4 * j..4 * j + 4] == Encoded(at + |os| + o)
    ensures LeadsTo(s, at, j, x) && IntAt(s, at + 4 * j) == at + |os| + o
  {
    hide Encoded, IntAt;
    BlockParts(s, at, os, items);
    Within(s, at, os, 4 * j, 4 * j + 4);
    IntFrom(s, at + 4 * j, at + |os| + o);
    Within(s, at + |os|, items, o, o + |x| + 1);
  }

  lemma BlockParts(s: Bytes, at: int, a: Bytes, b: Bytes)
    requires 0 <= at && at + |a| + |b| <= |s| && s[at..at + |a| + |b|] == a + b
    ensures s[at..at + |a|] == a && s[at + |a|..at + |a| + |b|] == b
  {
    Within(s, at, a + b, 0, |a|);
    Within(s, at, a + b, |a|, |a| + |b|);
  }

  lemma {:induction false} RowOffsetsAt(rows: seq<seq<Value>>, at: int, n: nat, i: nat)
    requires i < n <= |rows| && 0 <= at && at + BlocksSize(rows, n) <= INT_MAX
    ensures 0 <= at + BlocksSize(rows, i) <= INT_MAX
    ensures RowOffsets(rows, at, n)[4 * i..4 * i + 4] == Encoded(at + BlocksSize(rows, i))
  {
    hide Encoded, BlockSize;
    if i == n - 1 {
    } else {
      RowOffsetsAt(rows, at, n - 1, i);
      var before := RowOffsets(rows, at, n - 1);
      assert RowOffsets(rows, at, n)[4 * i..4 * i + 4] == before[4 * i..4 * i + 4];
    }
  }

  lemma {:induction false} BlocksAt(rows: seq<seq<Value>>, at: int, n: nat, i: nat)
    requires i < n <= |rows| && 0 <= at && at + BlocksSize(rows, n) <= INT_MAX
    ensures var o, size := BlocksSize(rows, i), BlockSize(Contents(rows[i]));
            o + size <= BlocksSize(rows, n) && Blocks(rows, at, n)[o..o + size] == Block(Contents(rows[i]), at + o)
  {
    hide Block, BlockSize;
    if i == n - 1 {
    } else {
      BlocksAt(rows, at, n - 1, i);
      var o, size := BlocksSize(rows, i), BlockSize(Contents(rows[i]));
      var before := Blocks(rows, at, n - 1);
      assert Blocks(rows, at, n)[o..o + size] == before[o..o + size];
    }
  }

  lemma ImageParts(t: Table)
    requires Size(t) <= INT_MAX
    ensures var s := Image(t);
            && s[0..HEADER] == Header(t) && s[HEADER..RowsAt(t)] == Block(t.names, HEADER)
            && s[RowsAt(t)..DataAt(t)] == RowOffsets(t.rows, DataAt(t), |t.rows|)
            && s[DataAt(t)..Size(t)] == Blocks(t.rows, DataAt(t), |t.rows|)
  {
    hide Header, Block, BlockSize, RowOffsets, Blocks, BlocksSize;
  }

  lemma HeaderInts(s: Bytes, t: Table)
    requires Size(t) <= INT_MAX && HEADER <= |s| && s[0..HEADER] == Header(t)
    ensures IntAt(s, 0) == Size(t) && IntAt(s, 4) == |t.names| && IntAt(s, 8) == |t.rows|
    ensures IntAt(s, 12) == HEADER && IntAt(s, 16) == RowsAt(t)
  {
    assert 4 * |t.names| <= BlockSize(t.names);
    hide Encoded, IntAt, Blocks, BlocksSize, BlockSize;
    var h := Header(t);
    Within(s, 0, h, 0, 4);
    Within(s, 0, h, 4, 8);
    Within(s, 0, h, 8, 12);
    Within(s, 0, h, 12, 16);
    Within(s, 0, h, 16, 20);
    IntFrom(s, 0, Size(t));
    IntFrom(s, 4, |t.names|);
    IntFrom(s, 8, |t.rows|);
    IntFrom(s, 12, HEADER);
    IntFrom(s, 16, RowsAt(t));
  }

  /** The entry of row i in the table of row offsets leads to the block of row i. */
  lemma RowBlock(s: Bytes, t: Table, i: nat)
    requires Size(t) <= INT_MAX && s == Image(t) && i < |t.rows|
    ensures var row, at := Contents(t.rows[i]), DataAt(t) + BlocksSize(t.rows, i);
            && RowsAt(t) + 4 * i + 4 <= |s| && IntAt(s, RowsAt(t) + 4 * i) == at
            && at + BlockSize(row) <= |s| && s[at..at + BlockSize(row)] == Block(row, at)
  {
    hide Header, Block, BlockSize, Encoded, RowOffsets, Blocks, BlocksSize, IntAt;
    var row, n := Contents(t.rows[i]), |t.rows|;
    var o := BlocksSize(t.rows, i);
    ImageParts(t);
    RowOffsetsAt(t.rows, DataAt(t), n, i);
    BlocksAt(t.rows, DataAt(t), n, i);
    Within(s, RowsAt(t), RowOffsets(t.rows, DataAt(t), n), 4 * i, 4 * i + 4);
    IntFrom(s, RowsAt(t) + 4 * i, DataAt(t) + o);
    Within(s, DataAt(t), Blocks(t.rows, DataAt(t), n), o, o + BlockSize(row));
  }

  lemma RowFound(s: Bytes, t: Table, i: nat)
    requires Size(t) <= INT_MAX && s == Image(t) && i < |t.rows|
    ensures RowDescribes(s, RowsAt(t) + 4 * i, t.rows[i])
  {
    hide Image, Block, BlockSize, BlocksSize, IntAt, LeadsTo;
    var row, at := Contents(t.rows[i]), DataAt(t) + BlocksSize(t.rows, i);
    RowBlock(s, t, i);
    forall j | 0 <= j < |t.rows[i]| ensures LeadsTo(s, at, j, Content(t.rows[i][j])) {
      BlockLeads(s, row, at, j);
      assert row[j] == Content(t.rows[i][j]);
    }
  }

  /** Following the offsets recovers every field name and every value. */
  lemma ImageDescribes(t: Table)
    requires Size(t) <= INT_MAX
    ensures Describes(Image(t), t)
  {
    hide Header, Block, BlockSize, RowOffsets, Blocks, BlocksSize, IntAt, LeadsTo;
    var s := Image(t);
    ImageParts(t);
    HeaderInts(s, t);
    forall j | 0 <= j < |t.names| ensures LeadsTo(s, HEADER, j, t.names[j]) {
      BlockLeads(s, t.names, HEADER, j);
    }
    forall i | 0 <= i < |t.rows| ensures RowDescribes(s, RowsAt(t) + 4 * i, t.rows[i]) {
      RowFound(s, t, i);
    }
  }

  /** No value has a NUL inside (no name ever does). */
  predicate NoNul(t: Table) {
    forall i, j :: 0 <= i < |t.rows| && 0 <= j < |t.rows[i]| ==> 0 !in Content(t.rows[i][j])
  }

  /** Up to NULL, which reads like an empty value, the buffer determines the result set. */
  lemma BufferDetermines(t: Table, u: Table)
    requires Regular(t) && Regular(u) && NoNul(t) && NoNul(u)
    requires Size(t) <= INT_MAX && Size(u) <= INT_MAX && Image(t) == Image(u)
    ensures t.names == u.names && |t.rows| == |u.rows|
    ensures forall i :: 0 <= i < |t.rows| ==> Contents(t.rows[i]) == Contents(u.rows[i])
  {
    hide Image, Size, IntAt, ItemAt, CString;
    var s := Image(t);
    ImageDescribes(t);
    ImageDescribes(u);
    forall j | 0 <= j < |t.names| ensures t.names[j] == u.names[j] {
      SameItem(s, IntAt(s, 12), j, t.names[j], u.names[j]);
    }
    forall i | 0 <= i < |t.rows| ensures Contents(t.rows[i]) == Contents(u.rows[i]) {
      SameRow(s, IntAt(s, 16) + 4 * i, t.rows[i], u.rows[i]);
    }
  }

  lemma SameItem(s: Bytes, at: int, j: nat, x: Bytes, y: Bytes)
    requires LeadsTo(s, at, j, x) && LeadsTo(s, at, j, y) && 0 !in x && 0 !in y
    ensures x == y
  {
    var o := IntAt(s, at + 4 * j);
    CStringExact(s, o, x);
    CStringExact(s, o, y);
  }

  lemma SameRow(s: Bytes, entry: int, a: seq<Value>, b: seq<Value>)
    requires RowDescribes(s, entry, a) && RowDescribes(s, entry, b) && |a| == |b|
    requires forall j :: 0 <= j < |a| ==> 0 !in Content(a[j]) && 0 !in Content(b[j])
    ensures Contents(a) == Contents(b)
  {
    hide LeadsTo;
    forall j | 0 <= j < |a| ensures Contents(a)[j] == Contents(b)[j] {
      SameItem(s, IntAt(s, entry), j, Content(a[j]), Content(b[j]));
    }
  }

  // ----- Regions -----

  datatype Region = HeaderPart | NameTable | Name(j: nat) | RowTable | ValueTable(i: nat) | ValueItem(i: nat, j: nat)

  predicate IsRegion(t: Table, r: Region) {
    match r
    case Name(j) => j < |t.names|
    case ValueTable(i) => i < |t.rows|
    case ValueItem(i, j) => i < |t.rows| && j < |t.rows[i]|
    case _ => true
  }

  /** Where a region starts, */
  function Begin(t: Table, r: Region): nat
    requires IsRegion(t, r)
  {
    match r
    case HeaderPart => 0
    case NameTable => HEADER
    case Name(j) => HEADER + 4 * |t.names| + |Items(t.names, j)|
    case RowTable => RowsAt(t)
    case ValueTable(i) => DataAt(t) + BlocksSize(t.rows, i)
    case ValueItem(i, j) => DataAt(t) + BlocksSize(t.rows, i) + 4 * |t.rows[i]| + |Items(Contents(t.rows[i]), j)|
  }

  /** and how long it is. */
  function Length(t: Table, r: Region): nat
    requires IsRegion(t, r)
  {
    match r
    case HeaderPart => HEADER
    case NameTable => 4 * |t.names|
    case Name(j) => |t.names[j]| + 1
    case RowTable => 4 * |t.rows|
    case ValueTable(i) => 4 * |t.rows[i]|
    case ValueItem(i, j) => |Content(t.rows[i][j])| + 1
  }

  /** The order of the regions in the buffer. */
  predicate Precedes(q: Region, r: Region) {
    match (q, r)
    case (HeaderPart, _) => !r.HeaderPart?
    case (NameTable, _) => !r.HeaderPart? && !r.NameTable?
    case (Name(j), Name(k)) => j < k
    case (Name(_), _) => r.RowTable? || r.ValueTable? || r.ValueItem?
    case (RowTable, _) => r.ValueTable? || r.ValueItem?
    case (ValueTable(i), ValueTable(k)) => i < k
    case (ValueTable(i), ValueItem(k, _)) => i <= k
    case (ValueItem(i, _), ValueTable(k)) => i < k
    case (ValueItem(i, j), ValueItem(k, l)) => i < k || (i == k && j < l)
    case _ => false
  }

  /** A row's regions lie in its block. */
  lemma InBlock(t: Table, r: Region)
    requires IsRegion(t, r) && (r.ValueTable? || r.ValueItem?)
    ensures DataAt(t) + BlocksSize(t.rows, r.i) <= Begin(t, r)
    ensures Begin(t, r) + Length(t, r) <= DataAt(t) + BlocksSize(t.rows, r.i + 1) <= Size(t)
  {
    hide Items, BlocksSize;
    var row := Contents(t.rows[r.i]);
    OneMoreRow(t.rows, 0, r.i);
    BlocksGrow(t.rows, r.i + 1, |t.rows|);
    if r.ValueItem? { ItemEnd(row, r.j); }
  }

  lemma ItemEnd(xs: seq<Bytes>, j: nat)
    requires j < |xs|
    ensures |Items(xs, j)| + |xs[j]| + 1 == |Items(xs, j + 1)| <= |Items(xs, |xs|)|
  {
    ItemsGrow(xs, j + 1, |xs|);
  }

  /** Every region lies inside the buffer and ends before the next one begins. */
  lemma RegionsInOrder(t: Table, q: Region, r: Region)
    requires IsRegion(t, q) && IsRegion(t, r)
    ensures Begin(t, q) + Length(t, q) <= Size(t)
    ensures Precedes(q, r) ==> Begin(t, q) + Length(t, q) <= Begin(t, r)
  {
    hide Items, BlocksSize;
    if q.Name? { ItemEnd(t.names, q.j); }
    if q.Name? && r.Name? && q.j < r.j { ItemsGrow(t.names, q.j + 1, r.j); }
    if q.ValueTable? || q.ValueItem? { InBlock(t, q); }
    if r.ValueTable? || r.ValueItem? { InBlock(t, r); }
    if (q.ValueTable? || q.ValueItem?) && (r.ValueTable? || r.ValueItem?) && q.i < r.i {
      BlocksGrow(t.rows, q.i + 1, r.i);
    }
    if q.ValueItem? && r.ValueItem? && q.i == r.i && q.j < r.j {
      ItemEnd(Contents(t.rows[q.i]), q.j);
      ItemsGrow(Contents(t.rows[q.i]), q.j + 1, r.j);
    }
  }

  /** Different regions share no byte. */
  lemma RegionsAreDisjoint(t: Table, q: Region, r: Region)
    requires IsRegion(t, q) && IsRegion(t, r) && q != r
    ensures Begin(t, q) + Length(t, q) <= Begin(t, r) || Begin(t, r) + Length(t, r) <= Begin(t, q)
  {
    assert Precedes(q, r) || Precedes(r, q);
    RegionsInOrder(t, q, r);
    RegionsInOrder(t, r, q);
  }

  /** What a region holds. */
  function RegionBytes(t: Table, r: Region): (b: Bytes)
    requires IsRegion(t, r) && Size(t) <= INT_MAX
    ensures |b| == Length(t, r)
  {
    RegionsInOrder(t, r, r);
    match r
    case HeaderPart => Header(t)
    case NameTable => Offsets(t.names, Begin(t, r) + Length(t, r), |t.names|)
    case Name(j) => t.names[j] + [0]
    case RowTable => RowOffsets(t.rows, DataAt(t), |t.rows|)
    case ValueTable(i) =>
      InBlock(t, r);
      Offsets(Contents(t.rows[i]), Begin(t, r) + Length(t, r), |t.rows[i]|)
    case ValueItem(i, j) => Content(t.rows[i][j]) + [0]
  }

  /** Where the buffer stores the offset of a region; the header is at the start. */
  function Pointer(t: Table, r: Region): nat
    requires IsRegion(t, r) && !r.HeaderPart?
  {
    match r
    case NameTable => 12
    case Name(j) => Begin(t, NameTable) + 4 * j
    case RowTable => 16
    case ValueTable(i) => Begin(t, RowTable) + 4 * i
    case ValueItem(i, j) => Begin(t, ValueTable(i)) + 4 * j
  }

  /** The buffer holds the region's bytes where the region is, and its offset where a reader looks. */
  ghost predicate Stands(s: Bytes, t: Table, r: Region)
    requires IsRegion(t, r) && Size(t) <= INT_MAX
  {
    && Begin(t, r) + Length(t, r) <= |s|
    && s[Begin(t, r)..Begin(t, r) + Length(t, r)] == RegionBytes(t, r)
    && (!r.HeaderPart? ==> Pointer(t, r) + 4 <= |s| && IntAt(s, Pointer(t, r)) == Begin(t, r))
  }

  lemma BlockRegions(s: Bytes, xs: seq<Bytes>, at: int)
    requires 0 <= at && at + BlockSize(xs) <= |s| <= INT_MAX && s[at..at + BlockSize(xs)] == Block(xs, at)
    ensures s[at..at + 4 * |xs|] == Offsets(xs, at + 4 * |xs|, |xs|)
    ensures forall j :: 0 <= j < |xs| ==>
              var o := at + 4 * |xs| + |Items(xs, j)|;
              o + |xs[j]| + 1 <= |s| && s[o..o + |xs[j]| + 1] == xs[j] + [0] && IntAt(s, at + 4 * j) == o
  {
    hide Items, Offsets, IntAt;
    BlockParts(s, at, Offsets(xs, at + 4 * |xs|, |xs|), Items(xs, |xs|));
    forall j | 0 <= j < |xs|
      ensures var o := at + 4 * |xs| + |Items(xs, j)|;
              o + |xs[j]| + 1 <= |s| && s[o..o + |xs[j]| + 1] == xs[j] + [0] && IntAt(s, at + 4 * j) == o
    {
      BlockLeads(s, xs, at, j);
    }
  }

  lemma HeadStands(s: Bytes, t: Table, r: Region)
    requires Size(t) <= INT_MAX && s == Image(t) && IsRegion(t, r) && !r.ValueTable? && !r.ValueItem?
    ensures Stands(s, t, r)
  {
    hide Image, Header, Block, BlockSize, Items, Offsets, RowOffsets, Blocks, BlocksSize, IntAt, Contents;
    ImageParts(t);
    HeaderInts(s, t);
    RegionsInOrder(t, r, r);
    if r.NameTable? || r.Name? {
      assert s[HEADER..HEADER + BlockSize(t.names)] == Block(t.names, HEADER);
      BlockRegions(s, t.names, HEADER);
    }
  }

  lemma RowStands(s: Bytes, t: Table, r: Region)
    requires Size(t) <= INT_MAX && s == Image(t) && IsRegion(t, r) && (r.ValueTable? || r.ValueItem?)
    ensures Stands(s, t, r)
  {
    hide Image, Header, Block, Items, Offsets, RowOffsets, BlocksSize, IntAt;
    RowBlock(s, t, r.i);
    BlockRegions(s, Contents(t.rows[r.i]), DataAt(t) + BlocksSize(t.rows, r.i));
    RegionsInOrder(t, r, r);
  }

  /** The regions are those of the buffer that is written and of the offsets that are stored in it. */
  lemma RegionsStand(t: Table, r: Region)
    requires Size(t) <= INT_MAX && IsRegion(t, r)
    ensures Stands(Image(t), t, r)
  {
    if r.ValueTable? || r.ValueItem? {
      RowStands(Image(t), t, r);
    } else {
      HeadStands(Image(t), t, r);
    }
  }

  lemma {:induction false} ItemWith(xs: seq<Bytes>, n: nat, k: nat) returns (j: nat)
    requires n <= |xs| && k < |Items(xs, n)|
    ensures j < n && |Items(xs, j)| <= k < |Items(xs, j)| + |xs[j]| + 1
  {
    if k < |Items(xs, n - 1)| {
      j := ItemWith(xs, n - 1, k);
    } else {
      j := n - 1;
    }
  }

  lemma {:induction false} RowWith(rows: seq<seq<Value>>, n: nat, k: nat) returns (i: nat)
    requires n <= |rows| && k < BlocksSize(rows, n)
    ensures i < n && BlocksSize(rows, i) <= k < BlocksSize(rows, i) + BlockSize(Contents(rows[i]))
  {
    if k < BlocksSize(rows, n - 1) {
      i := RowWith(rows, n - 1, k);
    } else {
      i := n - 1;
    }
  }

  /** No byte is left over: the regions fill the buffer. */
  lemma RegionsFill(t: Table, k: nat) returns (r: Region)
    requires k < Size(t)
    ensures IsRegion(t, r) && Begin(t, r) <= k < Begin(t, r) + Length(t, r)
  {
    if k < HEADER {
      r := HeaderPart;
    } else if k < HEADER + 4 * |t.names| {
      r := NameTable;
    } else if k < RowsAt(t) {
      var j := ItemWith(t.names, |t.names|, k - HEADER - 4 * |t.names|);
      r := Name(j);
    } else if k < DataAt(t) {
      r := RowTable;
    } else {
      var i := RowWith(t.rows, |t.rows|, k - DataAt(t));
      var row, o := Contents(t.rows[i]), k - DataAt(t) - BlocksSize(t.rows, i);
      if o < 4 * |row| {
        r := ValueTable(i);
      } else {
        var j := ItemWith(row, |row|, o - 4 * |row|);
        r := ValueItem(i, j);
      }
    }
  }
}
