/**
  The table-driven CRC-64: slicing by eight bytes, and two or three interleaved
  streams that are merged at the end.
*/
module CrcSpeed {
  import opened Gf2
  import opened Crc64
  import opened CrcCombine

  // ---- Eight zero bits at a time ----

  function LowByte(v: Word): bv8 {
    (v & 0xff) as bv8
  }

  function Down8(v: Word): Word {
    v >> 8
  }

  function Up4(v: Word): Word {
    v << 4
  }

  function Up8(v: Word): Word {
    v << 8
  }

  /** The top four bits are clear. */
  predicate Room(v: Word) {
    v <= 0x0FFF_FFFF_FFFF_FFFF
  }

  lemma ZeroBitOfTwice(v: Word)
    requires !TopBit(v)
    ensures ZeroBit(REVERSED_POLY, Twice(v)) == v
  {
    assert !Odd(Twice(v));
    assert Half(Twice(v)) == v;
  }

  /** Zero bits undo a shift that lost nothing. */
  lemma {:induction false} ZeroBitsOfShift(v: Word, n: nat)
    requires forall j :: 0 <= j < n ==> !TopBit(ShiftUp(v, j))
    ensures ZeroBits(REVERSED_POLY, n, ShiftUp(v, n)) == v
    decreases n
  {
    if n != 0 {
      ZeroBitOfTwice(ShiftUp(v, n - 1));
      ZeroBitsOfShift(v, n - 1);
    }
  }

  lemma TwiceFourTimes(v: Word)
    ensures Twice(Twice(Twice(Twice(v)))) == Up4(v)
  {
    TwiceTwoTimes(v);
    TwiceTwoTimes(v << 2);
  }

  lemma TwiceTwoTimes(v: Word)
    ensures Twice(Twice(v)) == v << 2
  {
  }

  lemma RoomForFour(v: Word)
    requires Room(v)
    ensures !TopBit(v) && !TopBit(Twice(v)) && !TopBit(Twice(Twice(v))) && !TopBit(Twice(Twice(Twice(v))))
  {
  }

  lemma ShiftUpFour(v: Word, n: nat)
    ensures ShiftUp(v, 0) == v
    ensures ShiftUp(v, n + 1) == Twice(ShiftUp(v, n))
    ensures ShiftUp(v, n + 2) == Twice(Twice(ShiftUp(v, n)))
    ensures ShiftUp(v, n + 3) == Twice(Twice(Twice(ShiftUp(v, n))))
    ensures ShiftUp(v, n + 4) == Up4(ShiftUp(v, n))
  {
    hide Twice;
    TwiceFourTimes(ShiftUp(v, n));
  }

  lemma Down8Room(x: Word)
    ensures Room(Down8(x)) && Room(Up4(Down8(x)))
    ensures Up4(Up4(Down8(x))) == Up8(Down8(x))
  {
  }

  lemma ZeroByteUpper(x: Word)
    ensures ZeroBits(REVERSED_POLY, 8, Up8(Down8(x))) == Down8(x)
  {
    hide *;
    var h := Down8(x);
    Down8Room(x);
    ShiftUpFour(h, 0);
    ShiftUpFour(h, 4);
    RoomForFour(h);
    RoomForFour(Up4(h));
    forall j | 0 <= j < 8
      ensures !TopBit(ShiftUp(h, j))
    {
      assert j == 0 || j == 1 || j == 2 || j == 3 || j == 4 || j == 5 || j == 6 || j == 7;
    }
    ZeroBitsOfShift(h, 8);
  }

  lemma WordSplit(v: Word)
    ensures v == Xor(LowByte(v) as Word, Up8(Down8(v)))
  {
  }

  /** Feeding a zero byte looks only at the low byte and moves the rest down. */
  lemma ZeroByte(v: Word)
    ensures ZeroBits(REVERSED_POLY, 8, v) == Xor(ZeroBits(REVERSED_POLY, 8, LowByte(v) as Word), Down8(v))
  {
    WordSplit(v);
    ZeroBitsLinear(REVERSED_POLY, 8, LowByte(v) as Word, Up8(Down8(v)));
    ZeroByteUpper(v);
  }

  /** Feeding n + 1 zero bytes: the low byte passes through all of them, the rest through n. */
  lemma ZeroBytesSplit(v: Word, n: nat)
    ensures ZeroBits(REVERSED_POLY, 8 * (n + 1), v)
         == Xor(ZeroBits(REVERSED_POLY, 8 * (n + 1), LowByte(v) as Word), ZeroBits(REVERSED_POLY, 8 * n, Down8(v)))
  {
    hide *;
    ZeroByte(v);
    ZeroBitsAdd(REVERSED_POLY, 8, 8 * n, v);
    ZeroBitsAdd(REVERSED_POLY, 8, 8 * n, LowByte(v) as Word);
    ZeroBitsLinear(REVERSED_POLY, 8 * n, ZeroBits(REVERSED_POLY, 8, LowByte(v) as Word), Down8(v));
  }

  // ---- Loading eight bytes ----

  /** The little-endian word stored in at most eight bytes. */
  function LittleEndian(b: Bytes): Word
    decreases |b|
  {
    if b == [] then 0 else Xor(b[0] as Word, Up8(LittleEndian(b[1..])))
  }

  /** All bits from byte n up. */
  function HighBytes(n: nat): Word {
    if n == 0 then 0xFFFF_FFFF_FFFF_FFFF else Up8(HighBytes(n - 1))
  }

  predicate Clear(v: Word, high: Word) {
    v & high == 0
  }

  lemma ClearZero(high: Word)
    ensures Clear(0, high)
  {
  }

  lemma ClearStep(b: bv8, v: Word, high: Word)
    requires Clear(v, high)
    ensures Clear(Xor(b as Word, Up8(v)), Up8(high))
  {
  }

  lemma {:induction false} LittleEndianFits(b: Bytes)
    ensures Clear(LittleEndian(b), HighBytes(|b|))
    decreases |b|
  {
    hide Xor, Up8, Clear;
    if b == [] {
      ClearZero(HighBytes(0));
    } else {
      LittleEndianFits(b[1..]);
      ClearStep(b[0], LittleEndian(b[1..]), HighBytes(|b| - 1));
    }
  }

  lemma HighBytesHaveTop(n: nat)
    requires n <= 7
    ensures HighBytes(n) & 0xFF00_0000_0000_0000 == 0xFF00_0000_0000_0000
  {
    assert HighBytes(1) == 0xFFFF_FFFF_FFFF_FF00;
    assert HighBytes(2) == 0xFFFF_FFFF_FFFF_0000;
    assert HighBytes(3) == 0xFFFF_FFFF_FF00_0000;
    assert HighBytes(4) == 0xFFFF_FFFF_0000_0000;
    assert HighBytes(5) == 0xFFFF_FF00_0000_0000;
    assert HighBytes(6) == 0xFFFF_0000_0000_0000;
    assert HighBytes(7) == 0xFF00_0000_0000_0000;
  }

  lemma TopByteClear(v: Word, high: Word)
    requires Clear(v, high) && high & 0xFF00_0000_0000_0000 == 0xFF00_0000_0000_0000
    ensures Down8(Up8(v)) == v
  {
  }

  /** The right-shifting register over bytes, first byte first. */
  function Feed(crc: Word, b: Bytes): Word
    decreases |b|
  {
    if b == [] then crc else Feed(ZeroBits(REVERSED_POLY, 8, Xor(crc, b[0] as Word)), b[1..])
  }

  lemma {:induction false} FeedIsChecksum(crc: Word, b: Bytes)
    ensures Feed(crc, b) == Checksum(crc, b)
    decreases |b|
  {
    hide Xor, ZeroBits, Checksum;
    ChecksumEmpty(crc);
    if b != [] {
      var next := ZeroBits(REVERSED_POLY, 8, Xor(crc, b[0] as Word));
      assert [b[0]] == [] + [b[0]] && b == [b[0]] + b[1..];
      ChecksumByte(crc, [], b[0]);
      ChecksumContinue(crc, [b[0]], b[1..]);
      FeedIsChecksum(next, b[1..]);
    }
  }

  /** Adding up to eight bytes at once and then feeding that many zero bytes. */
  lemma {:induction false} FeedWord(crc: Word, b: Bytes)
    requires |b| <= 8
    ensures ZeroBits(REVERSED_POLY, 8 * |b|, Xor(crc, LittleEndian(b))) == Feed(crc, b)
    decreases |b|
  {
    hide Xor, Up8, Down8, HighBytes, Clear;
    if b == [] {
      XorZero(crc);
    } else {
      FeedFirstByte(crc, b);
      FeedWord(ZeroBits(REVERSED_POLY, 8, Xor(crc, b[0] as Word)), b[1..]);
      ZeroBitsAdd(REVERSED_POLY, 8, 8 * (|b| - 1), Xor(crc, LittleEndian(b)));
    }
  }

  lemma FeedFirstByte(crc: Word, b: Bytes)
    requires 0 < |b| <= 8
    ensures ZeroBits(REVERSED_POLY, 8, Xor(crc, LittleEndian(b)))
         == Xor(ZeroBits(REVERSED_POLY, 8, Xor(crc, b[0] as Word)), LittleEndian(b[1..]))
  {
    hide Xor, Up8, Down8, HighBytes, ZeroBits, Clear;
    var first, rest := b[0] as Word, LittleEndian(b[1..]);
    XorAssoc(crc, first, Up8(rest));
    ZeroBitsLinear(REVERSED_POLY, 8, Xor(crc, first), Up8(rest));
    LittleEndianFits(b[1..]);
    HighBytesHaveTop(|b| - 1);
    TopByteClear(rest, HighBytes(|b| - 1));
    ZeroByteUpper(Up8(rest));
  }

  // ---- The lookup tables ----

  type Row = r: seq<Word> | |r| == 256 witness seq(256, _ => 0)
  const EMPTY_ROW: Row := seq(256, _ => 0)

  type Tables = t: seq<Row> | |t| == 8 witness seq(8, _ => EMPTY_ROW)

  function Index(b: bv8): (n: nat)
    ensures n < 256
  {
    b as int
  }

  function ByteAt(n: nat): bv8
    requires n < 256
  {
    n as bv8
  }

  lemma ByteOfIndex(b: bv8)
    ensures ByteAt(Index(b)) == b
  {
  }

  function At(row: Row, b: bv8): Word {
    row[Index(b)]
  }

  /** The entry for byte b is b followed by n zero bytes. */
  ghost predicate RowFilled(row: Row, n: nat) {
    forall b: bv8 :: At(row, b) == ZeroBits(REVERSED_POLY, 8 * n, b as Word)
  }

  ghost predicate TablesFilled(t: Tables) {
    forall k :: 0 <= k < 8 ==> RowFilled(t[k], k + 1)
  }

  /** Eight lookups, one per byte of the word. */
  function Slice(t: Tables, crc: Word): Word {
    var c1 := Down8(crc);
    var c2 := Down8(c1);
    var c3 := Down8(c2);
    var c4 := Down8(c3);
    var c5 := Down8(c4);
    var c6 := Down8(c5);
    var c7 := Down8(c6);
    Xor(Xor(Xor(Xor(Xor(Xor(Xor(
      At(t[7], LowByte(crc)),
      At(t[6], LowByte(c1))),
      At(t[5], LowByte(c2))),
      At(t[4], LowByte(c3))),
      At(t[3], LowByte(c4))),
      At(t[2], LowByte(c5))),
      At(t[1], LowByte(c6))),
      At(t[0], LowByte(c7)))
  }

  function Down16(v: Word): Word {
    v >> 16
  }

  lemma DownTwice(v: Word)
    ensures Down8(Down8(v)) == Down16(v)
  {
  }

  lemma DownToZero(v: Word)
    ensures Down16(Down16(Down16(Down16(v)))) == 0
  {
  }

  lemma DownEightTimes(v: Word)
    ensures Down8(Down8(Down8(Down8(Down8(Down8(Down8(Down8(v)))))))) == 0
  {
    hide *;
    DownTwice(v);
    DownTwice(Down16(v));
    DownTwice(Down16(Down16(v)));
    DownTwice(Down16(Down16(Down16(v))));
    DownToZero(v);
  }

  /** One lookup peels one byte off. */
  lemma Peel(t: Tables, v: Word, n: nat)
    requires TablesFilled(t) && n < 8
    ensures ZeroBits(REVERSED_POLY, 8 * (n + 1), v)
         == Xor(At(t[n], LowByte(v)), ZeroBits(REVERSED_POLY, 8 * n, Down8(v)))
  {
    hide Xor, Down8, LowByte, At, ZeroBits;
    ZeroBytesSplit(v, n);
    assert RowFilled(t[n], n + 1);
  }

  lemma SumAssoc8(a: Word, b: Word, c: Word, d: Word, e: Word, f: Word, g: Word, h: Word)
    ensures Xor(a, Xor(b, Xor(c, Xor(d, Xor(e, Xor(f, Xor(g, h)))))))
         == Xor(Xor(Xor(Xor(Xor(Xor(Xor(a, b), c), d), e), f), g), h)
  {
    hide Xor;
    SumAssoc4(a, b, c, d, Xor(e, Xor(f, Xor(g, h))));
    SumAssoc4(Xor(Xor(Xor(a, b), c), d), e, f, g, h);
  }

  /** Eight lookups feed eight zero bytes. */
  lemma SliceFeedsEight(t: Tables, crc: Word)
    requires TablesFilled(t)
    ensures Slice(t, crc) == ZeroBits(REVERSED_POLY, 64, crc)
  {
    hide Xor, Down8, LowByte, At, ZeroBits, TablesFilled;
    var c1 := Down8(crc);
    var c2 := Down8(c1);
    var c3 := Down8(c2);
    var c4 := Down8(c3);
    var c5 := Down8(c4);
    var c6 := Down8(c5);
    var c7 := Down8(c6);
    Peel(t, crc, 7);
    Peel(t, c1, 6);
    Peel(t, c2, 5);
    Peel(t, c3, 4);
    Peel(t, c4, 3);
    Peel(t, c5, 2);
    Peel(t, c6, 1);
    Peel(t, c7, 0);
    DownEightTimes(crc);
    ZeroBitsNone(0);
    XorZero(At(t[0], LowByte(c7)));
    SumAssoc8(At(t[7], LowByte(crc)), At(t[6], LowByte(c1)), At(t[5], LowByte(c2)), At(t[4], LowByte(c3)),
              At(t[3], LowByte(c4)), At(t[2], LowByte(c5)), At(t[1], LowByte(c6)), At(t[0], LowByte(c7)));
  }

  lemma ZeroBitsNone(c: Word)
    ensures ZeroBits(REVERSED_POLY, 0, c) == c
  {
  }

  // ---- Steps of the main loop, on the segment of the buffer already read ----

  /** The table step for a single byte. */
  function TableByte(t: Tables, crc: Word, b: bv8): Word {
    Xor(At(t[0], LowByte(Xor(crc, b as Word))), Down8(crc))
  }

  lemma Down8OfByte(crc: Word, b: bv8)
    ensures Down8(Xor(crc, b as Word)) == Down8(crc)
  {
  }

  lemma TableByteFeeds(t: Tables, crc: Word, b: bv8)
    requires TablesFilled(t)
    ensures TableByte(t, crc, b) == ZeroBits(REVERSED_POLY, 8, Xor(crc, b as Word))
  {
    hide Xor, Down8, LowByte, At, ZeroBits;
    var v := Xor(crc, b as Word);
    ZeroByte(v);
    Down8OfByte(crc, b);
    assert RowFilled(t[0], 1);
  }

  lemma SegmentByte(t: Tables, start: Word, buf: Bytes, from: nat, next: nat)
    requires TablesFilled(t) && from <= next < |buf|
    ensures Checksum(start, buf[from..next + 1]) == TableByte(t, Checksum(start, buf[from..next]), buf[next])
  {
    hide *;
    TableByteFeeds(t, Checksum(start, buf[from..next]), buf[next]);
    ChecksumByte(start, buf[from..next], buf[next]);
    assert buf[from..next + 1] == buf[from..next] + [buf[next]];
  }

  /** The table step for eight bytes. */
  function TableWord(t: Tables, crc: Word, b: Bytes): Word
    requires |b| == 8
  {
    Slice(t, Xor(crc, LittleEndian(b)))
  }

  lemma SegmentWord(t: Tables, start: Word, buf: Bytes, from: nat, next: nat)
    requires TablesFilled(t) && from <= next <= next + 8 <= |buf|
    ensures Checksum(start, buf[from..next + 8])
         == TableWord(t, Checksum(start, buf[from..next]), buf[next..next + 8])
  {
    hide Slice, Xor, LittleEndian, Checksum, ZeroBits, TablesFilled, Feed;
    var crc, b := Checksum(start, buf[from..next]), buf[next..next + 8];
    assert buf[from..next + 8] == buf[from..next] + b;
    ChecksumContinue(start, buf[from..next], b);
    FeedIsChecksum(crc, b);
    FeedWord(crc, b);
    SliceFeedsEight(t, Xor(crc, LittleEndian(b)));
  }

  lemma SegmentMerge(start: Word, buf: Bytes, from: nat, mid: nat, to: nat)
    requires from <= mid <= to <= |buf|
    ensures Checksum(start, buf[from..to])
         == var crc1, crc2 := Checksum(start, buf[from..mid]), Checksum(0, buf[mid..to]);
            if to == mid then crc1 else Xor(ZeroBits(REVERSED_POLY, 8 * (to - mid), crc1), crc2)
  {
    hide *;
    assert buf[from..to] == buf[from..mid] + buf[mid..to];
    MergedChecksum(start, buf[from..mid], buf[mid..to]);
  }

  // ---- Filling the tables ----

  /** The entry after one more zero byte. */
  lemma NextEntry(row0: Row, crc: Word, b: bv8, k: nat)
    requires RowFilled(row0, 1)
    requires crc == ZeroBits(REVERSED_POLY, 8 * k, b as Word)
    ensures Xor(At(row0, LowByte(crc)), Down8(crc)) == ZeroBits(REVERSED_POLY, 8 * (k + 1), b as Word)
  {
    hide Xor, At, LowByte, Down8, ZeroBits;
    ZeroByte(crc);
    ZeroBitsAdd(REVERSED_POLY, 8 * k, 8, b as Word);
  }

  lemma SingleByte(v: bv8)
    ensures Checksum(Reflect(0), [v]) == ZeroBits(REVERSED_POLY, 8, v as Word)
  {
    assert Reflect(0) == 0;
    hide *;
    ChecksumEmpty(0);
    ChecksumByte(0, [], v);
    assert [] + [v] == [v];
    XorZero(v as Word);
  }

  /** The first n entries of the row are b followed by k zero bytes. */
  ghost predicate RowFilledBelow(row: Row, k: nat, n: nat) {
    forall i: nat :: i < n && i < 256 ==> row[i] == ZeroBits(REVERSED_POLY, 8 * k, ByteAt(i) as Word)
  }

  lemma RowComplete(row: Row, k: nat)
    requires RowFilledBelow(row, k, 256)
    ensures RowFilled(row, k)
  {
    hide ZeroBits, Index, ByteAt;
    forall b: bv8
      ensures At(row, b) == ZeroBits(REVERSED_POLY, 8 * k, b as Word)
    {
      ByteOfIndex(b);
    }
  }

  /** The tables, filled in place from the reference routine. */
  method InitTables(table: array<Row>)
    requires table.Length == 8
    modifies table
    ensures TablesFilled(table[..])
  {
    hide ZeroBits, Xor, At, LowByte, Down8, RowFilled, ByteAt;
    FillFirstRow(table);
    var n: nat := 0;
    while n < 256
      invariant n <= 256
      invariant RowFilledBelow(table[0], 1, 256)
      invariant forall k :: 1 <= k < 8 ==> RowFilledBelow(table[k], k + 1, n)
    {
      FillColumn(table, n);
      n := n + 1;
    }
    forall k | 0 <= k < 8 ensures RowFilled(table[k], k + 1) { RowComplete(table[k], k + 1); }
  }

  /** Every single byte on its own. */
  method FillFirstRow(table: array<Row>)
    requires table.Length == 8
    modifies table
    ensures RowFilledBelow(table[0], 1, 256)
  {
    hide ZeroBits, Checksum, Reflect, Register, ByteAt;
    var n: nat := 0;
    while n < 256
      invariant n <= 256
      invariant RowFilledBelow(table[0], 1, n)
    {
      var v := ByteAt(n);
      var entry := BitwiseCrc64(0, [v]);
      SingleByte(v);
      table[0] := table[0][n := entry];
      n := n + 1;
    }
  }

  /** Entry n of rows 1 to 7: the entry above followed by one more zero byte. */
  method FillColumn(table: array<Row>, n: nat)
    requires table.Length == 8 && n < 256
    requires RowFilledBelow(table[0], 1, 256)
    requires forall k :: 1 <= k < 8 ==> RowFilledBelow(table[k], k + 1, n)
    modifies table
    ensures RowFilledBelow(table[0], 1, 256)
    ensures forall k :: 1 <= k < 8 ==> RowFilledBelow(table[k], k + 1, n + 1)
  {
    hide ZeroBits, Xor, At, LowByte, Down8, RowFilled, ByteAt;
    RowComplete(table[0], 1);
    ghost var row0 := table[0];
    var crc := table[0][n];
    var k := 1;
    while k < 8
      invariant 1 <= k <= 8
      invariant table[0] == row0
      invariant crc == ZeroBits(REVERSED_POLY, 8 * k, ByteAt(n) as Word)
      invariant forall j :: 1 <= j < 8 ==> RowFilledBelow(table[j], j + 1, if j < k then n + 1 else n)
    {
      NextEntry(table[0], crc, ByteAt(n), k);
      crc := Xor(At(table[0], LowByte(crc)), Down8(crc));
      table[k] := table[k][n := crc];
      k := k + 1;
    }
  }

  // ---- The routine ----

  /** Segment length: the share of one stream, rounded down to whole words. */
  function SegmentLength(len: nat, div: nat): nat
    requires div != 0
  {
    (len / div) / 8 * 8
  }

  lemma SegmentFits(len: nat)
    ensures 3 * SegmentLength(len, 3) <= len && SegmentLength(len, 3) % 8 == 0
    ensures 2 * SegmentLength(len, 2) <= len && SegmentLength(len, 2) % 8 == 0
  {
  }

  method Crc64Little(t: Tables, cache: CombineCache, dualCutoff: nat, triCutoff: nat,
                     address: nat, start: Word, buf: Bytes) returns (crc1: Word)
    requires TablesFilled(t) && cache.Valid() && cache.ReadyFor(REVERSED_POLY)
    requires |buf| <= 0xFFFF_FFFF_FFFF_FFFF
    modifies cache.level
    ensures cache.ReadyFor(REVERSED_POLY)
    ensures crc1 == Checksum(start, buf)
  {
    hide *;
    crc1 := start;
    var next1, len: nat := 0, |buf|;
    assert buf[0..0] == [];
    ChecksumEmpty(start);
    if !(dualCutoff < 1) {
      // single bytes until the address is a multiple of eight
      while len != 0 && (address + next1) % 8 != 0
        modifies {}
        invariant next1 + len == |buf|
        invariant crc1 == Checksum(start, buf[0..next1])
      {
        SegmentByte(t, start, buf, 0, next1);
        crc1 := TableByte(t, crc1, buf[next1]);
        next1, len := next1 + 1, len - 1;
      }
      if len > triCutoff {
        crc1, next1, len := ThreeStreams(t, cache, start, crc1, buf, next1, len);
      } else if len > dualCutoff {
        crc1, next1, len := TwoStreams(t, cache, start, crc1, buf, next1, len);
      }
      while len >= 8
        modifies {}
        invariant next1 + len == |buf|
        invariant crc1 == Checksum(start, buf[0..next1])
      {
        len := len - 8;
        SegmentWord(t, start, buf, 0, next1);
        crc1 := TableWord(t, crc1, buf[next1..next1 + 8]);
        next1 := next1 + 8;
      }
    }
    while len != 0
      modifies {}
      invariant next1 + len == |buf|
      invariant crc1 == Checksum(start, buf[0..next1])
    {
      SegmentByte(t, start, buf, 0, next1);
      crc1 := TableByte(t, crc1, buf[next1]);
      next1, len := next1 + 1, len - 1;
    }
    assert buf[0..next1] == buf;
  }

  /** Two segments read in step, then merged. */
  method TwoStreams(t: Tables, cache: CombineCache, ghost start: Word, crc: Word, buf: Bytes, next: nat, olen: nat)
    returns (crc1: Word, next1: nat, len: nat)
    requires TablesFilled(t) && cache.Valid() && cache.ReadyFor(REVERSED_POLY)
    requires next + olen == |buf| <= 0xFFFF_FFFF_FFFF_FFFF
    requires crc == Checksum(start, buf[0..next])
    modifies cache.level
    ensures cache.ReadyFor(REVERSED_POLY)
    ensures next1 + len == |buf|
    ensures crc1 == Checksum(start, buf[0..next1])
  {
    hide *;
    crc1 := crc;
    var crc2: Word := 0;
    SegmentFits(olen);
    ghost var seg := SegmentLength(olen, 2);
    next1 := next;
    var next2 := next1 + SegmentLength(olen, 2);
    len := next2 - next1;
    assert buf[next2..next2] == [];
    ChecksumEmpty(0);
    while len >= 8
      modifies {}
      invariant len <= seg && len % 8 == 0
      invariant next1 == next + seg - len && next2 == next1 + seg
      invariant crc1 == Checksum(start, buf[0..next1])
      invariant crc2 == Checksum(0, buf[next + seg..next2])
    {
      len := len - 8;
      SegmentWord(t, start, buf, 0, next1);
      SegmentWord(t, 0, buf, next + seg, next2);
      crc1 := TableWord(t, crc1, buf[next1..next1 + 8]);
      crc2 := TableWord(t, crc2, buf[next2..next2 + 8]);
      next1, next2 := next1 + 8, next2 + 8;
    }
    SegmentMerge(start, buf, 0, next1, next2);
    crc1 := cache.Combine(crc1, crc2, next2 - next1, REVERSED_POLY);
    len := olen - (next2 - next1) * 2;
    next1 := next2;
  }

  /** Three segments read in step, then merged. */
  method ThreeStreams(t: Tables, cache: CombineCache, ghost start: Word, crc: Word, buf: Bytes, next: nat, olen: nat)
    returns (crc1: Word, next1: nat, len: nat)
    requires TablesFilled(t) && cache.Valid() && cache.ReadyFor(REVERSED_POLY)
    requires next + olen == |buf| <= 0xFFFF_FFFF_FFFF_FFFF
    requires crc == Checksum(start, buf[0..next])
    modifies cache.level
    ensures cache.ReadyFor(REVERSED_POLY)
    ensures next1 + len == |buf|
    ensures crc1 == Checksum(start, buf[0..next1])
  {
    hide *;
    crc1 := crc;
    var crc2: Word, crc3: Word := 0, 0;
    SegmentFits(olen);
    ghost var seg := SegmentLength(olen, 3);
    next1 := next;
    var next2 := next1 + SegmentLength(olen, 3);
    len := next2 - next1;
    var next3 := next2 + len;
    assert buf[next2..next2] == [] && buf[next3..next3] == [];
    ChecksumEmpty(0);
    while len >= 8
      modifies {}
      invariant len <= seg && len % 8 == 0
      invariant next1 == next + seg - len && next2 == next1 + seg && next3 == next2 + seg
      invariant crc1 == Checksum(start, buf[0..next1])
      invariant crc2 == Checksum(0, buf[next + seg..next2])
      invariant crc3 == Checksum(0, buf[next + 2 * seg..next3])
    {
      len := len - 8;
      SegmentWord(t, start, buf, 0, next1);
      SegmentWord(t, 0, buf, next + seg, next2);
      SegmentWord(t, 0, buf, next + 2 * seg, next3);
      crc1 := TableWord(t, crc1, buf[next1..next1 + 8]);
      crc2 := TableWord(t, crc2, buf[next2..next2 + 8]);
      crc3 := TableWord(t, crc3, buf[next3..next3 + 8]);
      next1, next2, next3 := next1 + 8, next2 + 8, next3 + 8;
    }
    SegmentMerge(start, buf, 0, next1, next2);
    crc1 := cache.Combine(crc1, crc2, next2 - next1, REVERSED_POLY);
    SegmentMerge(start, buf, 0, next2, next3);
    crc1 := cache.Combine(crc1, crc3, next2 - next1, REVERSED_POLY);
    len := olen - (next2 - next1) * 3;
    next1 := next3;
  }
}
