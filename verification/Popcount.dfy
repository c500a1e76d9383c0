/**
  Counting the bits set in a buffer.

  Bytes before the first 32-bit boundary and after the last group are looked up in a table;
  the rest is counted 28 bytes at a time, seven words in parallel inside machine words.
*/
module Popcount {
  import Numbers

  type Byte = bv8
  type Word = bv32

  // ---- The count ----

  function One(b: bool): nat {
    if b then 1 else 0
  }

  function BitsOf(b: Byte): nat {
    One(b & 0x01 != 0) + One(b & 0x02 != 0) + One(b & 0x04 != 0) + One(b & 0x08 != 0)
    + One(b & 0x10 != 0) + One(b & 0x20 != 0) + One(b & 0x40 != 0) + One(b & 0x80 != 0)
  }

  function Count(s: seq<Byte>): nat {
    if s == [] then 0 else BitsOf(s[0]) + Count(s[1..])
  }

  lemma {:induction false} CountSplit(s: seq<Byte>, t: seq<Byte>)
    ensures Count(s + t) == Count(s) + Count(t)
    decreases |s|
  {
    if s == [] {
      assert s + t == t;
    } else {
      assert (s + t)[1..] == s[1..] + t;
      CountSplit(s[1..], t);
    }
  }

  lemma CountNext(s: seq<Byte>, i: nat)
    requires i < |s|
    ensures Count(s[..i + 1]) == Count(s[..i]) + BitsOf(s[i])
  {
    assert s[..i + 1] == s[..i] + [s[i]];
    CountSplit(s[..i], [s[i]]);
    assert Count([s[i]]) == BitsOf(s[i]) + Count([]) by {
      assert [s[i]][1..] == [];
    }
  }

  // ---- The table ----

  /** The two low bits of an index say how much the four entries of a group differ from the first. */
  function Digit(i: Byte): nat {
    One(i & 0x01 != 0) + One(i & 0x02 != 0)
  }

  /** The groups the table is built from: four entries, four groups of four, and so on. */
  function B2(n: nat, i: Byte): nat {
    n + Digit(i)
  }

  function B4(n: nat, i: Byte): nat {
    B2(n + Digit(i >> 2), i)
  }

  function B6(n: nat, i: Byte): nat {
    B4(n + Digit(i >> 4), i)
  }

  function BitsInByte(i: Byte): nat {
    B6(Digit(i >> 6), i)
  }

  lemma TableIsCount(b: Byte)
    ensures BitsInByte(b) == BitsOf(b)
  {
  }

  // ---- One word ----

  /** The number a word stands for, digit by digit, byte by byte. */
  function LowByte(x: Word): nat {
    One(x & 0x01 != 0) + 2 * One(x & 0x02 != 0) + 4 * One(x & 0x04 != 0) + 8 * One(x & 0x08 != 0)
    + 16 * One(x & 0x10 != 0) + 32 * One(x & 0x20 != 0) + 64 * One(x & 0x40 != 0) + 128 * One(x & 0x80 != 0)
  }

  function Number(x: Word): nat {
    LowByte(x) + 0x100 * LowByte(Down8(x)) + 0x1_0000 * LowByte(Down16(x)) + 0x100_0000 * LowByte(Down24(x))
  }

  /** Sums of neighbouring bits, then of pairs, then of halves of bytes, all bytes at once. */
  function Parallel(x: Word): Word {
    var pairs := x - ((x >> 1) & 0x55555555);
    var fours := (pairs & 0x33333333) + ((pairs >> 2) & 0x33333333);
    (fours + (fours >> 4)) & 0x0F0F0F0F
  }

  function Lane(x: Word): Word {
    (x & 1) + ((x >> 1) & 1) + ((x >> 2) & 1) + ((x >> 3) & 1)
    + ((x >> 4) & 1) + ((x >> 5) & 1) + ((x >> 6) & 1) + ((x >> 7) & 1)
  }

  // The four bytes of a word, by shifting and masking.

  function Wide(b: Byte): Word {
    b as Word
  }

  function Keep(x: Word): Word {
    x & 0xff
  }

  function Down8(x: Word): Word {
    x >> 8
  }

  function Down16(x: Word): Word {
    x >> 16
  }

  function Down24(x: Word): Word {
    x >> 24
  }

  lemma ParallelLane0(x: Word)
    ensures Keep(Parallel(x)) == Lane(x)
  {
  }

  lemma ParallelLane1(x: Word)
    ensures Keep(Down8(Parallel(x))) == Lane(Down8(x))
  {
  }

  lemma ParallelLane2(x: Word)
    ensures Keep(Down16(Parallel(x))) == Lane(Down16(x))
  {
  }

  lemma ParallelLane3(x: Word)
    ensures Keep(Down24(Parallel(x))) == Lane(Down24(x))
  {
  }

  lemma LowByteOnly(x: Word)
    ensures LowByte(x) == LowByte(Keep(x))
  {
  }

  /** The little-endian word of four bytes. */
  function Load(a: Byte, b: Byte, c: Byte, d: Byte): Word {
    (a as Word) | ((b as Word) << 8) | ((c as Word) << 16) | ((d as Word) << 24)
  }

  lemma LoadLanes(a: Byte, b: Byte, c: Byte, d: Byte)
    ensures var x := Load(a, b, c, d);
            && Keep(x) == Wide(a) && Keep(Down8(x)) == Wide(b)
            && Keep(Down16(x)) == Wide(c) && Keep(Down24(x)) == Wide(d)
  {
  }

  lemma LaneOnly(x: Word)
    ensures Lane(x) == Lane(Keep(x))
  {
  }

  lemma LaneNumber(b: Byte)
    ensures LowByte(Lane(Wide(b))) == BitsOf(b)
  {
  }

  lemma LaneCount(x: Word, y: Word, b: Byte)
    requires Keep(x) == Wide(b) && Keep(y) == Lane(x)
    ensures LowByte(y) == BitsOf(b)
  {
    hide *;
    LowByteOnly(y);
    LaneOnly(x);
    LaneNumber(b);
  }

  /** Each byte of the parallel sum counts the bits of one byte. */
  lemma WordCount(a: Byte, b: Byte, c: Byte, d: Byte)
    ensures Number(Parallel(Load(a, b, c, d)))
         == BitsOf(a) + 0x100 * BitsOf(b) + 0x1_0000 * BitsOf(c) + 0x100_0000 * BitsOf(d)
  {
    hide Load, Parallel, Lane, LowByte, BitsOf, Keep, Wide, Down8, Down16, Down24;
    var x := Load(a, b, c, d);
    var y := Parallel(x);
    LoadLanes(a, b, c, d);
    ParallelLane0(x);
    ParallelLane1(x);
    ParallelLane2(x);
    ParallelLane3(x);
    LaneCount(x, y, a);
    LaneCount(Down8(x), Down8(y), b);
    LaneCount(Down16(x), Down16(y), c);
    LaneCount(Down24(x), Down24(y), d);
  }

  // ---- Seven words ----

  const TWO24 := 0x100_0000
  const TWO32 := 0x1_0000_0000
  const ONES := 0x0101_0101

  /** The sum of the first t words of a group, each after its parallel count. */
  function GroupSum(g: seq<Byte>, t: nat): nat
    requires 4 * t <= |g|
  {
    if t == 0 then 0 else
      GroupSum(g, t - 1) + Number(Parallel(Load(g[4 * t - 4], g[4 * t - 3], g[4 * t - 2], g[4 * t - 1])))
  }

  /** The 32-bit sum, multiplied in 32 bits; its top byte is the total. */
  function Gather(sum: nat): nat {
    (sum % TWO32 * ONES) % TWO32 / TWO24
  }

  /** The product, split at bit 32. */
  lemma Product(a: nat, b: nat, c: nat, d: nat)
    ensures (a + 0x100 * b + 0x1_0000 * c + TWO24 * d) * ONES
         == TWO32 * (b + c + d + 0x100 * (c + d) + 0x1_0000 * d)
            + (a + 0x100 * (a + b) + 0x1_0000 * (a + b + c) + TWO24 * (a + b + c + d))
  {
  }

  lemma TopByte(rest: nat, top: nat)
    requires rest < TWO24
    ensures (rest + TWO24 * top) / TWO24 == top
  {
  }

  lemma GatherLanes(a: nat, b: nat, c: nat, d: nat)
    requires a <= 56 && b <= 56 && c <= 56 && d <= 56
    ensures Gather(a + 0x100 * b + 0x1_0000 * c + TWO24 * d) == a + b + c + d
  {
    var s := a + 0x100 * b + 0x1_0000 * c + TWO24 * d;
    var over := b + c + d + 0x100 * (c + d) + 0x1_0000 * d;
    var rest := a + 0x100 * (a + b) + 0x1_0000 * (a + b + c);
    Product(a, b, c, d);
    Numbers.RemainderUnique(s, TWO32, 0, s);
    Numbers.RemainderUnique(s * ONES, TWO32, over, rest + TWO24 * (a + b + c + d));
    TopByte(rest, a + b + c + d);
  }

  lemma CountFour(g: seq<Byte>, k: nat)
    requires k + 4 <= |g|
    ensures Count(g[..k + 4]) == Count(g[..k]) + BitsOf(g[k]) + BitsOf(g[k + 1]) + BitsOf(g[k + 2]) + BitsOf(g[k + 3])
  {
    hide BitsOf, Count;
    CountNext(g, k);
    CountNext(g, k + 1);
    CountNext(g, k + 2);
    CountNext(g, k + 3);
  }

  lemma BitsBound(b: Byte)
    ensures BitsOf(b) <= 8
  {
  }

  lemma NoBits()
    ensures Count([]) == 0
  {
  }

  /** Byte lanes of the sum after t words: none has carried into the next. */
  lemma {:induction false} GroupLanes(g: seq<Byte>, t: nat) returns (a: nat, b: nat, c: nat, d: nat)
    requires 4 * t <= |g|
    ensures a <= 8 * t && b <= 8 * t && c <= 8 * t && d <= 8 * t
    ensures GroupSum(g, t) == a + 0x100 * b + 0x1_0000 * c + TWO24 * d
    ensures a + b + c + d == Count(g[..4 * t])
  {
    hide Number, Parallel, Load, BitsOf, Count;
    if t == 0 {
      a, b, c, d := 0, 0, 0, 0;
      NoBits();
    } else {
      a, b, c, d := GroupLanes(g, t - 1);
      var k := 4 * t - 4;
      WordCount(g[k], g[k + 1], g[k + 2], g[k + 3]);
      CountFour(g, k);
      BitsBound(g[k]);
      BitsBound(g[k + 1]);
      BitsBound(g[k + 2]);
      BitsBound(g[k + 3]);
      a, b, c, d := a + BitsOf(g[k]), b + BitsOf(g[k + 1]), c + BitsOf(g[k + 2]), d + BitsOf(g[k + 3]);
    }
  }

  lemma GroupCount(g: seq<Byte>)
    requires |g| == 28
    ensures Gather(GroupSum(g, 7)) == Count(g)
  {
    var a, b, c, d := GroupLanes(g, 7);
    hide GroupSum, Count;
    GatherLanes(a, b, c, d);
    assert g[..28] == g;
  }

  /** The count, for a buffer of any length at any address. */
  method CountBits(s: seq<Byte>, address: nat) returns (bits: nat)
    ensures bits == Count(s)
  {
    hide BitsOf, BitsInByte, GroupSum, Gather;
    bits := 0;
    var p: nat := 0;
    while (address + p) % 4 != 0 && p < |s|
      invariant p <= |s| && bits == Count(s[..p])
      decreases |s| - p
    {
      CountNext(s, p);
      TableIsCount(s[p]);
      bits := bits + BitsInByte(s[p]);
      p := p + 1;
    }
    while |s| - p >= 28
      invariant p <= |s| && bits == Count(s[..p])
    {
      var group := s[p..p + 28];
      GroupCount(group);
      assert s[..p + 28] == s[..p] + group;
      CountSplit(s[..p], group);
      bits := bits + Gather(GroupSum(group, 7));
      p := p + 28;
    }
    while p < |s|
      invariant p <= |s| && bits == Count(s[..p])
    {
      CountNext(s, p);
      TableIsCount(s[p]);
      bits := bits + BitsInByte(s[p]);
      p := p + 1;
    }
    assert s[..p] == s;
  }
}
