/**
  Merging two CRC-64 checksums with a cache of matrices.

  Level k of the cache is the operator that feeds 2^k zero bytes to a checksum.
  Merging applies the levels named by the binary digits of the second length.
*/
module CrcCombine {
  import opened Gf2
  import opened Crc64
  import opened Numbers

  /** The matrix acts as n zero bits. */
  ghost predicate IsZeroOperator(mat: Matrix, poly: Word, n: nat) {
    forall v :: Times(mat, v) == ZeroBits(poly, n, v)
  }

  /** Squaring the matrix doubles the number of zero bits. */
  lemma SquareDoubles(square: Matrix, mat: Matrix, poly: Word, n: nat)
    requires IsZeroOperator(mat, poly, n)
    requires forall i :: 0 <= i < 64 ==> square[i] == Times(mat, mat[i])
    ensures IsZeroOperator(square, poly, 2 * n)
  {
    forall v
      ensures Times(square, v) == ZeroBits(poly, 2 * n, v)
    {
      SquareFrom(square, mat, v, 0);
      ZeroBitsAdd(poly, n, n, v);
    }
  }

  // ---- The one-bit operator ----

  /** The word shifted n places up. */
  function ShiftUp(v: Word, n: nat): Word {
    if n == 0 then v else Twice(ShiftUp(v, n - 1))
  }

  lemma {:induction false} ShiftUpXor(a: Word, b: Word, n: nat)
    ensures ShiftUp(Xor(a, b), n) == Xor(ShiftUp(a, n), ShiftUp(b, n))
  {
    if n != 0 {
      ShiftUpXor(a, b, n - 1);
      TwiceXor(ShiftUp(a, n - 1), ShiftUp(b, n - 1));
    }
  }

  lemma {:induction false} ShiftUpTwice(v: Word, n: nat)
    ensures ShiftUp(Twice(v), n) == ShiftUp(v, n + 1)
  {
    if n != 0 {
      ShiftUpTwice(v, n - 1);
    }
  }

  lemma {:induction false} ShiftUpZero(n: nat)
    ensures ShiftUp(0, n) == 0
  {
    if n != 0 {
      ShiftUpZero(n - 1);
      assert Twice(0) == 0;
    }
  }

  /** Row 0 is the polynomial, every other row the unit vector one place lower. */
  ghost predicate IsBitMatrix(mat: Matrix, poly: Word) {
    mat[0] == poly && forall n :: 1 <= n < 64 ==> mat[n] == ShiftUp(1, n - 1)
  }

  lemma {:induction false} UpperRowsShift(mat: Matrix, poly: Word, u: Word, i: nat)
    requires IsBitMatrix(mat, poly)
    requires 1 <= i <= 64
    ensures TimesFrom(mat, Drop(u, i), i) == ShiftUp(Drop(u, i), i - 1)
    decreases 64 - i
  {
    var v := Drop(u, i);
    if i == 64 {
      DropAll(u);
      ShiftUpZero(63);
    } else {
      UpperRowsShift(mat, poly, u, i + 1);
      ShiftUpTwice(Half(v), i - 1);
      if Odd(v) {
        SplitOdd(v);
        ShiftUpXor(1, Twice(Half(v)), i - 1);
      } else {
        SplitEven(v);
      }
    }
  }

  lemma BitMatrixIsZeroOperator(mat: Matrix, poly: Word)
    requires IsBitMatrix(mat, poly)
    ensures IsZeroOperator(mat, poly, 1)
  {
    forall v
      ensures Times(mat, v) == ZeroBits(poly, 1, v)
    {
      assert Drop(v, 1) == Half(v);
      UpperRowsShift(mat, poly, v, 1);
      assert ZeroBits(poly, 1, v) == ZeroBit(poly, v);
    }
  }

  // ---- Four bits at a time ----

  type Nibble = bv4

  function LowNibble(v: Word): Nibble {
    (v & 15) as Nibble
  }

  /** The sum of the four rows selected by the bits of n. */
  function SelectedRows(n: Nibble, m0: Word, m1: Word, m2: Word, m3: Word): Word {
    if n == 15 then Xor(Xor(Xor(m0, m1), m2), m3)
    else if n == 14 then Xor(Xor(m1, m2), m3)
    else if n == 13 then Xor(Xor(m0, m2), m3)
    else if n == 12 then Xor(m2, m3)
    else if n == 11 then Xor(Xor(m0, m1), m3)
    else if n == 10 then Xor(m1, m3)
    else if n == 9 then Xor(m0, m3)
    else if n == 8 then m3
    else if n == 7 then Xor(Xor(m0, m1), m2)
    else if n == 6 then Xor(m1, m2)
    else if n == 5 then Xor(m0, m2)
    else if n == 4 then m2
    else if n == 3 then Xor(m0, m1)
    else if n == 2 then m1
    else if n == 1 then m0
    else 0
  }

  function Select(b: bool, m: Word): Word {
    if b then m else 0
  }

  lemma TimesFromStep(mat: Matrix, v: Word, i: nat)
    requires i < 64
    ensures TimesFrom(mat, v, i) == Xor(Select(Odd(v), mat[i]), TimesFrom(mat, Half(v), i + 1))
  {
    XorZero(TimesFrom(mat, Half(v), i + 1));
  }

  lemma SelectedRowsAreSum(n: Nibble, m0: Word, m1: Word, m2: Word, m3: Word)
    ensures SelectedRows(n, m0, m1, m2, m3)
         == Xor(Xor(Xor(Select(n & 1 != 0, m0), Select(n & 2 != 0, m1)), Select(n & 4 != 0, m2)),
                Select(n & 8 != 0, m3))
  {
    hide Xor;
    var s0, s1 := Select(n & 1 != 0, m0), Select(n & 2 != 0, m1);
    var s2, s3 := Select(n & 4 != 0, m2), Select(n & 8 != 0, m3);
    XorZero(s0);
    XorZero(s1);
    XorZero(s2);
    XorZero(s3);
    XorZero(Xor(s0, s1));
    XorZero(Xor(Xor(s0, s1), s2));
    if n & 8 != 0 {
      assert n >= 8;
    } else {
      assert n < 8;
    }
  }

  lemma NibbleBits(v: Word)
    ensures (LowNibble(v) & 1 != 0) == Odd(v)
    ensures (LowNibble(v) & 2 != 0) == Odd(Half(v))
    ensures (LowNibble(v) & 4 != 0) == Odd(Half(Half(v)))
    ensures (LowNibble(v) & 8 != 0) == Odd(Half(Half(Half(v))))
  {
  }

  lemma SumAssoc4(a: Word, b: Word, c: Word, d: Word, t: Word)
    ensures Xor(a, Xor(b, Xor(c, Xor(d, t)))) == Xor(Xor(Xor(Xor(a, b), c), d), t)
  {
    XorAssoc(Xor(Xor(a, b), c), d, t);
    XorAssoc(Xor(a, b), c, Xor(d, t));
    XorAssoc(a, b, Xor(c, Xor(d, t)));
  }

  lemma TimesFromNibble(mat: Matrix, v: Word, i: nat)
    requires i + 4 <= 64
    ensures TimesFrom(mat, v, i)
         == Xor(SelectedRows(LowNibble(v), mat[i], mat[i + 1], mat[i + 2], mat[i + 3]), TimesFrom(mat, v >> 4, i + 4))
  {
    var v1 := Half(v);
    var v2 := Half(v1);
    var v3 := Half(v2);
    TimesFromStep(mat, v, i);
    TimesFromStep(mat, v1, i + 1);
    TimesFromStep(mat, v2, i + 2);
    TimesFromStep(mat, v3, i + 3);
    HalfFourTimes(v);
    NibbleBits(v);
    SelectedRowsAreSum(LowNibble(v), mat[i], mat[i + 1], mat[i + 2], mat[i + 3]);
    SumAssoc4(Select(Odd(v), mat[i]), Select(Odd(v1), mat[i + 1]), Select(Odd(v2), mat[i + 2]),
              Select(Odd(v3), mat[i + 3]), TimesFrom(mat, v >> 4, i + 4));
  }

  /** One iteration of the product loop keeps the total of what is summed and what is left. */
  lemma SwitchStep(mat: Matrix, v: Word, i: nat, sum: Word)
    requires i + 4 <= 64
    ensures Xor(sum, TimesFrom(mat, v, i))
         == Xor(Xor(sum, SelectedRows(LowNibble(v), mat[i], mat[i + 1], mat[i + 2], mat[i + 3])),
                TimesFrom(mat, v >> 4, i + 4))
  {
    TimesFromNibble(mat, v, i);
    XorAssoc(sum, SelectedRows(LowNibble(v), mat[i], mat[i + 1], mat[i + 2], mat[i + 3]),
             TimesFrom(mat, v >> 4, i + 4));
  }

  lemma DropNone(v: Word)
    ensures Drop(v, 0) == v
  {
  }

  /** The matrix-vector product, four bits of the vector per iteration. */
  method TimesSwitch(mat: Matrix, vector: Word) returns (sum: Word)
    ensures sum == Times(mat, vector)
  {
    hide Xor, SelectedRows, LowNibble, TimesFrom, Drop;
    var vec := vector;
    sum := 0;
    var i: nat := 0;
    XorZero(Times(mat, vector));
    DropAll(vector);
    DropNone(vector);
    while vec != 0
      invariant i <= 64 && i % 4 == 0
      invariant vec == Drop(vector, i)
      invariant Xor(sum, TimesFrom(mat, vec, i)) == Times(mat, vector)
      decreases 64 - i
    {
      SwitchStep(mat, vec, i, sum);
      DropFour(vector, i);
      sum := Xor(sum, SelectedRows(LowNibble(vec), mat[i], mat[i + 1], mat[i + 2], mat[i + 3]));
      vec := vec >> 4;
      i := i + 4;
    }
    TimesFromZero(mat, i);
    XorZero(sum);
  }

  // ---- Spans of zero bytes ----

  /** The checksum after len blocks of 2^k zero bytes. */
  ghost function ZeroSpan(poly: Word, k: nat, len: nat, c: Word): Word
    decreases len
  {
    if len == 0 then c else ZeroSpan(poly, k, len - 1, ZeroBits(poly, 8 * Pow2(k), c))
  }

  lemma {:induction false} SpanOfBytes(poly: Word, len: nat, c: Word)
    ensures ZeroSpan(poly, 0, len, c) == ZeroBits(poly, 8 * len, c)
    decreases len
  {
    if len != 0 {
      ZeroBitsAdd(poly, 8, 8 * (len - 1), c);
      SpanOfBytes(poly, len - 1, ZeroBits(poly, 8, c));
    }
  }

  lemma SpanEmpty(poly: Word, k: nat, c: Word)
    ensures ZeroSpan(poly, k, 0, c) == c
  {
  }

  /** Two blocks of one size are one block of the next. */
  lemma {:induction false} SpanOfPairs(poly: Word, k: nat, m: nat, c: Word)
    ensures ZeroSpan(poly, k, 2 * m, c) == ZeroSpan(poly, k + 1, m, c)
    decreases m
  {
    if m != 0 {
      var bits := 8 * Pow2(k);
      var c1 := ZeroBits(poly, bits, c);
      var c2 := ZeroBits(poly, bits, c1);
      assert ZeroSpan(poly, k, 2 * m, c) == ZeroSpan(poly, k, 2 * m - 1, c1) == ZeroSpan(poly, k, 2 * (m - 1), c2);
      ZeroBitsAdd(poly, bits, bits, c);
      SpanOfPairs(poly, k, m - 1, c2);
    }
  }

  /** One binary digit of the length. */
  lemma SpanDigit(poly: Word, k: nat, len: nat, c: Word)
    ensures ZeroSpan(poly, k, len, c)
         == ZeroSpan(poly, k + 1, len / 2, if len % 2 == 1 then ZeroBits(poly, 8 * Pow2(k), c) else c)
  {
    if len % 2 == 1 {
      assert len - 1 == 2 * (len / 2);
      SpanOfPairs(poly, k, len / 2, ZeroBits(poly, 8 * Pow2(k), c));
    } else {
      assert len == 2 * (len / 2);
      SpanOfPairs(poly, k, len / 2, c);
    }
  }

  /**
    The law of merging: applied to the checksums of two blocks, what Combine returns
    is the checksum of the blocks joined.
  */
  lemma MergedChecksum(crc: Word, a: Bytes, b: Bytes)
    ensures Checksum(crc, a + b)
         == var crc1, crc2 := Checksum(crc, a), Checksum(0, b);
            if |b| == 0 then crc1 else Xor(ZeroBits(REVERSED_POLY, 8 * |b|, crc1), crc2)
  {
    hide *;
    if |b| == 0 {
      assert a + b == a;
    } else {
      ChecksumConcat(crc, a, b);
    }
  }

  /** The static cache: 64 matrices of 64 rows, filled in place on first use. */
  class CombineCache {
    const level: array<Matrix>

    ghost predicate Valid() {
      level.Length == 64
    }

    /** Each level k below n feeds exactly 2^k zero bytes. */
    ghost predicate FilledBelow(poly: Word, n: nat)
      requires Valid() && n <= 64
      reads level
    {
      forall k :: 0 <= k < n ==> IsZeroOperator(level[k], poly, 8 * Pow2(k))
    }

    ghost predicate FilledFor(poly: Word)
      requires Valid()
      reads level
    {
      FilledBelow(poly, 64)
    }

    /** Never used, or filled for this polynomial. */
    ghost predicate ReadyFor(poly: Word)
      requires Valid()
      reads level
    {
      level[0][0] == 0 || FilledFor(poly)
    }

    constructor ()
      ensures Valid() && fresh(level)
      ensures forall poly :: ReadyFor(poly)
    {
      level := new Matrix[64](_ => seq(64, _ => 0));
    }

    /** Level `square` becomes the square of level `mat`, row by row in place. */
    method Square(square: nat, mat: nat)
      requires Valid() && square < 64 && mat < 64 && square != mat
      modifies level
      ensures forall j :: 0 <= j < 64 ==> level[square][j] == Times(old(level[mat]), old(level[mat])[j])
      ensures forall k :: 0 <= k < 64 && k != square ==> level[k] == old(level[k])
    {
      var n := 0;
      while n < 64
        invariant 0 <= n <= 64
        invariant forall k :: 0 <= k < 64 && k != square ==> level[k] == old(level[k])
        invariant forall j :: 0 <= j < n ==> level[square][j] == Times(old(level[mat]), old(level[mat])[j])
      {
        var product := TimesSwitch(level[mat], level[mat][n]);
        level[square] := level[square][n := product];
        n := n + 1;
      }
    }

    /** The operator for one zero bit, in level 1. */
    method FillBitMatrix(poly: Word)
      requires Valid()
      modifies level
      ensures IsBitMatrix(level[1], poly)
    {
      level[1] := level[1][0 := poly];
      var row: Word := 1;
      var n := 1;
      while n < 64
        invariant 1 <= n <= 64
        invariant level[1][0] == poly
        invariant row == ShiftUp(1, n - 1)
        invariant forall j :: 1 <= j < n ==> level[1][j] == ShiftUp(1, j - 1)
      {
        level[1] := level[1][n := row];
        row := Twice(row);
        n := n + 1;
      }
    }

    /** Squaring as the doubling of a zero operator. */
    method Double(square: nat, mat: nat, ghost poly: Word, ghost bits: nat)
      requires Valid() && square < 64 && mat < 64 && square != mat
      requires IsZeroOperator(level[mat], poly, bits)
      modifies level
      ensures IsZeroOperator(level[square], poly, 2 * bits)
      ensures forall k :: 0 <= k < 64 && k != square ==> level[k] == old(level[k])
    {
      Square(square, mat);
      SquareDoubles(level[square], old(level[mat]), poly, bits);
    }

    method Init(poly: Word)
      requires Valid()
      modifies level
      ensures FilledFor(poly)
    {
      hide IsZeroOperator, IsBitMatrix;
      FillBitMatrix(poly);
      BitMatrixIsZeroOperator(level[1], poly);
      Double(0, 1, poly, 1);
      Double(1, 0, poly, 2);
      var cacheNum, prev := 0, 1;
      while cacheNum < 64
        invariant 0 <= cacheNum <= 64
        invariant prev == if cacheNum == 0 then 1 else -1
        invariant cacheNum == 0 ==> IsZeroOperator(level[1], poly, 4)
        invariant FilledBelow(poly, cacheNum)
      {
        Double(cacheNum, cacheNum + prev, poly, if cacheNum == 0 then 4 else 8 * Pow2(cacheNum - 1));
        prev := -1;
        cacheNum := cacheNum + 1;
      }
    }

    /** The loop over the binary digits of the length. */
    method ApplyZeroBytes(crc1: Word, len2: nat, poly: Word) returns (crc: Word)
      requires Valid() && FilledFor(poly)
      requires len2 <= 0xFFFF_FFFF_FFFF_FFFF
      ensures crc == ZeroBits(poly, 8 * len2, crc1)
    {
      hide ZeroSpan, ZeroBits, Times;
      var cacheNum: nat := 0;
      crc := crc1;
      var len: nat := len2;
      assert len < Pow2(64) by { PowersOfTwo(); }
      ghost var k: nat := 0;
      while len != 0
        invariant k <= 64 && cacheNum == if k == 64 then 0 else k
        invariant len < Pow2(64 - k)
        invariant ZeroSpan(poly, k, len, crc) == ZeroSpan(poly, 0, len2, crc1)
        decreases len
      {
        assert k < 64 && len / 2 < Pow2(63 - k);
        SpanDigit(poly, k, len, crc);
        if len % 2 == 1 {
          assert IsZeroOperator(level[cacheNum], poly, 8 * Pow2(k));
          crc := TimesSwitch(level[cacheNum], crc);
        }
        len := len / 2;
        cacheNum := if cacheNum == 63 then 0 else cacheNum + 1;
        k := k + 1;
      }
      SpanOfBytes(poly, len2, crc1);
      SpanEmpty(poly, k, crc);
    }

    /** Merge: the checksum after len2 more zero bytes, plus the second checksum. */
    method Combine(crc1: Word, crc2: Word, len2: nat, poly: Word) returns (crc: Word)
      requires Valid() && ReadyFor(poly)
      requires len2 <= 0xFFFF_FFFF_FFFF_FFFF
      modifies level
      ensures ReadyFor(poly)
      ensures crc == if len2 == 0 then crc1 else Xor(ZeroBits(poly, 8 * len2, crc1), crc2)
    {
      if len2 == 0 {
        return crc1;
      }
      if level[0][0] == 0 {
        Init(poly);
      }
      crc := ApplyZeroBytes(crc1, len2, poly);
      crc := Xor(crc, crc2);
    }

    /** Two parts checksummed on their own and combined: the checksum of the whole, continued from any value. */
    method CombineParts(start: Word, a: Bytes, b: Bytes) returns (crc: Word)
      requires Valid() && ReadyFor(REVERSED_POLY)
      requires |b| <= 0xFFFF_FFFF_FFFF_FFFF
      modifies level
      ensures ReadyFor(REVERSED_POLY)
      ensures crc == Checksum(Reflect(start), a + b)
      ensures start == 0 ==> crc == Checksum(0, a + b)
    {
      hide Checksum, Register, ZeroBits, FilledFor, FilledBelow;
      assert Reflect(0) == 0;
      hide Reflect;
      var crc1 := BitwiseCrc64(start, a);
      var crc2 := BitwiseCrc64(0, b);
      crc := Combine(crc1, crc2, |b|, REVERSED_POLY);
      MergedChecksum(Reflect(start), a, b);
    }
  }
}
