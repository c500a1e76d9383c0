/**
  Arithmetic over GF(2) on 64-bit words.

  A word is a vector of 64 coefficients; addition is exclusive or.  The operators
  are named so that inductive proofs reason with the group laws below instead of
  with individual bits.
*/
module Gf2 {

  type Word = bv64

  function Xor(a: Word, b: Word): Word {
    a ^ b
  }

  /** The word shifted one place down: the coefficient at bit 0 is dropped. */
  function Half(v: Word): Word {
    v >> 1
  }

  /** The word shifted one place up: the coefficient at bit 63 is dropped. */
  function Twice(v: Word): Word {
    v << 1
  }

  predicate Odd(v: Word) {
    v & 1 == 1
  }

  lemma XorComm(a: Word, b: Word)
    ensures Xor(a, b) == Xor(b, a)
  {
  }

  lemma XorZero(a: Word)
    ensures Xor(a, 0) == a
    ensures Xor(0, a) == a
    ensures Xor(a, a) == 0
  {
  }

  lemma XorAssoc(a: Word, b: Word, c: Word)
    ensures Xor(Xor(a, b), c) == Xor(a, Xor(b, c))
  {
    assert Xor(Xor(a, b), c) == (a ^ b) ^ c;
    assert Xor(a, Xor(b, c)) == a ^ (b ^ c);
  }

  /** The left operand of a sum moves outward. */
  lemma XorLeft(m: Word, a: Word, b: Word)
    ensures Xor(Xor(m, a), b) == Xor(m, Xor(a, b))
    ensures Xor(a, Xor(m, b)) == Xor(m, Xor(a, b))
  {
    XorAssoc(m, a, b);
    XorAssoc(a, m, b);
    XorComm(a, m);
  }

  /** A term added twice cancels. */
  lemma XorCancel(m: Word, a: Word, b: Word)
    ensures Xor(Xor(m, a), Xor(m, b)) == Xor(a, b)
  {
    XorLeft(m, a, Xor(m, b));
    XorLeft(m, a, b);
    XorAssoc(m, m, Xor(a, b));
    XorZero(m);
    XorZero(Xor(a, b));
  }

  lemma HalfXor(a: Word, b: Word)
    ensures Half(Xor(a, b)) == Xor(Half(a), Half(b))
  {
  }

  lemma TwiceXor(a: Word, b: Word)
    ensures Twice(Xor(a, b)) == Xor(Twice(a), Twice(b))
  {
  }

  lemma OddXor(a: Word, b: Word)
    ensures Odd(Xor(a, b)) == (Odd(a) != Odd(b))
  {
  }

  /** A word is its lowest coefficient plus twice its upper part. */
  lemma SplitEven(v: Word)
    requires !Odd(v)
    ensures v == Twice(Half(v))
  {
  }

  lemma SplitOdd(v: Word)
    requires Odd(v)
    ensures v == Xor(1, Twice(Half(v)))
  {
    OddXor(1, v);
    SplitEven(Xor(1, v));
    HalfXor(1, v);
    XorZero(Half(v));
    XorAssoc(1, 1, v);
    XorZero(1);
    XorZero(v);
  }

  // ---- Repeated halving ----

  function Drop(v: Word, n: nat): Word
  {
    if n == 0 then v else Half(Drop(v, n - 1))
  }

  lemma HalfTwoTimes(v: Word)
    ensures Half(Half(v)) == v >> 2
  {
  }

  lemma HalfFourTimes(v: Word)
    ensures Half(Half(Half(Half(v)))) == v >> 4
  {
    HalfTwoTimes(v);
    HalfTwoTimes(v >> 2);
  }

  lemma DropFour(v: Word, n: nat)
    ensures Drop(v, n + 4) == Drop(v, n) >> 4
  {
    HalfFourTimes(Drop(v, n));
    assert Drop(v, n + 2) == Half(Half(Drop(v, n)));
    assert Drop(v, n + 4) == Half(Half(Drop(v, n + 2)));
  }

  lemma DropSixteen(v: Word, n: nat)
    ensures Drop(v, n + 16) == Drop(v, n) >> 16
  {
    DropFour(v, n);
    DropFour(v, n + 4);
    DropFour(v, n + 8);
    DropFour(v, n + 12);
    ShiftFourTimes(Drop(v, n));
  }

  lemma ShiftFourTimes(v: Word)
    ensures (((v >> 4) >> 4) >> 4) >> 4 == v >> 16
    ensures (((v >> 16) >> 16) >> 16) >> 16 == 0
  {
  }

  lemma DropAll(v: Word)
    ensures Drop(v, 64) == 0
  {
    DropSixteen(v, 0);
    DropSixteen(v, 16);
    DropSixteen(v, 32);
    DropSixteen(v, 48);
    ShiftFourTimes(v);
  }

  // ---- Matrices: 64 rows, row i is the image of coefficient i ----

  type Matrix = m: seq<Word> | |m| == 64 witness seq(64, _ => 0)

  /** The product of the rows from i on with the coefficients of v, bit by bit. */
  function TimesFrom(mat: Matrix, v: Word, i: nat): Word
    requires i <= 64
    decreases 64 - i
  {
    if i == 64 then 0
    else
      var rest := TimesFrom(mat, Half(v), i + 1);
      if Odd(v) then Xor(mat[i], rest) else rest
  }

  /** The matrix-vector product. */
  function Times(mat: Matrix, v: Word): Word {
    TimesFrom(mat, v, 0)
  }

  lemma {:induction false} TimesFromLinear(mat: Matrix, a: Word, b: Word, i: nat)
    requires i <= 64
    ensures TimesFrom(mat, Xor(a, b), i) == Xor(TimesFrom(mat, a, i), TimesFrom(mat, b, i))
    decreases 64 - i
  {
    if i < 64 {
      TimesFromLinear(mat, Half(a), Half(b), i + 1);
      HalfXor(a, b);
      OddXor(a, b);
      var ta, tb := TimesFrom(mat, Half(a), i + 1), TimesFrom(mat, Half(b), i + 1);
      if Odd(a) && Odd(b) {
        XorCancel(mat[i], ta, tb);
      } else if Odd(a) || Odd(b) {
        XorLeft(mat[i], ta, tb);
      }
    }
  }

  lemma TimesLinear(mat: Matrix, a: Word, b: Word)
    ensures Times(mat, Xor(a, b)) == Xor(Times(mat, a), Times(mat, b))
  {
    TimesFromLinear(mat, a, b, 0);
  }

  lemma {:induction false} TimesFromZero(mat: Matrix, i: nat)
    requires i <= 64
    ensures TimesFrom(mat, 0, i) == 0
    decreases 64 - i
  {
    if i < 64 {
      assert Half(0) == 0;
      TimesFromZero(mat, i + 1);
    }
  }

  /** The matrix whose rows are the images of the rows of mat under mat acts as mat twice. */
  lemma {:induction false} SquareFrom(square: Matrix, mat: Matrix, v: Word, i: nat)
    requires i <= 64
    requires forall n :: 0 <= n < 64 ==> square[n] == Times(mat, mat[n])
    ensures TimesFrom(square, v, i) == Times(mat, TimesFrom(mat, v, i))
    decreases 64 - i
  {
    if i == 64 {
      TimesFromZero(mat, 0);
    } else {
      SquareFrom(square, mat, Half(v), i + 1);
      if Odd(v) {
        TimesLinear(mat, mat[i], TimesFrom(mat, Half(v), i + 1));
      }
    }
  }
}
