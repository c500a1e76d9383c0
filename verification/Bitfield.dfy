/**
  Bitfields: integers of any width at any bit offset of a byte buffer.

  Bit number 0 is the most significant bit of the first byte.  A field is written and read
  one bit at a time, most significant bit first.
*/
module Bitfield {
  import opened Numbers

  type Byte = bv8

  // ---- Bits of a byte ----

  /** The byte with one bit set: 1 shifted left by `bit`. */
  function Mask(bit: nat): Byte
    requires bit < 8
  {
    match bit
    case 0 => 0x01
    case 1 => 0x02
    case 2 => 0x04
    case 3 => 0x08
    case 4 => 0x10
    case 5 => 0x20
    case 6 => 0x40
    case _ => 0x80
  }

  predicate Meets(b: Byte, m: Byte) {
    b & m != 0
  }

  predicate Has(b: Byte, bit: nat)
    requires bit < 8
  {
    Meets(b, Mask(bit))
  }

  /** Clear the masked bits, then put the new ones in. */
  function With(b: Byte, m: Byte, on: bool): Byte {
    (b & !m) | (if on then m else 0)
  }

  function Put(b: Byte, bit: nat, on: bool): Byte
    requires bit < 8
  {
    With(b, Mask(bit), on)
  }

  lemma PutHas(b: Byte, bit: nat, on: bool, other: nat)
    requires bit < 8 && other < 8
    ensures Has(Put(b, bit, on), other) == if other == bit then on else Has(b, other)
  {
    hide Mask, Meets, With;
    MaskIsSet(bit);
    PutMasked(b, Mask(bit), on);
    if other != bit {
      MasksApart(bit, other);
      PutApart(b, Mask(bit), Mask(other), on);
    }
  }

  lemma MasksApart(bit: nat, other: nat)
    requires bit < 8 && other < 8 && bit != other
    ensures !Meets(Mask(bit), Mask(other))
  {
  }

  lemma MaskIsSet(bit: nat)
    requires bit < 8
    ensures Meets(Mask(bit), Mask(bit))
  {
  }

  lemma PutMasked(b: Byte, m: Byte, on: bool)
    requires Meets(m, m)
    ensures Meets(With(b, m, on), m) == on
  {
  }

  lemma PutApart(b: Byte, m: Byte, o: Byte, on: bool)
    requires !Meets(m, o)
    ensures Meets(With(b, m, on), o) == Meets(b, o)
  {
  }

  /** A byte is known by its bits. */
  lemma SameByte(b: Byte, c: Byte)
    requires forall bit :: 0 <= bit < 8 ==> Has(b, bit) == Has(c, bit)
    ensures b == c
  {
    assert Has(b, 0) == Has(c, 0) && Has(b, 1) == Has(c, 1) && Has(b, 2) == Has(c, 2) && Has(b, 3) == Has(c, 3);
    assert Has(b, 4) == Has(c, 4) && Has(b, 5) == Has(c, 5) && Has(b, 6) == Has(c, 6) && Has(b, 7) == Has(c, 7);
  }

  // ---- Bits of a buffer ----

  predicate BitAt(p: seq<Byte>, k: nat)
    requires k < 8 * |p|
  {
    Has(p[k / 8], 7 - k % 8)
  }

  function PutBit(p: seq<Byte>, k: nat, on: bool): (r: seq<Byte>)
    requires k < 8 * |p|
    ensures |r| == |p|
  {
    p[k / 8 := Put(p[k / 8], 7 - k % 8, on)]
  }

  lemma PutBitAt(p: seq<Byte>, k: nat, on: bool, q: nat)
    requires k < 8 * |p| && q < 8 * |p|
    ensures BitAt(PutBit(p, k, on), q) == if q == k then on else BitAt(p, q)
  {
    hide Has, Put, Mask;
    if q / 8 == k / 8 {
      PutHas(p[k / 8], 7 - k % 8, on, 7 - q % 8);
    }
  }

  lemma SameBuffer(p: seq<Byte>, r: seq<Byte>)
    requires |p| == |r| && forall k :: 0 <= k < 8 * |p| ==> BitAt(p, k) == BitAt(r, k)
    ensures p == r
  {
    hide Has;
    forall i | 0 <= i < |p|
      ensures p[i] == r[i]
    {
      forall bit | 0 <= bit < 8
        ensures Has(p[i], bit) == Has(r[i], bit)
      {
        var k := 8 * i + (7 - bit);
        assert k / 8 == i && 7 - k % 8 == bit;
        assert BitAt(p, k) == BitAt(r, k);
      }
      SameByte(p[i], r[i]);
    }
  }

  // ---- Numbers ----

  /** v shifted right by k. */
  function Shift(v: nat, k: nat): nat {
    if k == 0 then v else Shift(v / 2, k - 1)
  }

  predicate Digit(v: nat, k: nat) {
    Shift(v, k) % 2 == 1
  }

  lemma {:induction false} ShiftMore(v: nat, k: nat)
    ensures Shift(v, k + 1) == Shift(v, k) / 2
  {
    if k > 0 {
      ShiftMore(v / 2, k - 1);
    }
  }

  /** The k low bits of v, as a number. */
  function Low(v: nat, k: nat): nat {
    if k == 0 then 0 else 2 * Low(v / 2, k - 1) + v % 2
  }

  lemma {:induction false} LowIsRemainder(v: nat, k: nat)
    ensures Low(v, k) == v % Pow2(k)
  {
    if k > 0 {
      LowIsRemainder(v / 2, k - 1);
      DoubleRemainder(v, Pow2(k - 1));
    }
  }

  lemma DoubleRemainder(v: nat, m: nat)
    requires m > 0
    ensures v % (2 * m) == 2 * (v / 2 % m) + v % 2
  {
    var a, b := v / 2 / m, v / 2 % m;
    assert v / 2 == m * a + b;
    assert v == 2 * (v / 2) + v % 2;
    calc {
      v;
      2 * (m * a + b) + v % 2;
      { Doubled(m, a); }
      (2 * m) * a + (2 * b + v % 2);
    }
    RemainderUnique(v, 2 * m, a, 2 * b + v % 2);
  }

  lemma Doubled(m: nat, a: nat)
    ensures 2 * (m * a) == (2 * m) * a
  {
  }

  // ---- Writing and reading a field ----

  /** The buffer after the first j bits of an n-bit write. */
  function Written(p: seq<Byte>, offset: nat, n: nat, value: nat, j: nat): (r: seq<Byte>)
    requires j <= n && offset + n <= 8 * |p|
    ensures |r| == |p|
  {
    if j == 0 then p else PutBit(Written(p, offset, n, value, j - 1), offset + j - 1, Digit(value, n - j))
  }

  method SetUnsignedBitfield(p: array<Byte>, offset: nat, bits: nat, value: nat)
    requires offset + bits <= 8 * p.Length
    modifies p
    ensures p[..] == Written(old(p[..]), offset, bits, value, bits)
  {
    hide Put, Digit;
    var at := offset;
    for j := 0 to bits
      invariant at == offset + j
      invariant p[..] == Written(old(p[..]), offset, bits, value, j)
    {
      var on := Digit(value, bits - 1 - j);
      var byte, bit := at / 8, 7 - at % 8;
      ghost var before := p[..];
      p[byte] := Put(p[byte], bit, on);
      assert p[..] == PutBit(before, at, on);
      at := at + 1;
    }
  }

  method GetUnsignedBitfield(p: array<Byte>, offset: nat, bits: nat) returns (value: nat)
    requires offset + bits <= 8 * p.Length
    ensures value == Value(p[..], offset, bits)
  {
    hide Has;
    var at := offset;
    value := 0;
    for j := 0 to bits
      invariant at == offset + j && value == Value(p[..], offset, j)
    {
      var byte, bit := at / 8, 7 - at % 8;
      value := 2 * value + if Has(p[byte], bit) then 1 else 0;
      at := at + 1;
    }
  }

  /** The number in the field of n bits. */
  function Value(p: seq<Byte>, offset: nat, n: nat): nat
    requires offset + n <= 8 * |p|
  {
    if n == 0 then 0 else 2 * Value(p, offset, n - 1) + if BitAt(p, offset + n - 1) then 1 else 0
  }

  lemma {:induction false} ValueBound(p: seq<Byte>, offset: nat, n: nat)
    requires offset + n <= 8 * |p|
    ensures Value(p, offset, n) < Pow2(n)
  {
    if n > 0 {
      ValueBound(p, offset, n - 1);
    }
  }

  /** Every bit of the buffer after a write: the field holds the digits, the rest is as before. */
  lemma {:induction false} WrittenBits(p: seq<Byte>, offset: nat, n: nat, value: nat, j: nat, k: nat)
    requires j <= n && offset + n <= 8 * |p| && k < 8 * |p|
    ensures BitAt(Written(p, offset, n, value, j), k)
         == if offset <= k < offset + j then Digit(value, n - 1 - (k - offset)) else BitAt(p, k)
    decreases j
  {
    hide BitAt, PutBit, Digit;
    if j > 0 {
      WrittenBits(p, offset, n, value, j - 1, k);
      PutBitAt(Written(p, offset, n, value, j - 1), offset + j - 1, Digit(value, n - j), k);
    }
  }

  /** The top j digits of an n-digit number. */
  lemma {:induction false} LowTop(v: nat, n: nat, j: nat)
    requires j < n
    ensures Low(Shift(v, n - j - 1), j + 1) == 2 * Low(Shift(v, n - j), j) + if Digit(v, n - j - 1) then 1 else 0
  {
    ShiftMore(v, n - j - 1);
  }

  lemma {:induction false} ReadBack(p: seq<Byte>, offset: nat, n: nat, value: nat, j: nat)
    requires j <= n && offset + n <= 8 * |p|
    ensures Value(Written(p, offset, n, value, n), offset, j) == Low(Shift(value, n - j), j)
    decreases j
  {
    hide BitAt, Written, Digit, Shift;
    if j > 0 {
      ReadBack(p, offset, n, value, j - 1);
      WrittenBits(p, offset, n, value, n, offset + j - 1);
      LowTop(value, n, j - 1);
    }
  }

  /** What is written into a field of n bits is read back modulo 2 to the n. */
  lemma WriteThenRead(p: seq<Byte>, offset: nat, n: nat, value: nat)
    requires offset + n <= 8 * |p|
    ensures Value(Written(p, offset, n, value, n), offset, n) == value % Pow2(n)
  {
    ReadBack(p, offset, n, value, n);
    assert Shift(value, 0) == value;
    LowIsRemainder(value, n);
  }

  /** A field apart from the written one reads as before. */
  lemma {:induction false} ReadElsewhere(p: seq<Byte>, offset: nat, n: nat, value: nat, other: nat, m: nat)
    requires offset + n <= 8 * |p| && other + m <= 8 * |p|
    requires other + m <= offset || offset + n <= other
    ensures Value(Written(p, offset, n, value, n), other, m) == Value(p, other, m)
    decreases m
  {
    hide BitAt, Written, Digit;
    if m > 0 {
      ReadElsewhere(p, offset, n, value, other, m - 1);
      WrittenBits(p, offset, n, value, n, other + m - 1);
    }
  }

  /** Writes to fields apart commute, byte for byte. */
  lemma WritesCommute(p: seq<Byte>, o1: nat, n1: nat, v1: nat, o2: nat, n2: nat, v2: nat)
    requires o1 + n1 <= 8 * |p| && o2 + n2 <= 8 * |p|
    requires o1 + n1 <= o2 || o2 + n2 <= o1
    ensures Written(Written(p, o1, n1, v1, n1), o2, n2, v2, n2) == Written(Written(p, o2, n2, v2, n2), o1, n1, v1, n1)
  {
    hide *;
    var one, two := Written(p, o1, n1, v1, n1), Written(p, o2, n2, v2, n2);
    forall k | 0 <= k < 8 * |p|
      ensures BitAt(Written(one, o2, n2, v2, n2), k) == BitAt(Written(two, o1, n1, v1, n1), k)
    {
      WrittenBits(one, o2, n2, v2, n2, k);
      WrittenBits(p, o1, n1, v1, n1, k);
      WrittenBits(two, o1, n1, v1, n1, k);
      WrittenBits(p, o2, n2, v2, n2, k);
    }
    SameBuffer(Written(one, o2, n2, v2, n2), Written(two, o1, n1, v1, n1));
  }
}
