/**
  The bitwise CRC-64 (Jones polynomial) that defines the checksum.

  `Register` is the left-shifting register of the reference routine; the checksum
  is its reflection.  `ZeroBits` is the right-shifting view of the same register
  fed with zero bits only: every fast routine is explained in terms of it.
*/
module Crc64 {
  import opened Gf2

  type Bytes = seq<bv8>

  const POLY: Word := 0xad93_d235_94c9_35a9
  const REVERSED_POLY: Word := 0x95ac_9329_ac4b_c9b5

  // ---- Reference definition ----

  predicate TopBit(r: Word) {
    r & 0x8000_0000_0000_0000 != 0
  }

  /** One step of the left-shifting register on one data bit. */
  function ShiftBit(r: Word, bit: bool): Word {
    if TopBit(r) != bit then Xor(Twice(r), POLY) else Twice(r)
  }

  function MaskTwice(mask: bv8): bv8 {
    mask << 1
  }

  /** The mask that selects bit k of a byte. */
  function BitMask(k: nat): bv8 {
    if k == 0 then 0x01 else MaskTwice(BitMask(k - 1))
  }

  predicate Selects(mask: bv8, c: bv8) {
    c & mask != 0
  }

  predicate BitAt(c: bv8, k: nat) {
    Selects(BitMask(k), c)
  }

  /** The register after the lowest n bits of c, lowest first. */
  function ShiftBits(r: Word, c: bv8, n: nat): Word
    decreases n
  {
    if n == 0 then r else ShiftBit(ShiftBits(r, c, n - 1), BitAt(c, n - 1))
  }

  function Register(r: Word, data: Bytes): Word
    decreases |data|
  {
    if data == [] then r
    else ShiftBits(Register(r, data[..|data| - 1]), data[|data| - 1], 8)
  }

  /** Bit reversal, by swapping neighbouring groups of 1, 2, 4, 8, 16 and 32 bits. */
  function Reflect(data: Word): Word {
    var a := ((data >> 1) & 0x5555555555555555) | ((data & 0x5555555555555555) << 1);
    var b := ((a >> 2) & 0x3333333333333333) | ((a & 0x3333333333333333) << 2);
    var c := ((b >> 4) & 0x0F0F0F0F0F0F0F0F) | ((b & 0x0F0F0F0F0F0F0F0F) << 4);
    var d := ((c >> 8) & 0x00FF00FF00FF00FF) | ((c & 0x00FF00FF00FF00FF) << 8);
    var e := ((d >> 16) & 0xFFFF0000FFFF) | ((d & 0xFFFF0000FFFF) << 16);
    ((e >> 32) & 0xFFFFFFFF) | ((e & 0xFFFFFFFF) << 32)
  }

  /** The checksum of data, continued from the checksum crc. */
  function Checksum(crc: Word, data: Bytes): Word {
    Reflect(Register(Reflect(crc), data))
  }

  lemma ReflectInvolution(r: Word)
    ensures Reflect(Reflect(r)) == r
  {
  }

  lemma ReflectSum(a: Word, b: Word)
    ensures Reflect(a ^ b) == Reflect(a) ^ Reflect(b)
  {
  }

  lemma ReflectShift(r: Word)
    ensures Reflect(r << 1) == Reflect(r) >> 1
  {
  }

  lemma ReflectXor(a: Word, b: Word)
    ensures Reflect(Xor(a, b)) == Xor(Reflect(a), Reflect(b))
  {
    ReflectSum(a, b);
  }

  lemma ReflectTwice(r: Word)
    ensures Reflect(Twice(r)) == Half(Reflect(r))
  {
    ReflectShift(r);
  }

  lemma ReflectTop(r: Word)
    ensures Odd(Reflect(r)) == TopBit(r)
  {
  }

  lemma ReflectPoly()
    ensures Reflect(POLY) == REVERSED_POLY
  {
  }

  // ---- The zero operator ----

  /** The right-shifting register after one zero bit. */
  function ZeroBit(poly: Word, c: Word): Word {
    if Odd(c) then Xor(poly, Half(c)) else Half(c)
  }

  /** The right-shifting register after n zero bits. */
  function ZeroBits(poly: Word, n: nat, c: Word): Word {
    if n == 0 then c else ZeroBits(poly, n - 1, ZeroBit(poly, c))
  }

  lemma ZeroBitLinear(poly: Word, a: Word, b: Word)
    ensures ZeroBit(poly, Xor(a, b)) == Xor(ZeroBit(poly, a), ZeroBit(poly, b))
  {
    HalfXor(a, b);
    OddXor(a, b);
    if Odd(a) && Odd(b) {
      XorCancel(poly, Half(a), Half(b));
    } else if Odd(a) || Odd(b) {
      XorLeft(poly, Half(a), Half(b));
    }
  }

  lemma {:induction false} ZeroBitsLinear(poly: Word, n: nat, a: Word, b: Word)
    ensures ZeroBits(poly, n, Xor(a, b)) == Xor(ZeroBits(poly, n, a), ZeroBits(poly, n, b))
  {
    if n != 0 {
      ZeroBitLinear(poly, a, b);
      ZeroBitsLinear(poly, n - 1, ZeroBit(poly, a), ZeroBit(poly, b));
    }
  }

  lemma {:induction false} ZeroBitsAdd(poly: Word, m: nat, n: nat, c: Word)
    ensures ZeroBits(poly, m + n, c) == ZeroBits(poly, n, ZeroBits(poly, m, c))
  {
    if m != 0 {
      ZeroBitsAdd(poly, m - 1, n, ZeroBit(poly, c));
    }
  }

  // ---- The register, reflected ----

  /** A data bit acts on the reflected register as the bit added at position 0, then a zero bit. */
  lemma ReflectShiftBit(r: Word, bit: bool)
    ensures Reflect(ShiftBit(r, bit))
         == ZeroBit(REVERSED_POLY, if bit then Xor(Reflect(r), 1) else Reflect(r))
  {
    ReflectTop(r);
    ReflectTwice(r);
    ReflectPoly();
    ReflectXor(Twice(r), POLY);
    XorComm(Half(Reflect(r)), REVERSED_POLY);
    if bit {
      OddXor(Reflect(r), 1);
      HalfXor(Reflect(r), 1);
      XorZero(Half(Reflect(r)));
    }
  }

  /** The bits of c from bit k on. */
  function DropBits(c: bv8, k: nat): bv8
    decreases k
  {
    if k == 0 then c else DropBits(c >> 1, k - 1)
  }

  lemma BitMaskZero(k: nat)
    requires k <= 8
    ensures Selects(0xff, BitMask(k)) <==> k != 8
  {
    assert BitMask(2) == 0x04;
    assert BitMask(4) == 0x10;
    assert BitMask(6) == 0x40;
    assert BitMask(8) == 0x00;
  }

  lemma MaskUp(c: bv8, m: bv8)
    ensures Selects(MaskTwice(m), c) == Selects(m, c >> 1)
  {
  }

  lemma {:induction false} BitAtDrop(c: bv8, k: nat)
    ensures BitAt(c, k) == (DropBits(c, k) & 1 == 1)
    ensures DropBits(c, k + 1) == DropBits(c, k) >> 1
    decreases k
  {
    if k != 0 {
      MaskUp(c, BitMask(k - 1));
      BitAtDrop(c >> 1, k - 1);
    }
  }

  lemma DropByte(c: bv8)
    ensures DropBits(c, 8) == 0
  {
    assert DropBits(c, 8) == DropBits(c >> 4, 4) by {
      assert DropBits(c, 8) == DropBits((c >> 1) >> 1, 6);
      assert DropBits(c >> 2, 6) == DropBits(((c >> 2) >> 1) >> 1, 4);
    }
    assert DropBits(c >> 4, 4) == DropBits(0, 0) by {
      assert DropBits(c >> 4, 4) == DropBits(((c >> 4) >> 1) >> 1, 2);
      assert DropBits(c >> 6, 2) == DropBits(((c >> 6) >> 1) >> 1, 0);
    }
  }

  lemma ByteSplit(c: bv8)
    ensures c as Word == if c & 1 == 1 then Xor(1, Twice((c >> 1) as Word)) else Twice((c >> 1) as Word)
    ensures Half(Twice((c >> 1) as Word)) == (c >> 1) as Word
    ensures !Odd(Twice((c >> 1) as Word))
  {
  }

  /** One data bit, with the rest of its byte still to be added to the register. */
  lemma ReflectByteStep(r: Word, d: bv8)
    ensures Xor(Reflect(ShiftBit(r, d & 1 == 1)), (d >> 1) as Word)
         == ZeroBit(REVERSED_POLY, Xor(Reflect(r), d as Word))
  {
    var bit := d & 1 == 1;
    var now := if bit then Xor(Reflect(r), 1) else Reflect(r);
    var rest := Twice((d >> 1) as Word);
    ReflectShiftBit(r, bit);
    assert Xor(Reflect(r), d as Word) == Xor(now, rest) by {
      ByteSplit(d);
      XorAssoc(Reflect(r), 1, rest);
    }
    assert ZeroBit(REVERSED_POLY, rest) == (d >> 1) as Word by {
      ByteSplit(d);
    }
    ZeroBitLinear(REVERSED_POLY, now, rest);
  }

  /** After k data bits, what is left of the byte is still to be added to the register. */
  lemma {:induction false} ReflectShiftBits(r: Word, c: bv8, k: nat)
    ensures Xor(Reflect(ShiftBits(r, c, k)), DropBits(c, k) as Word)
         == ZeroBits(REVERSED_POLY, k, Xor(Reflect(r), c as Word))
    decreases k
  {
    hide Reflect, Xor, ZeroBit, ShiftBit, BitAt;
    if k != 0 {
      ReflectShiftBits(r, c, k - 1);
      BitAtDrop(c, k - 1);
      ReflectByteStep(ShiftBits(r, c, k - 1), DropBits(c, k - 1));
      ZeroBitsAdd(REVERSED_POLY, k - 1, 1, Xor(Reflect(r), c as Word));
    }
  }

  /** The register of the reference routine, one data byte longer. */
  lemma ChecksumByte(crc: Word, data: Bytes, c: bv8)
    ensures Checksum(crc, data + [c]) == ZeroBits(REVERSED_POLY, 8, Xor(Checksum(crc, data), c as Word))
  {
    assert (data + [c])[..|data|] == data;
    ReflectShiftBits(Register(Reflect(crc), data), c, 8);
    DropByte(c);
    XorZero(Checksum(crc, data + [c]));
  }

  lemma ChecksumEmpty(crc: Word)
    ensures Checksum(crc, []) == crc
  {
    ReflectInvolution(crc);
  }

  /** A checksum may be continued block by block. */
  lemma {:induction false} ChecksumContinue(crc: Word, a: Bytes, b: Bytes)
    ensures Checksum(crc, a + b) == Checksum(Checksum(crc, a), b)
    decreases |b|
  {
    if b == [] {
      assert a + b == a;
      ChecksumEmpty(Checksum(crc, a));
    } else {
      var b', c := b[..|b| - 1], b[|b| - 1];
      assert b == b' + [c];
      assert a + b == (a + b') + [c];
      ChecksumContinue(crc, a, b');
      ChecksumByte(crc, a + b', c);
      ChecksumByte(Checksum(crc, a), b', c);
    }
  }

  /** The starting checksum and the data contribute independently. */
  lemma {:induction false} ChecksumSuperposition(crc: Word, data: Bytes)
    ensures Checksum(crc, data) == Xor(ZeroBits(REVERSED_POLY, 8 * |data|, crc), Checksum(0, data))
    decreases |data|
  {
    if data == [] {
      ChecksumEmpty(crc);
      ChecksumEmpty(0);
      XorZero(crc);
    } else {
      var data', c := data[..|data| - 1], data[|data| - 1];
      assert data == data' + [c];
      var z, k := ZeroBits(REVERSED_POLY, 8 * |data'|, crc), Checksum(0, data');
      ChecksumSuperposition(crc, data');
      ChecksumByte(crc, data', c);
      ChecksumByte(0, data', c);
      XorAssoc(z, k, c as Word);
      ZeroBitsLinear(REVERSED_POLY, 8, z, Xor(k, c as Word));
      ZeroBitsAdd(REVERSED_POLY, 8 * |data'|, 8, crc);
    }
  }

  /** What merging two checksums must compute. */
  lemma ChecksumConcat(crc: Word, a: Bytes, b: Bytes)
    ensures Checksum(crc, a + b)
         == Xor(ZeroBits(REVERSED_POLY, 8 * |b|, Checksum(crc, a)), Checksum(0, b))
  {
    ChecksumContinue(crc, a, b);
    ChecksumSuperposition(Checksum(crc, a), b);
  }

  // ---- The reference routine ----

  lemma RegisterByte(r: Word, data: Bytes, n: nat)
    requires n < |data|
    ensures Register(r, data[..n + 1]) == ShiftBits(Register(r, data[..n]), data[n], 8)
  {
    assert data[..n + 1][..n] == data[..n];
  }

  /** The inner loop: one byte, lowest bit first. */
  method FeedByte(entry: Word, c: bv8) returns (crc: Word)
    ensures crc == ShiftBits(entry, c, 8)
  {
    hide Twice, Xor, TopBit, Selects, MaskTwice;
    crc := entry;
    var i: bv8 := 0x01;
    ghost var k: nat := 0;
    BitMaskZero(k);
    while Selects(0xff, i)
      invariant k <= 8 && i == BitMask(k) && (Selects(0xff, i) <==> k != 8)
      invariant crc == ShiftBits(entry, c, k)
      decreases 8 - k
    {
      var bit := TopBit(crc);
      if Selects(i, c) {
        bit := !bit;
      }
      crc := Twice(crc);
      if bit {
        crc := Xor(crc, POLY);
      }
      i, k := MaskTwice(i), k + 1;
      BitMaskZero(k);
    }
  }

  method BitwiseCrc64(start: Word, data: Bytes) returns (result: Word)
    ensures result == Reflect(Register(start, data))
    ensures result == Checksum(Reflect(start), data)
  {
    var crc := start;
    var offset := 0;
    while offset < |data|
      invariant offset <= |data|
      invariant crc == Register(start, data[..offset])
    {
      RegisterByte(start, data, offset);
      crc := FeedByte(crc, data[offset]);
      offset := offset + 1;
    }
    assert data[..offset] == data;
    ReflectInvolution(start);
    result := Reflect(crc);
  }
}
