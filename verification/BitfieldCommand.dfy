/**
  The BITFIELD command: overflow checks, and the increments, assignments and reads that
  use them.

  Machine integers are unbounded integers brought back into 64 bits where the program's
  types do it.
*/
module BitfieldCommand {
  import opened Wrappers
  import opened Bitfield
  import opened Numbers

  const TWO63 := 0x8000_0000_0000_0000
  const TWO64 := 0x1_0000_0000_0000_0000

  type Word = x: int | 0 <= x < TWO64
  type Long = x: int | -TWO63 <= x < TWO63

  function U64(x: int): Word {
    x % TWO64
  }

  function I64(x: int): Long {
    if x % TWO64 >= TWO63 then x % TWO64 - TWO64 else x % TWO64
  }

  datatype Overflow = Wrap | Saturate | Fail

  /** What a check returns: 0, 1 or -1, and the limit it stores, if any. */
  datatype Verdict = Verdict(code: int, limit: Option<int>)

  // ---- Low bits ----

  /** The low bits of a 64-bit sum are the low bits of the sum. */
  lemma LowOfWord(x: int, bits: nat)
    requires bits <= 64
    ensures U64(x) % Pow2(bits) == x % Pow2(bits)
  {
    PowersOfTwo();
    var m, k := Pow2(bits), Pow2(64 - bits);
    Pow2Plus(bits, 64 - bits);
    var r := U64(x);
    QuotientParts(x, TWO64);
    QuotientParts(r, m);
    var a := k * (x / TWO64) + r / m;
    calc {
      x;
      m * k * (x / TWO64) + r;
      { Regroup(m, k, x / TWO64); }
      m * (k * (x / TWO64)) + (m * (r / m) + r % m);
      { Distribute(m, k * (x / TWO64), -(r / m)); Negate(m, r / m); }
      m * a + r % m;
    }
    RemainderUnique(x, m, a, r % m);
  }

  lemma Regroup(m: int, k: int, q: int)
    ensures m * k * q == m * (k * q)
  {
  }

  lemma Negate(m: int, q: int)
    ensures m * -q == -(m * q)
  {
  }

  // ---- What a field of a given type can hold ----

  predicate Width(signed: bool, bits: nat) {
    1 <= bits <= if signed then 64 else 63
  }

  function Max(signed: bool, bits: nat): int
    requires Width(signed, bits)
  {
    if signed then Pow2(bits - 1) - 1 else Pow2(bits) - 1
  }

  function Min(signed: bool, bits: nat): int
    requires Width(signed, bits)
  {
    if signed then 0 - Pow2(bits - 1) else 0
  }

  predicate Fits(signed: bool, bits: nat, x: int)
    requires Width(signed, bits)
  {
    Min(signed, bits) <= x <= Max(signed, bits)
  }

  function Clamped(signed: bool, bits: nat, x: int): int
    requires Width(signed, bits)
  {
    if x < Min(signed, bits) then Min(signed, bits) else if x > Max(signed, bits) then Max(signed, bits) else x
  }

  /** x brought into the range by a multiple of 2 to the bits. */
  function Wrapped(signed: bool, bits: nat, x: int): int
    requires Width(signed, bits)
  {
    var r := x % Pow2(bits);
    if signed && r >= Pow2(bits - 1) then r - Pow2(bits) else r
  }

  /** The wrapped value is the one value in range that is congruent to x. */
  lemma WrappedUnique(signed: bool, bits: nat, x: int, y: int)
    requires Width(signed, bits)
    ensures Fits(signed, bits, Wrapped(signed, bits, x))
    ensures Fits(signed, bits, y) && y % Pow2(bits) == x % Pow2(bits) <==> y == Wrapped(signed, bits, x)
  {
    var m := Pow2(bits);
    assert m == 2 * Pow2(bits - 1);
    QuotientParts(x, m);
    var w := Wrapped(signed, bits, x);
    var r := x % m;
    if w < 0 {
      assert w == m * -1 + r;
      RemainderUnique(w, m, -1, r);
    } else {
      SmallRemainder(w, m);
    }
    if Fits(signed, bits, y) && y % m == r {
      if y < 0 {
        assert y == m * -1 + (y + m);
        RemainderUnique(y, m, -1, y + m);
      } else {
        SmallRemainder(y, m);
      }
    }
  }

  /** The result of storing the exact number x under an overflow policy; none when it is refused. */
  function Outcome(signed: bool, bits: nat, policy: Overflow, x: int): Option<int>
    requires Width(signed, bits)
  {
    if Fits(signed, bits, x) then Some(x)
    else match policy
      case Wrap => Some(Wrapped(signed, bits, x))
      case Saturate => Some(Clamped(signed, bits, x))
      case Fail => None
  }

  // ---- The checks ----

  /** The lowest bits of a sum of 64-bit words. */
  function LowBits(x: int, bits: nat): int {
    U64(x) % Pow2(bits)
  }

  lemma LowBitsWrap(x: int, bits: nat)
    requires Width(false, bits)
    ensures LowBits(x, bits) == Wrapped(false, bits, x)
  {
    LowOfWord(x, bits);
  }

  function CheckUnsigned(value: Word, incr: Long, bits: nat, policy: Overflow): Verdict
    requires Width(false, bits)
  {
    var max := Pow2(bits) - 1;
    var maxincr := I64(max - value);
    var minincr := I64(0 - value);
    var wrapped := Verdict(1, Some(LowBits(value + incr, bits)));
    if value > max || (incr > 0 && incr > maxincr) then
      match policy
      case Wrap => wrapped
      case Saturate => Verdict(1, Some(max))
      case Fail => Verdict(1, None)
    else if incr < 0 && incr < minincr then
      match policy
      case Wrap => wrapped
      case Saturate => Verdict(-1, Some(0))
      case Fail => Verdict(-1, None)
    else Verdict(0, None)
  }

  /**
    The sum as an unsigned number, then its sign bit copied over all higher bits: those
    are set when it is set, and cleared when it is clear.
  */
  function SignedWrap(value: Long, incr: Long, bits: nat): Long
    requires Width(true, bits)
  {
    var sum := U64(U64(value) + U64(incr));
    var low := sum % Pow2(bits);
    if bits == 64 then I64(sum)
    else if low >= Pow2(bits - 1) then I64(low + (TWO64 - Pow2(bits)))
    else I64(low)
  }

  function CheckSigned(value: Long, incr: Long, bits: nat, policy: Overflow): Verdict
    requires Width(true, bits)
  {
    var max := if bits == 64 then TWO63 - 1 else Pow2(bits - 1) - 1;
    var min := -max - 1;
    var maxincr := I64(U64(max) - value);
    var minincr := I64(min - value);
    var wrapped := Verdict(1, Some(SignedWrap(value, incr, bits)));
    if value > max || (bits != 64 && incr > maxincr) || (value >= 0 && incr > 0 && incr > maxincr) then
      match policy
      case Wrap => wrapped
      case Saturate => Verdict(1, Some(max))
      case Fail => Verdict(1, None)
    else if value < min || (bits != 64 && incr < minincr) || (value < 0 && incr < 0 && incr < minincr) then
      match policy
      case Wrap => wrapped
      case Saturate => Verdict(-1, Some(min))
      case Fail => Verdict(-1, None)
    else Verdict(0, None)
  }

  lemma MaxBounds(signed: bool, bits: nat)
    requires Width(signed, bits)
    ensures 0 <= Max(signed, bits) < TWO63 && -TWO63 <= Min(signed, bits) <= 0
    ensures signed && bits < 64 ==> Max(signed, bits) < TWO63 / 2 && Min(signed, bits) >= -(TWO63 / 2)
    ensures signed && bits == 64 ==> Max(signed, bits) == TWO63 - 1
    ensures bits < 64 ==> Pow2(bits) <= TWO63
    ensures Pow2(bits) == 2 * Pow2(bits - 1)
  {
    PowersOfTwo();
    if signed {
      Pow2Grows(bits - 1, 63);
      if bits < 64 {
        Pow2Grows(bits - 1, 62);
        assert Pow2(63) == 2 * Pow2(62);
      }
    }
    if bits < 64 {
      Pow2Grows(bits, 63);
    }
  }

  lemma Within(x: int)
    ensures 0 <= x < TWO64 ==> U64(x) == x
    ensures -TWO63 <= x < TWO63 ==> I64(x) == x
    ensures TWO63 <= x < TWO64 ==> I64(x) == x - TWO64
    ensures -TWO64 <= x < -TWO63 ==> I64(x) == x + TWO64
  {
  }

  /** An increment of a value in range: flagged exactly when the sum does not fit. */
  lemma UnsignedIncrement(value: Word, incr: Long, bits: nat, policy: Overflow)
    requires Width(false, bits) && Fits(false, bits, value)
    ensures var v := CheckUnsigned(value, incr, bits, policy);
            && (v.code != 0 <==> !Fits(false, bits, value + incr))
            && (v.code != 0 ==> v.limit == Outcome(false, bits, policy, value + incr))
  {
    hide Pow2, U64, I64, LowBits, Wrapped;
    MaxBounds(false, bits);
    LowBitsWrap(value + incr, bits);
    Within(Pow2(bits) - 1 - value);
    Within(0 - value);
  }

  lemma SumAsWords(value: Long, incr: Long)
    ensures U64(U64(value) + U64(incr)) == U64(value + incr)
  {
  }

  lemma SignedWrapped(value: Long, incr: Long, bits: nat)
    requires Width(true, bits)
    ensures SignedWrap(value, incr, bits) == Wrapped(true, bits, value + incr)
  {
    PowersOfTwo();
    MaxBounds(true, bits);
    SumAsWords(value, incr);
    LowOfWord(value + incr, bits);
    var sum := U64(value + incr);
    var low := sum % Pow2(bits);
    QuotientParts(sum, Pow2(bits));
    hide Pow2, U64, I64;
    if bits == 64 {
      Within(sum);
      SmallRemainder(sum, TWO64);
    } else {
      Within(low);
      Within(low + (TWO64 - Pow2(bits)));
    }
  }

  lemma SignedIncrement(value: Long, incr: Long, bits: nat, policy: Overflow)
    requires Width(true, bits) && Fits(true, bits, value)
    ensures var v := CheckSigned(value, incr, bits, policy);
            && (v.code != 0 <==> !Fits(true, bits, value + incr))
            && (v.code != 0 ==> v.limit == Outcome(true, bits, policy, value + incr))
  {
    hide Pow2, U64, I64, SignedWrap, Wrapped;
    MaxBounds(true, bits);
    SignedWrapped(value, incr, bits);
    Within(Max(true, bits));
    Within(Max(true, bits) - value);
    Within(Min(true, bits) - value);
  }

  /**
    An assignment checks the given number with no increment, as a 64-bit unsigned number
    for an unsigned field.  It is flagged exactly when it does not fit, and stores what it
    should except when a negative number is to be saturated: that gives the maximum.
  */
  lemma UnsignedAssignment(arg: Long, bits: nat, policy: Overflow)
    requires Width(false, bits)
    ensures var v := CheckUnsigned(U64(arg), 0, bits, policy);
            && (v.code != 0 <==> !Fits(false, bits, arg))
            && (v.code != 0 ==>
                  (v.limit == Outcome(false, bits, policy, arg) <==> policy != Saturate || arg >= 0))
            && (v.code != 0 && policy == Saturate && arg < 0 ==> v.limit == Some(Max(false, bits)))
  {
    hide Pow2, I64, U64, LowBits, Wrapped;
    MaxBounds(false, bits);
    AssignedLow(arg, bits);
    AssignedWord(arg);
    var value: int := U64(arg);
    Within(value);
    Within(Pow2(bits) - 1 - value);
    Within(0 - value);
  }

  lemma AssignedWord(arg: Long)
    ensures U64(arg) == if arg < 0 then arg + TWO64 else arg
  {
  }

  lemma AssignedLow(arg: Long, bits: nat)
    requires Width(false, bits)
    ensures LowBits(U64(arg) + 0, bits) == Wrapped(false, bits, arg)
  {
    assert U64(U64(arg) + 0) == U64(arg);
    LowOfWord(arg, bits);
  }

  /** How far below the minimum a number may be before its distance from the maximum wraps. */
  predicate Reachable(bits: nat, arg: Long)
    requires Width(true, bits)
  {
    arg >= Max(true, bits) - (TWO63 - 1)
  }

  /**
    For a signed field an assignment saturates to the wrong end exactly when the given
    number is so low that its distance from the maximum does not fit in 64 bits.
  */
  lemma SignedAssignment(arg: Long, bits: nat, policy: Overflow)
    requires Width(true, bits)
    ensures var v := CheckSigned(arg, 0, bits, policy);
            && (v.code != 0 <==> !Fits(true, bits, arg))
            && (v.code != 0 ==>
                  (v.limit == Outcome(true, bits, policy, arg) <==> policy != Saturate || Reachable(bits, arg)))
            && (v.code != 0 && policy == Saturate && !Reachable(bits, arg) ==> v.limit == Some(Max(true, bits)))
  {
    hide Pow2, U64, I64, SignedWrap, Wrapped;
    MaxBounds(true, bits);
    SignedWrapped(arg, 0, bits);
    Within(Max(true, bits));
    Within(Max(true, bits) - arg);
    Within(Min(true, bits) - arg);
  }

  /** The lowest 64-bit number, saturated into a signed byte, becomes the highest. */
  lemma LowestSaturatesHigh()
    ensures CheckSigned(-TWO63, 0, 8, Saturate) == Verdict(1, Some(127))
    ensures Outcome(true, 8, Saturate, -TWO63) == Some(-128)
  {
    assert Pow2(4) == 16;
    Pow2Plus(4, 3);
  }

  // ---- The command on a buffer ----

  /** The field as its type reads it. */
  function FieldValue(p: seq<Byte>, offset: nat, signed: bool, bits: nat): int
    requires Width(signed, bits) && offset + bits <= 8 * |p|
  {
    Wrapped(signed, bits, Value(p, offset, bits))
  }

  /** The sign bit of the field is copied over all higher bits. */
  method GetSignedBitfield(p: array<Byte>, offset: nat, bits: nat) returns (value: Long)
    requires Width(true, bits) && offset + bits <= 8 * p.Length
    ensures value == FieldValue(p[..], offset, true, bits)
  {
    PowersOfTwo();
    MaxBounds(true, bits);
    var u := GetUnsignedBitfield(p, offset, bits);
    ValueBound(p[..], offset, bits);
    SmallRemainder(u, Pow2(bits));
    hide Pow2, Value;
    value := if u < TWO63 then u else u - TWO64;
    if bits < 64 && u >= Pow2(bits - 1) {
      Within(u + (TWO64 - Pow2(bits)));
      value := I64(u + (TWO64 - Pow2(bits)));
    }
  }

  method ReadField(p: array<Byte>, offset: nat, signed: bool, bits: nat) returns (value: int)
    requires Width(signed, bits) && offset + bits <= 8 * p.Length
    ensures value == FieldValue(p[..], offset, signed, bits)
  {
    if signed {
      value := GetSignedBitfield(p, offset, bits);
    } else {
      value := GetUnsignedBitfield(p, offset, bits);
      ValueBound(p[..], offset, bits);
      SmallRemainder(value, Pow2(bits));
    }
  }

  lemma FieldFits(p: seq<Byte>, offset: nat, signed: bool, bits: nat)
    requires Width(signed, bits) && offset + bits <= 8 * |p|
    ensures Fits(signed, bits, FieldValue(p, offset, signed, bits))
    ensures -TWO63 <= FieldValue(p, offset, signed, bits) < TWO63
  {
    WrappedUnique(signed, bits, Value(p, offset, bits), 0);
    MaxBounds(signed, bits);
  }

  /** A number in range, written through its 64-bit form, is read back as itself. */
  lemma FieldReadBack(p: seq<Byte>, offset: nat, signed: bool, bits: nat, x: int)
    requires Width(signed, bits) && offset + bits <= 8 * |p| && Fits(signed, bits, x)
    ensures FieldValue(Written(p, offset, bits, U64(x), bits), offset, signed, bits) == x
  {
    hide Value, Written, Pow2, U64, Fits;
    WriteThenRead(p, offset, bits, U64(x));
    LowOfWord(x, bits);
    RemainderAgain(x, Pow2(bits));
    WrappedUnique(signed, bits, x % Pow2(bits), x);
  }

  lemma RemainderAgain(x: int, m: nat)
    requires m > 0
    ensures x % m % m == x % m
  {
    QuotientParts(x, m);
    SmallRemainder(x % m, m);
  }

  /** The number an assignment stores; it differs from the outcome only as shown above. */
  function Assigned(signed: bool, bits: nat, policy: Overflow, arg: Long): Option<int>
    requires Width(signed, bits)
  {
    if !Fits(signed, bits, arg) && policy == Saturate && (if signed then !Reachable(bits, arg) else arg < 0)
    then Some(Max(signed, bits))
    else Outcome(signed, bits, policy, arg)
  }

  /** INCRBY: the reply is the new value, or nothing when the overflow policy refuses it. */
  method IncrementField(p: array<Byte>, offset: nat, signed: bool, bits: nat, policy: Overflow, incr: Long)
    returns (reply: Option<int>)
    requires Width(signed, bits) && offset + bits <= 8 * p.Length
    modifies p
    ensures reply == Outcome(signed, bits, policy, FieldValue(old(p[..]), offset, signed, bits) + incr)
    ensures reply.None? ==> p[..] == old(p[..])
    ensures reply.Some? ==>
              && p[..] == Written(old(p[..]), offset, bits, U64(reply.value), bits)
              && FieldValue(p[..], offset, signed, bits) == reply.value
  {
    hide FieldValue, CheckSigned, CheckUnsigned, Written, Wrapped, Clamped;
    var oldval := ReadField(p, offset, signed, bits);
    FieldFits(p[..], offset, signed, bits);
    MaxBounds(signed, bits);
    var verdict;
    if signed {
      SignedIncrement(oldval, incr, bits, policy);
      verdict := CheckSigned(oldval, incr, bits, policy);
    } else {
      UnsignedIncrement(oldval, incr, bits, policy);
      verdict := CheckUnsigned(oldval, incr, bits, policy);
    }
    if verdict.code != 0 && policy == Fail {
      return None;
    }
    var newval := if verdict.code != 0 then verdict.limit.value else oldval + incr;
    OutcomeFits(signed, bits, policy, oldval + incr);
    FieldReadBack(p[..], offset, signed, bits, newval);
    SetUnsignedBitfield(p, offset, bits, U64(newval));
    reply := Some(newval);
  }

  lemma OutcomeFits(signed: bool, bits: nat, policy: Overflow, x: int)
    requires Width(signed, bits)
    ensures Outcome(signed, bits, policy, x).Some? ==> Fits(signed, bits, Outcome(signed, bits, policy, x).value)
  {
    WrappedUnique(signed, bits, x, 0);
    MaxBounds(signed, bits);
  }

  /** SET: the reply is the old value, or nothing when the overflow policy refuses the new one. */
  method AssignField(p: array<Byte>, offset: nat, signed: bool, bits: nat, policy: Overflow, arg: Long)
    returns (reply: Option<int>)
    requires Width(signed, bits) && offset + bits <= 8 * p.Length
    modifies p
    ensures reply.Some? <==> Assigned(signed, bits, policy, arg).Some?
    ensures reply.None? ==> p[..] == old(p[..])
    ensures reply.Some? ==>
              && reply.value == FieldValue(old(p[..]), offset, signed, bits)
              && p[..] == Written(old(p[..]), offset, bits, U64(Assigned(signed, bits, policy, arg).value), bits)
              && FieldValue(p[..], offset, signed, bits) == Assigned(signed, bits, policy, arg).value
  {
    hide FieldValue, CheckSigned, CheckUnsigned, Written, Wrapped, Clamped;
    var oldval := ReadField(p, offset, signed, bits);
    MaxBounds(signed, bits);
    var verdict;
    if signed {
      SignedAssignment(arg, bits, policy);
      verdict := CheckSigned(arg, 0, bits, policy);
    } else {
      UnsignedAssignment(arg, bits, policy);
      verdict := CheckUnsigned(U64(arg), 0, bits, policy);
    }
    if verdict.code != 0 && policy == Fail {
      return None;
    }
    var newval := if verdict.code != 0 then verdict.limit.value else arg;
    OutcomeFits(signed, bits, policy, arg);
    FieldReadBack(p[..], offset, signed, bits, newval);
    SetUnsignedBitfield(p, offset, bits, U64(newval));
    reply := Some(oldval);
  }

  // ---- Reading past the end ----

  /** The buffer extended with enough zero bytes to hold the field. */
  function Extended(p: seq<Byte>, n: nat): seq<Byte> {
    p + seq(n, i => 0)
  }

  /** The copy of nine bytes from the one the field starts in, padded with zeroes. */
  ghost predicate CopiedFrom(p: seq<Byte>, first: nat, buf: seq<Byte>) {
    |buf| == 9 && forall i :: 0 <= i < 9 ==> buf[i] == Extended(p, first + 9)[first + i]
  }

  lemma SplitOffset(offset: nat, k: nat)
    ensures (offset + k) / 8 == offset / 8 + (offset % 8 + k) / 8
    ensures (offset + k) % 8 == (offset % 8 + k) % 8
  {
  }

  lemma CopiedBit(p: seq<Byte>, buf: seq<Byte>, offset: nat, k: nat)
    requires k < 64 && CopiedFrom(p, offset / 8, buf)
    ensures BitAt(buf, offset % 8 + k) == BitAt(Extended(p, offset / 8 + 9), offset + k)
  {
    hide Has;
    SplitOffset(offset, k);
    var i := (offset % 8 + k) / 8;
    assert buf[i] == Extended(p, offset / 8 + 9)[offset / 8 + i];
  }

  /** Nine bytes hold any field of up to 64 bits. */
  lemma {:induction false} NineBytes(p: seq<Byte>, buf: seq<Byte>, offset: nat, n: nat)
    requires n <= 64 && CopiedFrom(p, offset / 8, buf)
    ensures Value(buf, offset % 8, n) == Value(Extended(p, offset / 8 + 9), offset, n)
  {
    hide BitAt, CopiedFrom;
    if n > 0 {
      NineBytes(p, buf, offset, n - 1);
      CopiedBit(p, buf, offset, n - 1);
    }
  }

  /** GET: the field of the string extended with zeroes, read from a nine byte copy. */
  method GetField(src: seq<Byte>, offset: nat, signed: bool, bits: nat) returns (value: int)
    requires Width(signed, bits)
    ensures value == FieldValue(Extended(src, offset / 8 + 9), offset, signed, bits)
  {
    hide Value, Wrapped;
    var buf := new Byte[9](_ => 0);
    var byte := offset / 8;
    var i := 0;
    while i < 9 && i + byte < |src|
      invariant 0 <= i <= 9
      invariant forall k :: 0 <= k < i ==> byte + k < |src| && buf[k] == src[byte + k]
      invariant forall k :: i <= k < 9 ==> buf[k] == 0
    {
      buf[i] := src[i + byte];
      i := i + 1;
    }
    NineBytes(src, buf[..], offset, bits);
    value := ReadField(buf, offset - byte * 8, signed, bits);
  }
}
