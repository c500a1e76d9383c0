/**
  The BITOP command: bitwise operations over strings of different lengths.

  A string is modelled as the sequence of its bits, eight to a byte, so a byte or a word of
  memory is a slice of that sequence and a bitwise instruction works position by position.
  The program first works on blocks of four 64-bit words, as far as every string has data,
  then byte by byte with early exits.  Both are compared with a definition that looks at
  one bit position at a time.
*/
module BitOp {

  datatype Op = And | Or | Xor | Not | Diff | Diff1 | AndOr | One

  type Bits = seq<bool>

  const BYTE := 8
  const BLOCK := 32

  /** The operations that first gather all strings but the first one. */
  predicate Gathers(op: Op) {
    op in {Diff, Diff1, AndOr}
  }

  // ---- The meaning, one bit at a time ----

  /** The bits of all strings at one position; a string that is too short has a zero there. */
  function Column(src: seq<Bits>, p: nat): (col: Bits)
    ensures |col| == |src|
    ensures forall i :: 0 <= i < |src| ==> col[i] == (p < |src[i]| && src[i][p])
  {
    seq(|src|, i requires 0 <= i < |src| => p < |src[i]| && src[i][p])
  }

  function Ones(col: Bits): nat {
    if col == [] then 0 else Ones(col[..|col| - 1]) + if col[|col| - 1] then 1 else 0
  }

  predicate Meaning(op: Op, col: Bits)
    requires col != []
  {
    match op
    case And => Ones(col) == |col|
    case Or => Ones(col) > 0
    case Xor => Ones(col) % 2 == 1
    case Not => !col[0]
    case Diff => col[0] && Ones(col[1..]) == 0
    case Diff1 => !col[0] && Ones(col[1..]) > 0
    case AndOr => col[0] && Ones(col[1..]) > 0
    case One => Ones(col) == 1
  }

  lemma OnesNext(col: Bits, i: nat)
    requires i < |col|
    ensures Ones(col[..i + 1]) == Ones(col[..i]) + if col[i] then 1 else 0
  {
    assert col[..i + 1][..i] == col[..i];
  }

  lemma OnesNextGathered(col: Bits, i: nat)
    requires 1 <= i < |col|
    ensures Ones(col[1..i + 1]) == Ones(col[1..i]) + if col[i] then 1 else 0
  {
    assert col[1..i + 1][..i - 1] == col[1..i];
  }

  /** Later strings add at least no ones, and at most one each. */
  lemma {:induction false} OnesGrow(col: Bits, from: nat, i: nat)
    requires from <= i <= |col|
    ensures Ones(col[from..i]) <= Ones(col[from..]) <= Ones(col[from..i]) + (|col| - i)
    decreases |col| - i
  {
    if i < |col| {
      assert col[from..i + 1][..i - from] == col[from..i];
      OnesGrow(col, from, i + 1);
    } else {
      assert col[from..i] == col[from..];
    }
  }

  // ---- Bitwise instructions ----

  function AndBits(x: Bits, y: Bits): (r: Bits)
    requires |x| == |y|
    ensures |r| == |x| && forall i :: 0 <= i < |x| ==> r[i] == (x[i] && y[i])
  {
    seq(|x|, i requires 0 <= i < |x| => x[i] && y[i])
  }

  function OrBits(x: Bits, y: Bits): (r: Bits)
    requires |x| == |y|
    ensures |r| == |x| && forall i :: 0 <= i < |x| ==> r[i] == (x[i] || y[i])
  {
    seq(|x|, i requires 0 <= i < |x| => x[i] || y[i])
  }

  function XorBits(x: Bits, y: Bits): (r: Bits)
    requires |x| == |y|
    ensures |r| == |x| && forall i :: 0 <= i < |x| ==> r[i] == (x[i] != y[i])
  {
    seq(|x|, i requires 0 <= i < |x| => x[i] != y[i])
  }

  function NotBits(x: Bits): (r: Bits)
    ensures |r| == |x| && forall i :: 0 <= i < |x| ==> r[i] == !x[i]
  {
    seq(|x|, i requires 0 <= i < |x| => !x[i])
  }

  function Fill(n: nat, b: bool): (r: Bits)
    ensures |r| == n && forall i :: 0 <= i < n ==> r[i] == b
  {
    seq(n, _ => b)
  }

  // ---- Blocks of words ----

  /** One bit of the block after the first i strings. */
  predicate FastBit(op: Op, col: Bits, i: nat, acc: bool, common: bool)
    requires 1 <= i <= |col|
  {
    match op
    case And => acc == (Ones(col[..i]) == i)
    case Or => acc == (Ones(col[..i]) > 0)
    case Xor => acc == (Ones(col[..i]) % 2 == 1)
    case Not => acc == col[0]
    case One => acc == (Ones(col[..i]) % 2 == 1) && common == (Ones(col[..i]) >= 2)
    case _ => acc == (Ones(col[1..i]) > 0)
  }

  lemma FastStart(op: Op, col: Bits)
    requires col != []
    ensures FastBit(op, col, 1, if Gathers(op) then false else col[0], false)
  {
    OnesNext(col, 0);
    assert col[..0] == [] && col[1..1] == [];
  }

  /** The block's accumulators after one more string. */
  function FastStep(op: Op, acc: Bits, x: Bits): Bits
    requires |acc| == |x|
  {
    match op
    case And => AndBits(acc, x)
    case Or => OrBits(acc, x)
    case Xor => XorBits(acc, x)
    case Not => acc
    case One => XorBits(acc, x)
    case _ => OrBits(acc, x)
  }

  function FastCommon(op: Op, acc: Bits, common: Bits, x: Bits): Bits
    requires |acc| == |x| == |common|
  {
    if op == One then OrBits(common, AndBits(acc, x)) else common
  }

  lemma FastNext(op: Op, col: Bits, i: nat, acc: bool, common: bool)
    requires 1 <= i < |col| && FastBit(op, col, i, acc, common)
    ensures FastBit(op, col, i + 1, FastStep(op, [acc], [col[i]])[0], FastCommon(op, [acc], [common], [col[i]])[0])
  {
    OnesNext(col, i);
    OnesNextGathered(col, i);
    OnesBound(col[..i]);
  }

  lemma {:induction false} OnesBound(col: Bits)
    ensures Ones(col) <= |col|
    decreases |col|
  {
    if col != [] {
      OnesBound(col[..|col| - 1]);
    }
  }

  /** What the block holds once all strings went in, before the closing operation. */
  function FastClose(op: Op, first: Bits, acc: Bits, common: Bits): Bits
    requires |acc| == |first| == |common|
  {
    match op
    case Not => NotBits(acc)
    case Diff => AndBits(first, NotBits(acc))
    case Diff1 => AndBits(NotBits(first), acc)
    case AndOr => AndBits(first, acc)
    case One => AndBits(acc, NotBits(common))
    case _ => acc
  }

  lemma FastEnd(op: Op, col: Bits, acc: bool, common: bool)
    requires col != [] && FastBit(op, col, |col|, acc, common)
    ensures FastClose(op, [col[0]], [acc], [common])[0] == Meaning(op, col)
  {
    assert col[..|col|] == col && col[1..|col|] == col[1..];
  }

  /** Every instruction works position by position. */
  lemma FastPointwise(op: Op, acc: Bits, common: Bits, x: Bits, q: nat)
    requires |acc| == |common| == |x| && q < |x|
    ensures |FastStep(op, acc, x)| == |FastCommon(op, acc, common, x)| == |x|
    ensures FastStep(op, acc, x)[q] == FastStep(op, [acc[q]], [x[q]])[0]
    ensures FastCommon(op, acc, common, x)[q] == FastCommon(op, [acc[q]], [common[q]], [x[q]])[0]
  {
  }

  lemma ClosePointwise(op: Op, first: Bits, acc: Bits, common: Bits, q: nat)
    requires |acc| == |common| == |first| && q < |first|
    ensures |FastClose(op, first, acc, common)| == |first|
    ensures FastClose(op, first, acc, common)[q] == FastClose(op, [first[q]], [acc[q]], [common[q]])[0]
  {
  }

  type Bytes = s: Bits | |s| % BYTE == 0

  function Length(s: Bytes): nat {
    |s| / BYTE
  }

  /** Every position of the block, after the first i strings. */
  ghost predicate FastBlock(op: Op, src: seq<Bytes>, at: nat, i: nat, acc: Bits, common: Bits)
    requires 1 <= i <= |src|
  {
    && |acc| == |common| == BLOCK * BYTE
    && forall q :: 0 <= q < BLOCK * BYTE ==> FastBit(op, Column(src, at * BYTE + q), i, acc[q], common[q])
  }

  lemma FastBlockNext(op: Op, src: seq<Bytes>, at: nat, i: nat, acc: Bits, common: Bits, x: Bits)
    requires 1 <= i < |src| && FastBlock(op, src, at, i, acc, common)
    requires (at + BLOCK) * BYTE <= |src[i]| && x == src[i][at * BYTE..(at + BLOCK) * BYTE]
    ensures FastBlock(op, src, at, i + 1, FastStep(op, acc, x), FastCommon(op, acc, common, x))
  {
    hide FastBit, FastStep, FastCommon;
    FastPointwise(op, acc, common, x, 0);
    forall q | 0 <= q < BLOCK * BYTE
      ensures FastBit(op, Column(src, at * BYTE + q), i + 1, FastStep(op, acc, x)[q], FastCommon(op, acc, common, x)[q])
    {
      FastPointwise(op, acc, common, x, q);
      FastNext(op, Column(src, at * BYTE + q), i, acc[q], common[q]);
    }
  }

  lemma FastBlockEnd(op: Op, src: seq<Bytes>, at: nat, first: Bits, acc: Bits, common: Bits)
    requires src != [] && FastBlock(op, src, at, |src|, acc, common)
    requires (at + BLOCK) * BYTE <= |src[0]| && first == src[0][at * BYTE..(at + BLOCK) * BYTE]
    ensures var r := FastClose(op, first, acc, common);
            |r| == BLOCK * BYTE && forall q :: 0 <= q < |r| ==> r[q] == Meaning(op, Column(src, at * BYTE + q))
  {
    hide FastBit, FastClose, Meaning;
    ClosePointwise(op, first, acc, common, 0);
    forall q | 0 <= q < BLOCK * BYTE
      ensures FastClose(op, first, acc, common)[q] == Meaning(op, Column(src, at * BYTE + q))
    {
      ClosePointwise(op, first, acc, common, q);
      FastEnd(op, Column(src, at * BYTE + q), acc[q], common[q]);
    }
  }

  lemma FastBlockStart(op: Op, src: seq<Bytes>, at: nat, acc: Bits)
    requires src != [] && (at + BLOCK) * BYTE <= |src[0]|
    requires acc == if Gathers(op) then Fill(BLOCK * BYTE, false) else src[0][at * BYTE..(at + BLOCK) * BYTE]
    ensures FastBlock(op, src, at, 1, acc, Fill(BLOCK * BYTE, false))
  {
    hide FastBit;
    forall q | 0 <= q < BLOCK * BYTE
      ensures FastBit(op, Column(src, at * BYTE + q), 1, acc[q], false)
    {
      FastStart(op, Column(src, at * BYTE + q));
    }
  }

  /** All strings go into the four words of one block. */
  method CombineBlock(op: Op, src: seq<Bytes>, at: nat, start: Bits) returns (acc: Bits, common: Bits)
    requires src != [] && forall i :: 0 <= i < |src| ==> (at + BLOCK) * BYTE <= |src[i]|
    requires start == if Gathers(op) then Fill(BLOCK * BYTE, false) else src[0][at * BYTE..(at + BLOCK) * BYTE]
    ensures FastBlock(op, src, at, |src|, acc, common)
  {
    hide FastBlock, FastStep, FastCommon;
    acc, common := start, Fill(BLOCK * BYTE, false);
    FastBlockStart(op, src, at, acc);
    for i := 1 to |src|
      invariant FastBlock(op, src, at, i, acc, common)
    {
      var x := src[i][at * BYTE..(at + BLOCK) * BYTE];
      FastBlockNext(op, src, at, i, acc, common, x);
      BlockSize(op, src, at, i, acc, common);
      common, acc := FastCommon(op, acc, common, x), FastStep(op, acc, x);
    }
  }

  lemma BlockSize(op: Op, src: seq<Bytes>, at: nat, i: nat, acc: Bits, common: Bits)
    requires 1 <= i <= |src| && FastBlock(op, src, at, i, acc, common)
    ensures |acc| == |common| == BLOCK * BYTE
  {
  }

  /** Store words or a byte into the result. */
  method Store(res: array<bool>, at: nat, v: Bits)
    requires at * BYTE + |v| <= res.Length
    modifies res
    ensures forall p :: 0 <= p < res.Length ==>
              res[p] == if at * BYTE <= p < at * BYTE + |v| then v[p - at * BYTE] else old(res[p])
  {
    forall p | at * BYTE <= p < at * BYTE + |v| {
      res[p] := v[p - at * BYTE];
    }
  }

  /** What the word path leaves at one position of the part it is through with. */
  ghost predicate PassedBit(op: Op, closed: bool, col: Bits, r: bool)
    requires col != []
  {
    if closed then r == Meaning(op, col) else FastBit(op, col, |col|, r, false)
  }

  lemma BlockPassed(op: Op, src: seq<Bytes>, at: nat, acc: Bits, common: Bits, q: nat)
    requires src != [] && Gathers(op) && FastBlock(op, src, at, |src|, acc, common) && q < BLOCK * BYTE
    ensures PassedBit(op, false, Column(src, at * BYTE + q), acc[q])
  {
    assert FastBit(op, Column(src, at * BYTE + q), |src|, acc[q], common[q]);
  }

  lemma PassedBlock(op: Op, src: seq<Bytes>, at: nat, acc: Bits)
    requires src != [] && Gathers(op) && |acc| == BLOCK * BYTE
    requires forall q :: 0 <= q < |acc| ==> PassedBit(op, false, Column(src, at * BYTE + q), acc[q])
    ensures FastBlock(op, src, at, |src|, acc, Fill(BLOCK * BYTE, false))
  {
  }

  /** One block of the first pass: the operations that gather are closed only by the second. */
  method FirstPassBlock(op: Op, src: seq<Bytes>, at: nat, start: Bits) returns (r: Bits)
    requires src != [] && forall i :: 0 <= i < |src| ==> (at + BLOCK) * BYTE <= |src[i]|
    requires start == if Gathers(op) then Fill(BLOCK * BYTE, false) else src[0][at * BYTE..(at + BLOCK) * BYTE]
    ensures |r| == BLOCK * BYTE
    ensures forall q :: 0 <= q < |r| ==> PassedBit(op, !Gathers(op), Column(src, at * BYTE + q), r[q])
  {
    hide FastBlock, FastBit, Meaning;
    var acc, common := CombineBlock(op, src, at, start);
    BlockSize(op, src, at, |src|, acc, common);
    var first := src[0][at * BYTE..(at + BLOCK) * BYTE];
    if Gathers(op) {
      r := acc;
      forall q | 0 <= q < |r|
        ensures PassedBit(op, false, Column(src, at * BYTE + q), r[q])
      {
        BlockPassed(op, src, at, acc, common, q);
      }
    } else {
      r := FastClose(op, first, acc, common);
      FastBlockEnd(op, src, at, first, acc, common);
    }
  }

  /** The first pass over whole blocks, into a result that starts as a copy of the first string or as zeroes. */
  method FirstPass(op: Op, src: seq<Bytes>, res: array<bool>, minlen: nat) returns (done: nat)
    requires src != [] && forall i :: 0 <= i < |src| ==> minlen * BYTE <= |src[i]|
    requires minlen * BYTE <= res.Length && forall p :: 0 <= p < res.Length ==> !res[p]
    modifies res
    ensures done <= minlen < done + BLOCK && done % BLOCK == 0
    ensures forall p :: 0 <= p < done * BYTE ==> PassedBit(op, !Gathers(op), Column(src, p), res[p])
  {
    hide PassedBit;
    if !Gathers(op) {
      Store(res, 0, src[0][..minlen * BYTE]);
    }
    done := 0;
    while minlen - done >= BLOCK
      invariant done <= minlen && done % BLOCK == 0
      invariant forall p :: 0 <= p < done * BYTE ==> PassedBit(op, !Gathers(op), Column(src, p), res[p])
      invariant forall p :: done * BYTE <= p < minlen * BYTE ==> res[p] == (!Gathers(op) && src[0][p])
    {
      var start := res[done * BYTE..(done + BLOCK) * BYTE];
      assert start == if Gathers(op) then Fill(BLOCK * BYTE, false) else src[0][done * BYTE..(done + BLOCK) * BYTE];
      var r := FirstPassBlock(op, src, done, start);
      PassedMore(op, !Gathers(op), src, done, r);
      Store(res, done, r);
      done := done + BLOCK;
    }
  }

  lemma PassedMore(op: Op, closed: bool, src: seq<Bytes>, at: nat, r: Bits)
    requires src != [] && forall q :: 0 <= q < |r| ==> PassedBit(op, closed, Column(src, at * BYTE + q), r[q])
    ensures forall p :: at * BYTE <= p < at * BYTE + |r| ==> PassedBit(op, closed, Column(src, p), r[p - at * BYTE])
  {
    forall p | at * BYTE <= p < at * BYTE + |r|
      ensures PassedBit(op, closed, Column(src, p), r[p - at * BYTE])
    {
      var q := p - at * BYTE;
      assert p == at * BYTE + q;
    }
  }

  /** The second pass combines what was gathered with the first string. */
  method SecondPass(op: Op, src: seq<Bytes>, res: array<bool>, done: nat)
    requires src != [] && Gathers(op) && done % BLOCK == 0
    requires done * BYTE <= |src[0]| && done * BYTE <= res.Length
    requires forall p :: 0 <= p < done * BYTE ==> PassedBit(op, false, Column(src, p), res[p])
    modifies res
    ensures forall p :: 0 <= p < done * BYTE ==> PassedBit(op, true, Column(src, p), res[p])
  {
    hide PassedBit, FastClose, Meaning, FastBlock;
    var at := 0;
    while at < done
      invariant at <= done && at % BLOCK == 0
      invariant forall p :: 0 <= p < done * BYTE ==> PassedBit(op, p < at * BYTE, Column(src, p), res[p])
    {
      var gathered := res[at * BYTE..(at + BLOCK) * BYTE];
      var first := src[0][at * BYTE..(at + BLOCK) * BYTE];
      assert forall q :: 0 <= q < |gathered| ==> gathered[q] == res[at * BYTE + q];
      PassedBlock(op, src, at, gathered);
      FastBlockEnd(op, src, at, first, gathered, Fill(BLOCK * BYTE, false));
      var r := FastClose(op, first, gathered, Fill(BLOCK * BYTE, false));
      ClosedPassed(op, src, at, r);
      PassedMore(op, true, src, at, r);
      Store(res, at, r);
      at := at + BLOCK;
    }
  }

  lemma ClosedPassed(op: Op, src: seq<Bytes>, at: nat, r: Bits)
    requires src != [] && forall q :: 0 <= q < |r| ==> r[q] == Meaning(op, Column(src, at * BYTE + q))
    ensures forall q :: 0 <= q < |r| ==> PassedBit(op, true, Column(src, at * BYTE + q), r[q])
  {
  }

  /** The word path: every position of whole blocks has its meaning. */
  method WordPath(op: Op, src: seq<Bytes>, res: array<bool>, minlen: nat) returns (done: nat)
    requires src != [] && forall i :: 0 <= i < |src| ==> minlen * BYTE <= |src[i]|
    requires minlen * BYTE <= res.Length && forall p :: 0 <= p < res.Length ==> !res[p]
    modifies res
    ensures done <= minlen
    ensures forall p :: 0 <= p < done * BYTE ==> res[p] == Meaning(op, Column(src, p))
  {
    hide FastBit, Meaning;
    done := FirstPass(op, src, res, minlen);
    if Gathers(op) {
      SecondPass(op, src, res, done);
    }
  }

  // ---- Byte by byte ----

  function ByteOf(s: Bytes, j: nat): (b: Bits)
    ensures |b| == BYTE
    ensures forall q :: 0 <= q < BYTE ==> b[q] == (j * BYTE + q < |s| && s[j * BYTE + q])
  {
    if Length(s) <= j then Fill(BYTE, false) else s[j * BYTE..(j + 1) * BYTE]
  }

  /** One bit of the byte's three variables after the first i strings. */
  predicate SlowBit(op: Op, col: Bits, i: nat, output: bool, disjunction: bool, common: bool)
    requires 1 <= i <= |col|
  {
    match op
    case And => output == (Ones(col[..i]) == i)
    case Or => output == (Ones(col[..i]) > 0)
    case Xor => output == (Ones(col[..i]) % 2 == 1)
    case Not => output == !col[0]
    case One => output == (Ones(col[..i]) == 1) && common == (Ones(col[..i]) >= 2)
    case _ => output == col[0] && disjunction == (Ones(col[1..i]) > 0)
  }

  datatype Vars = Vars(output: Bits, disjunction: Bits, common: Bits)

  predicate Sized(v: Vars, n: nat) {
    |v.output| == |v.disjunction| == |v.common| == n
  }

  /** The byte's variables after one more string. */
  function SlowStep(op: Op, v: Vars, x: Bits): (r: Vars)
    requires Sized(v, |x|)
    ensures Sized(r, |x|)
  {
    match op
    case And => v.(output := AndBits(v.output, x))
    case Or => v.(output := OrBits(v.output, x))
    case Xor => v.(output := XorBits(v.output, x))
    case Not => v
    case One =>
      var common := OrBits(v.common, AndBits(v.output, x));
      v.(output := AndBits(XorBits(v.output, x), NotBits(common)), common := common)
    case _ => v.(disjunction := OrBits(v.disjunction, x))
  }

  /** The value stored once the strings are through. */
  function SlowClose(op: Op, v: Vars): (r: Bits)
    requires Sized(v, |v.output|)
    ensures |r| == |v.output|
  {
    match op
    case Diff => AndBits(v.output, NotBits(v.disjunction))
    case Diff1 => AndBits(NotBits(v.output), v.disjunction)
    case AndOr => AndBits(v.output, v.disjunction)
    case _ => v.output
  }

  /** No later string can change the byte any more. */
  predicate Skip(op: Op, v: Vars) {
    match op
    case And => v.output == Fill(|v.output|, false)
    case Or => v.output == Fill(|v.output|, true)
    case Xor => false
    case Not => false
    case One => v.common == Fill(|v.common|, true)
    case _ => v.disjunction == Fill(|v.disjunction|, true)
  }

  function At(v: Vars, q: nat): Vars
    requires Sized(v, |v.output|) && q < |v.output|
  {
    Vars([v.output[q]], [v.disjunction[q]], [v.common[q]])
  }

  lemma SlowPointwise(op: Op, v: Vars, x: Bits, q: nat)
    requires Sized(v, |x|) && q < |x|
    ensures At(SlowStep(op, v, x), q) == SlowStep(op, At(v, q), [x[q]])
    ensures SlowClose(op, v)[q] == SlowClose(op, At(v, q))[0]
    ensures Skip(op, v) ==> Skip(op, At(v, q))
  {
  }

  lemma SlowStart(op: Op, col: Bits)
    requires col != []
    ensures SlowBit(op, col, 1, if op == Not then !col[0] else col[0], false, false)
  {
    OnesNext(col, 0);
    assert col[..0] == [] && col[1..1] == [];
  }

  ghost predicate SlowAt(op: Op, col: Bits, i: nat, v: Vars)
    requires 1 <= i <= |col|
  {
    Sized(v, 1) && SlowBit(op, col, i, v.output[0], v.disjunction[0], v.common[0])
  }

  lemma SlowNext(op: Op, col: Bits, i: nat, v: Vars)
    requires 1 <= i < |col| && SlowAt(op, col, i, v)
    ensures SlowAt(op, col, i + 1, SlowStep(op, v, [col[i]]))
  {
    OnesNext(col, i);
    OnesNextGathered(col, i);
    OnesBound(col[..i]);
  }

  /** At the end, or as soon as the rest is skipped, the value is the meaning. */
  lemma SlowEnd(op: Op, col: Bits, i: nat, v: Vars)
    requires 1 <= i <= |col| && SlowAt(op, col, i, v) && (i == |col| || Skip(op, v))
    ensures SlowClose(op, v)[0] == Meaning(op, col)
  {
    OnesGrow(col, 0, i);
    OnesGrow(col, 1, i);
    OnesBound(col[..i]);
    assert col[0..] == col && col[0..i] == col[..i];
    if i == |col| {
      assert col[..i] == col && col[1..i] == col[1..];
    } else {
      SkippedBit(op, v);
    }
  }

  lemma SkippedBit(op: Op, v: Vars)
    requires Sized(v, 1) && Skip(op, v)
    ensures op == And ==> !v.output[0]
    ensures op == Or ==> v.output[0]
    ensures op == One ==> v.common[0]
    ensures Gathers(op) ==> v.disjunction[0]
    ensures op != Xor && op != Not
  {
  }

  ghost predicate SlowByte(op: Op, src: seq<Bytes>, j: nat, i: nat, v: Vars)
    requires 1 <= i <= |src|
  {
    Sized(v, BYTE) && forall q :: 0 <= q < BYTE ==> SlowAt(op, Column(src, j * BYTE + q), i, At(v, q))
  }

  lemma SlowByteNext(op: Op, src: seq<Bytes>, j: nat, i: nat, v: Vars)
    requires 1 <= i < |src| && SlowByte(op, src, j, i, v)
    ensures SlowByte(op, src, j, i + 1, SlowStep(op, v, ByteOf(src[i], j)))
  {
    hide SlowAt, SlowStep, At, ByteOf;
    var x := ByteOf(src[i], j);
    forall q | 0 <= q < BYTE
      ensures SlowAt(op, Column(src, j * BYTE + q), i + 1, At(SlowStep(op, v, x), q))
    {
      SlowPointwise(op, v, x, q);
      SlowNext(op, Column(src, j * BYTE + q), i, At(v, q));
    }
  }

  lemma SlowByteEnd(op: Op, src: seq<Bytes>, j: nat, i: nat, v: Vars)
    requires 1 <= i <= |src| && SlowByte(op, src, j, i, v) && (i == |src| || Skip(op, v))
    ensures |SlowClose(op, v)| == BYTE
    ensures forall q :: 0 <= q < BYTE ==> SlowClose(op, v)[q] == Meaning(op, Column(src, j * BYTE + q))
  {
    hide SlowAt, SlowStep, At, Meaning, SlowClose, Skip;
    forall q | 0 <= q < BYTE
      ensures SlowClose(op, v)[q] == Meaning(op, Column(src, j * BYTE + q))
    {
      SlowPointwise(op, v, Fill(BYTE, false), q);
      SlowEnd(op, Column(src, j * BYTE + q), i, At(v, q));
    }
  }

  lemma SlowByteStart(op: Op, src: seq<Bytes>, j: nat)
    requires src != []
    ensures var first := ByteOf(src[0], j);
            SlowByte(op, src, j, 1,
                     Vars(if op == Not then NotBits(first) else first, Fill(BYTE, false), Fill(BYTE, false)))
  {
    hide SlowBit;
    var first := ByteOf(src[0], j);
    var v := Vars(if op == Not then NotBits(first) else first, Fill(BYTE, false), Fill(BYTE, false));
    forall q | 0 <= q < BYTE
      ensures SlowAt(op, Column(src, j * BYTE + q), 1, At(v, q))
    {
      SlowStart(op, Column(src, j * BYTE + q));
    }
  }

  /** One byte of the result, leaving the loop over the strings as soon as nothing can change. */
  method CombineByte(op: Op, src: seq<Bytes>, j: nat) returns (r: Bits)
    requires src != []
    ensures |r| == BYTE
    ensures forall q :: 0 <= q < BYTE ==> r[q] == Meaning(op, Column(src, j * BYTE + q))
  {
    hide SlowByte, SlowStep, SlowClose, Skip, ByteOf, Meaning;
    var output := ByteOf(src[0], j);
    if op == Not {
      output := NotBits(output);
    }
    var v := Vars(output, Fill(BYTE, false), Fill(BYTE, false));
    SlowByteStart(op, src, j);
    var i := 1;
    var skip := false;
    while i < |src| && !skip
      invariant 1 <= i <= |src| && Sized(v, BYTE) && SlowByte(op, src, j, i, v)
      invariant skip ==> Skip(op, v)
    {
      SlowByteNext(op, src, j, i, v);
      v := SlowStep(op, v, ByteOf(src[i], j));
      skip := Skip(op, v);
      i := i + 1;
    }
    SlowByteEnd(op, src, j, i, v);
    r := SlowClose(op, v);
  }

  /** The bytes the word path left over. */
  method BytePath(op: Op, src: seq<Bytes>, res: array<bool>, done: nat, maxlen: nat)
    requires src != [] && done <= maxlen && maxlen * BYTE == res.Length
    requires forall p :: 0 <= p < done * BYTE ==> res[p] == Meaning(op, Column(src, p))
    modifies res
    ensures forall p :: 0 <= p < res.Length ==> res[p] == Meaning(op, Column(src, p))
  {
    hide Meaning;
    for j := done to maxlen
      invariant forall p :: 0 <= p < j * BYTE ==> res[p] == Meaning(op, Column(src, p))
    {
      var r := CombineByte(op, src, j);
      MeaningShifted(op, src, j, r);
      Store(res, j, r);
    }
  }

  lemma MeaningShifted(op: Op, src: seq<Bytes>, j: nat, r: Bits)
    requires src != [] && |r| == BYTE
    requires forall q :: 0 <= q < BYTE ==> r[q] == Meaning(op, Column(src, j * BYTE + q))
    ensures forall p :: j * BYTE <= p < j * BYTE + BYTE ==> r[p - j * BYTE] == Meaning(op, Column(src, p))
  {
    forall p | j * BYTE <= p < j * BYTE + BYTE
      ensures r[p - j * BYTE] == Meaning(op, Column(src, p))
    {
      var q := p - j * BYTE;
      assert p == j * BYTE + q;
    }
  }

  // ---- The command ----

  datatype Source = Missing | Text(bytes: Bytes) | OtherType

  datatype Reply = Stored(value: Bits) | NotNeedsOneKey | NeedsTwoKeys | WrongType

  /** A key that does not exist counts as an empty string. */
  function BytesOf(s: Source): Bytes {
    if s.Text? then s.bytes else []
  }

  function Strings(sources: seq<Source>): (src: seq<Bytes>)
    ensures |src| == |sources| && forall i :: 0 <= i < |src| ==> src[i] == BytesOf(sources[i])
  {
    seq(|sources|, i requires 0 <= i < |sources| => BytesOf(sources[i]))
  }

  /** Look the keys up, keeping the longest and the shortest length. */
  method Lookup(sources: seq<Source>) returns (ok: bool, src: seq<Bytes>, minlen: nat, maxlen: nat)
    requires sources != []
    ensures ok <==> OtherType !in sources
    ensures ok ==> src == Strings(sources)
    ensures ok ==> forall i :: 0 <= i < |src| ==> minlen <= Length(src[i]) <= maxlen
    ensures ok ==> exists i :: 0 <= i < |src| && Length(src[i]) == maxlen
    ensures ok ==> exists i :: 0 <= i < |src| && Length(src[i]) == minlen
  {
    src, minlen, maxlen := [], 0, 0;
    ghost var longest: nat, shortest: nat := 0, 0;
    for j := 0 to |sources|
      invariant OtherType !in sources[..j]
      invariant |src| == j && forall i :: 0 <= i < j ==> src[i] == BytesOf(sources[i])
      invariant forall i :: 0 <= i < j ==> minlen <= Length(src[i]) <= maxlen
      invariant j == 0 ==> maxlen == 0 && longest == 0
      invariant j > 0 ==> longest < j && Length(src[longest]) == maxlen
      invariant j > 0 ==> shortest < j && Length(src[shortest]) == minlen
    {
      match sources[j] {
        case Missing =>
          src, minlen := src + [[]], 0;
          shortest := j;
        case OtherType =>
          ok := false;
          return;
        case Text(s) =>
          src := src + [s];
          if Length(s) > maxlen {
            maxlen := Length(s);
            longest := j;
          }
          if j == 0 || Length(s) < minlen {
            minlen := Length(s);
            shortest := j;
          }
      }
    }
    assert sources[..|sources|] == sources;
    ok := true;
  }

  /**
    The command: the result is as long as the longest string, and each of its bits is the
    operation's meaning over the strings, the short ones extended with zeroes.
  */
  method Bitop(op: Op, sources: seq<Source>) returns (reply: Reply)
    requires sources != []
    ensures reply == NotNeedsOneKey <==> op == Not && |sources| != 1
    ensures reply == NeedsTwoKeys <==> Gathers(op) && |sources| < 2
    ensures reply == WrongType <==>
              OtherType in sources && !(op == Not && |sources| != 1) && !(Gathers(op) && |sources| < 2)
    ensures reply.Stored? ==>
              && var src := Strings(sources);
              && (forall i :: 0 <= i < |src| ==> |src[i]| <= |reply.value|)
              && (exists i :: 0 <= i < |src| && |src[i]| == |reply.value|)
              && forall p :: 0 <= p < |reply.value| ==> reply.value[p] == Meaning(op, Column(src, p))
  {
    hide Meaning;
    if op == Not && |sources| != 1 {
      return NotNeedsOneKey;
    }
    if Gathers(op) && |sources| < 2 {
      return NeedsTwoKeys;
    }
    var ok, src, minlen, maxlen := Lookup(sources);
    if !ok {
      return WrongType;
    }
    var res := new bool[maxlen * BYTE](_ => false);
    if maxlen > 0 {
      var done := 0;
      if minlen >= BLOCK {
        done := WordPath(op, src, res, minlen);
      }
      BytePath(op, src, res, done, maxlen);
    }
    reply := Stored(res[..]);
  }
}
