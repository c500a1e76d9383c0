/**
  The command log of the append-only file: its encoding, and the loader that
  replays it, queues the commands of a transaction until its EXEC, and cuts off a command
  or a transaction the file ends in.

  The loader is modelled with truncated files allowed and without an RDB preamble or unknown
  commands.
*/
module AofLoad {
  import opened Wrappers
  import opened Numbers

  type Bytes = seq<byte>
  type Command = seq<Bytes>

  const STAR: byte := 42
  const DOLLAR: byte := 36
  const HASH: byte := 35
  const CR: byte := 13
  const LF: byte := 10
  const CRLF: Bytes := [CR, LF]

  /** A line buffer takes at most this many bytes. */
  const LINE_MAX: nat := 1023

  // ---- Encoding ----

  function DigitByte(d: Digit): byte {
    48 + d as byte
  }

  function Digits(n: nat): Bytes {
    Decimal(n, DigitByte)
  }

  function Header(mark: byte, n: nat): Bytes {
    [mark] + Digits(n) + CRLF
  }

  function EncodeArgs(args: seq<Bytes>): Bytes {
    if args == [] then [] else Header(DOLLAR, |args[0]|) + args[0] + CRLF + EncodeArgs(args[1..])
  }

  function EncodeCommand(c: Command): Bytes {
    Header(STAR, |c|) + EncodeArgs(c)
  }

  function EncodeLog(log: seq<Command>): Bytes {
    if log == [] then [] else EncodeCommand(log[0]) + EncodeLog(log[1..])
  }

  // ---- Numbers ----

  predicate IsDigit(b: byte) {
    48 <= b <= 57
  }

  predicate IsSpace(b: byte) {
    b == 32 || 9 <= b <= 13
  }

  function ParseDigits(s: Bytes, acc: nat): nat
    decreases |s|
  {
    if s == [] || !IsDigit(s[0]) then acc else ParseDigits(s[1..], 10 * acc + (s[0] - 48) as nat)
  }

  /** The C conversion: leading blanks, a sign, digits. */
  function ParseInt(s: Bytes): int
    decreases |s|
  {
    if s == [] then 0
    else if IsSpace(s[0]) then ParseInt(s[1..])
    else if s[0] == 45 then -(ParseDigits(s[1..], 0) as int)
    else if s[0] == 43 then ParseDigits(s[1..], 0)
    else ParseDigits(s, 0)
  }

  const LONG_MAX := 0x7FFF_FFFF_FFFF_FFFF
  const INT_MAX := 0x7FFF_FFFF

  /** A 64-bit number; one that is out of range stops at the limit. */
  function Strtol(s: Bytes): int {
    var v := ParseInt(s);
    if v > LONG_MAX then LONG_MAX else if v < -LONG_MAX - 1 then -LONG_MAX - 1 else v
  }

  /** The low 32 bits of that number, as a signed number. */
  function Atoi(s: Bytes): int {
    var v := Strtol(s) % 0x1_0000_0000;
    if v > INT_MAX then v - 0x1_0000_0000 else v
  }

  /** A length is read into an unsigned word. */
  function ToUnsigned(n: int): nat {
    n % 0x1_0000_0000_0000_0000
  }

  // ---- Reading ----

  /** How many bytes a line read takes: up to and including a line feed, the end, or the buffer size. */
  function LineLength(file: Bytes, pos: nat, limit: nat): (n: nat)
    requires pos <= |file|
    ensures n <= limit && pos + n <= |file|
    decreases limit
  {
    if limit == 0 || pos == |file| then 0
    else if file[pos] == LF then 1
    else 1 + LineLength(file, pos + 1, limit - 1)
  }

  /** A read either gives a value and the next position, or ends cleanly, is cut short, or is malformed. */
  datatype Read<+T> = Got(value: T, next: nat) | End | Short | Bad

  function ReadArg(file: Bytes, pos: nat): (r: Read<Bytes>)
    requires pos <= |file|
    ensures r.Got? ==> pos < r.next <= |file|
  {
    var n := LineLength(file, pos, LINE_MAX);
    if n == 0 then Short
    else if file[pos] != DOLLAR then Bad
    else
      var len := ToUnsigned(Strtol(file[pos + 1..pos + n]));
      var p := pos + n;
      if len > 0 && p + len > |file| then Short
      else if p + len + 2 > |file| then Short
      else Got(file[p..p + len], p + len + 2)
  }

  function ReadArgs(file: Bytes, pos: nat, count: nat): (r: Read<Command>)
    requires pos <= |file|
    ensures r.Got? ==> pos <= r.next <= |file|
    decreases count
  {
    if count == 0 then Got([], pos)
    else
      match ReadArg(file, pos)
      case Got(a, p) =>
        (match ReadArgs(file, p, count - 1)
         case Got(rest, q) => Got([a] + rest, q)
         case End => End
         case Short => Short
         case Bad => Bad)
      case End => End
      case Short => Short
      case Bad => Bad
  }

  /** A command; an annotation line is skipped and gives an empty command. */
  function ReadCommand(file: Bytes, pos: nat): (r: Read<Command>)
    requires pos <= |file|
    ensures r.Got? ==> pos < r.next <= |file|
  {
    var n := LineLength(file, pos, LINE_MAX);
    if n == 0 then End
    else if file[pos] == HASH then Got([], pos + n)
    else if file[pos] != STAR then Bad
    else if n == 1 then Short
    else
      var argc := Atoi(file[pos + 1..pos + n]);
      if argc < 1 then Bad else ReadArgs(file, pos + n, argc)
  }

  // ---- Transactions ----

  function LowerByte(b: byte): byte {
    if 65 <= b <= 90 then b + 32 else b
  }

  /** The command has this name, given in lower case. */
  predicate Named(c: Command, name: Bytes) {
    c != [] && |c[0]| == |name| && forall i :: 0 <= i < |name| ==> LowerByte(c[0][i]) == name[i]
  }

  predicate IsMulti(c: Command) {
    Named(c, [109, 117, 108, 116, 105])
  }

  predicate IsExec(c: Command) {
    Named(c, [101, 120, 101, 99])
  }

  /**
    The commands that took effect, those waiting for an EXEC since the MULTI before them,
    the end of the last command, and where the last MULTI starts.
  */
  datatype Progress = Progress(done: seq<Command>, queue: Option<seq<Command>>, valid: nat, before: nat)

  const NOTHING_READ := Progress([], None, 0, 0)

  /** One more command, which ends at `next`. */
  function Advance(p: Progress, c: Command, next: nat): Progress {
    var before := if IsMulti(c) then p.valid else p.before;
    match p.queue
    case None =>
      if IsMulti(c) then Progress(p.done, Some([c]), next, before)
      else Progress(p.done + [c], None, next, before)
    case Some(q) =>
      if IsExec(c) then Progress(p.done + q + [c], None, next, before)
      else Progress(p.done, Some(q + [c]), next, before)
  }

  datatype Status = Empty | Loaded | Truncated | Failed

  /** The commands that took effect, with the MULTI and EXEC around a transaction, and the file that is left. */
  datatype Outcome = Outcome(status: Status, commands: seq<Command>, file: Bytes)

  /** Replay from a position. */
  function Replay(file: Bytes, pos: nat, p: Progress): Outcome
    requires p.before <= p.valid <= pos <= |file|
    decreases |file| - pos
  {
    match ReadCommand(file, pos)
    case End =>
      if p.queue.Some? then Outcome(Truncated, p.done, file[..p.before]) else Outcome(Loaded, p.done, file)
    case Short => Outcome(Truncated, p.done, file[..p.valid])
    case Bad => Outcome(Failed, p.done, file)
    case Got(c, next) =>
      if c == [] then Replay(file, next, p) else Replay(file, next, Advance(p, c, next))
  }

  function LoadFile(file: Bytes): Outcome {
    if file == [] then Outcome(Empty, [], file) else Replay(file, 0, NOTHING_READ)
  }

  // ---- What the file holds at a position ----

  /** The bytes s stand at pos. */
  ghost predicate At(file: Bytes, pos: nat, s: Bytes) {
    pos + |s| <= |file| && file[pos..pos + |s|] == s
  }

  /** The file ends inside the bytes s that start at pos. */
  ghost predicate Cut(file: Bytes, pos: nat, s: Bytes) {
    pos <= |file| < pos + |s| && file[pos..] == s[..|file| - pos]
  }

  lemma AtParts(file: Bytes, pos: nat, a: Bytes, b: Bytes)
    ensures At(file, pos, a + b) <==> At(file, pos, a) && At(file, pos + |a|, b)
  {
    if pos + |a + b| <= |file| {
      assert file[pos..pos + |a + b|] == file[pos..pos + |a|] + file[pos + |a|..pos + |a + b|];
      assert (a + b)[..|a|] == a && (a + b)[|a|..] == b;
    }
  }

  lemma CutParts(file: Bytes, pos: nat, a: Bytes, b: Bytes)
    requires Cut(file, pos, a + b)
    ensures if |file| < pos + |a| then Cut(file, pos, a) else At(file, pos, a) && Cut(file, pos + |a|, b)
  {
    if |file| < pos + |a| {
      assert (a + b)[..|file| - pos] == a[..|file| - pos];
    } else {
      assert file[pos..][..|a|] == a;
      assert file[pos + |a|..] == file[pos..][|a|..];
    }
  }

  // ---- Numbers ----

  predicate AllDigits(s: Bytes) {
    forall i :: 0 <= i < |s| ==> IsDigit(s[i])
  }

  lemma {:induction false} ParseAppend(a: Bytes, b: Bytes, acc: nat)
    requires AllDigits(a)
    ensures ParseDigits(a + b, acc) == ParseDigits(b, ParseDigits(a, acc))
    decreases |a|
  {
    if a == [] {
      assert a + b == b;
    } else {
      assert (a + b)[1..] == a[1..] + b;
      ParseAppend(a[1..], b, 10 * acc + (a[0] - 48) as nat);
    }
  }

  lemma {:induction false} DigitsParse(n: nat)
    ensures AllDigits(Digits(n)) && |Digits(n)| >= 1
    ensures ParseDigits(Digits(n), 0) == n
    ensures n >= 1 ==> Digits(n)[0] != 48
    decreases n
  {
    if n >= 10 {
      DigitsParse(n / 10);
      var d: Bytes := [DigitByte(n % 10)];
      assert Digits(n) == Digits(n / 10) + d;
      ParseAppend(Digits(n / 10), d, 0);
      assert d[1..] == [];
    } else {
      assert Digits(n)[1..] == [];
    }
  }

  lemma {:induction false} ParseGrows(s: Bytes, acc: nat)
    ensures ParseDigits(s, acc) >= acc
    decreases |s|
  {
    if s != [] && IsDigit(s[0]) {
      ParseGrows(s[1..], 10 * acc + (s[0] - 48) as nat);
    }
  }

  /** A number followed by its line end. */
  lemma NumberWhole(n: nat, rest: Bytes)
    requires rest == [] || !IsDigit(rest[0])
    ensures ParseInt(Digits(n) + rest) == n
  {
    DigitsParse(n);
    ParseAppend(Digits(n), rest, 0);
    var s := Digits(n) + rest;
    assert IsDigit(s[0]);
  }

  /** A positive number cut in the middle is still positive, and no larger. */
  lemma NumberCut(n: nat, k: nat)
    requires n >= 1 && 1 <= k <= |Digits(n) + [CR]|
    ensures 1 <= ParseInt((Digits(n) + [CR])[..k]) <= n
  {
    DigitsParse(n);
    var s := (Digits(n) + [CR])[..k];
    assert s[0] == Digits(n)[0] && IsDigit(s[0]);
    ParseGrows(s[1..], (s[0] - 48) as nat);
    CutNotLarger(n, k);
  }

  lemma CutNotLarger(n: nat, k: nat)
    requires 1 <= k <= |Digits(n) + [CR]|
    ensures ParseDigits((Digits(n) + [CR])[..k], 0) <= n
  {
    DigitsParse(n);
    hide Digits, ParseDigits;
    var s := (Digits(n) + [CR])[..k];
    if k <= |Digits(n)| {
      var a, b := Digits(n)[..k], Digits(n)[k..];
      assert s == a && Digits(n) == a + b;
      ParseAppend(a, b, 0);
      ParseGrows(b, ParseDigits(a, 0));
    } else {
      assert s == Digits(n) + [CR];
      ParseAppend(Digits(n), [CR], 0);
      NoDigit([CR], n);
    }
  }

  lemma NoDigit(s: Bytes, acc: nat)
    requires s != [] && !IsDigit(s[0])
    ensures ParseDigits(s, acc) == acc
  {
  }

  /** Numbers the program writes are in range when it reads them. */
  lemma InRange(s: Bytes)
    ensures 0 <= ParseInt(s) <= LONG_MAX ==> ToUnsigned(Strtol(s)) == ParseInt(s)
    ensures 0 <= ParseInt(s) <= INT_MAX ==> Atoi(s) == ParseInt(s)
  {
    hide ParseInt;
  }

  // ---- Lines ----

  lemma {:induction false} LineTo(file: Bytes, pos: nat, limit: nat, n: nat)
    requires pos + n <= |file| && n <= limit
    requires forall i :: pos <= i < pos + n - 1 ==> file[i] != LF
    requires n >= 1 ==> file[pos + n - 1] == LF || pos + n == |file|
    requires n == 0 ==> pos == |file|
    ensures LineLength(file, pos, limit) == n
    decreases limit
  {
    if n >= 2 {
      LineTo(file, pos + 1, limit - 1, n - 1);
    } else if n == 1 && file[pos] != LF {
      assert limit >= 1 && LineLength(file, pos + 1, limit - 1) == 0;
    }
  }

  /** A count short enough for the line buffer. */
  predicate FitsLine(n: nat) {
    |Digits(n)| <= 1000
  }

  lemma HeaderLine(mark: byte, n: nat)
    requires mark != LF
    ensures var h := Header(mark, n);
            && |h| == |Digits(n)| + 3 && h[0] == mark && h[|h| - 1] == LF
            && (forall i :: 0 <= i < |h| - 1 ==> h[i] != LF)
            && h[1..] == Digits(n) + CRLF
            && h[..|h| - 1][1..] == Digits(n) + [CR]
  {
    DigitsParse(n);
    var h := Header(mark, n);
    assert h[1..] == Digits(n) + CRLF;
    assert forall i :: 1 <= i <= |Digits(n)| ==> h[i] == Digits(n)[i - 1];
  }

  lemma HeaderWhole(file: Bytes, pos: nat, mark: byte, n: nat)
    requires At(file, pos, Header(mark, n)) && FitsLine(n) && mark != LF
    ensures var h := |Header(mark, n)|;
            && LineLength(file, pos, LINE_MAX) == h && h >= 2
            && file[pos] == mark && ParseInt(file[pos + 1..pos + h]) == n
  {
    hide Header, Digits, ParseInt, LineLength;
    HeaderLine(mark, n);
    var header := Header(mark, n);
    assert forall i :: pos <= i < pos + |header| ==> file[i] == file[pos..pos + |header|][i - pos];
    LineTo(file, pos, LINE_MAX, |header|);
    assert file[pos + 1..pos + |header|] == file[pos..pos + |header|][1..];
    NumberWhole(n, CRLF);
  }

  lemma HeaderCut(file: Bytes, pos: nat, mark: byte, n: nat)
    requires Cut(file, pos, Header(mark, n)) && FitsLine(n) && mark != LF && pos < |file|
    ensures LineLength(file, pos, LINE_MAX) == |file| - pos && file[pos] == mark
    ensures |file| - pos >= 2 && n >= 1 ==> 1 <= ParseInt(file[pos + 1..]) <= n
  {
    hide Header, Digits, ParseInt, LineLength;
    HeaderLine(mark, n);
    var header := Header(mark, n);
    var k := |file| - pos;
    assert forall i :: pos <= i < |file| ==> file[i] == file[pos..][i - pos];
    LineTo(file, pos, LINE_MAX, k);
    if k >= 2 && n >= 1 {
      assert file[pos + 1..] == file[pos..][1..] == header[..k][1..];
      assert header[..k][1..] == header[..|header| - 1][1..][..k - 1];
      NumberCut(n, k - 1);
    }
  }

  // ---- Arguments and commands, whole and cut ----

  /** Lengths and counts that the encoder can produce. */
  ghost predicate Encodable(c: Command) {
    && 1 <= |c| <= INT_MAX
    && forall a :: a in c ==> EncodableArg(a)
  }

  predicate EncodableArg(a: Bytes) {
    |a| <= LONG_MAX
  }

  function EncodeArg(a: Bytes): Bytes {
    Header(DOLLAR, |a|) + (a + CRLF)
  }

  lemma EncodeArgsFirst(args: seq<Bytes>)
    requires args != []
    ensures EncodeArgs(args) == EncodeArg(args[0]) + EncodeArgs(args[1..])
  {
  }

  lemma ArgWhole(file: Bytes, pos: nat, a: Bytes)
    requires At(file, pos, EncodeArg(a)) && EncodableArg(a)
    ensures ReadArg(file, pos) == Got(a, pos + |EncodeArg(a)|)
  {
    hide Header, Digits, ParseInt, Strtol, ToUnsigned, LineLength, FitsLine;
    AtParts(file, pos, Header(DOLLAR, |a|), a + CRLF);
    AtParts(file, pos + |Header(DOLLAR, |a|)|, a, CRLF);
    CountsFit(|a|);
    HeaderWhole(file, pos, DOLLAR, |a|);
    InRange(file[pos + 1..pos + |Header(DOLLAR, |a|)|]);
  }

  lemma ArgCut(file: Bytes, pos: nat, a: Bytes)
    requires Cut(file, pos, EncodeArg(a)) && EncodableArg(a)
    ensures ReadArg(file, pos) == Short
  {
    hide Header, Digits, ParseInt, Strtol, ToUnsigned, FitsLine;
    var h := Header(DOLLAR, |a|);
    CutParts(file, pos, h, a + CRLF);
    CountsFit(|a|);
    if |file| >= pos + |h| {
      HeaderWhole(file, pos, DOLLAR, |a|);
      InRange(file[pos + 1..pos + |h|]);
    } else if pos < |file| {
      HeaderCut(file, pos, DOLLAR, |a|);
    }
  }

  lemma {:induction false} ArgsWhole(file: Bytes, pos: nat, args: seq<Bytes>)
    requires At(file, pos, EncodeArgs(args)) && forall a :: a in args ==> EncodableArg(a)
    ensures ReadArgs(file, pos, |args|) == Got(args, pos + |EncodeArgs(args)|)
    decreases |args|
  {
    hide EncodeArg, EncodableArg, ReadArg;
    if args != [] {
      assert args[0] in args && forall a :: a in args[1..] ==> a in args;
      EncodeArgsFirst(args);
      AtParts(file, pos, EncodeArg(args[0]), EncodeArgs(args[1..]));
      ArgWhole(file, pos, args[0]);
      ArgsWhole(file, pos + |EncodeArg(args[0])|, args[1..]);
      assert [args[0]] + args[1..] == args;
    }
  }

  lemma {:induction false} ArgsCut(file: Bytes, pos: nat, args: seq<Bytes>)
    requires Cut(file, pos, EncodeArgs(args)) && forall a :: a in args ==> EncodableArg(a)
    ensures ReadArgs(file, pos, |args|) == Short
    decreases |args|
  {
    hide EncodeArg, EncodableArg, ReadArg;
    assert args != [];
    assert args[0] in args && forall a :: a in args[1..] ==> a in args;
    EncodeArgsFirst(args);
    CutParts(file, pos, EncodeArg(args[0]), EncodeArgs(args[1..]));
    if |file| < pos + |EncodeArg(args[0])| {
      ArgCut(file, pos, args[0]);
    } else {
      ArgWhole(file, pos, args[0]);
      ArgsCut(file, pos + |EncodeArg(args[0])|, args[1..]);
    }
  }

  lemma CommandWhole(file: Bytes, pos: nat, c: Command)
    requires At(file, pos, EncodeCommand(c)) && Encodable(c)
    ensures ReadCommand(file, pos) == Got(c, pos + |EncodeCommand(c)|)
  {
    hide Header, Digits, ParseInt, Atoi, LineLength, FitsLine, EncodeArgs, ReadArgs, EncodableArg;
    AtParts(file, pos, Header(STAR, |c|), EncodeArgs(c));
    CountsFit(|c|);
    HeaderWhole(file, pos, STAR, |c|);
    InRange(file[pos + 1..pos + |Header(STAR, |c|)|]);
    ArgsWhole(file, pos + |Header(STAR, |c|)|, c);
  }

  /** Wherever the file is cut, even inside a count, the command reads as cut short. */
  lemma CommandCut(file: Bytes, pos: nat, c: Command)
    requires Cut(file, pos, EncodeCommand(c)) && Encodable(c) && pos < |file|
    ensures ReadCommand(file, pos) == Short
  {
    hide Header, Digits, ParseInt, Atoi, LineLength, FitsLine, EncodeArgs, ReadArgs, EncodableArg;
    var h := Header(STAR, |c|);
    CutParts(file, pos, h, EncodeArgs(c));
    CountsFit(|c|);
    if |file| >= pos + |h| {
      HeaderWhole(file, pos, STAR, |c|);
      InRange(file[pos + 1..pos + |h|]);
      ArgsCut(file, pos + |h|, c);
    } else {
      HeaderCut(file, pos, STAR, |c|);
      if |file| - pos >= 2 {
        assert file[pos + 1..pos + (|file| - pos)] == file[pos + 1..];
        InRange(file[pos + 1..]);
        NoArgsLeft(file, Atoi(file[pos + 1..]));
      }
    }
  }

  lemma NoArgsLeft(file: Bytes, count: nat)
    requires count >= 1
    ensures ReadArgs(file, |file|, count) == Short
  {
  }

  // ---- Whole logs ----

  ghost predicate EncodableLog(log: seq<Command>) {
    forall c :: c in log ==> Encodable(c)
  }

  /** How many commands lie wholly within the first k bytes of the log. */
  function WholeCommands(log: seq<Command>, k: nat): (n: nat)
    ensures n <= |log|
    decreases |log|
  {
    if log == [] || k < |EncodeCommand(log[0])| then 0
    else 1 + WholeCommands(log[1..], k - |EncodeCommand(log[0])|)
  }

  /** That count is the largest n whose first n commands fit. */
  lemma {:induction false} WholeCommandsMaximal(log: seq<Command>, k: nat)
    ensures var n := WholeCommands(log, k);
            && |EncodeLog(log[..n])| <= k
            && (n < |log| ==> k < |EncodeLog(log[..n + 1])|)
    decreases |log|
  {
    hide EncodeCommand;
    if log != [] {
      var e := |EncodeCommand(log[0])|;
      if k >= e {
        WholeCommandsMaximal(log[1..], k - e);
        var n := WholeCommands(log[1..], k - e);
        assert log[..n + 1][1..] == log[1..][..n];
        if n + 1 < |log| {
          assert log[..n + 2][1..] == log[1..][..n + 1];
        }
      } else {
        assert log[..1][1..] == [];
      }
    }
  }

  lemma {:induction false} EncodeAppend(log: seq<Command>, c: Command)
    ensures EncodeLog(log + [c]) == EncodeLog(log) + EncodeCommand(c)
    decreases |log|
  {
    hide EncodeCommand;
    if log == [] {
      assert log + [c] == [c] && [c][1..] == [];
    } else {
      assert (log + [c])[1..] == log[1..] + [c];
      EncodeAppend(log[1..], c);
    }
  }

  lemma {:induction false} LogPrefix(log: seq<Command>, n: nat)
    requires n <= |log|
    ensures |EncodeLog(log[..n])| <= |EncodeLog(log)|
    ensures EncodeLog(log)[..|EncodeLog(log[..n])|] == EncodeLog(log[..n])
    decreases n
  {
    hide EncodeCommand;
    if n > 0 {
      LogPrefix(log[1..], n - 1);
      assert log[..n][1..] == log[1..][..n - 1];
    }
  }

  // ---- Logs with transactions ----

  /** The log ends inside a transaction. */
  predicate InBlock(log: seq<Command>) {
    log != []
    && if InBlock(log[..|log| - 1]) then !IsExec(log[|log| - 1]) else IsMulti(log[|log| - 1])
  }

  /** How many commands took effect: all of them up to the last point outside a transaction. */
  function Settled(log: seq<Command>): (m: nat)
    ensures m <= |log|
  {
    if InBlock(log) then Settled(log[..|log| - 1]) else |log|
  }

  /** How many commands come before the last MULTI. */
  function BeforeMulti(log: seq<Command>): (m: nat)
    ensures m <= |log|
  {
    if log == [] then 0
    else if IsMulti(log[|log| - 1]) then |log| - 1
    else BeforeMulti(log[..|log| - 1])
  }

  /** The progress of the loader after a log. */
  function Reached(log: seq<Command>): Progress {
    var m := Settled(log);
    Progress(log[..m], if InBlock(log) then Some(log[m..]) else None, |EncodeLog(log)|,
             |EncodeLog(log[..BeforeMulti(log)])|)
  }

  lemma BlockNext(log: seq<Command>, c: Command)
    ensures InBlock(log + [c]) == if InBlock(log) then !IsExec(c) else IsMulti(c)
    ensures Settled(log + [c]) == if InBlock(log + [c]) then Settled(log) else |log| + 1
    ensures BeforeMulti(log + [c]) == if IsMulti(c) then |log| else BeforeMulti(log)
    ensures !InBlock(log) ==> Settled(log) == |log|
  {
    hide IsMulti, IsExec;
    var more := log + [c];
    assert more[..|more| - 1] == log && more[|more| - 1] == c;
  }

  lemma Parts(log: seq<Command>, c: Command, m: nat)
    requires m <= |log|
    ensures (log + [c])[..m] == log[..m] && log[..m] + log[m..] == log
    ensures (log + [c])[m..] == log[m..] + [c] && (log + [c])[..|log| + 1] == log + [c]
    ensures (log + [c])[|log|..] == [c] && log[..|log|] == log
  {
  }

  lemma ReachedNext(log: seq<Command>, c: Command)
    ensures Reached(log + [c]) == Advance(Reached(log), c, |EncodeLog(log + [c])|)
  {
    hide EncodeLog, IsMulti, IsExec, InBlock, Settled, BeforeMulti;
    BlockNext(log, c);
    Parts(log, c, Settled(log));
    Parts(log, c, BeforeMulti(log));
    Parts(log, c, |log|);
  }

  lemma ReachedNothing()
    ensures Reached([]) == NOTHING_READ
  {
  }

  lemma {:induction false} SettledOutside(log: seq<Command>)
    ensures !InBlock(log[..Settled(log)])
    ensures Settled(log[..Settled(log)]) == Settled(log)
    decreases |log|
  {
    var m := Settled(log);
    if InBlock(log) {
      var init := log[..|log| - 1];
      SettledOutside(init);
      assert init[..m] == log[..m];
    } else {
      assert log[..m] == log;
    }
  }

  /** What loading the first k bytes of a log gives. */
  function Expected(log: seq<Command>, k: nat): Outcome
    requires k <= |EncodeLog(log)|
  {
    var n := WholeCommands(log, k);
    var p := Reached(log[..n]);
    if p.valid < k then Outcome(Truncated, p.done, EncodeLog(log[..n]))
    else if p.queue.Some? then Outcome(Truncated, p.done, EncodeLog(log[..BeforeMulti(log[..n])]))
    else Outcome(Loaded, p.done, EncodeLog(log[..n]))
  }

  /** The bytes of a log up to its i-th command, and that command. */
  lemma CommandAt(log: seq<Command>, i: nat)
    requires i < |log|
    ensures log[..i + 1] == log[..i] + [log[i]]
    ensures EncodeLog(log[..i + 1]) == EncodeLog(log[..i]) + EncodeCommand(log[i])
    ensures |EncodeLog(log[..i + 1])| <= |EncodeLog(log)|
    ensures EncodeLog(log)[..|EncodeLog(log[..i + 1])|] == EncodeLog(log[..i + 1])
  {
    hide EncodeLog, EncodeCommand;
    assert log[..i + 1] == log[..i] + [log[i]];
    EncodeAppend(log[..i], log[i]);
    LogPrefix(log, i + 1);
  }

  lemma PrefixShorter(log: seq<Command>, m: nat, n: nat)
    requires m <= n <= |log|
    ensures |EncodeLog(log[..m])| <= |EncodeLog(log[..n])|
    ensures EncodeLog(log[..n])[..|EncodeLog(log[..m])|] == EncodeLog(log[..m])
  {
    LogPrefix(log[..n], m);
    assert log[..n][..m] == log[..m];
  }

  /** The count of whole commands is the only one that fits. */
  lemma WholeUnique(log: seq<Command>, k: nat, n: nat)
    requires n <= |log| && |EncodeLog(log[..n])| <= k && (n < |log| ==> k < |EncodeLog(log[..n + 1])|)
    ensures WholeCommands(log, k) == n
  {
    var m := WholeCommands(log, k);
    WholeCommandsMaximal(log, k);
    hide EncodeLog, WholeCommands;
    if m < n {
      PrefixShorter(log, m + 1, n);
    } else if n < m {
      PrefixShorter(log, n + 1, m);
    }
  }

  /** A command that lies within the first k bytes stands there; one that does not is cut. */
  lemma CommandStands(log: seq<Command>, k: nat, i: nat)
    requires i < |log| && k <= |EncodeLog(log)| && |EncodeLog(log[..i])| <= k
    ensures var file, pos, e := EncodeLog(log)[..k], |EncodeLog(log[..i])|, EncodeCommand(log[i]);
            if |EncodeLog(log[..i + 1])| <= k then At(file, pos, e) else Cut(file, pos, e)
  {
    hide EncodeLog, EncodeCommand;
    CommandAt(log, i);
    var all, pos, e := EncodeLog(log), |EncodeLog(log[..i])|, EncodeCommand(log[i]);
    assert all[..pos + |e|][pos..] == e;
    if pos + |e| <= k {
      assert all[..k][pos..pos + |e|] == all[..pos + |e|][pos..];
    } else {
      assert all[..k][pos..] == all[..pos + |e|][pos..][..k - pos];
    }
  }

  lemma {:induction false} ReplayLog(log: seq<Command>, k: nat, i: nat)
    requires EncodableLog(log) && k <= |EncodeLog(log)| && i <= WholeCommands(log, k)
    ensures |EncodeLog(log[..i])| <= k
    ensures Reached(log[..i]).before <= Reached(log[..i]).valid
    ensures Replay(EncodeLog(log)[..k], |EncodeLog(log[..i])|, Reached(log[..i])) == Expected(log, k)
    decreases WholeCommands(log, k) - i
  {
    hide EncodeLog, EncodeCommand, WholeCommands, ReadCommand, Encodable, Advance, Settled, InBlock, BeforeMulti;
    var n, file, pos := WholeCommands(log, k), EncodeLog(log)[..k], |EncodeLog(log[..i])|;
    WholeCommandsMaximal(log, k);
    PrefixShorter(log, i, n);
    ReachedBefore(log, i);
    if i < n {
      PrefixShorter(log, i + 1, n);
      CommandStands(log, k, i);
      CommandAt(log, i);
      CommandWhole(file, pos, log[i]);
      EncodableNotEmpty(log[i]);
      ReachedNext(log[..i], log[i]);
      ReplayLog(log, k, i + 1);
    } else {
      LogPrefix(log, n);
      PrefixShorter(log, BeforeMulti(log[..n]), n);
      assert log[..n][..BeforeMulti(log[..n])] == log[..BeforeMulti(log[..n])];
      KeptBytes(log, k, n);
      KeptBytes(log, k, BeforeMulti(log[..n]));
      assert log[..|log|] == log;
      if pos < k {
        CommandStands(log, k, i);
        CommandCut(file, pos, log[i]);
      } else {
        NothingLeft(file, log);
      }
    }
  }

  lemma ReachedBefore(log: seq<Command>, i: nat)
    requires i <= |log|
    ensures Reached(log[..i]).before <= Reached(log[..i]).valid
  {
    hide EncodeLog;
    LogPrefix(log[..i], BeforeMulti(log[..i]));
  }

  lemma KeptBytes(log: seq<Command>, k: nat, m: nat)
    requires m <= |log| && |EncodeLog(log[..m])| <= k <= |EncodeLog(log)|
    ensures EncodeLog(log)[..k][..|EncodeLog(log[..m])|] == EncodeLog(log[..m])
  {
    hide EncodeLog;
    LogPrefix(log, m);
    assert EncodeLog(log)[..k][..|EncodeLog(log[..m])|] == EncodeLog(log)[..|EncodeLog(log[..m])|];
  }

  lemma EncodableNotEmpty(c: Command)
    requires Encodable(c)
    ensures c != []
  {
  }

  lemma NothingLeft(file: Bytes, log: seq<Command>)
    ensures ReadCommand(file, |file|) == End
    ensures WholeCommands(log, 0) == 0
  {
    if log != [] {
      assert |EncodeCommand(log[0])| > 0;
    }
  }

  /**
    Loading any byte prefix of any command log.  What takes effect are the commands that lie
    wholly within it, up to the last point outside a transaction.  What is left of the file
    are all the whole commands if it ends inside a command; if it ends inside a transaction
    but not inside a command, those before the last MULTI.
  */
  lemma LoadPrefix(log: seq<Command>, k: nat)
    requires EncodableLog(log) && 0 < k <= |EncodeLog(log)|
    ensures var o, read := LoadFile(EncodeLog(log)[..k]), log[..WholeCommands(log, k)];
            var cut := |EncodeLog(read)| < k;
            && o.status == (if cut || InBlock(read) then Truncated else Loaded)
            && o.commands == read[..Settled(read)]
            && o.file == EncodeLog(if !cut && InBlock(read) then read[..BeforeMulti(read)] else read)
  {
    hide EncodeLog, WholeCommands, Replay, EncodableLog, InBlock, Settled, BeforeMulti;
    var n := WholeCommands(log, k);
    ReplayLog(log, k, 0);
    assert log[..0] == [];
    ReachedNothing();
    LogPrefix([], 0);
    EncodeNothing();
    assert log[..n][..BeforeMulti(log[..n])] == log[..BeforeMulti(log[..n])];
  }

  lemma EncodeNothing()
    ensures EncodeLog([]) == []
  {
  }

  /** What loading a whole log gives, inside a transaction or not. */
  lemma LoadAll(log: seq<Command>)
    requires EncodableLog(log) && log != []
    ensures var o := LoadFile(EncodeLog(log));
            && o.status == (if InBlock(log) then Truncated else Loaded)
            && o.commands == log[..Settled(log)]
            && o.file == EncodeLog(if InBlock(log) then log[..BeforeMulti(log)] else log)
  {
    hide *;
    LogNotEmpty(log);
    AllWhole(log);
    LoadPrefix(log, |EncodeLog(log)|);
    assert log[..|log|] == log && EncodeLog(log)[..|EncodeLog(log)|] == EncodeLog(log);
  }

  /** Loading a whole log that ends outside a transaction gives back the commands. */
  lemma LoadWhole(log: seq<Command>)
    requires EncodableLog(log) && log != [] && !InBlock(log)
    ensures LoadFile(EncodeLog(log)) == Outcome(Loaded, log, EncodeLog(log))
  {
    SettledBefore(log);
    hide *;
    LoadAll(log);
    assert log[..|log|] == log;
  }

  // ---- What is left of a cut transaction ----

  lemma LongerLog(log: seq<Command>, m: nat, n: nat)
    requires m <= |log| && n <= |log| && EncodeLog(log[..m]) == EncodeLog(log[..n])
    ensures m == n
  {
    hide EncodeLog, EncodeCommand;
    if m < n {
      CommandAt(log, m);
      NotEmpty(log[m]);
      PrefixShorter(log, m + 1, n);
    } else if n < m {
      CommandAt(log, n);
      NotEmpty(log[n]);
      PrefixShorter(log, n + 1, m);
    }
  }

  /** The file that is left holds exactly the commands that took effect, unless a transaction is left open in it. */
  lemma KeptExactly(log: seq<Command>, k: nat)
    requires EncodableLog(log) && 0 < k <= |EncodeLog(log)|
    ensures var o, read := LoadFile(EncodeLog(log)[..k]), log[..WholeCommands(log, k)];
            o.file == EncodeLog(o.commands) <==>
              !InBlock(read) || (|EncodeLog(read)| == k && BeforeMulti(read) == Settled(read))
  {
    hide LoadFile, EncodeLog, WholeCommands, EncodableLog, InBlock, BeforeMulti;
    LoadPrefix(log, k);
    WholeCommandsMaximal(log, k);
    var read := log[..WholeCommands(log, k)];
    var m, b := Settled(read), BeforeMulti(read);
    assert read[..|read|] == read;
    SettledBefore(read);
    hide Settled;
    if EncodeLog(read) == EncodeLog(read[..m]) {
      LongerLog(read, |read|, m);
    }
    if EncodeLog(read[..b]) == EncodeLog(read[..m]) {
      LongerLog(read, b, m);
    }
  }

  lemma SettledBefore(log: seq<Command>)
    ensures if InBlock(log) then Settled(log) < |log| else Settled(log) == |log|
  {
  }

  /** No MULTI inside a transaction. */
  predicate Bracketed(log: seq<Command>) {
    log == []
    || (Bracketed(log[..|log| - 1]) && (InBlock(log[..|log| - 1]) ==> !IsMulti(log[|log| - 1])))
  }

  lemma {:induction false} BracketedBefore(log: seq<Command>)
    requires Bracketed(log) && InBlock(log)
    ensures BeforeMulti(log) == Settled(log)
    decreases |log|
  {
    hide IsMulti, IsExec;
    var init := log[..|log| - 1];
    if InBlock(init) {
      BracketedBefore(init);
    }
  }

  lemma {:induction false} BracketedPrefix(log: seq<Command>, n: nat)
    requires n <= |log| && Bracketed(log)
    ensures Bracketed(log[..n])
    decreases |log|
  {
    if n == |log| {
      assert log[..n] == log;
    } else {
      var init := log[..|log| - 1];
      BracketedPrefix(init, n);
      assert init[..n] == log[..n];
    }
  }

  /** The first k bytes of the log end inside a command of an open transaction. */
  predicate CutInBlock(log: seq<Command>, k: nat) {
    var read := log[..WholeCommands(log, k)];
    |EncodeLog(read)| < k && InBlock(read)
  }

  /**
    For the logs that a server writes: the file left by loading holds exactly the commands
    that took effect if and only if it did not end inside a command of an open transaction.
  */
  lemma TransactionKeptExactly(log: seq<Command>, k: nat)
    requires EncodableLog(log) && Bracketed(log) && 0 < k <= |EncodeLog(log)|
    ensures var o := LoadFile(EncodeLog(log)[..k]);
            o.file == EncodeLog(o.commands) <==> !CutInBlock(log, k)
  {
    hide LoadFile, EncodeLog, WholeCommands, EncodableLog, InBlock, BeforeMulti, Settled, Bracketed;
    KeptExactly(log, k);
    WholeCommandsMaximal(log, k);
    var read := log[..WholeCommands(log, k)];
    BracketedPrefix(log, |read|);
    if InBlock(read) {
      BracketedBefore(read);
    }
  }

  lemma {:induction false} BlockGoesOn(log: seq<Command>, more: seq<Command>)
    requires InBlock(log) && forall c :: c in more ==> !IsExec(c)
    ensures InBlock(log + more) && Settled(log + more) == Settled(log)
    decreases |more|
  {
    hide IsExec, IsMulti, InBlock, Settled;
    if more == [] {
      assert log + more == log;
    } else {
      var init, c := more[..|more| - 1], more[|more| - 1];
      assert c in more && log + more == log + init + [c];
      BlockGoesOn(log, init);
      BlockNext(log + init, c);
    }
  }

  /** Behind a transaction left open no command takes effect, however many are appended, until an EXEC. */
  lemma LostBehindBlock(log: seq<Command>, more: seq<Command>)
    requires EncodableLog(log) && EncodableLog(more) && InBlock(log) && forall c :: c in more ==> !IsExec(c)
    ensures LoadFile(EncodeLog(log + more)).commands == log[..Settled(log)]
  {
    hide LoadFile, EncodeLog, WholeCommands, InBlock, Settled, IsExec, Encodable;
    var all := log + more;
    BlockGoesOn(log, more);
    SomeRead(log);
    LoadAll(all);
    assert all[..Settled(log)] == log[..Settled(log)];
  }

  lemma SomeRead(log: seq<Command>)
    requires InBlock(log)
    ensures log != []
  {
  }

  /**
    A transaction cut inside its second command, whatever the commands: nothing of it takes
    effect, but its MULTI and its first command stay in the file.  A command written after
    the restart is lost, and the next EXEC makes the first command take effect.
  */
  lemma CutTransaction(multi: Command, exec: Command, x: Command, y: Command, z: Command, k: nat)
    requires EncodableLog([multi, x, y, exec, z]) && IsMulti(multi) && IsExec(exec)
    requires forall c :: c in [x, y, z] ==> !IsMulti(c) && !IsExec(c)
    requires |EncodeLog([multi, x])| < k < |EncodeLog([multi, x, y])| && k <= |EncodeLog([multi, x, y, exec])|
    ensures LoadFile(EncodeLog([multi, x, y, exec])[..k]) == Outcome(Truncated, [], EncodeLog([multi, x]))
    ensures LoadFile(EncodeLog([multi, x, z])) == Outcome(Truncated, [], [])
    ensures LoadFile(EncodeLog([multi, x, multi, z, exec])).commands == [multi, x, multi, z, exec]
  {
    CutOnce(multi, exec, x, y, k);
    CutAppended(multi, x, z);
    MultiIsNotExec(multi);
    CutExecuted(multi, exec, x, z);
  }

  lemma MultiIsNotExec(c: Command)
    requires IsMulti(c)
    ensures !IsExec(c)
  {
  }

  lemma OpenPair(multi: Command, x: Command)
    requires IsMulti(multi) && !IsMulti(x) && !IsExec(x)
    ensures InBlock([multi, x]) && Settled([multi, x]) == 0 && BeforeMulti([multi, x]) == 0
  {
    hide IsMulti, IsExec;
    BlockNext([], multi);
    BlockNext([multi], x);
    assert [] + [multi] == [multi] && [multi] + [x] == [multi, x];
    assert [multi, x][..1] == [multi] && [multi][..0] == [];
  }

  lemma CutOnce(multi: Command, exec: Command, x: Command, y: Command, k: nat)
    requires EncodableLog([multi, x, y, exec]) && IsMulti(multi) && !IsMulti(x) && !IsExec(x)
    requires |EncodeLog([multi, x])| < k < |EncodeLog([multi, x, y])| && k <= |EncodeLog([multi, x, y, exec])|
    ensures LoadFile(EncodeLog([multi, x, y, exec])[..k]) == Outcome(Truncated, [], EncodeLog([multi, x]))
  {
    hide LoadFile, EncodeLog, WholeCommands, InBlock, Settled, IsExec, IsMulti, Encodable;
    var log := [multi, x, y, exec];
    OpenPair(multi, x);
    assert log[..2] == [multi, x] && log[..3] == [multi, x, y];
    WholeUnique(log, k, 2);
    LoadPrefix(log, k);
  }

  lemma CutAppended(multi: Command, x: Command, z: Command)
    requires EncodableLog([multi, x, z]) && IsMulti(multi)
    requires !IsMulti(x) && !IsExec(x) && !IsMulti(z) && !IsExec(z)
    ensures LoadFile(EncodeLog([multi, x, z])) == Outcome(Truncated, [], [])
  {
    hide LoadFile, EncodeLog, WholeCommands, InBlock, Settled, BeforeMulti, IsExec, IsMulti, Encodable;
    var log := [multi, x, z];
    OpenPair(multi, x);
    BlockNext([multi, x], z);
    assert [multi, x] + [z] == log;
    LoadAll(log);
    EncodeNothing();
  }

  lemma CutExecuted(multi: Command, exec: Command, x: Command, z: Command)
    requires EncodableLog([multi, x, multi, z, exec]) && IsMulti(multi) && IsExec(exec) && !IsExec(multi)
    requires !IsMulti(x) && !IsExec(x) && !IsMulti(z) && !IsExec(z)
    ensures LoadFile(EncodeLog([multi, x, multi, z, exec])).commands == [multi, x, multi, z, exec]
  {
    hide LoadFile, EncodeLog, WholeCommands, InBlock, Settled, BeforeMulti, IsExec, IsMulti, Encodable;
    var open, log := [multi, x, multi, z], [multi, x, multi, z, exec];
    OpenPair(multi, x);
    BlockNext([multi, x], multi);
    BlockNext([multi, x, multi], z);
    BlockNext(open, exec);
    assert [multi, x] + [multi] == [multi, x, multi] && [multi, x, multi] + [z] == open && open + [exec] == log;
    LoadAll(log);
  }

  lemma LogNotEmpty(log: seq<Command>)
    requires log != []
    ensures |EncodeLog(log)| > 0
  {
    hide EncodeCommand;
    NotEmpty(log[0]);
  }

  lemma NotEmpty(c: Command)
    ensures |EncodeCommand(c)| > 0
  {
  }

  /** All commands are whole in the whole file. */
  lemma AllWhole(log: seq<Command>)
    ensures WholeCommands(log, |EncodeLog(log)|) == |log|
  {
    hide *;
    var k := |EncodeLog(log)|;
    WholeCommandsMaximal(log, k);
    var n := WholeCommands(log, k);
    if n < |log| {
      LogPrefix(log, n + 1);
    }
  }

  // ---- Every count a program can hold fits the line buffer ----

  lemma CountsFit(n: nat)
    requires n < 0x1_0000_0000_0000_0000
    ensures FitsLine(n)
  {
    TwentyDigits();
    DecimalLength(n, DigitByte, 20);
  }

  // ---- The encoder and the loader ----

  /** Append one command to the buffer. */
  method CatCommand(dst: Bytes, argv: Command) returns (buf: Bytes)
    ensures buf == dst + EncodeCommand(argv)
  {
    hide Header;
    buf := dst + Header(STAR, |argv|);
    var j := 0;
    while j < |argv|
      invariant 0 <= j <= |argv|
      invariant buf + EncodeArgs(argv[j..]) == dst + EncodeCommand(argv)
    {
      assert argv[j..][1..] == argv[j + 1..];
      ghost var before := buf;
      buf := buf + Header(DOLLAR, |argv[j]|);
      buf := buf + argv[j];
      buf := buf + CRLF;
      assert buf + EncodeArgs(argv[j + 1..]) == before + EncodeArgs(argv[j..]);
      j := j + 1;
    }
    assert buf + [] == buf;
  }

  function Prepend(args: Command, r: Read<Command>): Read<Command> {
    if r.Got? then Got(args + r.value, r.next) else r
  }

  /** The arguments of one command. */
  method LoadArgs(file: Bytes, start: nat, argc: nat) returns (r: Read<Command>)
    requires start <= |file|
    ensures r == ReadArgs(file, start, argc)
  {
    hide ReadArg;
    var argv: Command := [];
    var pos: nat, j: nat := start, 0;
    var args := ReadArgs(file, start, argc);
    assert args.Got? ==> [] + args.value == args.value;
    while j < argc
      invariant j <= argc && pos <= |file|
      invariant Prepend(argv, ReadArgs(file, pos, argc - j)) == ReadArgs(file, start, argc)
    {
      var a := ReadArg(file, pos);
      if !a.Got? {
        return match a case End => End case Short => Short case _ => Bad;
      }
      ghost var rest := ReadArgs(file, a.next, argc - j - 1);
      assert rest.Got? ==> argv + ([a.value] + rest.value) == (argv + [a.value]) + rest.value;
      argv := argv + [a.value];
      pos := a.next;
      j := j + 1;
    }
    assert argv + [] == argv;
    r := Got(argv, pos);
  }

  /** One command or annotation. */
  method LoadCommand(file: Bytes, pos: nat) returns (r: Read<Command>)
    requires pos <= |file|
    ensures r == ReadCommand(file, pos)
  {
    hide LineLength, Atoi, ReadArgs;
    var n := LineLength(file, pos, LINE_MAX);
    if n == 0 {
      return End;
    }
    if file[pos] == HASH {
      return Got([], pos + n);
    }
    if file[pos] != STAR {
      return Bad;
    }
    if n == 1 {
      return Short;
    }
    var argc := Atoi(file[pos + 1..pos + n]);
    if argc < 1 {
      return Bad;
    }
    r := LoadArgs(file, pos + n, argc);
  }

  /** Replay the file command by command. */
  method LoadAppendOnlyFile(file: Bytes) returns (o: Outcome)
    ensures o == LoadFile(file)
  {
    if |file| == 0 {
      return Outcome(Empty, [], file);
    }
    hide ReadCommand, IsMulti, IsExec;
    var pos: nat, validUpTo: nat, validBeforeMulti: nat := 0, 0, 0;
    var commands: seq<Command>, queued: seq<Command>, inMulti := [], [], false;
    while true
      invariant validBeforeMulti <= validUpTo <= pos <= |file|
      invariant var queue := if inMulti then Some(queued) else None;
                Replay(file, pos, Progress(commands, queue, validUpTo, validBeforeMulti)) == LoadFile(file)
      decreases |file| - pos
    {
      var r := LoadCommand(file, pos);
      match r {
        case End =>
          if inMulti {
            return Outcome(Truncated, commands, file[..validBeforeMulti]);
          }
          return Outcome(Loaded, commands, file);
        case Short => return Outcome(Truncated, commands, file[..validUpTo]);
        case Bad => return Outcome(Failed, commands, file);
        case Got(c, next) =>
          pos := next;
          if |c| > 0 {
            if IsMulti(c) {
              validBeforeMulti := validUpTo;
            }
            if inMulti && !IsExec(c) {
              queued := queued + [c];
            } else if inMulti {
              commands, queued, inMulti := commands + queued + [c], [], false;
            } else if IsMulti(c) {
              queued, inMulti := [c], true;
            } else {
              commands := commands + [c];
            }
            validUpTo := pos;
          }
      }
    }
  }
}
