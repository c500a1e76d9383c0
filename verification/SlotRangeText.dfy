/**
  Slot range arrays as text: "1000-2000 3000-4000".
*/
module SlotRangeText {
  import opened Wrappers
  import opened SlotRanges
  import opened SlotRangeArray
  import opened Numbers

  // ---- Decimal numbers ----

  predicate IsDigit(c: char) {
    '0' <= c <= '9'
  }

  function DigitValue(c: char): nat
    requires IsDigit(c)
  {
    c as nat - '0' as nat
  }

  function Text(n: nat): (s: string)
    ensures s != [] && forall i :: 0 <= i < |s| ==> IsDigit(s[i])
    ensures n > 0 ==> s[0] != '0'
  {
    TextDigits(n);
    Decimal(n, DigitChar)
  }

  lemma {:induction false} TextDigits(n: nat)
    ensures var s := Decimal(n, DigitChar);
            (forall i :: 0 <= i < |s| ==> IsDigit(s[i])) && (n > 0 ==> s[0] != '0')
  {
    if n >= 10 {
      TextDigits(n / 10);
    }
  }

  const ULLONG_MAX := 0xFFFF_FFFF_FFFF_FFFF
  const LLONG_MAX := 0x7FFF_FFFF_FFFF_FFFF
  const LONG_STR_SIZE := 21

  /** The digits read after v, with a check for overflow at every step. */
  function ReadDigits(s: string, v: nat): Option<nat> {
    if s == [] then Some(v)
    else if !IsDigit(s[0]) || v > ULLONG_MAX / 10 || v * 10 > ULLONG_MAX - DigitValue(s[0]) then None
    else ReadDigits(s[1..], v * 10 + DigitValue(s[0]))
  }

  /** A whole string as a number: no leading zeroes, no spaces, and it fits in 64 bits. */
  function ParseLong(s: string): Option<int> {
    if s == [] || |s| >= LONG_STR_SIZE then None
    else if s == "0" then Some(0)
    else
      var negative := s[0] == '-';
      var t := if negative then s[1..] else s;
      if t == [] || !('1' <= t[0] <= '9') then None
      else match ReadDigits(t[1..], DigitValue(t[0]))
        case None => None
        case Some(v) =>
          if negative then (if v > LLONG_MAX + 1 then None else Some(0 - v))
          else (if v > LLONG_MAX then None else Some(v))
  }

  lemma {:induction false} ReadAppend(s: string, v: nat, c: char)
    requires IsDigit(c) && ReadDigits(s, v).Some?
    requires ReadDigits(s, v).value * 10 + DigitValue(c) <= ULLONG_MAX
    ensures ReadDigits(s + [c], v) == Some(ReadDigits(s, v).value * 10 + DigitValue(c))
    decreases |s|
  {
    if s == [] {
      assert (s + [c])[1..] == [];
    } else {
      assert (s + [c])[1..] == s[1..] + [c];
      ReadAppend(s[1..], v * 10 + DigitValue(s[0]), c);
    }
  }

  lemma {:induction false} ReadDecimal(n: nat)
    requires 0 < n <= LLONG_MAX
    ensures ReadDigits(Text(n)[1..], DigitValue(Text(n)[0])) == Some(n)
  {
    hide ReadDigits;
    if n >= 10 {
      var s, c := Text(n / 10), DigitChar(n % 10);
      assert Text(n) == s + [c] && IsDigit(c) && DigitValue(c) == n % 10;
      hide Text, DigitChar;
      ReadDecimal(n / 10);
      ReadAppend(s[1..], DigitValue(s[0]), c);
      assert Text(n)[1..] == s[1..] + [c];
    } else {
      assert Text(n)[1..] == [] && DigitValue(DigitChar(n)) == n;
      NothingLeft(n);
    }
  }

  lemma NothingLeft(v: nat)
    ensures ReadDigits([], v) == Some(v)
  {
  }

  /** Every number that fits in 64 bits is read back from its decimal form. */
  lemma ParseDecimal(n: nat)
    requires n <= LLONG_MAX
    ensures ParseLong(Text(n)) == Some(n)
  {
    TwentyDigits();
    DecimalLength(n, DigitChar, 19);
    hide Pow10;
    if n > 0 {
      ReadDecimal(n);
      hide ReadDigits;
    }
  }

  // ---- One range ----

  /** A number stored in a 16-bit field. */
  function Truncate(x: int): Short {
    x % (SHORT_MAX + 1)
  }

  function Piece(r: Range): string {
    Text(r.start) + "-" + Text(r.end)
  }

  function FindDash(s: string): (i: nat)
    ensures i <= |s| && (i < |s| ==> s[i] == '-') && forall j :: 0 <= j < i ==> s[j] != '-'
  {
    if s == [] || s[0] == '-' then 0 else 1 + FindDash(s[1..])
  }

  function ParsePiece(part: string): Option<Range> {
    var dash := FindDash(part);
    if dash == |part| then None
    else
      match (ParseLong(part[..dash]), ParseLong(part[dash + 1..]))
      case (Some(start), Some(end)) => Some(Range(Truncate(start), Truncate(end)))
      case _ => None
  }

  /** Two numbers with a dash: each is cut to 16 bits before anything looks at it. */
  lemma PieceParses(start: nat, end: nat)
    requires start <= LLONG_MAX && end <= LLONG_MAX
    ensures ParsePiece(Text(start) + "-" + Text(end)) == Some(Range(Truncate(start), Truncate(end)))
  {
    hide ParseLong, Text;
    var a, b := Text(start), Text(end);
    var s := a + "-" + b;
    assert s[|a|] == '-' && forall j :: 0 <= j < |a| ==> s[j] == a[j] && IsDigit(a[j]);
    assert FindDash(s) == |a|;
    assert s[..|a|] == a && s[|a| + 1..] == b;
    ParseDecimal(start);
    ParseDecimal(end);
  }

  /** So a range is read as given exactly when its numbers fit in 16 bits; 65536-65537 is read as 0-1. */
  lemma PieceExactly(start: nat, end: nat)
    requires start <= LLONG_MAX && end <= LLONG_MAX
    ensures var r := ParsePiece(Text(start) + "-" + Text(end));
            r.Some? && (r.value.start == start && r.value.end == end <==> start <= SHORT_MAX && end <= SHORT_MAX)
    ensures ParsePiece(Text(65536) + "-" + Text(65537)) == Some(Range(0, 1))
  {
    hide ParsePiece, Text;
    PieceParses(start, end);
    PieceParses(65536, 65537);
  }

  // ---- The whole text ----

  function FindSpace(s: string): (i: nat)
    ensures i <= |s| && (i < |s| ==> s[i] == ' ') && forall j :: 0 <= j < i ==> s[j] != ' '
  {
    if s == [] || s[0] == ' ' then 0 else 1 + FindSpace(s[1..])
  }

  /** The parts between single spaces; two spaces have an empty part between them. */
  function Split(s: string): seq<string>
    decreases |s|
  {
    var i := FindSpace(s);
    if i == |s| then [s] else [s[..i]] + Split(s[i + 1..])
  }

  function Print(l: seq<Range>): string {
    if l == [] then "" else if |l| == 1 then Piece(l[0]) else Piece(l[0]) + " " + Print(l[1..])
  }

  function Pieces(l: seq<Range>): seq<string> {
    if l == [] then [] else [Piece(l[0])] + Pieces(l[1..])
  }

  lemma PieceHasNoSpace(r: Range)
    ensures ' ' !in Piece(r)
  {
    hide Text;
    var a, b := Text(r.start), Text(r.end);
    assert forall j :: 0 <= j < |a| ==> IsDigit(a[j]);
    assert forall j :: 0 <= j < |b| ==> IsDigit(b[j]);
  }

  lemma SplitFirst(s: string, t: string)
    requires ' ' !in s
    ensures Split(s) == [s]
    ensures Split(s + " " + t) == [s] + Split(t)
  {
    var u := s + " " + t;
    assert FindSpace(s) == |s|;
    assert u[|s|] == ' ' && forall j :: 0 <= j < |s| ==> u[j] == s[j];
    assert FindSpace(u) == |s|;
    assert u[..|s|] == s && u[|s| + 1..] == t;
  }

  lemma {:induction false} SplitPrint(l: seq<Range>)
    requires l != []
    ensures Split(Print(l)) == Pieces(l)
    decreases |l|
  {
    hide Piece, Split;
    PieceHasNoSpace(l[0]);
    if |l| == 1 {
      SplitFirst(Piece(l[0]), "");
      assert l[1..] == [];
    } else {
      SplitPrint(l[1..]);
      SplitFirst(Piece(l[0]), Print(l[1..]));
    }
  }

  function ParseAll(parts: seq<string>): Option<seq<Range>> {
    if parts == [] then Some([])
    else
      match ParsePiece(parts[0])
      case None => None
      case Some(r) =>
        match ParseAll(parts[1..])
        case None => None
        case Some(l) => Some([r] + l)
  }

  lemma {:induction false} ParsePieces(l: seq<Range>)
    ensures ParseAll(Pieces(l)) == Some(l)
    decreases |l|
  {
    hide ParsePiece, Piece;
    if l != [] {
      SinglePiece(l[0]);
      ParsePieces(l[1..]);
      assert Pieces(l)[1..] == Pieces(l[1..]);
      assert l == [l[0]] + l[1..];
    }
  }

  lemma SinglePiece(r: Range)
    ensures ParsePiece(Piece(r)) == Some(r)
  {
    hide ParsePiece, Text;
    PieceParses(r.start, r.end);
  }

  // ---- The program ----

  /** The ranges so far, each followed by a space. */
  function Trail(l: seq<Range>): string {
    if l == [] then "" else Trail(l[..|l| - 1]) + Piece(l[|l| - 1]) + " "
  }

  lemma {:induction false} PrintAppend(l: seq<Range>, r: Range)
    requires l != []
    ensures Print(l + [r]) == Print(l) + " " + Piece(r)
    decreases |l|
  {
    hide Piece;
    assert (l + [r])[1..] == l[1..] + [r];
    if |l| == 1 {
      assert l[1..] + [r] == [r];
    } else {
      PrintAppend(l[1..], r);
    }
  }

  lemma {:induction false} TrailIsPrint(l: seq<Range>)
    requires l != []
    ensures Trail(l) == Print(l) + " "
    decreases |l|
  {
    hide Piece;
    var front, r := l[..|l| - 1], l[|l| - 1];
    if |l| == 1 {
      assert front == [] && Trail(front) == "";
    } else {
      TrailIsPrint(front);
      PrintAppend(front, r);
      assert l == front + [r];
    }
  }

  method ToString(slots: Slots) returns (s: string)
    requires slots.Valid()
    ensures s == Print(slots.View())
  {
    hide Piece;
    s := "";
    if slots.num == 0 {
      return;
    }
    ghost var l := slots.View();
    for i := 0 to slots.num
      invariant s == Trail(l[..i])
    {
      assert l[..i + 1][..i] == l[..i];
      s := s + Piece(slots.ranges[i]) + " ";
    }
    assert l[..slots.num] == l;
    TrailIsPrint(l);
    s := s[..|s| - 1];
  }

  /** Split the text, read each part, then sort, merge and check what was read. */
  method FromString(text: string, sorted: seq<Range>) returns (slots: Option<Slots>)
    requires ParseAll(Split(text)).Some? ==> SortOf(sorted, ParseAll(Split(text)).value)
    ensures slots.Some? <==> text != "" && ParseAll(Split(text)).Some? && Limit(|sorted|) && Checked(Merged(sorted))
    ensures slots.Some? ==> slots.value.Valid() && slots.value.View() == Merged(sorted)
  {
    hide Split, ParsePiece, Checked, Merged;
    if text == "" {
      return None;
    }
    var parts := Split(text);
    var l := [];
    NothingRead(parts);
    for i := 0 to |parts|
      invariant AheadOf(parts, i, l)
    {
      ReadOne(parts, i, l);
      var r := ParsePiece(parts[i]);
      if r.None? {
        return None;
      }
      l := l + [r.value];
    }
    AllRead(parts, l);
    var given := new Slots(l);
    SortLength(sorted, l);
    var ok := given.NormalizeAndValidate(sorted);
    if !ok {
      return None;
    }
    slots := Some(given);
  }

  /** The first i parts were read as l: the rest decides whether all can be read. */
  ghost predicate AheadOf(parts: seq<string>, i: nat, l: seq<Range>)
    requires i <= |parts|
  {
    ParseAll(parts) == match ParseAll(parts[i..]) case None => None case Some(m) => Some(l + m)
  }

  lemma NothingRead(parts: seq<string>)
    ensures AheadOf(parts, 0, [])
  {
    assert parts[0..] == parts;
    if ParseAll(parts).Some? {
      assert [] + ParseAll(parts).value == ParseAll(parts).value;
    }
  }

  lemma ParseNext(parts: seq<string>)
    requires parts != []
    ensures ParsePiece(parts[0]).None? || ParseAll(parts[1..]).None? ==> ParseAll(parts).None?
    ensures ParsePiece(parts[0]).Some? && ParseAll(parts[1..]).Some? ==>
              ParseAll(parts) == Some([ParsePiece(parts[0]).value] + ParseAll(parts[1..]).value)
  {
    hide ParsePiece;
  }

  lemma ReadOne(parts: seq<string>, i: nat, l: seq<Range>)
    requires i < |parts| && AheadOf(parts, i, l)
    ensures ParsePiece(parts[i]).None? ==> ParseAll(parts).None?
    ensures ParsePiece(parts[i]).Some? ==> AheadOf(parts, i + 1, l + [ParsePiece(parts[i]).value])
  {
    assert parts[i..][1..] == parts[i + 1..];
    ParseNext(parts[i..]);
    hide ParsePiece, ParseAll;
    if ParsePiece(parts[i]).Some? && ParseAll(parts[i + 1..]).Some? {
      MoveRange(l, ParsePiece(parts[i]).value, ParseAll(parts[i + 1..]).value);
    }
  }

  lemma MoveRange(l: seq<Range>, r: Range, m: seq<Range>)
    ensures l + ([r] + m) == l + [r] + m
  {
  }

  lemma AllRead(parts: seq<string>, l: seq<Range>)
    requires AheadOf(parts, |parts|, l)
    ensures ParseAll(parts) == Some(l)
  {
    assert parts[|parts|..] == [] && l + [] == l;
  }

  /** A normal array is read back from its text as it is, however the sort orders it. */
  lemma RoundTrip(l: seq<Range>, sorted: seq<Range>)
    requires Normal(l) && Limit(|l|) && SortOf(sorted, l)
    ensures Print(l) != "" && ParseAll(Split(Print(l))) == Some(l)
    ensures |sorted| == |l| && Checked(Merged(sorted)) && Merged(sorted) == l
  {
    SplitPrint(l);
    ParsePieces(l);
    assert Print(l) != "" by {
      assert Piece(l[0]) != "";
    }
    hide Split, ParseAll, Print;
    SortLength(sorted, l);
    NormalOnce(l);
    CheckedExactly(l, sorted);
    NormalUnique(Merged(sorted), l);
  }

  lemma NormalOnce(l: seq<Range>)
    requires Normal(l)
    ensures Once(l)
  {
    forall x
      ensures Times(l, x) <= 1
    {
      NormalTimes(l, x);
    }
  }

  lemma {:induction false} NormalTimes(l: seq<Range>, x: int)
    requires Normal(l)
    ensures Times(l, x) <= 1
    decreases |l|
  {
    if l != [] {
      NormalTimes(l[..|l| - 1], x);
      LastApart(l, x);
    }
  }
}
