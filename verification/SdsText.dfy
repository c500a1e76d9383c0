/**
  Strings as the program reads and prints them: letter case, splitting a line into its
  arguments with quotes, and printing a string so that it can be read back.
*/
module SdsText {
  import opened Wrappers

  const NUL := '\0'

  function LowerChar(c: char): char {
    if 'A' <= c <= 'Z' then (c as int + 32) as char else c
  }

  function Lower(s: string): (r: string)
    ensures |r| == |s| && forall i :: 0 <= i < |s| ==> r[i] == LowerChar(s[i])
  {
    seq(|s|, i requires 0 <= i < |s| => LowerChar(s[i]))
  }

  // ---- The splitter ----

  predicate IsSpace(c: char) {
    c == ' ' || c == '\t' || c == '\n' || c == '\r' || c == 11 as char || c == 12 as char
  }

  /** Outside quotes these end an argument. */
  predicate EndsWord(c: char) {
    c == ' ' || c == '\n' || c == '\r' || c == '\t'
  }

  predicate AtEnd(s: string) {
    s == [] || s[0] == NUL
  }

  predicate IsHex(c: char) {
    '0' <= c <= '9' || 'a' <= c <= 'f' || 'A' <= c <= 'F'
  }

  function HexValue(c: char): nat
    requires IsHex(c)
  {
    if c <= '9' then c as nat - '0' as nat
    else if c <= 'F' then c as nat - 'A' as nat + 10
    else c as nat - 'a' as nat + 10
  }

  function Escaped(c: char): char {
    if c == 'n' then '\n' else if c == 'r' then '\r' else if c == 't' then '\t'
    else if c == 'b' then 8 as char else if c == 'a' then 7 as char else c
  }

  datatype Quoting = Bare | Double | Single

  /** An argument and the text behind it; none when a quote is not closed, or closed inside a word. */
  datatype Token = Broken | Token(word: string, rest: string)

  function Put(c: char, t: Token): Token {
    if t.Broken? then t else t.(word := [c] + t.word)
  }

  /** A closing quote must be followed by a blank or by nothing. */
  function Close(rest: string): Token {
    if AtEnd(rest) || IsSpace(rest[0]) then Token("", rest) else Broken
  }

  function Next(s: string, q: Quoting): (t: Token)
    ensures t.Token? ==> |t.rest| <= |s|
    ensures t.Token? && q == Bare && !AtEnd(s) ==> |t.rest| < |s|
    decreases |s|
  {
    match q
    case Bare =>
      if AtEnd(s) then Token("", s)
      else if EndsWord(s[0]) then Token("", s[1..])
      else if s[0] == '"' then Next(s[1..], Double)
      else if s[0] == '\'' then Next(s[1..], Single)
      else Put(s[0], Next(s[1..], Bare))
    case Double =>
      if AtEnd(s) then Broken
      else if s[0] == '\\' && |s| >= 4 && s[1] == 'x' && IsHex(s[2]) && IsHex(s[3]) then
        Put((16 * HexValue(s[2]) + HexValue(s[3])) as char, Next(s[4..], Double))
      else if s[0] == '\\' && !AtEnd(s[1..]) then Put(Escaped(s[1]), Next(s[2..], Double))
      else if s[0] == '"' then Close(s[1..])
      else Put(s[0], Next(s[1..], Double))
    case Single =>
      if AtEnd(s) then Broken
      else if s[0] == '\\' && |s| >= 2 && s[1] == '\'' then Put('\'', Next(s[2..], Single))
      else if s[0] == '\'' then Close(s[1..])
      else Put(s[0], Next(s[1..], Single))
  }

  /** The arguments of a line, or none when its quotes are wrong. */
  function SplitArgs(s: string): Option<seq<string>>
    decreases |s|
  {
    if AtEnd(s) then Some([])
    else if IsSpace(s[0]) then SplitArgs(s[1..])
    else
      var t := Next(s, Bare);
      if t.Broken? then None
      else
        match SplitArgs(t.rest)
        case None => None
        case Some(words) => Some([t.word] + words)
  }

  /** The string up to its terminator. */
  function CString(s: string): (r: string)
    ensures NUL !in r && |r| <= |s|
  {
    if AtEnd(s) then "" else [s[0]] + CString(s[1..])
  }

  lemma {:induction false} NoTerminator(s: string)
    requires NUL !in s
    ensures CString(s) == s
    decreases |s|
  {
    if s != "" {
      assert s[0] in s;
      NoTerminator(s[1..]);
      assert s == [s[0]] + s[1..];
    }
  }

  // ---- Words that stand for themselves ----

  /** No blank that ends a word, no quote, no terminator. */
  predicate Bland(c: char) {
    !EndsWord(c) && c != '"' && c != '\'' && c != NUL
  }

  predicate AllBland(w: string) {
    forall i :: 0 <= i < |w| ==> Bland(w[i])
  }

  predicate PlainWord(w: string) {
    w != "" && !IsSpace(w[0]) && AllBland(w)
  }

  ghost predicate PlainWords(rules: seq<string>) {
    forall r :: r in rules ==> PlainWord(r)
  }

  lemma {:induction false} BlandToken(word: string, rest: string)
    requires AllBland(word) && (AtEnd(rest) || EndsWord(rest[0]))
    ensures Next(word + rest, Bare) == Token(word, if AtEnd(rest) then rest else rest[1..])
    decreases |word|
  {
    if word == "" {
      assert word + rest == rest;
    } else {
      var s := word + rest;
      assert s[1..] == word[1..] + rest && Bland(s[0]);
      BlandToken(word[1..], rest);
      assert word == [word[0]] + word[1..];
    }
  }

  lemma SplitFirst(word: string, rest: string)
    requires PlainWord(word) && (AtEnd(rest) || EndsWord(rest[0]))
    ensures SplitArgs(word + rest)
         == match SplitArgs(if AtEnd(rest) then rest else rest[1..])
            case None => None
            case Some(words) => Some([word] + words)
  {
    var s := word + rest;
    assert s[0] == word[0] && Bland(s[0]);
    hide Next;
    BlandToken(word, rest);
  }

  // ---- Counting characters ----

  /** The length of the words, each with one separator. */
  function Cost(words: seq<string>): nat {
    if words == [] then 0 else |words[0]| + 1 + Cost(words[1..])
  }

  /** In quotes at least the closing quote is lost. */
  lemma {:induction false} QuotedLoses(s: string, q: Quoting)
    requires q != Bare && Next(s, q).Token?
    ensures |Next(s, q).word| + 1 + |Next(s, q).rest| <= |s|
    decreases |s|
  {
    if q == Double {
      if s[0] == '\\' && |s| >= 4 && s[1] == 'x' && IsHex(s[2]) && IsHex(s[3]) {
        QuotedLoses(s[4..], Double);
      } else if s[0] == '\\' && !AtEnd(s[1..]) {
        QuotedLoses(s[2..], Double);
      } else if s[0] != '"' {
        QuotedLoses(s[1..], Double);
      }
    } else if s[0] == '\\' && |s| >= 2 && s[1] == '\'' {
      QuotedLoses(s[2..], Single);
    } else if s[0] != '\'' {
      QuotedLoses(s[1..], Single);
    }
  }

  /** A word taken without quotes is bland and loses its separator alone; with quotes two are lost. */
  lemma {:induction false} TokenLoses(s: string)
    requires Next(s, Bare).Token?
    ensures var t := Next(s, Bare);
            || (AllBland(t.word) && |t.word| + 1 + |t.rest| == |s|)
            || (AllBland(t.word) && AtEnd(t.rest) && |t.word| + |t.rest| == |s|)
            || |t.word| + 2 + |t.rest| <= |s|
    decreases |s|
  {
    if !AtEnd(s) && !EndsWord(s[0]) {
      if s[0] == '"' {
        QuotedLoses(s[1..], Double);
      } else if s[0] == '\'' {
        QuotedLoses(s[1..], Single);
      } else {
        TokenLoses(s[1..]);
        assert Bland(s[0]);
      }
    }
  }

  /** No argument is longer than the text allows, and only plain words use it up. */
  lemma {:induction false} SplitCost(s: string)
    requires SplitArgs(s).Some?
    ensures var words := SplitArgs(s).value;
            Cost(words) <= |s| + 1 && (Cost(words) == |s| + 1 ==> PlainWords(words))
    decreases |s|
  {
    if AtEnd(s) {
    } else if IsSpace(s[0]) {
      SplitCost(s[1..]);
    } else {
      var t := Next(s, Bare);
      TokenLoses(s);
      SplitCost(t.rest);
      FirstWord(s);
      hide Next;
      var words := SplitArgs(t.rest).value;
      assert ([t.word] + words)[1..] == words;
    }
  }

  /** A word without quotes starts with the first character. */
  lemma FirstWord(s: string)
    requires !AtEnd(s) && !IsSpace(s[0]) && Next(s, Bare).Token?
    ensures s[0] == '"' || s[0] == '\'' || (Next(s, Bare).word != "" && Next(s, Bare).word[0] == s[0])
    ensures s[0] == '"' || s[0] == '\'' ==> |Next(s, Bare).word| + 2 + |Next(s, Bare).rest| <= |s|
  {
    if s[0] == '"' {
      QuotedLoses(s[1..], Double);
    } else if s[0] == '\'' {
      QuotedLoses(s[1..], Single);
    }
  }

  // ---- Printing a string in quotes ----

  predicate IsByte(c: char) {
    c as int < 256
  }

  predicate Bytes(s: string) {
    forall i :: 0 <= i < |s| ==> IsByte(s[i])
  }

  predicate Printable(c: char) {
    ' ' <= c <= '~'
  }

  function HexDigit(d: nat): char
    requires d < 16
  {
    "0123456789abcdef"[d]
  }

  function ReprChar(c: char): string
    requires IsByte(c)
  {
    if c == '\\' || c == '"' then ['\\', c]
    else if c == '\n' then "\\n"
    else if c == '\r' then "\\r"
    else if c == '\t' then "\\t"
    else if c == 7 as char then "\\a"
    else if c == 8 as char then "\\b"
    else if Printable(c) then [c]
    else "\\x" + [HexDigit(c as nat / 16), HexDigit(c as nat % 16)]
  }

  function ReprChars(s: string): string
    requires Bytes(s)
  {
    if s == [] then [] else ReprChars(s[..|s| - 1]) + ReprChar(s[|s| - 1])
  }

  function Repr(s: string): string
    requires Bytes(s)
  {
    "\"" + ReprChars(s) + "\""
  }

  method CatRepr(s: string, p: string) returns (r: string)
    requires Bytes(p)
    ensures r == s + Repr(p)
  {
    hide ReprChar;
    r := s + "\"";
    for i := 0 to |p|
      invariant r == s + "\"" + ReprChars(p[..i])
    {
      assert p[..i + 1][..i] == p[..i];
      r := r + ReprChar(p[i]);
    }
    assert p[..|p|] == p;
    r := r + "\"";
  }

  /** Characters that may not be printed as they are. */
  predicate Special(c: char) {
    c == '\\' || c == '"' || !Printable(c) || IsSpace(c)
  }

  predicate NeedsRepr(s: string) {
    exists i :: 0 <= i < |s| && Special(s[i])
  }

  method FindSpecial(s: string) returns (found: bool)
    ensures found <==> NeedsRepr(s)
  {
    for i := 0 to |s|
      invariant forall j :: 0 <= j < i ==> !Special(s[j])
    {
      if Special(s[i]) {
        return true;
      }
    }
    found := false;
  }

  lemma HexBack(d: nat)
    requires d < 16
    ensures IsHex(HexDigit(d)) && HexValue(HexDigit(d)) == d
  {
    if d < 10 {
      assert HexDigit(d) == ('0' as int + d) as char;
    } else {
      assert HexDigit(d) == ('a' as int + (d - 10)) as char;
    }
  }

  lemma HexStep(c: char, rest: string)
    requires IsByte(c)
    ensures Next("\\x" + [HexDigit(c as nat / 16), HexDigit(c as nat % 16)] + rest, Double)
         == Put(c, Next(rest, Double))
  {
    var hi, lo := c as nat / 16, c as nat % 16;
    HexBack(hi);
    HexBack(lo);
    hide HexDigit, HexValue, IsHex;
    var s := "\\x" + [HexDigit(hi), HexDigit(lo)] + rest;
    assert s[0] == '\\' && s[1] == 'x' && s[2] == HexDigit(hi) && s[3] == HexDigit(lo) && s[4..] == rest;
  }

  lemma EscapeStep(e: char, rest: string)
    requires e != 'x' && e != NUL
    ensures Next(['\\', e] + rest, Double) == Put(Escaped(e), Next(rest, Double))
  {
    var s := ['\\', e] + rest;
    assert s[0] == '\\' && s[1] == e && s[2..] == rest;
  }

  lemma PlainStep(c: char, rest: string)
    requires c != '\\' && c != '"' && c != NUL
    ensures Next([c] + rest, Double) == Put(c, Next(rest, Double))
  {
    var s := [c] + rest;
    assert s[0] == c && s[1..] == rest;
  }

  /** A printed character is read back. */
  lemma ReprStep(c: char, rest: string)
    requires IsByte(c)
    ensures Next(ReprChar(c) + rest, Double) == Put(c, Next(rest, Double))
  {
    hide Next;
    if c == '\\' || c == '"' {
      EscapeStep(c, rest);
    } else if c == '\n' {
      EscapeStep('n', rest);
    } else if c == '\r' {
      EscapeStep('r', rest);
    } else if c == '\t' {
      EscapeStep('t', rest);
    } else if c == 7 as char {
      EscapeStep('a', rest);
    } else if c == 8 as char {
      EscapeStep('b', rest);
    } else if Printable(c) {
      PlainStep(c, rest);
    } else {
      HexStep(c, rest);
    }
  }

  function PutAll(s: string, t: Token): Token {
    if t.Broken? then t else t.(word := s + t.word)
  }

  lemma {:induction false} ReprCharsNext(s: string, rest: string)
    requires Bytes(s)
    ensures Next(ReprChars(s) + rest, Double) == PutAll(s, Next(rest, Double))
    decreases |s|
  {
    hide Next, ReprChar;
    if s == [] {
      assert ReprChars(s) + rest == rest;
    } else {
      var init, c := s[..|s| - 1], s[|s| - 1];
      assert ReprChars(s) + rest == ReprChars(init) + (ReprChar(c) + rest);
      ReprCharsNext(init, ReprChar(c) + rest);
      ReprStep(c, rest);
      assert s == init + [c];
    }
  }

  function Prepend(w: string, words: Option<seq<string>>): (r: Option<seq<string>>)
    ensures r.Some? ==> r.value != [] && r.value[0] == w
  {
    match words
    case None => None
    case Some(l) => Some([w] + l)
  }

  /** What follows a word: nothing, or a blank. */
  predicate Apart(rest: string) {
    rest == "" || rest[0] == ' '
  }

  lemma SplitToken(s: string)
    requires !AtEnd(s) && !IsSpace(s[0])
    ensures var t := Next(s, Bare);
            SplitArgs(s) == if t.Broken? then None else Prepend(t.word, SplitArgs(t.rest))
  {
    hide Next;
  }

  lemma ReprToken(s: string, rest: string)
    requires Bytes(s) && Apart(rest)
    ensures Next(Repr(s) + rest, Bare) == Token(s, rest)
  {
    hide ReprChars;
    var text := Repr(s) + rest;
    assert text[0] == '"' && text[1..] == ReprChars(s) + ("\"" + rest);
    QuoteOpens(text);
    hide Next;
    ReprCharsNext(s, "\"" + rest);
    QuoteCloses(rest);
    assert s + "" == s;
  }

  lemma QuoteOpens(s: string)
    requires s != "" && s[0] == '"'
    ensures Next(s, Bare) == Next(s[1..], Double)
  {
  }

  lemma QuoteCloses(rest: string)
    requires Apart(rest)
    ensures Next("\"" + rest, Double) == Token("", rest)
  {
    assert ("\"" + rest)[1..] == rest;
  }

  lemma ReprFirst(s: string, rest: string)
    requires Bytes(s) && Apart(rest)
    ensures SplitArgs(Repr(s) + rest) == Prepend(s, SplitArgs(rest))
  {
    assert (Repr(s) + rest)[0] == '"';
    hide Repr, Next, SplitArgs, Apart, Bytes;
    ReprToken(s, rest);
    SplitToken(Repr(s) + rest);
  }

  /** Every string printed in quotes is split off as itself. */
  lemma ReprReadBack(s: string)
    requires Bytes(s)
    ensures SplitArgs(Repr(s)) == Some([s])
  {
    ReprFirst(s, "");
    assert Repr(s) + "" == Repr(s);
    assert [s] + [] == [s];
  }

  // ---- Printing a string with quotes only where needed ----

  function NameText(s: string): string
    requires Bytes(s)
  {
    if NeedsRepr(s) then Repr(s) else s
  }

  /** The single quote is not among the characters that call for quotes. */
  predicate NameReadable(s: string) {
    s != "" && (NeedsRepr(s) || '\'' !in s)
  }

  lemma SplitBlank(rest: string)
    requires Apart(rest)
    ensures SplitArgs(if AtEnd(rest) then rest else rest[1..]) == SplitArgs(rest)
  {
  }

  lemma WordFirst(word: string, rest: string)
    requires PlainWord(word) && Apart(rest)
    ensures SplitArgs(word + rest) == Prepend(word, SplitArgs(rest))
  {
    SplitFirst(word, rest);
    SplitBlank(rest);
  }

  lemma NameFirst(s: string, rest: string)
    requires Bytes(s) && NameReadable(s) && Apart(rest)
    ensures SplitArgs(NameText(s) + rest) == Prepend(s, SplitArgs(rest))
  {
    if NeedsRepr(s) {
      ReprFirst(s, rest);
    } else {
      assert forall i :: 0 <= i < |s| ==> !Special(s[i]) && s[i] in s;
      assert AllBland(s) && !IsSpace(s[0]);
      WordFirst(s, rest);
    }
  }

  lemma {:induction false} NeverClosed(s: string)
    requires '\'' !in s
    ensures Next(s, Single).Broken?
    decreases |s|
  {
    if !AtEnd(s) {
      NeverClosed(s[1..]);
    }
  }

  /** A quote inside a bare word swallows it and at least one more, or breaks the line. */
  lemma {:induction false} QuoteInside(s: string, rest: string, q: Quoting)
    requires q != Double && (q == Bare ==> '\'' in s)
    requires !NeedsRepr(s) && '\'' !in rest && Apart(rest)
    ensures var t := Next(s + rest, q);
            t.Broken? || (t.rest == rest && |t.word| + (if q == Bare then 2 else 1) <= |s|)
    decreases |s|
  {
    if s == "" {
      assert s + rest == rest;
      NeverClosed(rest);
    } else {
      var text := s + rest;
      assert !Special(s[0]) && text[0] == s[0] && text[1..] == s[1..] + rest;
      assert forall i :: 0 <= i < |s[1..]| ==> s[1..][i] == s[i + 1] && !Special(s[i + 1]);
      assert s == [s[0]] + s[1..];
      if s[0] != '\'' {
        QuoteInside(s[1..], rest, q);
      } else if q == Bare {
        QuoteInside(s[1..], rest, Single);
      } else if s[1..] == "" {
        assert text[1..] == rest;
      } else {
        assert text[1] == s[1] && !Special(s[1]);
      }
    }
  }

  /** A name that is not readable breaks the line or is cut shorter. */
  lemma NameLost(s: string, rest: string)
    requires Bytes(s) && !NameReadable(s) && '\'' !in rest && Apart(rest)
    ensures var words := SplitArgs(NameText(s) + rest);
            || words.None?
            || (s == "" && words == SplitArgs(rest))
            || exists w :: |w| < |s| && words == Prepend(w, SplitArgs(rest))
  {
    if s == "" {
      assert NameText(s) + rest == rest;
    } else {
      var text := s + rest;
      assert !Special(s[0]) && text[0] == s[0];
      QuoteInside(s, rest, Bare);
      SplitToken(text);
      hide Next, SplitArgs;
      assert Next(text, Bare).Token? ==> |Next(text, Bare).word| < |s|;
    }
  }

  /** A name is read back exactly when it is not empty and has no single quote outside double quotes. */
  lemma NameReadBack(s: string)
    requires Bytes(s)
    ensures SplitArgs(NameText(s)) == Some([s]) <==> NameReadable(s)
  {
    assert NameText(s) + "" == NameText(s);
    hide NameText, NameReadable;
    if NameReadable(s) {
      NameFirst(s, "");
      assert [s] + [] == [s];
    } else {
      NameLost(s, "");
      assert SplitArgs("") == Some([]);
    }
  }
}
