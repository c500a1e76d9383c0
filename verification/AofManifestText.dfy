/**
  The manifest file: one line for each append-only file, printed and read back.
*/
module AofManifestText {
  import opened Wrappers
  import opened Numbers
  import opened SdsText
  import opened AofManifest
  import AofLoad

  const LINE_MAX := 1024
  const LLONG_MAX := AofLoad.LONG_MAX

  /** What a line says; an offset of -1 is not printed. */
  datatype Info = Info(name: string, number: int, kind: char, start: int, end: int)

  // ---- Printing ----

  datatype Key = FileKey | SeqKey | TypeKey | StartKey | EndKey | OtherKey

  function KeyText(k: Key): string {
    match k
    case FileKey => "file"
    case SeqKey => "seq"
    case TypeKey => "type"
    case StartKey => "startoffset"
    case EndKey => "endoffset"
    case OtherKey => ""
  }

  function NumberText(n: int): string {
    if n < 0 then "-" + Decimal(-n, DigitChar) else Decimal(n, DigitChar)
  }

  /** Words with a blank in front of each. */
  function Spaced(words: seq<string>): (s: string)
    ensures Apart(s)
  {
    if words == [] then "" else " " + words[0] + Spaced(words[1..])
  }

  function OffsetWords(i: Info): seq<string> {
    if i.start == -1 then []
    else
      [KeyText(StartKey), NumberText(i.start)]
      + if i.end == -1 then [] else [KeyText(EndKey), NumberText(i.end)]
  }

  /** The words behind the file name. */
  function TailWords(i: Info): seq<string> {
    [KeyText(SeqKey), NumberText(i.number), KeyText(TypeKey), [i.kind]] + OffsetWords(i)
  }

  function Line(i: Info): string
    requires Bytes(i.name)
  {
    KeyText(FileKey) + " " + NameText(i.name) + Spaced(TailWords(i))
  }

  ghost predicate AllBytes(infos: seq<Info>) {
    forall i :: i in infos ==> Bytes(i.name)
  }

  function Print(infos: seq<Info>): string
    requires AllBytes(infos)
  {
    if infos == [] then "" else Line(infos[0]) + "\n" + Print(infos[1..])
  }

  function Pair(key: Key, value: string): string {
    " " + KeyText(key) + " " + value
  }

  /** A line is added to a text, with the name in quotes where needed. */
  method Format(buf: string, i: Info) returns (r: string)
    requires Bytes(i.name)
    ensures r == buf + (Line(i) + "\n")
  {
    hide Repr, NeedsRepr, NumberText, KeyText, Pair, Spaced, TailWords;
    var name := i.name;
    var quoted := FindSpecial(name);
    if quoted {
      name := CatRepr("", i.name);
    }
    var offsets := "";
    if i.start != -1 {
      offsets := Pair(StartKey, NumberText(i.start));
      if i.end != -1 {
        offsets := offsets + Pair(EndKey, NumberText(i.end));
      }
    }
    OffsetText(i);
    TailText(i);
    var tail := Pair(SeqKey, NumberText(i.number)) + Pair(TypeKey, [i.kind]) + offsets;
    r := buf + (KeyText(FileKey) + " " + name + tail + "\n");
  }

  lemma OffsetText(i: Info)
    ensures i.start == -1 ==> Spaced(OffsetWords(i)) == ""
    ensures i.start != -1 && i.end == -1 ==> Spaced(OffsetWords(i)) == Pair(StartKey, NumberText(i.start))
    ensures i.start != -1 && i.end != -1 ==>
              Spaced(OffsetWords(i)) == Pair(StartKey, NumberText(i.start)) + Pair(EndKey, NumberText(i.end))
  {
    hide NumberText, KeyText, Pair, Spaced;
    var ends := [KeyText(EndKey), NumberText(i.end)];
    PairFirst(EndKey, NumberText(i.end), []);
    PairFirst(StartKey, NumberText(i.start), []);
    PairFirst(StartKey, NumberText(i.start), ends);
    assert ends + [] == ends;
    assert [KeyText(StartKey), NumberText(i.start)] + [] == [KeyText(StartKey), NumberText(i.start)];
  }

  lemma TailText(i: Info)
    ensures Spaced(TailWords(i))
         == Pair(SeqKey, NumberText(i.number)) + Pair(TypeKey, [i.kind]) + Spaced(OffsetWords(i))
  {
    hide NumberText, KeyText, Pair, Spaced, OffsetWords;
    var kinds := [KeyText(TypeKey), [i.kind]] + OffsetWords(i);
    PairFirst(TypeKey, [i.kind], OffsetWords(i));
    PairFirst(SeqKey, NumberText(i.number), kinds);
    assert TailWords(i) == [KeyText(SeqKey), NumberText(i.number)] + kinds;
  }

  lemma PairFirst(key: Key, value: string, rest: seq<string>)
    ensures Spaced([KeyText(key), value] + rest) == Pair(key, value) + Spaced(rest)
    ensures Spaced([]) == "" && Pair(key, value) + "" == Pair(key, value)
  {
    hide KeyText;
    var k := KeyText(key);
    assert ([k, value] + rest)[1..] == [value] + rest && ([value] + rest)[1..] == rest;
  }

  method PrintList(buf: string, infos: seq<Info>) returns (r: string)
    requires AllBytes(infos)
    ensures r == buf + Print(infos)
  {
    hide Line, Bytes;
    r := buf;
    for k := 0 to |infos|
      invariant r + Print(infos[k..]) == buf + Print(infos)
    {
      assert infos[k..][0] == infos[k] && infos[k..][1..] == infos[k + 1..];
      r := Format(r, infos[k]);
    }
  }

  // ---- Reading a line ----

  function CharByte(c: char): byte {
    if IsByte(c) then c as byte else 0
  }

  function ToBytes(s: string): seq<byte> {
    seq(|s|, i requires 0 <= i < |s| => CharByte(s[i]))
  }

  function Atoll(s: string): int {
    AofLoad.Strtol(ToBytes(CString(s)))
  }

  predicate BaseName(s: string) {
    '/' !in s && '\\' !in s
  }

  /** A line being read; a number of 0 or a kind of 0 was not given. */
  datatype Draft = Draft(name: Option<string>, number: int, kind: char, start: int, end: int)

  const BLANK := Draft(None, 0, NUL, -1, -1)

  /** Keys are compared without regard to case. */
  function KeyOf(word: string): Key {
    var k := Lower(CString(word));
    if k == KeyText(FileKey) then FileKey
    else if k == KeyText(SeqKey) then SeqKey
    else if k == KeyText(TypeKey) then TypeKey
    else if k == KeyText(StartKey) then StartKey
    else if k == KeyText(EndKey) then EndKey
    else OtherKey
  }

  function Field(key: string, value: string, d: Draft): Option<Draft> {
    match KeyOf(key)
    case FileKey => if BaseName(CString(value)) then Some(d.(name := Some(CString(value)))) else None
    case SeqKey => Some(d.(number := Atoll(value)))
    case TypeKey => Some(d.(kind := if value == "" then NUL else value[0]))
    case StartKey => Some(d.(start := Atoll(value)))
    case EndKey => Some(d.(end := Atoll(value)))
    case OtherKey => Some(d)
  }

  function Fields(words: seq<string>, d: Draft): Option<Draft>
    requires |words| % 2 == 0
  {
    if words == [] then Some(d)
    else
      match Field(words[0], words[1], d)
      case None => None
      case Some(e) => Fields(words[2..], e)
  }

  function Complete(d: Draft): Option<Info> {
    if d.name.None? || d.number == 0 || d.kind == NUL then None
    else Some(Info(d.name.value, d.number, d.kind, d.start, d.end))
  }

  function ReadWords(words: seq<string>): Option<Info> {
    if |words| < 6 || |words| % 2 != 0 then None
    else
      match Fields(words, BLANK)
      case None => None
      case Some(d) => Complete(d)
  }

  function ReadLine(line: string): Option<Info> {
    match SplitArgs(line)
    case None => None
    case Some(words) => ReadWords(words)
  }

  // ---- Numbers are read back ----

  lemma {:induction false} DecimalBytes(n: nat)
    ensures ToBytes(Decimal(n, DigitChar)) == AofLoad.Digits(n)
    ensures forall i :: 0 <= i < |Decimal(n, DigitChar)| ==> '0' <= Decimal(n, DigitChar)[i] <= '9'
    decreases n
  {
    if n >= 10 {
      DecimalBytes(n / 10);
      var s, c := Decimal(n / 10, DigitChar), DigitChar(n % 10);
      assert ToBytes(s + [c]) == ToBytes(s) + [CharByte(c)];
    }
  }

  predicate Graphic(c: char) {
    '!' <= c <= '~' && c != '"' && c != '\''
  }

  /** A word that is printed, and split off, as it is. */
  predicate Word(w: string) {
    w != "" && forall i :: 0 <= i < |w| ==> Graphic(w[i])
  }

  lemma WordIsPlain(w: string)
    requires Word(w)
    ensures PlainWord(w) && CString(w) == w && '\'' !in w
  {
    assert forall i :: 0 <= i < |w| ==> Graphic(w[i]);
    NoTerminator(w);
  }

  predicate InLong(n: int) {
    -LLONG_MAX - 1 <= n <= LLONG_MAX
  }

  lemma NumberWord(n: int)
    ensures Word(NumberText(n))
  {
    DecimalBytes(if n < 0 then -n else n);
    hide Decimal;
  }

  lemma NumberBack(n: int)
    requires InLong(n)
    ensures Atoll(NumberText(n)) == n
  {
    NumberWord(n);
    WordIsPlain(NumberText(n));
    hide CString, Word, NumberText;
    NumberParsed(n);
  }

  lemma NumberParsed(n: int)
    ensures AofLoad.ParseInt(ToBytes(NumberText(n))) == n
  {
    hide Decimal;
    var m: nat := if n < 0 then -n else n;
    var digits := Decimal(m, DigitChar);
    DecimalBytes(m);
    AofLoad.DigitsParse(m);
    if n < 0 {
      var b := ToBytes("-" + digits);
      assert b[0] == 45 && b[1..] == ToBytes(digits);
    } else {
      AofLoad.NumberWhole(m, []);
      assert AofLoad.Digits(m) + [] == AofLoad.Digits(m);
    }
  }

  // ---- The words behind the name ----

  ghost predicate Words(words: seq<string>) {
    forall w :: w in words ==> Word(w)
  }

  lemma SplitSkips(s: string)
    ensures SplitArgs(" " + s) == SplitArgs(s)
  {
    assert (" " + s)[1..] == s;
  }

  lemma {:induction false} SplitSpaced(words: seq<string>)
    requires Words(words)
    ensures SplitArgs(Spaced(words)) == Some(words)
    decreases |words|
  {
    hide SplitArgs, Word;
    if words == [] {
      SplitNothing();
    } else {
      var w, rest := words[0], words[1..];
      SplitSpaced(rest);
      assert Word(w);
      WordIsPlain(w);
      WordFirst(w, Spaced(rest));
      SplitSkips(w + Spaced(rest));
      SpacedFirst(words);
      hide Spaced;
      assert words == [w] + rest;
    }
  }

  lemma SpacedFirst(words: seq<string>)
    requires words != []
    ensures Spaced(words) == " " + (words[0] + Spaced(words[1..]))
  {
    assert " " + words[0] + Spaced(words[1..]) == " " + (words[0] + Spaced(words[1..]));
  }

  lemma SplitNothing()
    ensures SplitArgs("") == Some([])
  {
  }

  /** Blanks and plain characters only, and no blank at the end. */
  lemma {:induction false} SpacedPlain(words: seq<string>)
    requires Words(words)
    ensures forall i :: 0 <= i < |Spaced(words)| ==> Graphic(Spaced(words)[i]) || Spaced(words)[i] == ' '
    ensures words != [] ==> Spaced(words) != "" && Graphic(Spaced(words)[|Spaced(words)| - 1])
    decreases |words|
  {
    if words != [] {
      var w, rest := words[0], words[1..];
      assert Word(w);
      SpacedPlain(rest);
    }
  }

  predicate KnownKind(kind: char) {
    kind == 'b' || kind == 'h' || kind == 'i'
  }

  /** What the program can hold: a byte string, a kind of file, and 64-bit numbers. */
  ghost predicate Typed(i: Info) {
    Bytes(i.name) && KnownKind(i.kind) && InLong(i.number) && InLong(i.start) && InLong(i.end)
  }

  lemma TailIsWords(i: Info)
    requires KnownKind(i.kind)
    ensures Words(TailWords(i))
  {
    NumberWord(i.number);
    NumberWord(i.start);
    NumberWord(i.end);
    hide NumberText;
    KeyWord(SeqKey);
    KeyWord(TypeKey);
    KeyWord(StartKey);
    KeyWord(EndKey);
    assert Word([i.kind]);
    hide Word, KeyText;
  }

  lemma KeyWord(k: Key)
    requires k != OtherKey
    ensures Word(KeyText(k)) && Lower(KeyText(k)) == KeyText(k)
  {
    assert forall i :: 0 <= i < |KeyText(k)| ==> 'a' <= KeyText(k)[i] <= 'z';
  }

  lemma KeysDiffer()
    ensures KeyText(FileKey) != KeyText(SeqKey) && KeyText(FileKey)[0] != KeyText(TypeKey)[0]
    ensures KeyText(SeqKey) != KeyText(TypeKey)
  {
  }

  lemma KeyBack(k: Key)
    requires k != OtherKey
    ensures KeyOf(KeyText(k)) == k
  {
    KeyWord(k);
    WordIsPlain(KeyText(k));
    KeysDiffer();
    hide Word, Lower, CString;
  }

  lemma FieldsNext(key: string, value: string, rest: seq<string>, d: Draft)
    requires |rest| % 2 == 0
    ensures Fields([key, value] + rest, d)
         == match Field(key, value, d) case None => None case Some(e) => Fields(rest, e)
    ensures Fields([], d) == Some(d)
  {
    hide Field;
    assert ([key, value] + rest)[2..] == rest;
  }

  /** A number that was printed is read into its field. */
  lemma NumberField(k: Key, n: int, d: Draft)
    requires InLong(n) && (k == SeqKey || k == StartKey || k == EndKey)
    ensures Field(KeyText(k), NumberText(n), d)
         == Some(if k == SeqKey then d.(number := n) else if k == StartKey then d.(start := n) else d.(end := n))
  {
    hide KeyOf, KeyText, Atoll, NumberText;
    KeyBack(k);
    NumberBack(n);
  }

  lemma KindField(kind: char, d: Draft)
    ensures Field(KeyText(TypeKey), [kind], d) == Some(d.(kind := kind))
  {
    hide KeyOf, KeyText, Atoll;
    KeyBack(TypeKey);
  }

  lemma NameField(w: string, d: Draft)
    ensures Field(KeyText(FileKey), w, d)
         == if BaseName(CString(w)) then Some(d.(name := Some(CString(w)))) else None
  {
    hide KeyOf, KeyText, Atoll, CString, BaseName;
    KeyBack(FileKey);
  }

  /** The end offset is only printed with a start offset. */
  function EndRead(i: Info): int {
    if i.start == -1 then -1 else i.end
  }

  lemma EndField(i: Info, d: Draft)
    requires InLong(i.end) && d.end == -1
    ensures var words := if i.end == -1 then [] else [KeyText(EndKey), NumberText(i.end)];
            Fields(words, d) == Some(d.(end := i.end))
  {
    hide Fields, Field, NumberText, KeyText, InLong;
    var key, value := KeyText(EndKey), NumberText(i.end);
    FieldsNext(key, value, [], d);
    FieldsNext(key, value, [], d.(end := i.end));
    NumberField(EndKey, i.end, d);
    assert [key, value] + [] == [key, value];
  }

  lemma OffsetFields(i: Info, d: Draft)
    requires InLong(i.start) && InLong(i.end) && d.start == d.end == -1
    ensures |OffsetWords(i)| % 2 == 0
    ensures Fields(OffsetWords(i), d) == Some(d.(start := i.start, end := EndRead(i)))
  {
    hide Fields, Field, NumberText, KeyText, InLong;
    var ends := if i.end == -1 then [] else [KeyText(EndKey), NumberText(i.end)];
    FieldsNext(KeyText(StartKey), NumberText(i.start), ends, d);
    NumberField(StartKey, i.start, d);
    EndField(i, d.(start := i.start));
  }

  lemma TailFields(i: Info, d: Draft)
    requires Typed(i) && d.start == d.end == -1
    ensures |TailWords(i)| % 2 == 0 && |TailWords(i)| >= 4
    ensures Fields(TailWords(i), d) == Some(d.(number := i.number, kind := i.kind, start := i.start, end := EndRead(i)))
  {
    hide Fields, Field, NumberText, KeyText, InLong, OffsetWords, EndRead;
    var kinds := [KeyText(TypeKey), [i.kind]] + OffsetWords(i);
    var e := d.(number := i.number);
    OffsetFields(i, e.(kind := i.kind));
    FieldsNext(KeyText(TypeKey), [i.kind], OffsetWords(i), e);
    KindField(i.kind, e);
    FieldsNext(KeyText(SeqKey), NumberText(i.number), kinds, d);
    NumberField(SeqKey, i.number, d);
    assert TailWords(i) == [KeyText(SeqKey), NumberText(i.number)] + kinds;
  }

  // ---- A line is read back ----

  /** What the name must be: no path, no terminator, and no single quote unless something else calls for quotes. */
  predicate GoodName(s: string) {
    NameReadable(s) && NUL !in s && BaseName(s)
  }

  predicate Readable(i: Info) {
    GoodName(i.name) && i.number != 0 && (i.start == -1 ==> i.end == -1)
  }

  /** What reading gives when w was split off as the name. */
  lemma NamedWords(i: Info, w: string)
    requires Typed(i)
    ensures ReadWords([KeyText(FileKey), w] + TailWords(i))
         == if BaseName(CString(w)) && i.number != 0
            then Some(Info(CString(w), i.number, i.kind, i.start, EndRead(i))) else None
  {
    hide TailWords, KeyText, CString, Field, Fields, EndRead, BaseName, InLong;
    TailFields(i, BLANK.(name := Some(CString(w))));
    NameField(w, BLANK);
    FieldsNext(KeyText(FileKey), w, TailWords(i), BLANK);
  }

  lemma LineWords(i: Info)
    requires Bytes(i.name)
    ensures SplitArgs(Line(i)) == Prepend(KeyText(FileKey), SplitArgs(NameText(i.name) + Spaced(TailWords(i))))
  {
    hide NameText, TailWords, Spaced, SplitArgs, KeyText, Word, PlainWord, CString, Bytes;
    var file, rest := KeyText(FileKey), NameText(i.name) + Spaced(TailWords(i));
    KeyWord(FileKey);
    WordIsPlain(file);
    WordFirst(file, " " + rest);
    SplitSkips(rest);
    assert Line(i) == file + (" " + rest);
  }

  /** A line is read back as it was exactly when its name and numbers allow it; its kind is never changed. */
  lemma LineReadBack(i: Info)
    requires Typed(i)
    ensures ReadLine(Line(i)) == Some(i) <==> Readable(i)
    ensures ReadLine(Line(i)).Some? ==> ReadLine(Line(i)).value.kind == i.kind
  {
    hide Line, NameReadable, ReadLine;
    if NameReadable(i.name) {
      GoodLine(i);
    } else {
      BadLine(i);
    }
  }

  lemma GoodLine(i: Info)
    requires Typed(i) && NameReadable(i.name)
    ensures ReadLine(Line(i)) == Some(i) <==> Readable(i)
    ensures ReadLine(Line(i)).Some? ==> ReadLine(Line(i)).value.kind == i.kind
  {
    hide Line, NameText, SplitArgs, TailWords, Spaced, ReadWords, NameReadable, CString, KeyText;
    hide InLong, Bytes, BaseName;
    var words := TailWords(i);
    TailIsWords(i);
    SplitSpaced(words);
    LineWords(i);
    NameFirst(i.name, Spaced(words));
    NamedWords(i, i.name);
    assert [KeyText(FileKey)] + ([i.name] + words) == [KeyText(FileKey), i.name] + words;
    if NUL !in i.name {
      NoTerminator(i.name);
    }
  }

  lemma BadLine(i: Info)
    requires Typed(i) && !NameReadable(i.name)
    ensures ReadLine(Line(i)) != Some(i)
    ensures ReadLine(Line(i)).Some? ==> ReadLine(Line(i)).value.kind == i.kind
  {
    hide Line, NameText, SplitArgs, TailWords, Spaced, Fields, NameReadable, CString, KeyText, InLong, Bytes, BaseName;
    var words := TailWords(i);
    TailIsWords(i);
    SplitSpaced(words);
    LineWords(i);
    NoQuote(words);
    NameLost(i.name, Spaced(words));
    TailFields(i, BLANK);
    if ReadLine(Line(i)).Some? {
      hide ReadWords;
      var w :| |w| < |i.name| && SplitArgs(NameText(i.name) + Spaced(words)) == Prepend(w, Some(words));
      NamedWords(i, w);
      assert [KeyText(FileKey)] + ([w] + words) == [KeyText(FileKey), w] + words;
    }
  }

  lemma NoQuote(words: seq<string>)
    requires Words(words)
    ensures '\'' !in Spaced(words)
  {
    SpacedPlain(words);
  }

  // ---- Reading a file ----

  function NewlineAt(s: string): (n: nat)
    ensures n <= |s| && '\n' !in s[..n] && (n < |s| ==> s[n] == '\n')
  {
    if s == "" || s[0] == '\n' then 0 else 1 + NewlineAt(s[1..])
  }

  /** What one read of a line gives: through the line end, as far as the buffer goes. */
  function Chunk(s: string): (c: string)
    requires s != ""
    ensures c != "" && c <= s
  {
    var n := NewlineAt(s);
    var through := if n < |s| then n + 1 else n;
    s[..if through > LINE_MAX then LINE_MAX else through]
  }

  function TrimLeft(s: string): string {
    if s != "" && EndsWord(s[0]) then TrimLeft(s[1..]) else s
  }

  function TrimRight(s: string): string {
    if s != "" && EndsWord(s[|s| - 1]) then TrimRight(s[..|s| - 1]) else s
  }

  function Trim(s: string): string {
    TrimRight(TrimLeft(s))
  }

  /** The buffer is a comment, or one line; none when it is neither. */
  datatype Piece = Comment | Given(info: Info) | Wrong

  function ReadPiece(buf: string): Piece {
    var s := CString(buf);
    if s != "" && s[0] == '#' then Comment
    else if '\n' !in s || Trim(s) == "" then Wrong
    else
      match ReadLine(Trim(s))
      case None => Wrong
      case Some(i) => Given(i)
  }

  function ReadText(text: string): Option<seq<Info>>
    decreases |text|
  {
    if text == "" then Some([])
    else
      var c := Chunk(text);
      var rest := ReadText(text[|c|..]);
      match ReadPiece(c)
      case Comment => rest
      case Wrong => None
      case Given(i) => if rest.None? then None else Some([i] + rest.value)
  }

  // ---- The manifest from its lines ----

  datatype Loaded = Loaded(base: Option<Info>, history: seq<Info>, incr: seq<Info>, currBase: int, currIncr: int)

  const NO_FILES := Loaded(None, [], [], 0, 0)

  function Add(m: Loaded, i: Info): Option<Loaded> {
    if i.kind == 'b' then
      if m.base.Some? then None else Some(m.(base := Some(i), currBase := i.number))
    else if i.kind == 'h' then Some(m.(history := m.history + [i]))
    else if i.kind == 'i' then
      if i.number <= m.currIncr then None else Some(m.(incr := m.incr + [i], currIncr := i.number))
    else None
  }

  function Assemble(infos: seq<Info>, m: Loaded): Option<Loaded>
    decreases |infos|
  {
    if infos == [] then Some(m)
    else
      match Add(m, infos[0])
      case None => None
      case Some(n) => Assemble(infos[1..], n)
  }

  function AssembleAll(infos: Option<seq<Info>>, m: Loaded): Option<Loaded> {
    match infos
    case None => None
    case Some(l) => Assemble(l, m)
  }

  /** The manifest read from a file; none when the server refuses to start. */
  function ReadManifest(text: string): Option<Loaded> {
    if text == "" then None else AssembleAll(ReadText(text), NO_FILES)
  }

  /** Line by line, as the program does it. */
  method LoadManifest(text: string) returns (r: Option<Loaded>)
    ensures r == ReadManifest(text)
  {
    hide ReadPiece, Chunk, Add;
    if text == "" {
      return None;
    }
    var rest, m := text, NO_FILES;
    while rest != ""
      invariant AssembleAll(ReadText(rest), m) == ReadManifest(text)
      decreases |rest|
    {
      var buf := Chunk(rest);
      rest := rest[|buf|..];
      match ReadPiece(buf)
      case Comment =>
      case Wrong =>
        return None;
      case Given(i) =>
        AssembleNext(i, ReadText(rest), m);
        var n := Add(m, i);
        if n.None? {
          return None;
        }
        m := n.value;
    }
    r := Some(m);
  }

  lemma AssembleNext(i: Info, rest: Option<seq<Info>>, m: Loaded)
    ensures AssembleAll(if rest.None? then None else Some([i] + rest.value), m)
         == match Add(m, i) case None => None case Some(n) => AssembleAll(rest, n)
  {
    hide Add;
    if rest.Some? {
      assert ([i] + rest.value)[1..] == rest.value;
    }
  }

  // ---- A file is read back ----

  predicate AllPrintable(s: string) {
    forall i :: 0 <= i < |s| ==> Printable(s[i])
  }

  lemma ReprCharPrintable(c: char)
    requires IsByte(c)
    ensures AllPrintable(ReprChar(c))
  {
    HexBack(c as nat / 16);
    HexBack(c as nat % 16);
    hide HexDigit, HexValue;
  }

  lemma {:induction false} ReprCharsPrintable(s: string)
    requires Bytes(s)
    ensures AllPrintable(ReprChars(s))
    decreases |s|
  {
    hide ReprChar;
    if s != "" {
      ReprCharsPrintable(s[..|s| - 1]);
      ReprCharPrintable(s[|s| - 1]);
    }
  }

  lemma NamePrintable(s: string)
    requires Bytes(s)
    ensures AllPrintable(NameText(s))
  {
    ReprCharsPrintable(s);
    hide ReprChars;
    if !NeedsRepr(s) {
      assert forall i :: 0 <= i < |s| ==> !Special(s[i]);
    }
  }

  /** A printed line has no line end and no terminator, no blank at either end, and is no comment. */
  lemma LineText(i: Info)
    requires Typed(i)
    ensures AllPrintable(Line(i)) && |Line(i)| >= 2
    ensures Line(i)[0] == 'f' && !EndsWord(Line(i)[|Line(i)| - 1])
  {
    NamePrintable(i.name);
    TailIsWords(i);
    SpacedPlain(TailWords(i));
    KeyWord(FileKey);
    hide NameText, Spaced, TailWords;
  }

  lemma {:induction false} NewlineFound(s: string, rest: string)
    requires '\n' !in s
    ensures NewlineAt(s + "\n" + rest) == |s|
    decreases |s|
  {
    if s != "" {
      assert s[0] in s;
      assert (s + "\n" + rest)[1..] == s[1..] + "\n" + rest;
      NewlineFound(s[1..], rest);
    }
  }

  lemma TrimLine(s: string)
    requires s != "" && !EndsWord(s[0]) && !EndsWord(s[|s| - 1])
    ensures Trim(s + "\n") == s
  {
    var t := s + "\n";
    assert t[0] == s[0] && TrimLeft(t) == t;
    assert t[|t| - 1] == '\n' && t[..|t| - 1] == s;
    assert TrimRight(s) == s;
  }

  lemma PieceBack(i: Info)
    requires Typed(i)
    ensures ReadPiece(Line(i) + "\n")
         == match ReadLine(Line(i)) case None => Wrong case Some(j) => Given(j)
  {
    hide Line, ReadLine;
    LineText(i);
    var s := Line(i) + "\n";
    assert s[0] == 'f' && s[|s| - 1] == '\n';
    assert NUL !in s;
    NoTerminator(s);
    TrimLine(Line(i));
    hide CString, Trim;
  }

  lemma CutPiece(s: string)
    requires s != "" && s[0] == 'f' && '\n' !in s
    ensures ReadPiece(s) == Wrong
  {
    NoNewline(s);
    hide Trim, ReadLine;
  }

  lemma {:induction false} NoNewline(s: string)
    requires '\n' !in s
    ensures '\n' !in CString(s) && (s != "" && s[0] != NUL ==> CString(s) != "" && CString(s)[0] == s[0])
    decreases |s|
  {
    if !AtEnd(s) {
      assert s[0] in s;
      NoNewline(s[1..]);
    }
  }

  /** The next line of a printed text. */
  lemma NextLine(i: Info, rest: string)
    requires Typed(i)
    ensures var text := Line(i) + "\n" + rest;
            && text != ""
            && (|Line(i)| < LINE_MAX ==> Chunk(text) == Line(i) + "\n" && text[|Chunk(text)|..] == rest)
            && (|Line(i)| >= LINE_MAX ==> ReadPiece(Chunk(text)) == Wrong)
  {
    hide Line, ReadPiece;
    LineText(i);
    var text := Line(i) + "\n" + rest;
    assert '\n' !in Line(i);
    NewlineFound(Line(i), rest);
    if |Line(i)| < LINE_MAX {
      assert text[..|Line(i)| + 1] == Line(i) + "\n";
    } else {
      assert text[..LINE_MAX] == Line(i)[..LINE_MAX];
      CutPiece(Line(i)[..LINE_MAX]);
    }
  }

  ghost predicate AllTyped(infos: seq<Info>) {
    forall i :: i in infos ==> Typed(i)
  }

  predicate Fits(i: Info)
    requires Bytes(i.name)
  {
    Readable(i) && |Line(i)| < LINE_MAX
  }

  ghost predicate AllFit(infos: seq<Info>)
    requires AllBytes(infos)
  {
    forall i :: i in infos ==> Fits(i)
  }

  ghost predicate SameKinds(l: seq<Info>, m: seq<Info>) {
    |l| == |m| && forall k :: 0 <= k < |l| ==> l[k].kind == m[k].kind
  }

  /** A printed text is read back as it was exactly when every line is and fits the buffer. */
  lemma {:induction false} TextReadBack(infos: seq<Info>)
    requires AllTyped(infos)
    ensures AllBytes(infos)
    ensures ReadText(Print(infos)) == Some(infos) <==> AllFit(infos)
    ensures ReadText(Print(infos)).Some? ==> SameKinds(ReadText(Print(infos)).value, infos)
    decreases |infos|
  {
    hide Line, Chunk, ReadPiece, ReadLine, Readable;
    assert AllBytes(infos);
    if infos != [] {
      var i, rest := infos[0], infos[1..];
      assert Typed(i) && infos == [i] + rest;
      TextReadBack(rest);
      LineReadBack(i);
      PieceBack(i);
      NextLine(i, Print(rest));
      FirstFits(i, rest);
      var j, l := ReadLine(Line(i)), ReadText(Print(rest));
      if j.Some? && l.Some? {
        FirstSame(j.value, l.value, i, rest);
      }
    }
  }

  lemma FirstFits(i: Info, rest: seq<Info>)
    requires Bytes(i.name) && AllBytes(rest)
    ensures AllBytes([i] + rest) && (AllFit([i] + rest) <==> Fits(i) && AllFit(rest))
  {
    hide Fits, Bytes;
    assert i in [i] + rest && forall x :: x in rest ==> x in [i] + rest;
  }

  lemma FirstSame(j: Info, l: seq<Info>, i: Info, rest: seq<Info>)
    ensures [j] + l == [i] + rest <==> j == i && l == rest
    ensures j.kind == i.kind && SameKinds(l, rest) ==> SameKinds([j] + l, [i] + rest)
  {
    assert ([j] + l)[0] == j && ([j] + l)[1..] == l && ([i] + rest)[0] == i && ([i] + rest)[1..] == rest;
  }

  // ---- The manifest is read back ----

  function BaseList(base: Option<Info>): seq<Info> {
    if base.Some? then [base.value] else []
  }

  /** In the order of the file: the base, the history, the increments. */
  function InOrder(base: Option<Info>, history: seq<Info>, incr: seq<Info>): seq<Info> {
    BaseList(base) + history + incr
  }

  function NumberOf(l: seq<Info>): int {
    if l == [] then 0 else l[|l| - 1].number
  }

  /** The manifest that lists these files. */
  function Made(base: Option<Info>, history: seq<Info>, incr: seq<Info>): Loaded {
    Loaded(base, history, incr, NumberOf(BaseList(base)), NumberOf(incr))
  }

  lemma {:induction false} PrintParts(a: seq<Info>, b: seq<Info>)
    requires AllBytes(a) && AllBytes(b)
    ensures AllBytes(a + b) && Print(a + b) == Print(a) + Print(b)
    decreases |a|
  {
    hide Line, Bytes;
    if a == [] {
      assert a + b == b;
    } else {
      assert (a + b)[0] == a[0] && (a + b)[1..] == a[1..] + b;
      PrintParts(a[1..], b);
    }
  }

  /** The manifest as one string. */
  method ManifestString(base: Option<Info>, history: seq<Info>, incr: seq<Info>) returns (r: string)
    requires AllBytes(BaseList(base)) && AllBytes(history) && AllBytes(incr)
    ensures AllBytes(InOrder(base, history, incr)) && r == Print(InOrder(base, history, incr))
  {
    PrintParts(BaseList(base), history);
    PrintParts(BaseList(base) + history, incr);
    r := "";
    if base.Some? {
      assert base.value in BaseList(base);
      r := Format(r, base.value);
    }
    assert r == Print(BaseList(base));
    r := PrintList(r, history);
    r := PrintList(r, incr);
  }

  predicate OfKind(l: seq<Info>, kind: char) {
    forall k :: 0 <= k < |l| ==> l[k].kind == kind
  }

  predicate Kinds(base: Option<Info>, history: seq<Info>, incr: seq<Info>) {
    OfKind(BaseList(base), 'b') && OfKind(history, 'h') && OfKind(incr, 'i')
  }

  /** The numbers climb from above the given one. */
  predicate Climbs(l: seq<Info>, from: int) {
    l == [] || (from < l[0].number && Climbs(l[1..], l[0].number))
  }

  lemma {:induction false} AssembleIncr(l: seq<Info>, m: Loaded)
    requires OfKind(l, 'i')
    ensures Assemble(l, m)
         == if Climbs(l, m.currIncr)
            then Some(m.(incr := m.incr + l, currIncr := if l == [] then m.currIncr else NumberOf(l))) else None
    decreases |l|
  {
    if l == [] {
      assert m.incr + l == m.incr;
    } else {
      var n := m.(incr := m.incr + [l[0]], currIncr := l[0].number);
      AssembleIncr(l[1..], n);
      assert m.incr + l == m.incr + [l[0]] + l[1..];
    }
  }

  lemma {:induction false} AssembleHistory(l: seq<Info>, rest: seq<Info>, m: Loaded)
    requires OfKind(l, 'h')
    ensures Assemble(l + rest, m) == Assemble(rest, m.(history := m.history + l))
    decreases |l|
  {
    if l == [] {
      assert l + rest == rest && m.history + l == m.history;
    } else {
      assert (l + rest)[0] == l[0] && (l + rest)[1..] == l[1..] + rest;
      AssembleHistory(l[1..], rest, m.(history := m.history + [l[0]]));
      assert m.history + l == m.history + [l[0]] + l[1..];
    }
  }

  lemma AssembleExactly(base: Option<Info>, history: seq<Info>, incr: seq<Info>)
    requires Kinds(base, history, incr)
    ensures Assemble(InOrder(base, history, incr), NO_FILES)
         == if Climbs(incr, 0) then Some(Made(base, history, incr)) else None
  {
    hide Climbs;
    var m := if base.Some? then NO_FILES.(base := base, currBase := base.value.number) else NO_FILES;
    var all := InOrder(base, history, incr);
    if base.Some? {
      assert all[0] == base.value && all[0].kind == 'b' && all[1..] == history + incr;
    } else {
      assert all == history + incr;
    }
    assert Assemble(all, NO_FILES) == Assemble(history + incr, m);
    hide Assemble;
    AssembleHistory(history, incr, m);
    AssembleIncr(incr, m.(history := history));
    assert [] + history == history && [] + incr == incr;
  }

  /** Lines of the same kinds give another manifest. */
  lemma OtherLines(l: seq<Info>, base: Option<Info>, history: seq<Info>, incr: seq<Info>)
    requires Kinds(base, history, incr) && SameKinds(l, InOrder(base, history, incr))
    requires Assemble(l, NO_FILES) == Some(Made(base, history, incr))
    ensures l == InOrder(base, history, incr)
  {
    var all, n := InOrder(base, history, incr), |BaseList(base)|;
    var base', history', incr' := if n == 0 then None else Some(l[0]), l[n..n + |history|], l[n + |history|..];
    forall k | 0 <= k < |l|
      ensures l[k].kind == if k < n then 'b' else if k < n + |history| then 'h' else 'i'
    {
      assert l[k].kind == all[k].kind;
    }
    assert Kinds(base', history', incr');
    assert l == InOrder(base', history', incr');
    AssembleExactly(base', history', incr');
  }

  /**
    The manifest that was printed is the one that is read when the server starts, exactly
    when it lists a file, the INCR numbers climb, and every line can be read back: the name
    has no path and no bare single quote, and the line fits the buffer.
  */
  lemma ManifestReadBack(base: Option<Info>, history: seq<Info>, incr: seq<Info>)
    requires Kinds(base, history, incr) && AllTyped(InOrder(base, history, incr))
    ensures var all := InOrder(base, history, incr);
            && AllBytes(all)
            && (ReadManifest(Print(all)) == Some(Made(base, history, incr)) <==>
                  all != [] && AllFit(all) && Climbs(incr, 0))
  {
    hide ReadText, Print, Assemble, AllFit, Climbs, InOrder, Kinds, Made, AllTyped;
    var all := InOrder(base, history, incr);
    TextReadBack(all);
    SomethingPrinted(all);
    AssembleExactly(base, history, incr);
    if ReadManifest(Print(all)) == Some(Made(base, history, incr)) {
      OtherLines(ReadText(Print(all)).value, base, history, incr);
    }
  }

  lemma SomethingPrinted(infos: seq<Info>)
    requires AllBytes(infos)
    ensures Print(infos) == "" <==> infos == []
  {
    hide Line;
  }

  // ---- The manifests of the rewrite ----

  /** The name and number of a file, as they were when it was made. */
  ghost predicate Describes(i: Info, name: FileName, prefix: string) {
    && i.number == name.number
    && match name
       case Base(n) => i.name == FileText(prefix, n, ".base.rdb") || i.name == FileText(prefix, n, ".base.aof")
       case Incr(n) => i.name == FileText(prefix, n, ".incr.aof")
  }

  ghost predicate DescribesAll(l: seq<Info>, names: seq<FileName>, prefix: string) {
    |l| == |names| && forall k :: 0 <= k < |l| ==> Describes(l[k], names[k], prefix)
  }

  ghost predicate Numbered(l: seq<Info>, numbers: seq<nat>) {
    |l| == |numbers| && forall k :: 0 <= k < |l| ==> l[k].number == numbers[k]
  }

  lemma {:induction false} IncreasingClimbs(l: seq<Info>, numbers: seq<nat>, from: int)
    requires Numbered(l, numbers) && Increasing(numbers) && (numbers != [] ==> from < numbers[0])
    ensures Climbs(l, from)
    decreases |l|
  {
    if l != [] {
      IncreasingClimbs(l[1..], numbers[1..], numbers[0]);
    }
  }

  function BaseNames(base: Option<nat>): seq<FileName> {
    if base.Some? then [Base(base.value)] else []
  }

  /**
    A manifest that can be loaded is loaded with the same files, those to be deleted
    included, and the same next numbers, exactly when its lines can be read back.
  */
  lemma ListingReadBack(m: Manifest, prefix: string, base: Option<Info>, history: seq<Info>, incr: seq<Info>)
    requires Loadable(Text(m)) && m == Load(Text(m))
    requires Kinds(base, history, incr) && AllTyped(InOrder(base, history, incr))
    requires DescribesAll(BaseList(base), BaseNames(m.base), prefix)
    requires DescribesAll(history, m.history, prefix) && DescribesAll(incr, IncrNames(m.incr), prefix)
    ensures var all := InOrder(base, history, incr);
            && AllBytes(all)
            && (ReadManifest(Print(all)) == Some(Loaded(base, history, incr, m.currBase, m.currIncr)) <==> AllFit(all))
  {
    hide FileText;
    assert forall k :: 0 <= k < |incr| ==> Describes(incr[k], IncrNames(m.incr)[k], prefix);
    IncreasingClimbs(incr, m.incr, 0);
    assert InOrder(base, history, incr) != [];
    assert base.Some? ==> Describes(BaseList(base)[0], BaseNames(m.base)[0], prefix);
    ManifestReadBack(base, history, incr);
    hide ReadManifest, Print, AllFit, InOrder, AllTyped, AllBytes;
  }

  // ---- Which names are read back ----

  function FileText(prefix: string, n: int, suffix: string): string {
    prefix + "." + NumberText(n) + suffix
  }

  /** Characters that neither call for quotes nor get in the way. */
  predicate Harmless(s: string) {
    forall i :: 0 <= i < |s| ==> Graphic(s[i]) && s[i] != '/' && s[i] != '\\'
  }

  lemma HarmlessEnd(prefix: string, end: string)
    requires Harmless(end) && end != ""
    ensures GoodName(prefix + end) <==> prefix == "" || GoodName(prefix)
  {
    var s := prefix + end;
    assert forall i :: 0 <= i < |s| ==> s[i] == if i < |prefix| then prefix[i] else end[i - |prefix|];
    assert forall c :: c in s <==> c in prefix || c in end;
    if NeedsRepr(prefix) {
      var k :| 0 <= k < |prefix| && Special(prefix[k]);
      assert Special(s[k]);
    }
  }

  /** Whether a file name can be read back is decided by the configured prefix alone. */
  lemma PrefixDecides(prefix: string, n: nat, suffix: string)
    requires suffix in {".base.rdb", ".base.aof", ".incr.aof"}
    ensures GoodName(FileText(prefix, n, suffix)) <==> prefix == "" || GoodName(prefix)
  {
    DecimalBytes(n);
    hide Decimal;
    assert Harmless("." + NumberText(n));
    assert Harmless(suffix);
    assert FileText(prefix, n, suffix) == prefix + ("." + NumberText(n) + suffix);
    hide NumberText;
    HarmlessEnd(prefix, "." + NumberText(n) + suffix);
  }

  /** One single quote in a name, with nothing that calls for double quotes. */
  predicate OneQuote(s: string) {
    !NeedsRepr(s) && exists k :: 0 <= k < |s| && s[k] == '\'' && '\'' !in s[..k] && '\'' !in s[k + 1..]
  }

  lemma {:induction false} QuoteBreaks(s: string, k: nat, rest: string)
    requires !NeedsRepr(s) && k < |s| && s[k] == '\'' && '\'' !in s[..k] && '\'' !in s[k + 1..] && '\'' !in rest
    ensures Next(s + rest, Bare).Broken?
    decreases k
  {
    var text := s + rest;
    assert !Special(s[0]) && text[0] == s[0] && text[1..] == s[1..] + rest;
    if k == 0 {
      assert '\'' !in s[1..] + rest;
      NeverClosed(s[1..] + rest);
    } else {
      assert s[0] in s[..k] && s[1..][..k - 1] == s[..k][1..] && s[1..][k..] == s[k + 1..];
      assert forall j :: 0 <= j < |s[1..]| ==> s[1..][j] == s[j + 1] && !Special(s[j + 1]);
      QuoteBreaks(s[1..], k - 1, rest);
    }
  }

  lemma QuotedLineRefused(i: Info)
    requires Typed(i) && OneQuote(i.name)
    ensures ReadLine(Line(i)).None?
  {
    var k :| 0 <= k < |i.name| && i.name[k] == '\'' && '\'' !in i.name[..k] && '\'' !in i.name[k + 1..];
    var rest := Spaced(TailWords(i));
    TailIsWords(i);
    NoQuote(TailWords(i));
    QuoteBreaks(i.name, k, rest);
    assert !Special(i.name[0]) && (i.name + rest)[0] == i.name[0];
    SplitToken(i.name + rest);
    LineWords(i);
    hide Next, SplitArgs, Spaced, TailWords, Line;
  }

  /** A line that cannot be read makes the whole text fail. */
  lemma {:induction false} LineRefused(infos: seq<Info>, i: Info)
    requires AllTyped(infos) && i in infos && ReadLine(Line(i)).None?
    ensures AllBytes(infos) && ReadText(Print(infos)).None?
    decreases |infos|
  {
    hide Line, Chunk, ReadPiece, ReadLine, Typed;
    TextReadBack(infos);
    var first, rest := infos[0], infos[1..];
    assert infos == [first] + rest && Typed(first);
    NextLine(first, Print(rest));
    PieceBack(first);
    if first != i {
      LineRefused(rest, i);
    }
  }

  /**
    A file name with one single quote and nothing that calls for double quotes is printed as
    it is.  With such a file in its manifest the server refuses to start.
  */
  lemma QuotedNameRefused(infos: seq<Info>, i: Info)
    requires AllTyped(infos) && i in infos && OneQuote(i.name)
    ensures AllBytes(infos) && ReadManifest(Print(infos)).None?
  {
    hide ReadLine, Line, ReadText, Print, OneQuote;
    assert Typed(i);
    QuotedLineRefused(i);
    LineRefused(infos, i);
  }
}
