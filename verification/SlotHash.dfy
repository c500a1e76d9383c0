/**
  The hash slot of a key, and of a glob pattern.

  A key is hashed whole, or only the part between its first opening brace and the next
  closing one when both exist and the part is not empty.  A pattern has a slot when every
  key it can match has that slot.  The hash itself is a parameter.
*/
module SlotHash {

  type Bytes = seq<char>
  type Hash = Bytes -> nat

  const SLOTS := 16384

  // ---- Keys ----

  /** The first position of a character from some position on, or the length. */
  function Find(s: Bytes, c: char, from: nat): (i: nat)
    requires from <= |s|
    ensures from <= i <= |s|
    ensures i < |s| ==> s[i] == c
    ensures forall j :: from <= j < i ==> s[j] != c
    decreases |s| - from
  {
    if from == |s| || s[from] == c then from else Find(s, c, from + 1)
  }

  /** The part of the key that is hashed. */
  function Tag(key: Bytes): Bytes {
    var open := Find(key, '{', 0);
    if open == |key| then key
    else
      var close := Find(key, '}', open + 1);
      if close == |key| || close == open + 1 then key else key[open + 1..close]
  }

  function KeySlot(crc16: Hash, key: Bytes): nat {
    crc16(Tag(key)) % SLOTS
  }

  method KeyHashSlot(crc16: Hash, key: Bytes) returns (slot: nat)
    ensures slot == KeySlot(crc16, key)
  {
    var s := 0;
    while s < |key| && key[s] != '{'
      invariant s <= |key| && Find(key, '{', 0) == Find(key, '{', s)
    {
      s := s + 1;
    }
    if s == |key| {
      return crc16(key) % SLOTS;
    }
    var e := s + 1;
    while e < |key| && key[e] != '}'
      invariant s + 1 <= e <= |key| && Find(key, '}', s + 1) == Find(key, '}', e)
    {
      e := e + 1;
    }
    if e == |key| || e == s + 1 {
      return crc16(key) % SLOTS;
    }
    return crc16(key[s + 1..e]) % SLOTS;
  }

  // ---- Matching a pattern ----

  predicate Special(c: char) {
    c == '*' || c == '?' || c == '[' || c == '\\'
  }

  predicate Literal(s: Bytes) {
    forall i :: 0 <= i < |s| ==> !Special(s[i])
  }

  function StripStars(p: Bytes): (r: Bytes)
    ensures |r| <= |p|
    ensures p != [] && p[0] != '*' ==> r == p
  {
    if p != [] && p[0] == '*' then StripStars(p[1..]) else p
  }

  /** Of a run of stars, the last one and what follows. */
  function LastStar(p: Bytes): (r: Bytes)
    requires p != [] && p[0] == '*'
    ensures 0 < |r| <= |p|
  {
    if |p| > 1 && p[1] == '*' then LastStar(p[1..]) else p
  }

  /**
    A character class, from behind its opening bracket or caret: whether it has the
    character, and the pattern from the last character the class takes up.
  */
  function Class(p: Bytes, last: char, c: char, found: bool): (r: (bool, Bytes))
    ensures 0 < |r.1| <= |p| + 1
    decreases |p|
  {
    if |p| >= 2 && p[0] == '\\' then Class(p[2..], p[1], c, found || p[1] == c)
    else if p == [] then (found, [last])
    else if p[0] == ']' then (found, p)
    else if |p| >= 3 && p[1] == '-' then
      var lo, hi := if p[0] > p[2] then p[2] else p[0], if p[0] > p[2] then p[0] else p[2];
      Class(p[3..], p[2], c, found || lo <= c <= hi)
    else Class(p[1..], p[0], c, found || p[0] == c)
  }

  const MAX_NESTING := 1000

  /** Whether the pattern matches, and whether longer matches of earlier stars can be skipped. */
  function Match(p: Bytes, s: Bytes, nesting: nat, skip: bool): (bool, bool)
    decreases |p|, |s|, 3
  {
    if nesting > MAX_NESTING then (false, skip) else MatchLoop(p, s, nesting, skip)
  }

  function MatchLoop(p: Bytes, s: Bytes, nesting: nat, skip: bool): (bool, bool)
    decreases |p|, |s|, 2
  {
    if p == [] || s == [] then (p == [] && s == [], skip)
    else if p[0] == '*' then
      var star := LastStar(p);
      if |star| == 1 then (true, skip) else MatchStar(star[1..], s, nesting, skip)
    else if p[0] == '?' then MatchNext(p[1..], s[1..], nesting, skip)
    else if p[0] == '[' then
      var negated := |p| > 1 && p[1] == '^';
      var (found, rest) := if negated then Class(p[2..], p[1], s[0], false) else Class(p[1..], p[0], s[0], false);
      if found == negated then (false, skip) else MatchNext(rest[1..], s[1..], nesting, skip)
    else
      var q := if p[0] == '\\' && |p| >= 2 then p[1..] else p;
      if q[0] != s[0] then (false, skip) else MatchNext(q[1..], s[1..], nesting, skip)
  }

  /** After one character of the string is used up. */
  function MatchNext(p: Bytes, s: Bytes, nesting: nat, skip: bool): (bool, bool)
    decreases |p|, |s|, 3
  {
    if s == [] then (StripStars(p) == [], skip) else MatchLoop(p, s, nesting, skip)
  }

  /** Try the rest of the pattern from every position of the rest of the string. */
  function MatchStar(p: Bytes, s: Bytes, nesting: nat, skip: bool): (bool, bool)
    decreases |p|, |s|, 4
  {
    if s == [] then (false, true)
    else
      var (matched, skip') := Match(p, s, nesting + 1, skip);
      if matched then (true, skip')
      else if skip' then (false, true)
      else MatchStar(p, s[1..], nesting, skip')
  }

  predicate Matches(pattern: Bytes, key: Bytes) {
    Match(pattern, key, 0, false).0
  }

  /** A key that matches starts with the literal part of the pattern, and is it when nothing follows. */
  lemma {:induction false} LiteralPrefix(lit: Bytes, rest: Bytes, key: Bytes, nesting: nat, skip: bool)
    requires Literal(lit) && MatchLoop(lit + rest, key, nesting, skip).0
    ensures lit <= key
    ensures rest == [] ==> key == lit
    decreases |lit|
  {
    if lit != [] {
      var p := lit + rest;
      assert p[0] == lit[0] && !Special(p[0]) && p[1..] == lit[1..] + rest;
      assert key != [] && p[0] == key[0];
      assert key == [key[0]] + key[1..] && lit == [lit[0]] + lit[1..];
      if key[1..] != [] {
        LiteralPrefix(lit[1..], rest, key[1..], nesting, skip);
      }
    }
  }

  lemma {:induction false} FindIs(s: Bytes, c: char, from: nat, i: nat)
    requires from <= i < |s| && s[i] == c && forall j :: from <= j < i ==> s[j] != c
    ensures Find(s, c, from) == i
  {
  }

  /** The tag is decided by the key's start, up to and including the closing brace. */
  lemma TagOfPrefix(prefix: Bytes, open: nat, key: Bytes)
    requires prefix <= key && open + 2 < |prefix| && prefix[open] == '{' && prefix[|prefix| - 1] == '}'
    requires forall j :: 0 <= j < open ==> prefix[j] != '{'
    requires forall j :: open + 1 <= j < |prefix| - 1 ==> prefix[j] != '}'
    ensures Tag(key) == prefix[open + 1..|prefix| - 1]
  {
    FindIs(key, '{', 0, open);
    FindIs(key, '}', open + 1, |prefix| - 1);
  }

  /**
    The slot of a pattern, or none: when there is one, every key that the pattern matches
    has it.  There is none exactly if a special character comes before the end of the tag.
  */
  method PatternHashSlot(crc16: Hash, pattern: Bytes) returns (slot: int)
    ensures slot >= 0 ==> forall key :: Matches(pattern, key) ==> slot == KeySlot(crc16, key)
    ensures slot < 0 <==> exists i :: 0 <= i < |pattern| && Special(pattern[i]) && Tag(pattern[..i]) == pattern[..i]
    ensures Literal(pattern) ==> slot == KeySlot(crc16, pattern)
  {
    hide Match, MatchLoop, Find, Tag;
    var s := -1;
    ghost var open := 0;
    for i := 0 to |pattern|
      invariant Literal(pattern[..i])
      invariant s == -1 ==> forall j :: 0 <= j < i ==> pattern[j] != '{'
      invariant s == -1 || s == -2 || 0 <= s < i
      invariant s >= 0 ==> open == s && forall j :: s < j < i ==> pattern[j] != '}'
      invariant s != -1 ==> open < i && pattern[open] == '{' && forall j :: 0 <= j < open ==> pattern[j] != '{'
      invariant s == -2 ==> open + 1 < i && pattern[open + 1] == '}'
    {
      assert pattern[..i + 1] == pattern[..i] + [pattern[i]];
      UntaggedPattern(pattern[..i], s, open);
      if pattern[i] == '*' || pattern[i] == '?' || pattern[i] == '[' {
        return -1;
      } else if pattern[i] == '\\' {
        return -1;
      } else if s == -1 && pattern[i] == '{' {
        s := i;
        open := i;
      } else if s >= 0 && pattern[i] == '}' && i == s + 1 {
        s := -2;
      } else if s >= 0 && pattern[i] == '}' {
        slot := crc16(pattern[s + 1..i]) % SLOTS;
        TaggedPattern(pattern, s, i);
        assert pattern[..|pattern|] == pattern;
        assert forall j :: 0 <= j <= i ==> pattern[j] == pattern[..i + 1][j];
        return;
      }
    }
    slot := crc16(pattern) % SLOTS;
    assert pattern[..|pattern|] == pattern;
    WholePattern(pattern);
    UntaggedPattern(pattern, s, open);
  }

  lemma TaggedPattern(pattern: Bytes, open: nat, close: nat)
    requires open + 1 < close < |pattern| && Literal(pattern[..close + 1])
    requires pattern[open] == '{' && pattern[close] == '}'
    requires forall j :: 0 <= j < open ==> pattern[j] != '{'
    requires forall j :: open < j < close ==> pattern[j] != '}'
    ensures forall key :: Matches(pattern, key) ==> Tag(key) == pattern[open + 1..close]
    ensures forall i :: close < i <= |pattern| ==> Tag(pattern[..i]) == pattern[open + 1..close]
  {
    hide Tag, MatchLoop;
    var prefix := pattern[..close + 1];
    assert pattern == prefix + pattern[close + 1..];
    forall key | Matches(pattern, key)
      ensures Tag(key) == pattern[open + 1..close]
    {
      LiteralPrefix(prefix, pattern[close + 1..], key, 0, false);
      TagOfPrefix(prefix, open, key);
    }
    forall i | close < i <= |pattern|
      ensures Tag(pattern[..i]) == pattern[open + 1..close]
    {
      TagOfPrefix(prefix, open, pattern[..i]);
    }
  }

  lemma WholePattern(pattern: Bytes)
    requires Literal(pattern)
    ensures forall key :: Matches(pattern, key) ==> key == pattern
  {
    forall key | Matches(pattern, key)
      ensures key == pattern
    {
      assert pattern + [] == pattern;
      LiteralPrefix(pattern, [], key, 0, false);
    }
  }

  lemma UntaggedPattern(pattern: Bytes, s: int, open: nat)
    requires s == -1 || s == -2 || s == open
    requires s == -1 ==> forall j :: 0 <= j < |pattern| ==> pattern[j] != '{'
    requires s != -1 ==> open < |pattern| && pattern[open] == '{' && forall j :: 0 <= j < open ==> pattern[j] != '{'
    requires s >= 0 ==> forall j :: open < j < |pattern| ==> pattern[j] != '}'
    requires s == -2 ==> open + 1 < |pattern| && pattern[open + 1] == '}'
    ensures Tag(pattern) == pattern
  {
    hide Find;
    if s != -1 {
      FindIs(pattern, '{', 0, open);
      if s == -2 {
        FindIs(pattern, '}', open + 1, open + 1);
      }
    }
  }
}
