/**
  The rule log as text: rules separated by single spaces, edited in place.

  The program finds its rules again by the spaces, so a rule that holds a space is taken for
  several pieces.
*/
module AclRuleText {
  import opened SdsText
  import opened AclRules

  /** Rules joined by single spaces. */
  function Join(rules: seq<string>): string {
    if rules == [] then ""
    else if |rules| == 1 then rules[0]
    else rules[0] + " " + Join(rules[1..])
  }

  /** A rule has its sign, no space and no terminator: enough to find it in the text. */
  predicate Unspaced(rule: string) {
    |rule| >= 1 && ' ' !in rule && NUL !in rule
  }

  ghost predicate AllUnspaced(rules: seq<string>) {
    forall r :: r in rules ==> Unspaced(r)
  }

  lemma {:induction false} JoinAppend(rules: seq<string>, rule: string)
    ensures Join(rules + [rule]) == if rules == [] then rule else Join(rules) + " " + rule
    decreases |rules|
  {
    if rules == [] {
      assert rules + [rule] == [rule];
    } else {
      JoinAppend(rules[1..], rule);
      assert (rules + [rule])[1..] == rules[1..] + [rule];
      if |rules| == 1 {
        assert rules[1..] == [];
      }
    }
  }

  lemma {:induction false} JoinHasNoTerminator(rules: seq<string>)
    requires AllUnspaced(rules)
    ensures NUL !in Join(rules)
    ensures rules != [] ==> Join(rules) != ""
    decreases |rules|
  {
    if rules != [] {
      assert Unspaced(rules[0]);
      assert AllUnspaced(rules[1..]);
      JoinHasNoTerminator(rules[1..]);
    }
  }

  lemma JoinFirst(first: string, rest: seq<string>)
    ensures Join([first] + rest) == first + if rest == [] then "" else " " + Join(rest)
  {
    assert ([first] + rest)[1..] == rest;
  }

  // ---- Removal in place ----

  /** The text before the rules still to be looked at. */
  function Before(kept: seq<string>, rest: seq<string>): string {
    if kept == [] then "" else if rest == [] then Join(kept) else Join(kept) + " "
  }

  /** The buffer holds a terminated text of length n. */
  ghost predicate Terminated(buf: seq<char>, n: nat, text: string) {
    n < |buf| && buf[..n] == text && buf[n] == NUL && NUL !in text
  }

  /** First position of c at or after `from`, or the terminator. */
  method FindChar(buf: array<char>, from: nat, c: char, ghost n: nat) returns (i: nat, found: bool)
    requires from <= n < buf.Length && buf[n] == NUL && NUL !in buf[..n] && c != NUL
    ensures from <= i <= n && c !in buf[from..i]
    ensures if found then i < n && buf[i] == c else i == n
  {
    i := from;
    while buf[i] != NUL && buf[i] != c
      invariant from <= i <= n && c !in buf[from..i]
      decreases n - i
    {
      assert i < n;
      i := i + 1;
    }
    found := buf[i] == c;
  }

  method StringLength(buf: array<char>, from: nat, ghost n: nat) returns (length: nat)
    requires from <= n < buf.Length && buf[n] == NUL && NUL !in buf[..n]
    ensures length == n - from
  {
    length := 0;
    assert forall k :: 0 <= k < n ==> buf[..n][k] == buf[k];
    while buf[from + length] != NUL
      invariant from + length <= n
      decreases n - length
    {
      length := length + 1;
    }
  }

  /** Copy n characters from src down to dst. */
  method MoveDown(buf: array<char>, dst: nat, src: nat, n: nat)
    requires dst <= src && src + n <= buf.Length
    modifies buf
    ensures buf[..dst] == old(buf[..dst])
    ensures buf[dst..dst + n] == old(buf[src..src + n])
  {
    ghost var was := buf[..];
    var i := 0;
    while i < n
      invariant 0 <= i <= n
      invariant buf[..dst] == was[..dst]
      invariant buf[dst..dst + i] == was[src..src + i]
      invariant buf[src + i..] == was[src + i..]
    {
      assert buf[src + i] == was[src + i] by { assert buf[src + i..][0] == was[src + i..][0]; }
      buf[dst + i] := buf[src + i];
      i := i + 1;
    }
  }

  // The four ways one iteration can go, on the text.

  lemma KeepInner(kept: seq<string>, r: string, rest: seq<string>)
    requires rest != []
    ensures Before(kept, [r] + rest) + r + " " == Before(kept + [r], rest)
    ensures Join([r] + rest) == r + " " + Join(rest)
    ensures Before(kept, [r] + rest) == Before(kept, rest)
  {
    JoinAppend(kept, r);
    assert ([r] + rest)[1..] == rest;
  }

  lemma KeepLast(kept: seq<string>, r: string)
    ensures Before(kept, [r]) + r == Before(kept + [r], [])
  {
    JoinAppend(kept, r);
  }

  /** Where the first remaining rule sits in the text. */
  lemma RuleAt(kept: seq<string>, r: string, rest: seq<string>)
    ensures var p := |Before(kept, [r] + rest)|;
            var text := Before(kept, [r] + rest) + Join([r] + rest);
            && p + |r| <= |text|
            && text[p..p + |r|] == r
            && (if rest == [] then p + |r| == |text| else p + |r| < |text| && text[p + |r|] == ' ')
  {
    if rest != [] {
      KeepInner(kept, r, rest);
    }
  }

  /** Dropping it, and the space that goes with it. */
  lemma DropLast(kept: seq<string>, r: string)
    ensures var p := |Before(kept, [r])|;
            var text := Before(kept, [r]) + Join([r]);
            |text| >= p && text[..if p == 0 then 0 else p - 1] == Before(kept, [])
  {
    var text := Before(kept, [r]) + Join([r]);
    if kept != [] {
      assert text[..|Join(kept)|] == Join(kept);
    }
  }

  lemma DropInner(kept: seq<string>, r: string, rest: seq<string>)
    requires rest != []
    ensures var p := |Before(kept, [r] + rest)|;
            var text := Before(kept, [r] + rest) + Join([r] + rest);
            && p == |Before(kept, rest)|
            && |text| >= p + |r| + 1 && text[..p] + text[p + |r| + 1..] == Before(kept, rest) + Join(rest)
  {
    KeepInner(kept, r, rest);
    hide Join, Before;
    var before, tail := Before(kept, rest), Join(rest);
    var text := before + (r + " " + tail);
    assert text[..|before|] == before;
    assert text[|before| + |r| + 1..] == tail;
  }

  lemma SpaceAfterRule(text: string, p: nat, r: string, i: nat, found: bool)
    requires p + |r| <= |text| && text[p..p + |r|] == r && |r| >= 1 && ' ' !in r[1..]
    requires p + |r| < |text| ==> text[p + |r|] == ' '
    requires p + 1 <= i <= |text| && ' ' !in text[p + 1..i]
    requires if found then i < |text| && text[i] == ' ' else i == |text|
    ensures i == p + |r| && (found <==> p + |r| < |text|)
  {
    assert forall k :: p <= k < p + |r| ==> text[k] == r[k - p];
    assert forall k :: p + 1 <= k < p + |r| ==> text[k] == r[1..][k - p - 1];
    assert forall k :: p + 1 <= k < i ==> text[k] == text[p + 1..i][k - p - 1];
  }

  /** The comparison of the loop is the overruling relation. */
  lemma ComparisonIsOverruling(rule: string, name: string)
    requires |rule| >= 1
    ensures var e := rule[1..];
            var m := if |e| <= |name| then |e| else |name|;
            (e[..m] == name[..m] && (|e| == |name| || (|e| > |name| && e[|name|] == '|'))) == Overrules(name, rule)
  {
    var e := rule[1..];
    assert |e| > |name| && e[..|name|] == name && e[|name|] == '|' ==> name + "|" <= e;
    assert name + "|" <= e ==> |e| > |name| && e[|name|] == '|' && e[..|name|] == (name + "|")[..|name|];
    assert (name + "|")[..|name|] == name;
  }

  lemma RemoveHead(r: string, rest: seq<string>, name: string)
    ensures RemoveOverruled([r] + rest, name)
         == (if Overrules(name, r) then [] else [r]) + RemoveOverruled(rest, name)
  {
    assert ([r] + rest)[1..] == rest;
  }

  /** The text after one iteration, and the position it continues from. */
  ghost function AfterText(text: string, p: nat, r: string, drop: bool): string
    requires p + |r| <= |text|
  {
    if !drop then text
    else if p + |r| == |text| then text[..if p == 0 then 0 else p - 1]
    else text[..p] + text[p + |r| + 1..]
  }

  ghost function AfterPosition(text: string, p: nat, r: string, drop: bool): nat {
    if drop then (if p + |r| == |text| && p != 0 then p - 1 else p)
    else if p + |r| == |text| then p + |r| else p + |r| + 1
  }

  lemma IterationOnRules(kept: seq<string>, r: string, rest: seq<string>, drop: bool)
    ensures var p := |Before(kept, [r] + rest)|;
            var text := Before(kept, [r] + rest) + Join([r] + rest);
            var kept' := if drop then kept else kept + [r];
            && p + |r| <= |text|
            && text[p..p + |r|] == r
            && (p + |r| < |text| ==> text[p + |r|] == ' ')
            && AfterText(text, p, r, drop) == Before(kept', rest) + Join(rest)
            && AfterPosition(text, p, r, drop) == |Before(kept', rest)|
  {
    RuleAt(kept, r, rest);
    if drop {
      if rest == [] {
        assert [r] + rest == [r];
        DropLast(kept, r);
      } else {
        DropInner(kept, r, rest);
      }
    } else if rest == [] {
      KeepLast(kept, r);
    } else {
      KeepInner(kept, r, rest);
    }
  }

  lemma TerminatedText(buf: seq<char>, text: string)
    requires |text| < |buf| && Terminated(buf, |text|, text)
    ensures buf[..|text|] == text && buf[|text|] == NUL && NUL !in text
    ensures forall k :: 0 <= k < |text| ==> buf[k] == text[k]
  {
    assert forall k :: 0 <= k < |text| ==> buf[k] == buf[..|text|][k];
  }

  /** Move the rest of the text, with its terminator, from `to` down to `from`. */
  method DropRange(buf: array<char>, from: nat, to: nat, ghost text: string)
    requires from <= to <= |text| < buf.Length && Terminated(buf[..], |text|, text)
    modifies buf
    ensures Terminated(buf[..], from + |text| - to, text[..from] + text[to..])
  {
    var length := StringLength(buf, to, |text|);
    ghost var was := buf[..];
    assert was[..|text|] == text;
    MoveDown(buf, from, to, length + 1);
    ghost var n := from + length;
    assert buf[..from] == was[..from] == text[..from];
    assert was[to..to + length + 1] == text[to..] + [NUL];
    assert buf[..][..n] == buf[..from] + buf[from..n + 1][..length];
    assert buf[n] == buf[from..n + 1][length];
  }

  /** One iteration: look at the rule at position p and drop it if it is overruled. */
  method Iteration(buf: array<char>, name: string, p: nat, ghost text: string, ghost r: string)
    returns (existing: nat)
    requires p + |r| <= |text| < buf.Length && Terminated(buf[..], |text|, text)
    requires text[p..p + |r|] == r && |r| >= 1 && ' ' !in r[1..]
    requires p + |r| < |text| ==> text[p + |r|] == ' '
    modifies buf
    ensures existing == AfterPosition(text, p, r, Overrules(name, r))
    ensures |AfterText(text, p, r, Overrules(name, r))| < buf.Length
    ensures Terminated(buf[..], |AfterText(text, p, r, Overrules(name, r))|, AfterText(text, p, r, Overrules(name, r)))
  {
    hide Overrules, Terminated;
    TerminatedText(buf[..], text);
    var copyPosition := p;
    existing := p + 1;
    var ruleEnd, found := FindChar(buf, existing, ' ', |text|);
    assert buf[existing..ruleEnd] == text[existing..ruleEnd] == buf[..|text|][existing..ruleEnd];
    assert buf[copyPosition..ruleEnd] == text[copyPosition..ruleEnd] == buf[..|text|][copyPosition..ruleEnd];
    SpaceAfterRule(text, p, r, ruleEnd, found);
    if !found {
      if copyPosition != 0 {
        copyPosition := copyPosition - 1;
      }
    }
    var copyEnd := ruleEnd;
    if buf[copyEnd] == ' ' {
      copyEnd := copyEnd + 1;
    }
    var same := SameRule(buf, name, existing, ruleEnd, r);
    if same {
      DropRange(buf, copyPosition, copyEnd, text);
      assert text[..copyPosition] + text[copyEnd..] == AfterText(text, p, r, true);
      existing := copyPosition;
    } else {
      existing := copyEnd;
    }
  }

  method SameRule(buf: array<char>, name: string, existing: nat, ruleEnd: nat, ghost r: string) returns (same: bool)
    requires existing <= ruleEnd < buf.Length && |r| >= 1 && buf[existing..ruleEnd] == r[1..]
    ensures same == Overrules(name, r)
  {
    var existingLen := ruleEnd - existing;
    var m := if existingLen <= |name| then existingLen else |name|;
    ComparisonIsOverruling(r, name);
    assert buf[existing..existing + m] == buf[existing..ruleEnd][..m];
    same := buf[existing..existing + m] == name[..m]
      && (existingLen == |name| || (existingLen > |name| && buf[existing + |name|] == '|'));
  }

  // ---- The whole loop, on any text ----

  /** The end of the piece at a position: the first space behind its first character. */
  function PieceEnd(text: string, p: nat): (e: nat)
    requires p < |text|
    ensures p < e <= |text| && ' ' !in text[p + 1..e] && (e < |text| ==> text[e] == ' ')
    decreases |text| - p
  {
    if p + 1 == |text| || text[p + 1] == ' ' then p + 1
    else
      var e := PieceEnd(text, p + 1);
      assert text[p + 1..e] == [text[p + 1]] + text[p + 2..e];
      e
  }

  function PieceAt(text: string, p: nat): (r: string)
    requires p < |text|
    ensures |r| >= 1 && p + |r| <= |text|
  {
    text[p..PieceEnd(text, p)]
  }

  /** It stands there, has no space but maybe in front, and a space or the end follows. */
  ghost predicate StandsAt(text: string, p: nat, r: string) {
    && |r| >= 1 && ' ' !in r[1..] && p + |r| <= |text| && text[p..p + |r|] == r
    && (p + |r| < |text| ==> text[p + |r|] == ' ')
  }

  lemma PieceStands(text: string, p: nat)
    requires p < |text|
    ensures StandsAt(text, p, PieceAt(text, p))
  {
    var e := PieceEnd(text, p);
    assert text[p..e][1..] == text[p + 1..e];
  }

  lemma PieceUnique(text: string, p: nat, r: string)
    requires p < |text| && StandsAt(text, p, r)
    ensures PieceAt(text, p) == r
  {
    var e := PieceEnd(text, p);
    assert forall k :: p <= k < p + |r| ==> text[k] == r[k - p];
    assert forall k :: p + 1 <= k < p + |r| ==> text[k] == r[1..][k - p - 1];
    assert forall k :: p + 1 <= k < e ==> text[k] == text[p + 1..e][k - p - 1];
  }

  ghost function RemoveFrom(text: string, p: nat, name: string): string
    requires p <= |text|
    decreases |text| - p
  {
    if p == |text| then text
    else
      var r := PieceAt(text, p);
      var drop := Overrules(name, r);
      RemoveFrom(AfterText(text, p, r, drop), AfterPosition(text, p, r, drop), name)
  }

  /** The text without the pieces that the new name overrules. */
  ghost function RemoveText(text: string, name: string): string {
    RemoveFrom(text, 0, name)
  }

  /**
    Delete from the text, by moving bytes down over them, the pieces that the new
    name overrules.
  */
  method RemoveCommandRule(buf: array<char>, name: string, ghost given: string) returns (len: nat)
    requires |given| < buf.Length && Terminated(buf[..], |given|, given)
    modifies buf
    ensures len < buf.Length && len == |RemoveText(given, name)|
    ensures Terminated(buf[..], len, RemoveText(given, name))
  {
    hide AfterText, AfterPosition, Overrules, Terminated, PieceAt;
    ghost var text := given;
    var existing: nat := 0;
    while buf[existing] != NUL
      invariant existing <= |text| < buf.Length && Terminated(buf[..], |text|, text)
      invariant RemoveFrom(text, existing, name) == RemoveText(given, name)
      decreases |text| - existing
    {
      TerminatedText(buf[..], text);
      ghost var r, drop := PieceAt(text, existing), Overrules(name, PieceAt(text, existing));
      PieceStands(text, existing);
      AfterShorter(text, existing, r, drop);
      ghost var p := existing;
      existing := Iteration(buf, name, existing, text, r);
      text := AfterText(text, p, r, drop);
    }
    TerminatedText(buf[..], text);
    len := existing;
  }

  lemma AfterShorter(text: string, p: nat, r: string, drop: bool)
    requires |r| >= 1 && p + |r| <= |text|
    ensures var t, q := AfterText(text, p, r, drop), AfterPosition(text, p, r, drop);
            q <= |t| <= |text| && |t| - q < |text| - p
  {
  }

  lemma {:induction false} RemoveShorter(text: string, p: nat, name: string)
    requires p <= |text|
    ensures |RemoveFrom(text, p, name)| <= |text|
    decreases |text| - p
  {
    hide AfterText, AfterPosition, Overrules;
    if p < |text| {
      var r := PieceAt(text, p);
      var drop := Overrules(name, r);
      AfterShorter(text, p, r, drop);
      RemoveShorter(AfterText(text, p, r, drop), AfterPosition(text, p, r, drop), name);
    }
  }

  // ---- On the text of rules without spaces ----

  lemma PieceIsRule(text: string, p: nat, r: string)
    requires p + |r| <= |text| && text[p..p + |r|] == r && Unspaced(r)
    requires p + |r| < |text| ==> text[p + |r|] == ' '
    ensures PieceAt(text, p) == r
  {
    assert forall k :: 0 <= k < |r[1..]| ==> r[1..][k] == r[k + 1];
    PieceUnique(text, p, r);
  }

  lemma {:induction false} RemoveFromRules(kept: seq<string>, rest: seq<string>, name: string)
    requires AllUnspaced(rest)
    ensures RemoveFrom(Before(kept, rest) + Join(rest), |Before(kept, rest)|, name)
         == Join(kept + RemoveOverruled(rest, name))
    decreases |rest|
  {
    hide AfterText, AfterPosition, Overrules, Join, Before, RemoveOverruled, PieceAt, Unspaced;
    var text, p := Before(kept, rest) + Join(rest), |Before(kept, rest)|;
    if rest == [] {
      NothingRemoved(kept, name);
    } else {
      var r, rest' := rest[0], rest[1..];
      assert rest == [r] + rest' && Unspaced(r);
      var drop := Overrules(name, r);
      IterationOnRules(kept, r, rest', drop);
      SomethingAt(r);
      PieceIsRule(text, p, r);
      RemoveHead(r, rest', name);
      RemoveFromRules(if drop then kept else kept + [r], rest', name);
      assert kept + ([r] + RemoveOverruled(rest', name)) == kept + [r] + RemoveOverruled(rest', name);
      assert [] + RemoveOverruled(rest', name) == RemoveOverruled(rest', name);
    }
  }

  lemma SomethingAt(r: string)
    requires Unspaced(r)
    ensures |r| >= 1
  {
  }

  lemma NothingRemoved(kept: seq<string>, name: string)
    ensures Before(kept, []) + Join([]) == Join(kept) == Before(kept, [])
    ensures kept + RemoveOverruled([], name) == kept
  {
  }

  /** If no rule holds a space, exactly the overruled rules go, with their separators. */
  lemma RemoveRules(rules: seq<string>, name: string)
    requires AllUnspaced(rules)
    ensures RemoveText(Join(rules), name) == Join(RemoveOverruled(rules, name))
  {
    RemoveFromRules([], rules, name);
    assert [] + RemoveOverruled(rules, name) == RemoveOverruled(rules, name);
    assert "" + Join(rules) == Join(rules);
  }

  // ---- On any text, piece by piece ----

  /** What follows the first piece and its separator. */
  function Behind(text: string): (rest: string)
    requires text != ""
    ensures |rest| < |text|
  {
    var r := PieceAt(text, 0);
    if |r| == |text| then "" else text[|r| + 1..]
  }

  function Pieces(text: string): seq<string>
    decreases |text|
  {
    if text == "" then [] else [PieceAt(text, 0)] + Pieces(Behind(text))
  }

  /** Whole pieces, each with its separator. */
  predicate Separated(text: string)
    decreases |text|
  {
    text == "" || (|PieceAt(text, 0)| < |text| && Separated(Behind(text)))
  }

  lemma PieceBehind(a: string, s: string)
    requires s != ""
    ensures PieceAt(a + s, |a|) == PieceAt(s, 0)
  {
    var text, r := a + s, PieceAt(s, 0);
    PieceStands(s, 0);
    assert text[|a|..|a| + |r|] == s[..|r|];
    hide PieceAt;
    PieceUnique(text, |a|, r);
  }

  /** The first piece, its separator if there is one, and the rest. */
  lemma FirstParts(s: string)
    requires s != ""
    ensures var r := PieceAt(s, 0);
            && |r| >= 1 && ' ' !in r[1..]
            && s == (if |r| == |s| then r else r + " " + Behind(s))
            && (|r| == |s| ==> Behind(s) == "")
  {
    var r := PieceAt(s, 0);
    PieceStands(s, 0);
    hide PieceAt;
    if |r| == |s| {
      assert s[0..|r|] == s;
    } else {
      assert s == s[0..|r|] + [s[|r|]] + s[|r| + 1..];
    }
  }

  lemma PieceThen(r: string, rest: string)
    requires |r| >= 1 && ' ' !in r[1..]
    ensures PieceAt(r + " " + rest, 0) == r && Behind(r + " " + rest) == rest
    ensures PieceAt(r, 0) == r && Behind(r) == ""
  {
    var text := r + " " + rest;
    assert text[0..|r|] == r && text[|r|] == ' ' && text[|r| + 1..] == rest && r[0..|r|] == r;
    hide PieceAt;
    PieceUnique(text, 0, r);
    PieceUnique(r, 0, r);
  }

  lemma FirstPiece(a: string, s: string)
    requires a != "" && |PieceAt(a, 0)| < |a|
    ensures PieceAt(a + s, 0) == PieceAt(a, 0) && Behind(a + s) == Behind(a) + s
  {
    hide PieceAt, Behind;
    var r, rest := PieceAt(a, 0), Behind(a);
    FirstParts(a);
    assert a + s == r + " " + (rest + s);
    PieceThen(r, rest + s);
  }

  lemma {:induction false} PiecesBehind(a: string, s: string)
    requires Separated(a)
    ensures Pieces(a + s) == Pieces(a) + Pieces(s)
    ensures Separated(a + s) <==> Separated(s)
    decreases |a|
  {
    hide PieceAt, Behind;
    if a == "" {
      assert a + s == s && [] + Pieces(s) == Pieces(s);
    } else {
      FirstPiece(a, s);
      PiecesBehind(Behind(a), s);
      Regrouped(PieceAt(a, 0), Pieces(Behind(a)), Pieces(s));
    }
  }

  lemma Regrouped(r: string, l: seq<string>, m: seq<string>)
    ensures [r] + (l + m) == [r] + l + m && [] + m == m && l + [] == l
    ensures l + ([r] + m) == l + [r] + m
  {
  }

  /** One piece with its separator, or at the end. */
  lemma OnePiece(r: string)
    requires |r| >= 1 && ' ' !in r[1..]
    ensures Separated(r + " ") && Pieces(r + " ") == [r] && Pieces(r) == [r]
  {
    PieceThen(r, "");
    hide PieceAt, Behind;
    assert r + " " + "" == r + " ";
    assert Pieces("") == [] && Separated("");
  }

  /** Without its last separator a text has the same pieces. */
  lemma {:induction false} LastSeparator(a: string)
    requires Separated(a) && a != ""
    ensures Pieces(a[..|a| - 1]) == Pieces(a)
    decreases |a|
  {
    hide PieceAt, Behind;
    var r, rest := PieceAt(a, 0), Behind(a);
    FirstParts(a);
    OnePiece(r);
    PiecesBehind(r + " ", rest);
    if rest == "" {
      assert a[..|a| - 1] == r;
    } else {
      LastSeparator(rest);
      assert a[..|a| - 1] == r + " " + rest[..|rest| - 1];
      PiecesBehind(r + " ", rest[..|rest| - 1]);
    }
  }

  lemma {:induction false} PiecesRemovedFrom(a: string, s: string, name: string)
    requires Separated(a)
    ensures Pieces(RemoveFrom(a + s, |a|, name)) == Pieces(a) + RemoveOverruled(Pieces(s), name)
    decreases |s|
  {
    hide Overrules, PieceAt, Behind, AfterText, AfterPosition, RemoveOverruled, Separated;
    if s == "" {
      assert a + s == a;
      NothingOverruled(name);
      Regrouped("", Pieces(a), []);
    } else {
      var r, rest := PieceAt(s, 0), Behind(s);
      var drop := Overrules(name, r);
      var left := RemoveOverruled(Pieces(rest), name);
      PieceBehind(a, s);
      FirstParts(s);
      OnePiece(r);
      RemoveHead(r, Pieces(rest), name);
      StepOnText(a, r, s, rest, drop);
      Regrouped(r, Pieces(a), left);
      Regrouped(r, Pieces(a), []);
      if |r| == |s| {
        LastPiece(a, r, name, drop);
        NothingOverruled(name);
        Regrouped(r, [r], left);
      } else if drop {
        PiecesRemovedFrom(a, rest, name);
      } else {
        PiecesBehind(a, r + " ");
        PiecesRemovedFrom(a + (r + " "), rest, name);
      }
    }
  }

  /** Where the loop ends: the last piece was kept, or dropped with the separator before it. */
  lemma LastPiece(a: string, r: string, name: string, drop: bool)
    requires Separated(a) && |r| >= 1 && ' ' !in r[1..]
    ensures var text := if !drop then a + r else if a == "" then "" else a[..|a| - 1];
            && RemoveFrom(text, |text|, name) == text
            && Pieces(text) == if drop then Pieces(a) else Pieces(a) + [r]
  {
    hide PieceAt, Behind, Separated;
    OnePiece(r);
    PiecesBehind(a, r);
    if drop && a != "" {
      LastSeparator(a);
    }
  }

  lemma NothingOverruled(name: string)
    ensures RemoveOverruled([], name) == []
  {
  }

  /** One iteration behind the text a. */
  lemma StepOnText(a: string, r: string, s: string, rest: string, drop: bool)
    requires |r| >= 1 && |r| <= |s| && s == if |r| == |s| then r else r + " " + rest
    ensures var t, q := AfterText(a + s, |a|, r, drop), AfterPosition(a + s, |a|, r, drop);
            if |r| == |s| then
              q == |t| && t == if !drop then a + s else if a == "" then "" else a[..|a| - 1]
            else if drop then t == a + rest && q == |a|
            else t == (a + (r + " ")) + rest && q == |a + (r + " ")|
  {
    var text := a + s;
    if |r| == |s| {
      if a != "" {
        assert text[..|a| - 1] == a[..|a| - 1];
      }
    } else {
      assert text[..|a|] == a && text[|a| + |r| + 1..] == rest;
      assert text == (a + (r + " ")) + rest;
    }
  }

  /**
    On every text, also of rules that hold spaces: the pieces left are those that the new
    name does not overrule, in their order.
  */
  lemma PiecesRemoved(text: string, name: string)
    ensures Pieces(RemoveText(text, name)) == RemoveOverruled(Pieces(text), name)
  {
    PiecesRemovedFrom("", text, name);
    assert "" + text == text;
    assert [] + RemoveOverruled(Pieces(text), name) == RemoveOverruled(Pieces(text), name);
  }
}
