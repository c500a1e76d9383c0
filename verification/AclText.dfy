/**
  The selector as the program keeps it, with its log as one string.

  Operations find the rules of the log again by the spaces between them.  As long as no rule
  holds a space this is the list of rules; whether the text rebuilds the selector is decided
  here for all operations.
*/
module AclText {
  import opened Wrappers
  import opened SdsText
  import opened AclRules
  import opened AclCompaction
  import opened AclRuleText
  import opened AclSplit
  import opened AclCase
  import opened AclRebuild

  datatype TextSelector = TextSelector(permissions: Permissions, text: string)

  const EMPTY_TEXT := TextSelector(NOTHING, "")

  function TextOf(s: Selector): TextSelector {
    TextSelector(s.permissions, Join(s.rules))
  }

  /** The text without the overruled pieces, and the new rule behind it. */
  ghost function AddRule(text: string, name: string, allow: bool): string {
    var left := RemoveText(text, name);
    (if left == "" then "" else left + " ") + (Sign(allow) + name)
  }

  /** One operation in any case, up to its terminator. */
  ghost function SetText(table: Table, t: TextSelector, op: string): Result<TextSelector> {
    var c := CString(op);
    match Parse(table, Lower(c))
    case Err(e) => Err(e)
    case Ok(a) =>
      var p := ApplyAnyCase(table, t.permissions, c, a);
      if a.SetAll? then Ok(TextSelector(p, ""))
      else Ok(TextSelector(p, AddRule(t.text, RuleName(Lower(c), a), Allows(a))))
  }

  ghost function NextText(table: Table, t: TextSelector, op: string): TextSelector {
    match SetText(table, t, op)
    case Ok(u) => u
    case Err(_) => t
  }

  ghost function RunText(table: Table, t: TextSelector, ops: seq<string>): TextSelector
    decreases |ops|
  {
    if ops == [] then t else RunText(table, NextText(table, t, ops[0]), ops[1..])
  }

  function CutAll(ops: seq<string>): (r: seq<string>)
    ensures |r| == |ops| && forall i :: 0 <= i < |ops| ==> r[i] == CString(ops[i])
  {
    seq(|ops|, i requires 0 <= i < |ops| => CString(ops[i]))
  }

  // ---- Operations without spaces ----

  /** Accepted, and recorded in the log. */
  predicate Records(table: Table, op: string) {
    var r := Parse(table, Lower(CString(op)));
    r.Ok? && !r.value.SetAll?
  }

  predicate Spaceless(table: Table, op: string) {
    Records(table, op) ==> ' ' !in CString(op)
  }

  /** What is recorded is the operation in lower case. */
  lemma Recorded(table: Table, op: string)
    requires ValidRule(table, Lower(op))
    ensures var a := Parse(table, Lower(op)).value;
            && |op| >= 1 && RuleName(Lower(op), a) == Lower(op[1..])
            && Sign(Allows(a)) + RuleName(Lower(op), a) == Lower(op)
            && (a.Change? ==> Lower(FullName(a.target)) == Lower(op[1..]))
  {
    RecordedText(table, Lower(op));
    assert Lower(op)[1..] == Lower(op[1..]);
    LowerTwice(op[1..]);
  }

  lemma KeptUnspaced(rules: seq<string>, op: string)
    requires AllUnspaced(rules) && |op| >= 1 && NUL !in op
    ensures ' ' !in op ==> AllUnspaced(RemoveOverruled(rules, Lower(op[1..])) + [Lower(op)])
  {
    RemoveKeeps(rules, Lower(op[1..]));
    assert forall i :: 0 <= i < |op| ==> Lower(op)[i] == ' ' ==> op[i] == ' ';
    assert forall i :: 0 <= i < |op| ==> Lower(op)[i] == NUL ==> op[i] == NUL;
  }

  lemma AddedRule(rules: seq<string>, name: string, allow: bool)
    requires AllUnspaced(rules)
    ensures AddRule(Join(rules), name, allow) == Join(RemoveOverruled(rules, name) + [Sign(allow) + name])
  {
    RemoveRules(rules, name);
    RemoveKeeps(rules, name);
    hide RemoveText, Join, RemoveOverruled, Overrules, Unspaced;
    var kept := RemoveOverruled(rules, name);
    JoinHasNoTerminator(kept);
    JoinNothing();
    JoinAppend(kept, Sign(allow) + name);
  }

  lemma JoinNothing()
    ensures Join([]) == ""
  {
  }

  /** On rules without spaces an operation on the text is the operation on the rules. */
  lemma StepOnRules(table: Table, s: Selector, op: string)
    requires AllUnspaced(s.rules)
    ensures var r := SetAnyCase(table, s, CString(op));
            && (r.Ok? ==> SetText(table, TextOf(s), op) == Ok(TextOf(r.value)))
            && (r.Err? ==> SetText(table, TextOf(s), op) == Err(r.error))
            && (r.Ok? && Spaceless(table, op) ==> AllUnspaced(r.value.rules))
  {
    var c := CString(op);
    if Records(table, op) {
      Recorded(table, c);
      hide Parse, ApplyAnyCase, Join, AddRule, RemoveOverruled, Unspaced;
      var a := Parse(table, Lower(c)).value;
      AddedRule(s.rules, RuleName(Lower(c), a), Allows(a));
      KeptUnspaced(s.rules, c);
    } else {
      hide Parse, ApplyAnyCase;
      JoinNothing();
    }
  }

  /** And so is every run in which no operation records a space. */
  lemma {:induction false} RunOnRules(table: Table, s: Selector, ops: seq<string>)
    requires AllUnspaced(s.rules) && forall i :: 0 <= i < |ops| ==> Spaceless(table, ops[i])
    ensures RunText(table, TextOf(s), ops) == TextOf(RunAnyCase(table, s, CutAll(ops)))
    ensures AllUnspaced(RunAnyCase(table, s, CutAll(ops)).rules)
    decreases |ops|
  {
    hide SetText, SetAnyCase, TextOf, Spaceless, Unspaced, CString;
    if ops != [] {
      StepOnRules(table, s, ops[0]);
      var next := match SetAnyCase(table, s, CutAll(ops)[0])
                  case Ok(t) => t
                  case Err(_) => s;
      RunOnRules(table, next, ops[1..]);
      assert CutAll(ops)[1..] == CutAll(ops[1..]);
    }
  }

  /**
    After any history of operations, in any case and refused ones included, that records no
    space: the text is that of a log without overruled rules, and replaying the log gives
    the permissions, with first arguments in lower case.
  */
  lemma TextConsistent(table: Table, ops: seq<string>)
    requires WellFormed(table) && forall i :: 0 <= i < |ops| ==> Spaceless(table, ops[i])
    ensures var s := RunAnyCase(table, EMPTY, CutAll(ops));
            && RunText(table, EMPTY_TEXT, ops) == TextOf(s)
            && Consistent(table, FoldSelector(s))
  {
    JoinNothing();
    hide Join, RunText, RunAnyCase, Consistent, Spaceless;
    assert TextOf(EMPTY) == EMPTY_TEXT;
    RunOnRules(table, EMPTY, ops);
    AnyCaseConsistent(table, CutAll(ops));
  }

  /** One accepted operation keeps the log compact and equal to the permissions. */
  lemma SetTextSound(table: Table, s: Selector, op: string)
    requires WellFormed(table) && Sound(table, s) && AllUnspaced(s.rules) && SetText(table, TextOf(s), op).Ok?
    ensures SetAnyCase(table, s, CString(op)).Ok?
    ensures var next := SetAnyCase(table, s, CString(op)).value;
            SetText(table, TextOf(s), op).value == TextOf(next) && Sound(table, next)
  {
    hide SetText, SetAnyCase, Sound, Unspaced, TextOf;
    StepOnRules(table, s, op);
    SetAnyCaseSound(table, s, CString(op));
  }

  // ---- Rebuilding from the text ----

  predicate Accepts(table: Table, ops: seq<string>) {
    forall i :: 0 <= i < |ops| ==> Parse(table, Lower(CString(ops[i]))).Ok?
  }

  /** The selector rebuilt from its text; none when the program aborts. */
  ghost function RebuiltText(table: Table, t: TextSelector): Option<TextSelector> {
    match SplitArgs(t.text)
    case None => None
    case Some(ops) =>
      if Accepts(table, ops) then Some(RunText(table, TextOf(BaseSelector(table, Base(t.permissions))), ops)) else None
  }

  /** The rebuild gives the same text and permissions, with first arguments in lower case. */
  ghost predicate Rebuilds(table: Table, t: TextSelector) {
    var r := RebuiltText(table, t);
    r.Some? && r.value.text == t.text && Same(r.value.permissions, Fold(t.permissions))
  }

  lemma PlainIsCut(words: seq<string>)
    requires PlainWords(words)
    ensures CutAll(words) == words && AllUnspaced(words)
    ensures forall i :: 0 <= i < |words| ==> ' ' !in words[i] && CString(words[i]) == words[i]
  {
    forall i | 0 <= i < |words|
      ensures CString(words[i]) == words[i] && Unspaced(words[i])
    {
      assert words[i] in words;
      NoTerminator(words[i]);
    }
  }

  /** A sound selector whose rules are plain is rebuilt, to the letter if its first arguments are in lower case. */
  lemma PlainRebuilds(table: Table, s: Selector)
    requires WellFormed(table) && Sound(table, s) && PlainWords(s.rules)
    ensures SplitArgs(Join(s.rules)) == Some(s.rules) && Rebuilds(table, TextOf(s))
    ensures Same(RebuiltText(table, TextOf(s)).value.permissions, s.permissions) <==> LowerArguments(s.permissions)
  {
    RebuiltSame(table, s);
    SameAsFolded(s.permissions);
  }

  lemma RebuiltSame(table: Table, s: Selector)
    requires WellFormed(table) && Sound(table, s) && PlainWords(s.rules)
    ensures SplitArgs(Join(s.rules)) == Some(s.rules) && Rebuilds(table, TextOf(s))
  {
    hide SplitArgs, Join, RunText, RunAnyCase, Parse, CString, Sound, Fold, Same, Base, Apply, Records, PlainWord;
    var start := BaseSelector(table, Base(s.permissions));
    SplitJoin(s.rules);
    PlainIsCut(s.rules);
    RunOfLog(table, s);
    RunOnRules(table, start, s.rules);
  }

  // ---- The description ----

  /** The text of a selector: its base, then its log. */
  function Description(t: TextSelector): string {
    Sign(Base(t.permissions)) + "@all" + if t.text == "" then "" else " " + t.text
  }

  lemma DescriptionWords(s: Selector)
    requires PlainWords(s.rules)
    ensures SplitArgs(Description(TextOf(s))) == Some([Sign(Base(s.permissions)) + "@all"] + s.rules)
  {
    var words := [Sign(Base(s.permissions)) + "@all"] + s.rules;
    assert PlainWord(words[0]);
    PlainIsCut(s.rules);
    hide Base, SplitArgs, Join, PlainWord, Unspaced;
    JoinFirst(words[0], s.rules);
    JoinHasNoTerminator(s.rules);
    JoinNothing();
    SplitJoinPlain(words);
  }

  lemma AllText(table: Table, t: TextSelector, base: bool)
    ensures SetText(table, t, Sign(base) + "@all") == Ok(TextOf(BaseSelector(table, base)))
  {
    var op := Sign(base) + "@all";
    assert NUL !in op;
    NoTerminator(op);
    AllOperation(table, Selector(t.permissions, []), base);
    hide Parse, Apply, CString;
  }

  /**
    The description of a selector with a plain log, given to any other selector as its
    operations, gives that selector the same bitmap and log, and the same first arguments in
    lower case.
  */
  lemma DescriptionRestores(table: Table, s: Selector, other: TextSelector)
    requires WellFormed(table) && Sound(table, s) && PlainWords(s.rules)
    ensures SplitArgs(Description(TextOf(s))).Some?
    ensures var again := RunText(table, other, SplitArgs(Description(TextOf(s))).value);
            again.text == Join(s.rules) && Same(again.permissions, Fold(s.permissions))
  {
    hide Base, SplitArgs, SetText, Sound, Accepts, Join, Same, Fold, PlainWord;
    var base := Base(s.permissions);
    var first := Sign(base) + "@all";
    DescriptionWords(s);
    AllText(table, other, base);
    RebuiltSame(table, s);
    assert ([first] + s.rules)[1..] == s.rules;
  }

  // ---- Operations that are not rebuilt ----

  /** The table's own names need no quotes. */
  ghost predicate BlandNames(table: Table) {
    && (forall c :: c in table.commands ==> AllBland(c.name))
    && (forall c, s :: c in table.commands && s in Subs(c) ==> AllBland(s.name))
    && (forall k :: k in table.categories ==> AllBland(k))
  }

  function TextCost(text: string): nat {
    if text == "" then 0 else |text| + 1
  }

  /** One operation makes the text longer by its own length and a separator at most. */
  lemma StepTextCost(table: Table, t: TextSelector, op: string)
    ensures TextCost(NextText(table, t, op).text) <= TextCost(t.text) + |op| + 1
  {
    var c := CString(op);
    if Records(table, op) {
      Recorded(table, c);
      hide Parse, ApplyAnyCase, RemoveText;
      var name := RuleName(Lower(c), Parse(table, Lower(c)).value);
      RemovedLength(t.text, name);
    }
  }

  lemma RemovedLength(text: string, name: string)
    ensures |RemoveText(text, name)| <= |text|
  {
    RemoveShorter(text, 0, name);
  }

  lemma {:induction false} RunTextCost(table: Table, t: TextSelector, ops: seq<string>)
    ensures TextCost(RunText(table, t, ops).text) <= TextCost(t.text) + Cost(ops)
    decreases |ops|
  {
    hide NextText, TextCost;
    if ops != [] {
      StepTextCost(table, t, ops[0]);
      RunTextCost(table, NextText(table, t, ops[0]), ops[1..]);
    }
  }

  /** All first arguments could stand in the text as they are. */
  ghost predicate BlandArguments(p: Permissions) {
    forall id, arg :: Holds(p, Argument(id, arg)) ==> AllBland(arg)
  }

  lemma BlandTail(s: string, n: nat)
    requires n <= |s| && AllBland(s)
    ensures AllBland(s[n..])
  {
  }

  lemma SuffixBland(op: string)
    requires AllBland(op)
    ensures AllBland(Suffix(op))
  {
    hide LastBar, Bland;
    if '|' in op {
      BlandTail(op, LastBar(op) + 1);
    }
  }

  lemma AddedArgument(p: Permissions, id: nat, arg: string)
    requires BlandArguments(p) && AllBland(arg)
    ensures BlandArguments(AddAnyCase(p, id, arg))
  {
    hide AllBland;
    forall i, x | Holds(AddAnyCase(p, id, arg), Argument(i, x))
      ensures AllBland(x)
    {
      assert x == arg || Holds(p, Argument(i, x));
    }
  }

  lemma StepBlandArguments(table: Table, t: TextSelector, op: string)
    requires BlandArguments(t.permissions) && AllBland(op) && CString(op) == op
    ensures BlandArguments(NextText(table, t, op).permissions)
  {
    var r := Parse(table, Lower(op));
    SuffixBland(op);
    hide Parse, AllBland, Suffix, AddRule, Apply, Written;
    if r.Ok? {
      var a := r.value;
      if a.AllowArgument? {
        AddedArgument(t.permissions, a.command.id, Suffix(op));
      } else {
        forall id, arg | Holds(Apply(table, t.permissions, a), Argument(id, arg))
          ensures AllBland(arg)
        {
          ApplyWrites(table, t.permissions, a, Argument(id, arg));
          NoArgumentWritten(table, a, id, arg);
        }
      }
    }
  }

  lemma NoArgumentWritten(table: Table, a: Action, id: nat, arg: string)
    requires !a.AllowArgument?
    ensures Written(table, a, Argument(id, arg)) != Some(true)
  {
  }

  lemma {:induction false} RunBlandArguments(table: Table, t: TextSelector, ops: seq<string>)
    requires BlandArguments(t.permissions) && PlainWords(ops)
    ensures BlandArguments(RunText(table, t, ops).permissions)
    decreases |ops|
  {
    hide NextText, BlandArguments, CString, AllBland;
    if ops != [] {
      PlainIsCut(ops);
      assert ops[0] in ops && PlainWord(ops[0]);
      StepBlandArguments(table, t, ops[0]);
      RunBlandArguments(table, NextText(table, t, ops[0]), ops[1..]);
    }
  }

  lemma BlandParts(op: string, head: string, tail: Option<string>)
    requires |op| >= 1 && (op[0] == '+' || op[0] == '-') && Words(op[1..], head, tail)
    requires AllBland(head) && (tail.Some? ==> AllBland(tail.value))
    ensures AllBland(op)
  {
    assert forall i :: 1 <= i < |op| ==> op[i] == op[1..][i - 1];
    if tail.Some? {
      assert forall i :: 0 <= i < |op[1..]| ==>
          op[1..][i] == if i < |head| then head[i] else if i == |head| then '|' else tail.value[i - |head| - 1];
    }
  }

  lemma HeadBland(table: Table, op: string)
    requires WellFormed(table) && BlandNames(table) && ValidRule(table, op)
    ensures var a := Parse(table, op).value;
            AllBland(HeadOf(a)) && (TailOf(a).Some? && !a.AllowArgument? ==> AllBland(TailOf(a).value))
  {
    RuleShape(table, op);
    var a := Parse(table, op).value;
    if a.ChangeCategory? {
      assert a.category in table.categories;
      hide Parse;
      assert Bland('@');
      assert forall i :: 1 <= i < |HeadOf(a)| ==> HeadOf(a)[i] == a.category[i - 1];
    } else {
      hide Parse, Bland;
    }
  }

  /** An operation that is recorded and not bland allows a first argument that is not. */
  lemma UnblandIsArgument(table: Table, op: string)
    requires WellFormed(table) && BlandNames(table) && ValidRule(table, op) && !AllBland(op)
    ensures var a := Parse(table, op).value;
            a.AllowArgument? && !AllBland(a.arg)
  {
    HeadBland(table, op);
    RuleShape(table, op);
    Signed(table, op);
    hide Parse, AllBland, WellFormed, BlandNames, Words, FindCommand, FindSub;
    var a := Parse(table, op).value;
    if AllBland(HeadOf(a)) && (TailOf(a).Some? ==> AllBland(TailOf(a).value)) {
      BlandParts(op, HeadOf(a), TailOf(a));
    }
  }

  /** The argument of such an operation is held, in lower case, and cannot come from plain words. */
  lemma UnblandHeld(table: Table, s: Selector, op: string)
    requires WellFormed(table) && BlandNames(table) && ValidRule(table, Lower(op)) && !AllBland(op)
    ensures SetAnyCase(table, s, op).Ok?
    ensures !BlandArguments(Fold(SetAnyCase(table, s, op).value.permissions))
  {
    hide AllBland, Suffix, RemoveOverruled, BlandNames, WellFormed, Fold, Parse;
    LowerBland(op);
    UnblandIsArgument(table, Lower(op));
    ArgumentIsSuffix(table, Lower(op));
    LowerBar(op);
    var a := Parse(table, Lower(op)).value;
    FoldAdd(s.permissions, a.command.id, Suffix(op));
    assert Holds(AddArgument(Fold(s.permissions), a.command.id, a.arg), Argument(a.command.id, a.arg));
  }

  /** On a plain log such an operation leaves a text that does not rebuild the selector. */
  lemma UnblandLost(table: Table, s: Selector, op: string)
    requires WellFormed(table) && BlandNames(table) && PlainWords(s.rules)
    requires ValidRule(table, Lower(op)) && !AllBland(op) && NUL !in op
    ensures SetAnyCase(table, s, op).Ok?
    ensures !Rebuilds(table, TextOf(SetAnyCase(table, s, op).value))
  {
    UnblandHeld(table, s, op);
    var t := TextOf(SetAnyCase(table, s, op).value);
    TextGrown(table, s, op);
    hide SetAnyCase, TextOf, SplitArgs, RunText, Accepts, BlandArguments, Fold, Cost, PlainWord, Parse;
    if Rebuilds(table, t) {
      var start := TextOf(BaseSelector(table, Base(t.permissions)));
      var words := SplitArgs(t.text).value;
      StartText(table, Base(t.permissions));
      SplitCost(t.text);
      RunTextCost(table, start, words);
      RunBlandArguments(table, start, words);
      SameArguments(RebuiltText(table, t).value.permissions, Fold(t.permissions));
    }
  }

  lemma TextGrown(table: Table, s: Selector, op: string)
    requires ValidRule(table, Lower(op))
    ensures SetAnyCase(table, s, op).Ok? && TextOf(SetAnyCase(table, s, op).value).text != ""
  {
    Recorded(table, op);
    hide Parse, ApplyAnyCase, RemoveOverruled;
    var a := Parse(table, Lower(op)).value;
    JoinAppend(RemoveOverruled(s.rules, RuleName(Lower(op), a)), Lower(op));
  }

  lemma StartText(table: Table, base: bool)
    ensures TextOf(BaseSelector(table, base)).text == "" && TextCost("") == 0
    ensures BlandArguments(TextOf(BaseSelector(table, base)).permissions)
  {
  }

  lemma SameArguments(p: Permissions, q: Permissions)
    requires Same(p, q) && BlandArguments(p)
    ensures BlandArguments(q)
  {
    hide AllBland;
    forall id, arg | Holds(q, Argument(id, arg))
      ensures AllBland(arg)
    {
      assert Holds(p, Argument(id, arg));
    }
  }

  // ---- Over whole runs ----

  predicate Clean(table: Table, op: string) {
    Records(table, op) ==> AllBland(CString(op))
  }

  ghost predicate RebuildsThroughout(table: Table, t: TextSelector, ops: seq<string>)
    decreases |ops|
  {
    Rebuilds(table, t) && (ops == [] || RebuildsThroughout(table, NextText(table, t, ops[0]), ops[1..]))
  }

  lemma {:induction false} RunRebuilds(table: Table, s: Selector, ops: seq<string>)
    requires WellFormed(table) && BlandNames(table) && Sound(table, s) && PlainWords(s.rules)
    ensures RebuildsThroughout(table, TextOf(s), ops) <==> forall i :: 0 <= i < |ops| ==> Clean(table, ops[i])
    decreases |ops|
  {
    hide Sound, Rebuilds, NextText, TextOf, SetAnyCase, Clean, PlainWord, WellFormed, BlandNames, CString;
    PlainRebuilds(table, s);
    if ops != [] {
      var rest := ops[1..];
      CleanFirst(table, ops);
      if Clean(table, ops[0]) {
        var next := CleanStep(table, s, ops[0]);
        RunRebuilds(table, next, rest);
      } else {
        UncleanStep(table, s, ops[0]);
        NotThroughout(table, NextText(table, TextOf(s), ops[0]), rest);
      }
    }
  }

  lemma CleanFirst(table: Table, ops: seq<string>)
    requires ops != []
    ensures (forall i :: 0 <= i < |ops| ==> Clean(table, ops[i])) <==>
              Clean(table, ops[0]) && forall i :: 0 <= i < |ops[1..]| ==> Clean(table, ops[1..][i])
  {
    hide Clean;
    assert forall i :: 1 <= i < |ops| ==> ops[i] == ops[1..][i - 1];
  }

  lemma NotThroughout(table: Table, t: TextSelector, ops: seq<string>)
    requires !Rebuilds(table, t)
    ensures !RebuildsThroughout(table, t, ops)
  {
  }

  lemma CleanStep(table: Table, s: Selector, op: string) returns (next: Selector)
    requires WellFormed(table) && Sound(table, s) && PlainWords(s.rules) && Clean(table, op)
    ensures Sound(table, next) && PlainWords(next.rules) && NextText(table, TextOf(s), op) == TextOf(next)
  {
    PlainIsCut(s.rules);
    hide Sound, PlainWord, SetAnyCase, SetText, TextOf, Records, CString, SplitArgs, Join;
    StepOnRules(table, s, op);
    var r := SetAnyCase(table, s, CString(op));
    if r.Ok? {
      next := r.value;
      SetAnyCaseSound(table, s, CString(op));
      LogReadBack(table, s, CString(op));
      SplitJoin(next.rules);
      WhenAccepted(table, s, op);
    } else {
      next := s;
    }
  }

  lemma WhenAccepted(table: Table, s: Selector, op: string)
    requires SetAnyCase(table, s, CString(op)).Ok?
    ensures Parse(table, Lower(CString(op))).Ok?
    ensures Records(table, op) <==> !Parse(table, Lower(CString(op))).value.SetAll?
  {
    hide Parse, ApplyAnyCase;
  }

  lemma UncleanStep(table: Table, s: Selector, op: string)
    requires WellFormed(table) && BlandNames(table) && PlainWords(s.rules) && !Clean(table, op)
    ensures !Rebuilds(table, NextText(table, TextOf(s), op))
  {
    PlainIsCut(s.rules);
    hide Rebuilds, SetText, SetAnyCase, TextOf, PlainWord, Parse, AllBland;
    StepOnRules(table, s, op);
    UnblandLost(table, s, CString(op));
  }

  /**
    Over every history of operations from an empty selector, in any case: the text rebuilds
    the selector at every point if and only if no operation that is recorded holds a blank
    or a quote.
  */
  lemma RebuildsExactly(table: Table, ops: seq<string>)
    requires WellFormed(table) && BlandNames(table)
    ensures RebuildsThroughout(table, EMPTY_TEXT, ops) <==> forall i :: 0 <= i < |ops| ==> Clean(table, ops[i])
  {
    EmptySound(table);
    JoinNothing();
    hide Sound, RebuildsThroughout, Clean, Join;
    assert TextOf(EMPTY) == EMPTY_TEXT;
    RunRebuilds(table, EMPTY, ops);
  }

  /** How it goes wrong: what stands behind a space in a rule is taken for another rule. */
  lemma PieceTakenForRule(rule: string, x: char, name: string)
    requires Unspaced(rule) && Unspaced([x] + name) && !Overrules(name, rule)
    ensures AddRule(rule + " " + ([x] + name), name, true) == rule + " " + ("+" + name)
  {
    var piece := [x] + name;
    assert piece[1..] == name && Overrules(name, piece);
    hide Overrules, Unspaced, Join, RemoveText;
    var rules := [rule, piece];
    RemoveRules(rules, name);
    RemoveHead(rule, [piece], name);
    RemoveHead(piece, [], name);
    NothingOverruled(name);
    assert [rule] + [piece] == rules && [piece] + [] == [piece] && [rule] + ([] + []) == [rule];
    TwoJoined(rule, piece);
    assert rule != "" by {
      SomethingAt(rule);
    }
  }

  lemma TwoJoined(a: string, b: string)
    ensures Join([a, b]) == a + " " + b && Join([a]) == a
  {
    assert [a, b][1..] == [b];
  }

  /** After "+select|a xget" the rule "+get" takes "xget" out of the middle of the other one. */
  lemma SpacedRuleBroken()
    ensures AddRule("+select|a xget", "get", true) == "+select|a +get"
  {
    var rule, piece := "+select|a", "xget";
    assert piece == ['x'] + "get" && Unspaced(rule) && Unspaced(piece);
    assert rule[1..] == "select|a" && rule[1..][0] == 's';
    hide AddRule, Unspaced;
    PieceTakenForRule(rule, 'x', "get");
    assert rule + " " + piece == "+select|a xget" && rule + " " + ("+" + "get") == "+select|a +get";
  }
}
