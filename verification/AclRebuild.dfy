/**
  Rebuilding a selector from the text of its list of rules: exactly the lists of plain rules
  are read back.
*/
module AclRebuild {
  import opened Wrappers
  import opened SdsText
  import opened AclRules
  import opened AclCompaction
  import opened AclRuleText
  import opened AclSplit
  import opened AclCase

  function BaseSelector(table: Table, base: bool): Selector {
    Selector(Apply(table, NOTHING, SetAll(base)), [])
  }

  predicate Accepted(table: Table, ops: seq<string>) {
    forall i :: 0 <= i < |ops| ==> Parse(table, Lower(ops[i])).Ok?
  }

  /** The selector rebuilt from the text of a log; none when the program would abort. */
  function Rebuilt(table: Table, base: bool, text: string): Option<Selector> {
    match SplitArgs(text)
    case None => None
    case Some(ops) => if Accepted(table, ops) then Some(RunAnyCase(table, BaseSelector(table, base), ops)) else None
  }

  // ---- Logs that are read back ----

  lemma LowerBland(w: string)
    ensures AllBland(Lower(w)) <==> AllBland(w)
    ensures PlainWord(Lower(w)) <==> PlainWord(w)
  {
    forall i | 0 <= i < |w|
      ensures Bland(Lower(w)[i]) == Bland(w[i])
    {
    }
  }

  /** The log after an accepted operation is read back from its text exactly when the operation is plain. */
  lemma LogReadBack(table: Table, s: Selector, op: string)
    requires PlainWords(s.rules) && SetAnyCase(table, s, op).Ok?
    ensures var log := SetAnyCase(table, s, op).value.rules;
            SplitArgs(Join(log)) == Some(log) <==> Parse(table, Lower(op)).value.SetAll? || AllBland(op)
  {
    var a := Parse(table, Lower(op)).value;
    var log := SetAnyCase(table, s, op).value.rules;
    SplitJoin(log);
    if !a.SetAll? {
      RecordedText(table, Lower(op));
      Signed(table, Lower(op));
      hide Parse, SplitArgs, Join, ApplyAnyCase;
      var kept := RemoveOverruled(s.rules, RuleName(Lower(op), a));
      RemoveKeeps(s.rules, RuleName(Lower(op), a));
      LowerBland(op);
      assert log == kept + [Lower(op)];
      assert Lower(op) in log;
      assert forall r :: r in log <==> r in kept || r == Lower(op);
    }
  }

  lemma Signed(table: Table, op: string)
    requires Parse(table, op).Ok? && !Parse(table, op).value.SetAll?
    ensures |op| >= 1 && (op[0] == '+' || op[0] == '-')
  {
  }

  /**
    A first argument may be anything without a bar.  It is accepted on any selector and
    recorded; the log is read back exactly when it holds no blank, quote or terminator.
  */
  lemma FirstArgumentReadBack(table: Table, s: Selector, c: Command, arg: string)
    requires WellFormed(table) && LowerNames(table) && PlainWords(s.rules)
    requires c.subcommands.None? && FindCommand(table.commands, c.name) == Some(c)
    requires AllBland(c.name) && c.name != "" && c.name[0] != '@'
    requires arg != "" && '|' !in arg
    ensures var op := "+" + c.name + "|" + arg;
            && SetAnyCase(table, s, op).Ok?
            && var log := SetAnyCase(table, s, op).value.rules;
            (SplitArgs(Join(log)) == Some(log) <==> AllBland(arg))
  {
    var op := "+" + c.name + "|" + arg;
    LowerOp(c.name, arg);
    BlandOp(c.name, arg);
    hide Parse, SplitArgs, Join, PlainWords, AllBland, LowerNames, WellFormed, FindCommand;
    NameIsLower(table, c);
    ArgumentParses(table, c, Lower(arg));
    LogReadBack(table, s, op);
  }

  lemma NameIsLower(table: Table, c: Command)
    requires LowerNames(table) && FindCommand(table.commands, c.name) == Some(c)
    ensures Lower(c.name) == c.name
  {
  }

  lemma LowerOp(name: string, arg: string)
    ensures Lower("+" + name + "|" + arg) == "+" + Lower(name) + "|" + Lower(arg)
    ensures '|' in Lower(arg) ==> '|' in arg
  {
  }

  lemma BlandOp(name: string, arg: string)
    requires AllBland(name)
    ensures AllBland("+" + name + "|" + arg) <==> AllBland(arg)
  {
    hide Bland;
    var op, n := "+" + name + "|" + arg, |name| + 2;
    assert Bland('+') && Bland('|') by {
      SignsAreBland();
    }
    assert forall i :: 0 <= i < |arg| ==> arg[i] == op[n + i];
    assert forall i :: 0 <= i < |op| ==>
        op[i] == if i == 0 then '+' else if i <= |name| then name[i - 1] else if i == n - 1 then '|' else arg[i - n];
  }

  lemma SignsAreBland()
    ensures Bland('+') && Bland('|')
  {
  }

  lemma ArgumentParses(table: Table, c: Command, arg: string)
    requires WellFormed(table) && c.subcommands.None? && FindCommand(table.commands, c.name) == Some(c)
    requires c.name != "" && c.name[0] != '@'
    requires arg != "" && '|' !in arg
    ensures Parse(table, "+" + c.name + "|" + arg) == Ok(AllowArgument(c, arg))
  {
    var op := "+" + c.name + "|" + arg;
    hide Lookup, LastBar, ParseAllow;
    AllowParses(table, c, arg);
    assert op[0] == '+' && op[1] == c.name[0];
  }

  lemma AllowParses(table: Table, c: Command, arg: string)
    requires WellFormed(table) && c.subcommands.None? && FindCommand(table.commands, c.name) == Some(c)
    requires arg != "" && '|' !in arg
    ensures var op := "+" + c.name + "|" + arg;
            op[0] == '+' && ParseAllow(table, op) == Ok(AllowArgument(c, arg))
  {
    hide Lookup, LastBar;
    var op := "+" + c.name + "|" + arg;
    var bar := 1 + |c.name|;
    assert op[bar] == '|' && op[bar + 1..] == arg && op[1..bar] == c.name;
    assert forall k :: bar < k < |op| ==> op[k] == arg[k - bar - 1];
    LastBarAt(op, bar);
    LookupPlain(table, c);
  }

  lemma LookupPlain(table: Table, c: Command)
    requires '|' !in c.name && FindCommand(table.commands, c.name) == Some(c)
    ensures Lookup(table, c.name) == Some(Whole(c))
  {
    hide FindCommand;
    NoBar(c.name);
  }

  lemma NoBar(s: string)
    requires '|' !in s
    ensures FirstBar(s) == |s|
  {
  }

  // ---- Exactly which logs are rebuilt ----

  lemma {:induction false} RemoveCost(rules: seq<string>, name: string)
    ensures Cost(RemoveOverruled(rules, name)) <= Cost(rules)
    ensures Cost(RemoveOverruled(rules, name)) == Cost(rules) ==> RemoveOverruled(rules, name) == rules
    decreases |rules|
  {
    if rules != [] {
      RemoveCost(rules[1..], name);
      assert ([rules[0]] + RemoveOverruled(rules[1..], name))[1..] == RemoveOverruled(rules[1..], name);
    }
  }

  lemma {:induction false} CostAppend(a: seq<string>, b: seq<string>)
    ensures Cost(a + b) == Cost(a) + Cost(b)
    decreases |a|
  {
    if a == [] {
      assert a + b == b;
    } else {
      assert (a + b)[1..] == a[1..] + b;
      CostAppend(a[1..], b);
    }
  }

  lemma CostOne(w: string)
    ensures Cost([w]) == |w| + 1
  {
    assert [w][1..] == [];
  }

  /** One operation adds at most its own length to the log, and only by being appended to all of it. */
  lemma StepCost(table: Table, s: Selector, op: string)
    requires SetAnyCase(table, s, op).Ok?
    ensures var log := SetAnyCase(table, s, op).value.rules;
            && Cost(log) <= Cost(s.rules) + |op| + 1
            && (Cost(log) == Cost(s.rules) + |op| + 1 ==> log == s.rules + [Lower(op)])
  {
    var a := Parse(table, Lower(op)).value;
    if !a.SetAll? {
      RecordedText(table, Lower(op));
      hide Parse, ApplyAnyCase;
      var name := RuleName(Lower(op), a);
      RemoveCost(s.rules, name);
      CostAppend(RemoveOverruled(s.rules, name), [Lower(op)]);
      CostOne(Lower(op));
    }
  }

  lemma {:induction false} RunCost(table: Table, s: Selector, ops: seq<string>)
    ensures var log := RunAnyCase(table, s, ops).rules;
            && Cost(log) <= Cost(s.rules) + Cost(ops)
            && (Cost(log) == Cost(s.rules) + Cost(ops) ==> log == s.rules + LowerAll(ops))
    decreases |ops|
  {
    hide SetAnyCase, Cost, Lower, LowerAll;
    NoCost();
    if ops == [] {
      assert s.rules + LowerAll(ops) == s.rules;
    } else {
      CostHead(ops);
      LowerAllHead(ops, s.rules);
      if SetAnyCase(table, s, ops[0]).Ok? {
        StepCost(table, s, ops[0]);
        RunCost(table, SetAnyCase(table, s, ops[0]).value, ops[1..]);
      } else {
        RunCost(table, s, ops[1..]);
      }
    }
  }

  lemma NoCost()
    ensures Cost([]) == 0
  {
  }

  lemma CostHead(ops: seq<string>)
    requires ops != []
    ensures Cost(ops) == |ops[0]| + 1 + Cost(ops[1..])
  {
  }

  /** A rebuild that records the same log read it back, so all its rules are plain. */
  lemma SameLogIsPlain(table: Table, base: bool, rules: seq<string>)
    requires Rebuilt(table, base, Join(rules)).Some? && Rebuilt(table, base, Join(rules)).value.rules == rules
    ensures PlainWords(rules)
  {
    hide SplitArgs, Join, RunAnyCase, Cost, PlainWord, PlainWords, Accepted;
    var ops := SplitArgs(Join(rules)).value;
    var start := BaseSelector(table, base);
    if rules == [] {
      NoneIsPlain();
    } else {
      SplitCost(Join(rules));
      JoinLength(rules);
      NoCost();
      RunCost(table, start, ops);
      PlainLower(ops);
      assert [] + LowerAll(ops) == LowerAll(ops);
    }
  }

  lemma NoneIsPlain()
    ensures PlainWords([])
  {
  }

  lemma PlainLower(rules: seq<string>)
    ensures PlainWords(LowerAll(rules)) <==> PlainWords(rules)
  {
    hide PlainWord;
    forall i | 0 <= i < |rules|
      ensures PlainWord(LowerAll(rules)[i]) == PlainWord(rules[i])
    {
      LowerBland(rules[i]);
    }
    assert forall i :: 0 <= i < |rules| ==> rules[i] in rules && LowerAll(rules)[i] in LowerAll(rules);
  }

  /** Replaying the rules of a sound log on the base. */
  lemma RunOfLog(table: Table, s: Selector)
    requires WellFormed(table) && Sound(table, s)
    ensures var r := RunAnyCase(table, BaseSelector(table, Base(s.permissions)), s.rules);
            && Accepted(table, s.rules)
            && r.rules == s.rules && r.permissions.bits == s.permissions.bits
            && Same(r.permissions, Fold(s.permissions))
  {
    var start := BaseSelector(table, Base(s.permissions));
    RecomputeRebuilds(table, FoldSelector(s));
    assert Fold(start.permissions) == start.permissions;
    LowerRun(table, start, s.rules);
    forall i | 0 <= i < |s.rules|
      ensures Parse(table, Lower(s.rules[i])).Ok?
    {
      assert LowerAll(s.rules)[i] == s.rules[i];
      assert s.rules[i] in s.rules;
    }
  }

  /**
    Exactly when rebuilding works: the log comes out as it was if and only if all its rules
    are plain.  Then the bitmap is the same, and the first arguments are the same in lower
    case; they are the very same strings if and only if they were given in lower case.
  */
  lemma RebuiltExactly(table: Table, s: Selector)
    requires WellFormed(table) && Sound(table, s)
    ensures var r := Rebuilt(table, Base(s.permissions), Join(s.rules));
            && (r.Some? && r.value.rules == s.rules <==> PlainWords(s.rules))
            && (PlainWords(s.rules) ==>
                  && r.value.permissions.bits == s.permissions.bits
                  && Same(r.value.permissions, Fold(s.permissions))
                  && (Same(r.value.permissions, s.permissions) <==> LowerArguments(s.permissions)))
  {
    hide SplitArgs, Join, RunAnyCase, Sound, Base, Fold, LowerArguments, Accepted;
    if PlainWords(s.rules) {
      SplitJoin(s.rules);
      RunOfLog(table, s);
      SameAsFolded(s.permissions);
    } else if Rebuilt(table, Base(s.permissions), Join(s.rules)).Some? {
      if Rebuilt(table, Base(s.permissions), Join(s.rules)).value.rules == s.rules {
        SameLogIsPlain(table, Base(s.permissions), s.rules);
      }
    }
  }

  lemma AllOperation(table: Table, s: Selector, base: bool)
    ensures SetAnyCase(table, s, Sign(base) + "@all") == Ok(BaseSelector(table, base))
  {
    assert Sign(true) + "@all" == "+@all" && Sign(false) + "@all" == "-@all";
    assert Lower("+@all") == "+@all" && Lower("-@all") == "-@all";
    assert "-@all" != "allcommands" && "-@all" != "+@all";
  }
}
