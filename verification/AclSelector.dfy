/**
  The selector object: bitmap, first arguments and rule text, updated in place.
*/
module AclSelector {
  import opened Wrappers
  import opened SdsText
  import opened AclRules
  import opened AclCompaction
  import opened AclRuleText
  import opened AclSplit
  import opened AclCase
  import opened AclRebuild
  import opened AclText

  class CommandSelector {
    const table: Table
    var allowedCommands: set<nat>
    var allowedFirstArgs: map<nat, seq<string>>
    var allCommands: bool
    var commandRules: string

    function Permits(): Permissions
      reads this
    {
      Permissions(allowedCommands, allowedFirstArgs)
    }

    function View(): TextSelector
      reads this
    {
      TextSelector(Permits(), commandRules)
    }

    /** The flag that skips the bitmap test is only up when every bit is set. */
    ghost predicate FlagSound()
      reads this`allowedCommands, this`allCommands
    {
      allCommands ==> allowedCommands == BitsBelow(COMMAND_BITS)
    }

    ghost predicate Valid()
      reads this
    {
      WellFormed(table) && FlagSound() && NUL !in commandRules
    }

    constructor (table: Table)
      requires WellFormed(table)
      ensures Valid() && this.table == table && View() == EMPTY_TEXT
    {
      this.table := table;
      allowedCommands, allowedFirstArgs, allCommands := {}, map[], false;
      commandRules := "";
    }

    method SetCommandBit(id: nat, value: bool)
      requires id < COMMAND_BITS && FlagSound()
      modifies this`allowedCommands, this`allCommands
      ensures allowedCommands == if value then old(allowedCommands) + {id} else old(allowedCommands) - {id}
      ensures FlagSound()
    {
      if value {
        allowedCommands := allowedCommands + {id};
      } else {
        allowedCommands := allowedCommands - {id};
        allCommands := false;
      }
    }

    method ResetFirstArgsForCommand(id: nat)
      modifies this`allowedFirstArgs
      ensures allowedFirstArgs == old(allowedFirstArgs) - {id}
    {
      if id in allowedFirstArgs {
        allowedFirstArgs := allowedFirstArgs - {id};
      }
    }

    method AddAllowedFirstArg(id: nat, sub: string)
      modifies this`allowedFirstArgs
      ensures Permits() == AddAnyCase(old(Permits()), id, sub)
    {
      var items := 0;
      var args := if id in allowedFirstArgs then allowedFirstArgs[id] else [];
      while items < |args|
        invariant 0 <= items <= |args|
        invariant forall i :: 0 <= i < items ==> LowerAll(args)[i] != Lower(sub)
        invariant allowedFirstArgs == old(allowedFirstArgs)
      {
        if Lower(args[items]) == Lower(sub) {
          assert LowerAll(args)[items] == Lower(sub);
          return;
        }
        items := items + 1;
      }
      allowedFirstArgs := allowedFirstArgs[id := args + [sub]];
    }

    method SetSubcommandBits(subs: seq<Subcommand>, allow: bool)
      requires FlagSound()
      requires forall s :: s in subs ==> s.id < COMMAND_BITS
      modifies this`allowedCommands, this`allCommands
      ensures allowedCommands == Allowing(old(allowedCommands), IdsOf(subs), allow)
      ensures FlagSound()
    {
      hide IdsOf;
      var i := 0;
      NoIds();
      assert subs[..0] == [];
      while i < |subs|
        invariant 0 <= i <= |subs| && FlagSound()
        invariant allowedCommands == Allowing(old(allowedCommands), IdsOf(subs[..i]), allow)
      {
        MoreIds(subs, i);
        assert subs[i] in subs;
        SetCommandBit(subs[i].id, allow);
        i := i + 1;
      }
      assert subs[..i] == subs;
    }

    /** A container takes its subcommands along. */
    method ChangePerm(t: Target, allow: bool)
      requires FlagSound()
      requires TargetInRange(t)
      modifies this`allowedCommands, this`allCommands, this`allowedFirstArgs
      ensures Permits() == Grant(old(Permits()), t, allow)
      ensures FlagSound()
    {
      SetCommandBit(TargetId(t), allow);
      ResetFirstArgsForCommand(TargetId(t));
      if t.Whole? && t.command.subcommands.Some? {
        SetSubcommandBits(t.command.subcommands.value, allow);
      } else if t.Whole? {
        NoIds();
      }
    }

    /** Every command and subcommand of the category. */
    method SetCommandBitsForCategory(category: string, allow: bool)
      requires FlagSound() && WellFormed(table)
      modifies this`allowedCommands, this`allCommands, this`allowedFirstArgs
      ensures Permits() == GrantCategory(old(Permits()), table.commands, category, allow)
      ensures FlagSound()
    {
      hide Grant, GrantSubs, FlagSound;
      var i := 0;
      while i < |table.commands|
        invariant 0 <= i <= |table.commands| && FlagSound()
        invariant GrantCategory(Permits(), table.commands[i..], category, allow)
               == GrantCategory(old(Permits()), table.commands, category, allow)
      {
        var c := table.commands[i];
        assert c in table.commands;
        WholeInRange(table, c);
        if category in c.categories {
          ChangePerm(Whole(c), allow);
        }
        SetSubcommandsForCategory(c, category, allow);
        assert table.commands[i..][1..] == table.commands[i + 1..];
        i := i + 1;
      }
    }

    method SetSubcommandsForCategory(c: Command, category: string, allow: bool)
      requires FlagSound() && WellFormed(table) && c in table.commands
      modifies this`allowedCommands, this`allCommands, this`allowedFirstArgs
      ensures Permits() == GrantSubs(old(Permits()), c, Subs(c), category, allow)
      ensures FlagSound()
    {
      hide Grant, FlagSound;
      var subs := Subs(c);
      var j := 0;
      while j < |subs|
        invariant 0 <= j <= |subs| && FlagSound()
        invariant GrantSubs(Permits(), c, subs[j..], category, allow)
               == GrantSubs(old(Permits()), c, subs, category, allow)
      {
        assert subs[j] in subs;
        SubInRange(table, c, subs[j]);
        if category in subs[j].categories {
          ChangePerm(Sub(c, subs[j]), allow);
        }
        assert subs[j..][1..] == subs[j + 1..];
        j := j + 1;
      }
    }

    /** Drop the overruled pieces from the text, then append the new rule, in lower case. */
    method UpdateCommandRules(rule: string, allow: bool)
      requires NUL !in commandRules && NUL !in rule
      modifies this`commandRules
      ensures commandRules == AddRule(old(commandRules), Lower(rule), allow) && NUL !in commandRules
    {
      hide RemoveText;
      var name := Lower(rule);
      var text := commandRules;
      var buf := new char[|text| + 1](i => if 0 <= i < |text| then text[i] else NUL);
      assert buf[..][..|text|] == text && Terminated(buf[..], |text|, text);
      var len := RemoveCommandRule(buf, name, text);
      commandRules := buf[..len];
      assert commandRules == RemoveText(text, name) by { assert buf[..][..len] == buf[..len]; }
      if |commandRules| > 0 {
        commandRules := commandRules + " ";
      }
      commandRules := commandRules + (Sign(allow) + name);
      LowerHasNoTerminator(rule);
    }

    /** The part of an operation that changes the permissions. */
    method ChangePermissions(op: string, a: Action)
      requires FlagSound() && WellFormed(table) && !a.SetAll? && (a.Change? ==> TargetInRange(a.target))
      modifies this`allowedCommands, this`allCommands, this`allowedFirstArgs
      ensures Permits() == ApplyAnyCase(table, old(Permits()), op, a)
      ensures FlagSound()
    {
      hide FlagSound, Suffix, AddAnyCase, Grant, GrantCategory, WellFormed, TargetInRange;
      if a.Change? {
        ChangePerm(a.target, a.allow);
      } else if a.AllowArgument? {
        AddAllowedFirstArg(a.command.id, Suffix(op));
      } else {
        SetCommandBitsForCategory(a.category, a.allow);
      }
    }

    /** Everything is granted, or nothing, and the log starts anew. */
    method SetEverything(value: bool)
      modifies this
      ensures View() == TextOf(BaseSelector(table, value))
      ensures FlagSound()
    {
      allowedCommands := if value then BitsBelow(COMMAND_BITS) else {};
      allCommands := value;
      commandRules := "";
      allowedFirstArgs := map[];
    }

    /** One operation on the selector, whatever its case and its log. */
    method Operate(op: string) returns (error: Option<Error>)
      requires Valid()
      modifies this
      ensures Valid()
      ensures match SetText(table, old(View()), op)
              case Ok(t) => error == None && View() == t
              case Err(e) => error == Some(e) && View() == old(View())
    {
      hide Parse, FlagSound, Apply, ApplyAnyCase, WellFormed, AddRule;
      var c := CString(op);
      var parsed := Parse(table, Lower(c));
      if parsed.Err? {
        return Some(parsed.error);
      }
      var a := parsed.value;
      if a.SetAll? {
        AllStartsAnew(table, Permits(), c, a);
        SetEverything(a.value);
      } else {
        Recorded(table, c);
        ActionInRange(table, Lower(c));
        NameHasNoTerminator(table, c);
        ChangePermissions(c, a);
        UpdateCommandRules(if a.Change? then FullName(a.target) else c[1..], Allows(a));
      }
      error := None;
    }

    /** Start from @all and apply every rule of a log; the program aborts when one is refused. */
    method ApplyLog(base: bool, argv: seq<string>) returns (ok: bool)
      requires Valid()
      modifies this
      ensures Valid()
      ensures ok <==> Accepts(table, argv)
      ensures ok ==> View() == RunText(table, TextOf(BaseSelector(table, base)), argv)
    {
      hide Valid, SetText, Apply, Parse, Base;
      ghost var start := TextOf(BaseSelector(table, base));
      AllText(table, View(), base);
      var res := Operate(Sign(base) + "@all");
      var i := 0;
      assert argv[..0] == [];
      while i < |argv|
        invariant 0 <= i <= |argv| && Valid()
        invariant View() == RunText(table, start, argv[..i]) && Accepts(table, argv[..i])
      {
        assert argv[..i + 1] == argv[..i] + [argv[i]];
        AcceptedRule(table, View(), argv[i]);
        RunOneMore(table, start, argv[..i], argv[i]);
        res := Operate(argv[i]);
        if res.Some? {
          return false;
        }
        i := i + 1;
      }
      assert argv[..i] == argv;
      ok := true;
    }

    /**
      Rebuild the bitmap from the log.  It works if and only if the text can be split and
      every word is accepted; then the selector is the one that the text gives.
    */
    method Recompute() returns (ok: bool)
      requires Valid()
      modifies this
      ensures Valid()
      ensures ok <==> RebuiltText(table, old(View())).Some?
      ensures ok ==> View() == RebuiltText(table, old(View())).value
      ensures Rebuilds(table, old(View())) ==>
                ok && commandRules == old(commandRules) && Same(Permits(), Fold(old(Permits())))
    {
      hide SplitArgs, Join, RunText, Accepts, Apply;
      var argv := SplitArgs(commandRules);
      if argv.None? {
        return false;
      }
      ok := ApplyLog(FUTURE_COMMANDS in allowedCommands, argv.value);
    }

    /**
      The description, with the sanity check of the source: the bitmap rebuilt on a fresh
      selector is compared with the real one.  None when the program aborts, which it never
      does if the text rebuilds the selector.
    */
    method Describe() returns (rules: Option<string>)
      requires Valid()
      ensures var r := RebuiltText(table, View());
              var same := r.Some? && r.value.permissions.bits == allowedCommands;
              rules == if same then Some(Description(View())) else None
      ensures Rebuilds(table, View()) ==> rules.Some?
    {
      hide SplitArgs, RunText, Accepts, Apply, Same, Join;
      SameBitmap(table, View());
      var base := FUTURE_COMMANDS in allowedCommands;
      var text := if base then "+@all " else "-@all ";
      var argv := SplitArgs(commandRules);
      if argv.None? {
        return None;
      }
      var fake := new CommandSelector(table);
      var ok := fake.ApplyLog(base, argv.value);
      if !ok {
        return None;
      }
      if |commandRules| > 0 {
        text := text + commandRules + " ";
      }
      text := text[..|text| - 1];
      if fake.allowedCommands != allowedCommands {
        return None;
      }
      DescriptionText(View());
      rules := Some(text);
    }
  }

  lemma SameBitmap(table: Table, t: TextSelector)
    ensures Rebuilds(table, t) ==> RebuiltText(table, t).value.permissions.bits == t.permissions.bits
  {
    if Rebuilds(table, t) {
      SameBits(RebuiltText(table, t).value.permissions, Fold(t.permissions));
    }
  }

  lemma NoIds()
    ensures IdsOf([]) == {}
  {
  }

  lemma MoreIds(subs: seq<Subcommand>, i: nat)
    requires i < |subs|
    ensures IdsOf(subs[..i + 1]) == IdsOf(subs[..i]) + {subs[i].id}
  {
    assert subs[..i + 1] == subs[..i] + [subs[i]];
    assert subs[i] in subs[..i + 1];
  }

  ghost predicate TargetInRange(t: Target) {
    TargetId(t) < COMMAND_BITS && (t.Whole? ==> forall s :: s in Subs(t.command) ==> s.id < COMMAND_BITS)
  }

  lemma WholeInRange(table: Table, c: Command)
    requires WellFormed(table) && c in table.commands
    ensures TargetInRange(Whole(c))
  {
  }

  lemma SubInRange(table: Table, c: Command, s: Subcommand)
    requires WellFormed(table) && c in table.commands && s in Subs(c)
    ensures TargetInRange(Sub(c, s))
  {
  }

  lemma LowerHasNoTerminator(s: string)
    requires NUL !in s
    ensures NUL !in Lower(s)
  {
    assert forall i :: 0 <= i < |s| ==> Lower(s)[i] == NUL ==> s[i] == NUL;
  }

  /** What is recorded has no terminator, whether it is the operation or the name found. */
  lemma NameHasNoTerminator(table: Table, op: string)
    requires ValidRule(table, Lower(op)) && NUL !in op
    ensures var a := Parse(table, Lower(op)).value;
            |op| >= 1 && NUL !in op[1..] && (a.Change? ==> NUL !in FullName(a.target))
  {
    RecordedText(table, Lower(op));
    LowerHasNoTerminator(op);
    hide Parse;
    var a := Parse(table, Lower(op)).value;
    assert forall x :: x in Lower(op)[1..] ==> x in Lower(op);
    assert forall x :: x in op[1..] ==> x in op;
    assert a.Change? ==> FullName(a.target) == Lower(op)[1..];
  }

  lemma AllStartsAnew(table: Table, p: Permissions, op: string, a: Action)
    requires a.SetAll?
    ensures ApplyAnyCase(table, p, op, a) == BaseSelector(table, a.value).permissions
    ensures TextOf(BaseSelector(table, a.value)) == TextSelector(BaseSelector(table, a.value).permissions, "")
  {
  }

  lemma ActionInRange(table: Table, op: string)
    requires WellFormed(table) && ValidRule(table, op)
    ensures var a := Parse(table, op).value;
            a.Change? ==> TargetInRange(a.target)
  {
    RuleShape(table, op);
  }

  lemma AcceptedRule(table: Table, t: TextSelector, op: string)
    ensures SetText(table, t, op).Ok? <==> Parse(table, Lower(CString(op))).Ok?
    ensures RunText(table, t, [op]) == NextText(table, t, op)
  {
    hide Parse, Apply;
    assert [op][1..] == [];
  }

  lemma {:induction false} RunOneMore(table: Table, t: TextSelector, ops: seq<string>, op: string)
    ensures RunText(table, t, ops + [op]) == RunText(table, RunText(table, t, ops), [op])
    decreases |ops|
  {
    hide NextText;
    if ops == [] {
      assert ops + [op] == [op];
    } else {
      assert (ops + [op])[1..] == ops[1..] + [op];
      RunOneMore(table, NextText(table, t, ops[0]), ops[1..], op);
    }
  }

  lemma DescriptionText(t: TextSelector)
    ensures var head := if Base(t.permissions) then "+@all " else "-@all ";
            var text := if |t.text| > 0 then head + t.text + " " else head;
            |text| >= 1 && text[..|text| - 1] == Description(t)
  {
    hide Base, Sign;
    Head(Base(t.permissions));
    LastBlank(Sign(Base(t.permissions)) + "@all", t.text);
  }

  lemma Head(base: bool)
    ensures (if base then "+@all " else "-@all ") == Sign(base) + "@all" + " "
  {
  }

  lemma LastBlank(head: string, text: string)
    ensures (head + " ")[..|head + " "| - 1] == head
    ensures (head + " " + text + " ")[..|head + " " + text + " "| - 1] == head + (" " + text)
  {
    assert head + " " + text == head + (" " + text);
  }
}
