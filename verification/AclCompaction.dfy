/**
  The compacted rule log, as a list of rules, rebuilds the permissions of its selector.
  AclText says when the text that the program keeps is such a list.

  Every operation writes a fixed value to some of the places below and leaves the
  others alone.  A rule may be dropped from the middle of the log because the rule
  that overrules it writes everything the dropped one wrote.
*/
module AclCompaction {
  import opened Wrappers
  import opened AclRules

  /** A command bit, or one allowed first argument of a command. */
  datatype Place = Bit(id: nat) | Argument(id: nat, arg: string)

  ghost predicate Holds(p: Permissions, at: Place) {
    match at
    case Bit(id) => id in p.bits
    case Argument(id, arg) => id in p.args && arg in p.args[id]
  }

  /** Subcommands have no first arguments of their own. */
  ghost predicate Live(table: Table, at: Place) {
    at.Argument? ==> !IsSubId(table, at.id)
  }

  ghost predicate NoSubArguments(table: Table, p: Permissions) {
    forall id :: id in p.args ==> !IsSubId(table, id)
  }

  /** The bits a category operation writes, and the ids whose first arguments it forgets. */
  ghost predicate InCategory(commands: seq<Command>, category: string, id: nat) {
    exists c :: c in commands && (
      || (category in c.categories && id in TargetIds(Whole(c)))
      || exists s :: s in Subs(c) && category in s.categories && id == s.id)
  }

  ghost predicate ForgottenByCategory(commands: seq<Command>, category: string, id: nat) {
    exists c :: c in commands && (
      || (category in c.categories && id == c.id)
      || exists s :: s in Subs(c) && category in s.categories && id == s.id)
  }

  ghost function Written(table: Table, a: Action, at: Place): Option<bool> {
    match a
    case SetAll(v) => Some(v && at.Bit? && at.id < COMMAND_BITS)
    case Change(t, allow) =>
      (match at
       case Bit(id) => if id in TargetIds(t) then Some(allow) else None
       case Argument(id, _) => if id == TargetId(t) then Some(false) else None)
    case AllowArgument(c, arg) => if at == Argument(c.id, arg) then Some(true) else None
    case ChangeCategory(k, allow) =>
      (match at
       case Bit(id) => if InCategory(table.commands, k, id) then Some(allow) else None
       case Argument(id, _) => if ForgottenByCategory(table.commands, k, id) then Some(false) else None)
  }

  // ---- Operations are assignments to places ----

  lemma {:induction false} GrantSubsWrites(p: Permissions, c: Command, subs: seq<Subcommand>, k: string, allow: bool,
                                           at: Place)
    ensures Holds(GrantSubs(p, c, subs, k, allow), at)
         == if exists s :: s in subs && k in s.categories && at.id == s.id then at.Bit? && allow else Holds(p, at)
    decreases |subs|
  {
    if subs != [] {
      var q := if k in subs[0].categories then Grant(p, Sub(c, subs[0]), allow) else p;
      GrantSubsWrites(q, c, subs[1..], k, allow, at);
      assert subs == [subs[0]] + subs[1..];
    }
  }

  lemma {:induction false} GrantCategoryWrites(p: Permissions, commands: seq<Command>, k: string, allow: bool,
                                               at: Place)
    ensures Holds(GrantCategory(p, commands, k, allow), at)
         == match at
            case Bit(id) => if InCategory(commands, k, id) then allow else Holds(p, at)
            case Argument(id, _) => if ForgottenByCategory(commands, k, id) then false else Holds(p, at)
    decreases |commands|
  {
    if commands != [] {
      var c := commands[0];
      var q := if k in c.categories then Grant(p, Whole(c), allow) else p;
      var r := GrantSubs(q, c, Subs(c), k, allow);
      GrantSubsWrites(q, c, Subs(c), k, allow, at);
      GrantCategoryWrites(r, commands[1..], k, allow, at);
      CategoryHead(commands, k, at.id);
    }
  }

  lemma CategoryHead(commands: seq<Command>, k: string, id: nat)
    requires commands != []
    ensures InCategory(commands, k, id) == (InCategory(commands[..1], k, id) || InCategory(commands[1..], k, id))
    ensures ForgottenByCategory(commands, k, id)
         == (ForgottenByCategory(commands[..1], k, id) || ForgottenByCategory(commands[1..], k, id))
    ensures InCategory(commands[..1], k, id)
         == ((k in commands[0].categories && id in TargetIds(Whole(commands[0])))
             || exists s :: s in Subs(commands[0]) && k in s.categories && id == s.id)
    ensures ForgottenByCategory(commands[..1], k, id)
         == ((k in commands[0].categories && id == commands[0].id)
             || exists s :: s in Subs(commands[0]) && k in s.categories && id == s.id)
  {
    assert commands == commands[..1] + commands[1..];
    assert commands[..1] == [commands[0]];
  }

  lemma ApplyWrites(table: Table, p: Permissions, a: Action, at: Place)
    ensures Holds(Apply(table, p, a), at)
         == match Written(table, a, at)
            case Some(v) => v
            case None => Holds(p, at)
  {
    if a.ChangeCategory? {
      GrantCategoryWrites(p, table.commands, a.category, a.allow, at);
    }
  }

  // ---- Rules and their text ----

  /** The recorded text of an operation is the operation. */
  lemma RecordedText(table: Table, op: string)
    requires Parse(table, op).Ok? && !Parse(table, op).value.SetAll?
    ensures |op| >= 1 && RuleName(op, Parse(table, op).value) == op[1..]
    ensures Sign(Allows(Parse(table, op).value)) + RuleName(op, Parse(table, op).value) == op
  {
  }

  /** A name looked up without a bar is a command, with a bar a subcommand of its container. */
  lemma LookupShape(table: Table, s: string)
    requires WellFormed(table) && Lookup(table, s).Some?
    ensures var t := Lookup(table, s).value;
            && (t.Whole? ==> FindCommand(table.commands, s) == Some(t.command) && '|' !in s)
            && (t.Sub? ==>
                && FindCommand(table.commands, t.parent.name) == Some(t.parent)
                && t.parent.subcommands.Some?
                && FindSub(Subs(t.parent), t.sub.name) == Some(t.sub)
                && '|' !in t.parent.name && '|' !in t.sub.name
                && s == t.parent.name + "|" + t.sub.name)
  {
  }

  /** The head of a barred name is found again when the name is taken apart. */
  lemma SplitAtBar(a: string, b: string, c: string, d: string)
    requires '|' !in a && '|' !in c
    requires a + "|" + b == c + "|" + d
    ensures a == c && b == d
  {
    var s := a + "|" + b;
    assert s[|a|] == '|' && s[|c|] == '|';
    assert forall i :: 0 <= i < |a| ==> s[i] == a[i] && s[i] != '|';
    assert forall i :: 0 <= i < |c| ==> s[i] == c[i] && s[i] != '|';
    assert |a| == |c|;
    assert a == s[..|a|] == c;
    assert b == s[|a| + 1..] == d;
  }

  /** The words of a rule name: the part before the first bar and, if there is one, the rest. */
  ghost predicate Words(name: string, head: string, tail: Option<string>) {
    && '|' !in head
    && name == match tail { case None => head case Some(t) => head + "|" + t }
  }

  /** A rule overruled by a name without a bar starts with that name. */
  lemma OverruledByHead(head: string, name: string, head': string, tail': Option<string>)
    requires '|' !in head && Words(name, head', tail')
    requires name == head || head + "|" <= name
    ensures head' == head
  {
    assert head + "|" <= name ==> name[|head|] == '|';
    assert tail'.Some? ==> name[|head'|] == '|';
    if tail'.Some? {
      assert head + "|" <= name;
      assert name == head + "|" + name[|head| + 1..];
      SplitAtBar(head, name[|head| + 1..], head', tail'.value);
    }
  }

  /** A rule overruled by a name with a bar has that very name, unless it has a second bar. */
  lemma OverruledByPair(head: string, tail: string, name: string, head': string, tail': Option<string>)
    requires '|' !in head && Words(name, head', tail')
    requires tail'.Some? ==> '|' !in tail'.value
    requires name == head + "|" + tail || head + "|" + tail + "|" <= name
    ensures head' == head && tail' == Some(tail)
  {
    assert head + "|" <= name;
    assert name[|head|] == '|';
    assert name == head + "|" + name[|head| + 1..];
    assert head + "|" + tail + "|" <= name ==> name[|head| + 1..][|tail|] == '|';
    if tail'.Some? {
      SplitAtBar(head, name[|head| + 1..], head', tail'.value);
    }
  }

  /** The words of the name that an operation records. */
  ghost function HeadOf(a: Action): string {
    match a
    case SetAll(_) => ""
    case Change(Whole(c), _) => c.name
    case Change(Sub(c, _), _) => c.name
    case AllowArgument(c, _) => c.name
    case ChangeCategory(k, _) => "@" + k
  }

  ghost function TailOf(a: Action): Option<string> {
    match a
    case SetAll(_) => None
    case Change(Whole(c), _) => None
    case Change(Sub(_, s), _) => Some(s.name)
    case AllowArgument(_, arg) => Some(arg)
    case ChangeCategory(_, _) => None
  }

  ghost predicate ValidRule(table: Table, rule: string) {
    Parse(table, rule).Ok? && !Parse(table, rule).value.SetAll?
  }

  ghost function CommandOf(a: Action): Option<Command> {
    match a
    case SetAll(_) => None
    case Change(Whole(c), _) => Some(c)
    case Change(Sub(c, _), _) => Some(c)
    case AllowArgument(c, _) => Some(c)
    case ChangeCategory(_, _) => None
  }

  /** A rule is its two words; a command is found again under its name and is no category. */
  ghost predicate Shaped(table: Table, rule: string, a: Action) {
    && |rule| >= 1
    && Words(rule[1..], HeadOf(a), TailOf(a))
    && (TailOf(a).Some? ==> '|' !in TailOf(a).value)
    && (CommandOf(a).Some? ==> FindCommand(table.commands, HeadOf(a)) == CommandOf(a))
    && (CommandOf(a).Some? <==> !("@" <= HeadOf(a)))
    && (a.Change? && a.target.Sub? ==>
        a.target.parent.subcommands.Some? && FindSub(Subs(a.target.parent), a.target.sub.name) == Some(a.target.sub))
    && (a.AllowArgument? ==> a.command.subcommands.None?)
  }

  lemma ParsedTarget(table: Table, rule: string)
    requires ValidRule(table, rule) && Parse(table, rule).value.Change?
    ensures |rule| >= 1 && !IsCategoryOp(rule)
    ensures Lookup(table, rule[1..]) == Some(Parse(table, rule).value.target)
  {
    hide Lookup;
  }

  lemma TargetShape(table: Table, rule: string)
    requires WellFormed(table) && ValidRule(table, rule) && Parse(table, rule).value.Change?
    ensures Shaped(table, rule, Parse(table, rule).value)
  {
    ParsedTarget(table, rule);
    hide Parse, Lookup, FindCommand, FindSub;
    LookupShape(table, rule[1..]);
  }

  lemma ParsedByAllow(table: Table, rule: string)
    requires ValidRule(table, rule) && Parse(table, rule).value.AllowArgument?
    ensures |rule| >= 1 && rule[0] == '+' && !IsCategoryOp(rule)
    ensures Parse(table, rule) == ParseAllow(table, rule)
  {
    hide Lookup, ParseAllow;
  }

  lemma AllowedArgument(table: Table, rule: string)
    requires |rule| >= 1 && rule[0] == '+'
    requires ParseAllow(table, rule).Ok? && ParseAllow(table, rule).value.AllowArgument?
    ensures '|' in rule
    ensures var bar := LastBar(rule);
            var a := ParseAllow(table, rule).value;
            && bar >= 1 && a.command.subcommands.None? && a.arg == rule[bar + 1..]
            && Lookup(table, rule[1..bar]) == Some(Whole(a.command))
  {
    hide Lookup, LastBar;
  }

  lemma ArgumentShape(table: Table, rule: string)
    requires WellFormed(table) && ValidRule(table, rule) && Parse(table, rule).value.AllowArgument?
    ensures Shaped(table, rule, Parse(table, rule).value)
  {
    ParsedByAllow(table, rule);
    AllowedArgument(table, rule);
    var bar := LastBar(rule);
    hide Parse, ParseAllow, Lookup, FindCommand, FindSub, LastBar;
    LookupShape(table, rule[1..bar]);
    assert rule[1..] == rule[1..bar] + "|" + rule[bar + 1..];
  }

  lemma RuleShape(table: Table, rule: string)
    requires WellFormed(table) && ValidRule(table, rule)
    ensures Shaped(table, rule, Parse(table, rule).value)
  {
    match Parse(table, rule).value {
      case Change(_, _) => TargetShape(table, rule);
      case AllowArgument(_, _) => ArgumentShape(table, rule);
      case ChangeCategory(k, _) => assert rule[1..] == "@" + k;
    }
  }

  // ---- A dropped rule is covered by the rule that drops it ----

  ghost predicate Covers(table: Table, a: Action, b: Action) {
    forall at :: Live(table, at) && Written(table, b, at).Some? ==> Written(table, a, at).Some?
  }

  lemma OverruledIsCovered(table: Table, op: string, rule: string)
    requires WellFormed(table) && ValidRule(table, op) && ValidRule(table, rule)
    requires |op| >= 1 && Overrules(op[1..], rule)
    ensures Covers(table, Parse(table, op).value, Parse(table, rule).value)
  {
    var a, b := Parse(table, op).value, Parse(table, rule).value;
    RuleShape(table, op);
    RuleShape(table, rule);
    if TailOf(a).None? {
      OverruledByHead(HeadOf(a), rule[1..], HeadOf(b), TailOf(b));
    } else {
      assert op[1..] + "|" == HeadOf(a) + "|" + TailOf(a).value + "|";
      OverruledByPair(HeadOf(a), TailOf(a).value, rule[1..], HeadOf(b), TailOf(b));
    }
    SameWordsCover(table, a, b);
  }

  lemma SameWordsCover(table: Table, a: Action, b: Action)
    requires !a.SetAll? && !b.SetAll?
    requires HeadOf(a) == HeadOf(b) && (TailOf(a).Some? ==> TailOf(b) == TailOf(a))
    requires CommandOf(a) == CommandOf(b)
    requires CommandOf(a).Some? ==> CommandOf(a).value in table.commands
    requires forall x :: x in {a, b} && x.Change? && x.target.Sub? ==>
               && x.target.parent.subcommands.Some?
               && FindSub(Subs(x.target.parent), x.target.sub.name) == Some(x.target.sub)
    requires forall x :: x in {a, b} && x.AllowArgument? ==> x.command.subcommands.None?
    ensures Covers(table, a, b)
  {
    if b.Change? && b.target.Sub? {
      var c, s := b.target.parent, b.target.sub;
      assert s in Subs(c) && s.id in SubIds(c) && IsSubId(table, s.id);
    }
    if a.ChangeCategory? {
      assert ("@" + a.category)[1..] == a.category;
    }
    if b.ChangeCategory? {
      assert ("@" + b.category)[1..] == b.category;
    }
  }

  // ---- Replaying the log ----

  /** The permissions rebuilt from the log, starting from everything or from nothing. */
  function Replay(table: Table, base: bool, rules: seq<string>): Permissions {
    if rules == [] then Apply(table, NOTHING, SetAll(base))
    else
      var p := Replay(table, base, rules[..|rules| - 1]);
      match Parse(table, rules[|rules| - 1])
      case Err(_) => p
      case Ok(a) => Apply(table, p, a)
  }

  ghost predicate Same(p: Permissions, q: Permissions) {
    forall at :: Holds(p, at) == Holds(q, at)
  }

  ghost predicate SameLive(table: Table, p: Permissions, q: Permissions) {
    forall at :: Live(table, at) ==> Holds(p, at) == Holds(q, at)
  }

  /** Permissions that agree at every place have the same bitmap. */
  lemma SameBits(p: Permissions, q: Permissions)
    requires Same(p, q)
    ensures p.bits == q.bits
  {
    forall id: nat
      ensures id in p.bits <==> id in q.bits
    {
      assert Holds(p, Bit(id)) == Holds(q, Bit(id));
    }
  }

  predicate Base(p: Permissions) {
    FUTURE_COMMANDS in p.bits
  }

  ghost predicate ValidRules(table: Table, rules: seq<string>) {
    forall rule :: rule in rules ==> ValidRule(table, rule)
  }

  /** No later rule overrules an earlier one. */
  ghost predicate Compact(rules: seq<string>) {
    rules == [] || ((forall r :: r in rules[1..] ==> |r| >= 1 && !Overrules(r[1..], rules[0])) && Compact(rules[1..]))
  }

  /** What every selector keeps: its log is valid and compact, and rebuilds its permissions. */
  ghost predicate Consistent(table: Table, s: Selector) {
    && ValidRules(table, s.rules)
    && Compact(s.rules)
    && NoSubArguments(table, s.permissions)
    && Same(s.permissions, Replay(table, Base(s.permissions), s.rules))
  }

  /** Replaying without the overruled rules agrees wherever the new rule writes nothing. */
  lemma {:induction false} ReplayWithout(table: Table, base: bool, rules: seq<string>, op: string, at: Place)
    requires WellFormed(table) && ValidRules(table, rules) && ValidRule(table, op) && |op| >= 1
    requires Live(table, at) && Written(table, Parse(table, op).value, at).None?
    ensures Holds(Replay(table, base, RemoveOverruled(rules, op[1..])), at) == Holds(Replay(table, base, rules), at)
    decreases |rules|
  {
    hide Parse, Apply, Written, Overrules, Holds, Live;
    if rules != [] {
      var init, last := rules[..|rules| - 1], rules[|rules| - 1];
      assert last in rules && ValidRule(table, last);
      RemoveLast(rules, op[1..]);
      ReplayWithout(table, base, init, op, at);
      ApplyWrites(table, Replay(table, base, init), Parse(table, last).value, at);
      var kept := RemoveOverruled(init, op[1..]);
      if Overrules(op[1..], last) {
        OverruledIsCovered(table, op, last);
        assert kept + [] == kept;
      } else {
        assert (kept + [last])[..|kept|] == kept;
        ApplyWrites(table, Replay(table, base, kept), Parse(table, last).value, at);
      }
    }
  }

  lemma {:induction false} RemoveLast(rules: seq<string>, name: string)
    requires rules != []
    ensures var init, last := rules[..|rules| - 1], rules[|rules| - 1];
            RemoveOverruled(rules, name)
            == RemoveOverruled(init, name) + if Overrules(name, last) then [] else [last]
    decreases |rules|
  {
    if |rules| > 1 {
      RemoveLast(rules[1..], name);
      assert rules[1..][..|rules| - 2] == rules[..|rules| - 1][1..];
    }
  }

  /** Removal is a filter: it keeps, in order, the rules that are not overruled. */
  lemma {:induction false} RemoveKeeps(rules: seq<string>, name: string)
    ensures forall r :: r in RemoveOverruled(rules, name) <==> r in rules && !Overrules(name, r)
    ensures Compact(rules) ==> Compact(RemoveOverruled(rules, name))
    decreases |rules|
  {
    if rules != [] {
      RemoveKeeps(rules[1..], name);
      assert rules == [rules[0]] + rules[1..];
      var rest := RemoveOverruled(rules[1..], name);
      assert ([rules[0]] + rest)[1..] == rest;
    }
  }

  lemma {:induction false} AppendCompact(rules: seq<string>, op: string)
    requires Compact(rules) && |op| >= 1
    requires forall r :: r in rules ==> !Overrules(op[1..], r)
    ensures Compact(rules + [op])
    decreases |rules|
  {
    hide Overrules;
    if rules != [] {
      assert rules[0] in rules;
      AppendCompact(rules[1..], op);
      assert (rules + [op])[1..] == rules[1..] + [op];
    }
  }

  lemma ReplayStep(table: Table, base: bool, rules: seq<string>, op: string)
    requires Parse(table, op).Ok?
    ensures Replay(table, base, rules + [op]) == Apply(table, Replay(table, base, rules), Parse(table, op).value)
  {
    assert (rules + [op])[..|rules|] == rules;
  }

  /** First arguments are only ever recorded for commands that are not subcommands. */
  lemma ApplyKeepsLive(table: Table, p: Permissions, op: string)
    requires WellFormed(table) && NoSubArguments(table, p) && Parse(table, op).Ok?
    ensures NoSubArguments(table, Apply(table, p, Parse(table, op).value))
  {
    var a := Parse(table, op).value;
    if a.ChangeCategory? {
      CategoryKeepsArguments(p, table.commands, a.category, a.allow);
    } else if a.AllowArgument? {
      ArgumentShape(table, op);
      assert a.command in table.commands;
    }
  }

  lemma {:induction false} SubsKeepArguments(p: Permissions, c: Command, subs: seq<Subcommand>, k: string, allow: bool)
    ensures GrantSubs(p, c, subs, k, allow).args.Keys <= p.args.Keys
    decreases |subs|
  {
    if subs != [] {
      var q := if k in subs[0].categories then Grant(p, Sub(c, subs[0]), allow) else p;
      SubsKeepArguments(q, c, subs[1..], k, allow);
    }
  }

  lemma {:induction false} CategoryKeepsArguments(p: Permissions, commands: seq<Command>, k: string, allow: bool)
    ensures GrantCategory(p, commands, k, allow).args.Keys <= p.args.Keys
    decreases |commands|
  {
    if commands != [] {
      var c := commands[0];
      var q := if k in c.categories then Grant(p, Whole(c), allow) else p;
      SubsKeepArguments(q, c, Subs(c), k, allow);
      CategoryKeepsArguments(GrantSubs(q, c, Subs(c), k, allow), commands[1..], k, allow);
    }
  }

  lemma {:induction false} ReplayKeepsLive(table: Table, base: bool, rules: seq<string>)
    requires WellFormed(table) && ValidRules(table, rules)
    ensures NoSubArguments(table, Replay(table, base, rules))
    decreases |rules|
  {
    hide Parse, Apply;
    if rules == [] {
      ApplyAllLive(table, base);
    } else {
      var last := rules[|rules| - 1];
      assert last in rules && ValidRule(table, last);
      ReplayKeepsLive(table, base, rules[..|rules| - 1]);
      ApplyKeepsLive(table, Replay(table, base, rules[..|rules| - 1]), last);
    }
  }

  lemma ApplyAllLive(table: Table, base: bool)
    ensures NoSubArguments(table, Apply(table, NOTHING, SetAll(base)))
  {
  }

  /** Two permissions without subcommand arguments agree everywhere once they agree at the live places. */
  lemma LiveIsEnough(table: Table, p: Permissions, q: Permissions)
    requires NoSubArguments(table, p) && NoSubArguments(table, q) && SameLive(table, p, q)
    ensures Same(p, q)
  {
    forall at
      ensures Holds(p, at) == Holds(q, at)
    {
      if Live(table, at) {
        assert Holds(p, at) == Holds(q, at);
      }
    }
  }

  /** No command reaches the reserved bit. */
  lemma BaseKept(table: Table, p: Permissions, op: string)
    requires WellFormed(table) && ValidRule(table, op)
    ensures Base(Apply(table, p, Parse(table, op).value)) == Base(p)
  {
    var a := Parse(table, op).value;
    ApplyWrites(table, p, a, Bit(FUTURE_COMMANDS));
    RuleShape(table, op);
    assert Written(table, a, Bit(FUTURE_COMMANDS)).None? by {
      hide Parse;
      ReservedUntouched(table, a);
    }
  }

  lemma ReservedUntouched(table: Table, a: Action)
    requires WellFormed(table) && !a.SetAll?
    requires CommandOf(a).Some? ==> CommandOf(a).value in table.commands
    requires a.Change? && a.target.Sub? ==> a.target.sub in Subs(a.target.parent)
    ensures Written(table, a, Bit(FUTURE_COMMANDS)).None?
  {
  }

  // ---- Main results ----

  /** The log after an operation rebuilds the permissions after it. */
  lemma CompactedReplay(table: Table, base: bool, p: Permissions, rules: seq<string>, op: string)
    requires WellFormed(table) && ValidRules(table, rules) && ValidRule(table, op) && |op| >= 1
    requires NoSubArguments(table, p) && Same(p, Replay(table, base, rules))
    ensures Same(Apply(table, p, Parse(table, op).value),
                 Replay(table, base, RemoveOverruled(rules, op[1..]) + [op]))
  {
    hide Parse, Apply, Written, Overrules, Holds, Live, Replay;
    var a := Parse(table, op).value;
    var kept := RemoveOverruled(rules, op[1..]);
    RemoveKeeps(rules, op[1..]);
    ReplayStep(table, base, kept, op);
    var q := Replay(table, base, kept);
    forall at | Live(table, at)
      ensures Holds(Apply(table, p, a), at) == Holds(Apply(table, q, a), at)
    {
      ApplyWrites(table, p, a, at);
      ApplyWrites(table, q, a, at);
      if Written(table, a, at).None? {
        ReplayWithout(table, base, rules, op, at);
      }
    }
    ReplayKeepsLive(table, base, kept);
    ApplyKeepsLive(table, p, op);
    ApplyKeepsLive(table, q, op);
    LiveIsEnough(table, Apply(table, p, a), Apply(table, q, a));
  }

  lemma EmptyConsistent(table: Table)
    ensures Consistent(table, EMPTY)
  {
    assert Same(NOTHING, Replay(table, false, []));
  }

  /** Every accepted operation on the list of rules keeps the selector consistent. */
  lemma SetSelectorConsistent(table: Table, s: Selector, op: string)
    requires WellFormed(table) && Consistent(table, s)
    requires SetSelector(table, s, op).Ok?
    ensures Consistent(table, SetSelector(table, s, op).value)
  {
    var a := Parse(table, op).value;
    ApplyKeepsLive(table, s.permissions, op);
    if a.SetAll? {
      assert Base(Apply(table, s.permissions, a)) == a.value;
    } else {
      RecordedText(table, op);
      hide Parse, Apply, Overrules, Holds, Live, Replay, Base;
      RemoveKeeps(s.rules, op[1..]);
      AppendCompact(RemoveOverruled(s.rules, op[1..]), op);
      BaseKept(table, s.permissions, op);
      CompactedReplay(table, Base(s.permissions), s.permissions, s.rules, op);
    }
  }

  /** The selector after a sequence of operations; rejected ones change nothing. */
  function Run(table: Table, s: Selector, ops: seq<string>): Selector
    decreases |ops|
  {
    if ops == [] then s
    else
      var next := match SetSelector(table, s, ops[0])
                  case Ok(t) => t
                  case Err(_) => s;
      Run(table, next, ops[1..])
  }

  /** Consistency over whole histories. */
  lemma {:induction false} RunConsistent(table: Table, s: Selector, ops: seq<string>)
    requires WellFormed(table) && Consistent(table, s)
    ensures Consistent(table, Run(table, s, ops))
    decreases |ops|
  {
    hide SetSelector, Consistent;
    if ops != [] {
      match SetSelector(table, s, ops[0])
      case Ok(t) =>
        SetSelectorConsistent(table, s, ops[0]);
        RunConsistent(table, t, ops[1..]);
      case Err(_) =>
        RunConsistent(table, s, ops[1..]);
    }
  }

  /** Feeding a compact, valid log back through SetSelector records exactly that log. */
  lemma {:induction false} RerunKeepsLog(table: Table, base: bool, rules: seq<string>)
    requires WellFormed(table) && ValidRules(table, rules) && Compact(rules)
    ensures Run(table, Selector(Apply(table, NOTHING, SetAll(base)), []), rules)
         == Selector(Replay(table, base, rules), rules)
    decreases |rules|
  {
    hide SetSelector, Apply, Parse, Overrules;
    var start := Selector(Apply(table, NOTHING, SetAll(base)), []);
    if rules != [] {
      var init, last := rules[..|rules| - 1], rules[|rules| - 1];
      assert rules == init + [last];
      assert last in rules && ValidRule(table, last);
      RecordedText(table, last);
      CompactInit(init, last);
      RerunKeepsLog(table, base, init);
      RunAppend(table, start, init, last);
      SetOnCompact(table, Selector(Replay(table, base, init), init), last);
    }
  }

  lemma {:induction false} RunAppend(table: Table, s: Selector, ops: seq<string>, op: string)
    ensures Run(table, s, ops + [op]) == Run(table, Run(table, s, ops), [op])
    decreases |ops|
  {
    hide SetSelector;
    if ops == [] {
      assert ops + [op] == [op];
    } else {
      assert (ops + [op])[1..] == ops[1..] + [op];
      var next := match SetSelector(table, s, ops[0])
                  case Ok(t) => t
                  case Err(_) => s;
      RunAppend(table, next, ops[1..], op);
    }
  }

  lemma {:induction false} CompactInit(init: seq<string>, last: string)
    requires Compact(init + [last])
    ensures forall r :: r in init ==> |last| >= 1 && !Overrules(last[1..], r)
    ensures Compact(init)
    decreases |init|
  {
    hide Overrules;
    if init != [] {
      var all := init + [last];
      assert all[1..] == init[1..] + [last];
      assert last in all[1..];
      forall r | r in init[1..]
        ensures |r| >= 1 && !Overrules(r[1..], init[0])
      {
        assert r in all[1..];
      }
      CompactInit(init[1..], last);
    }
  }

  lemma {:induction false} NothingRemoved(rules: seq<string>, name: string)
    requires forall r :: r in rules ==> !Overrules(name, r)
    ensures RemoveOverruled(rules, name) == rules
    decreases |rules|
  {
    hide Overrules;
    if rules != [] {
      assert rules[0] in rules;
      NothingRemoved(rules[1..], name);
    }
  }

  lemma SetOnCompact(table: Table, s: Selector, op: string)
    requires ValidRule(table, op) && |op| >= 1
    requires forall r :: r in s.rules ==> !Overrules(op[1..], r)
    ensures Run(table, s, [op]) == Selector(Apply(table, s.permissions, Parse(table, op).value), s.rules + [op])
  {
    RecordedText(table, op);
    hide Parse, Apply, Overrules;
    NothingRemoved(s.rules, op[1..]);
    assert [op][1..] == [];
  }

  /**
    Describing and recomputing: starting a selector from @all and replaying the log
    succeeds on every rule, rebuilds the bitmap and the first arguments, and leaves
    the log as it was.
  */
  lemma RecomputeRebuilds(table: Table, s: Selector)
    requires WellFormed(table) && Consistent(table, s)
    ensures var base := Selector(Apply(table, NOTHING, SetAll(Base(s.permissions))), []);
            var again := Run(table, base, s.rules);
            && (forall rule :: rule in s.rules ==> Parse(table, rule).Ok?)
            && again.permissions.bits == s.permissions.bits
            && Same(again.permissions, s.permissions)
            && again.rules == s.rules
  {
    var base := Base(s.permissions);
    RerunKeepsLog(table, base, s.rules);
    SameBits(s.permissions, Replay(table, base, s.rules));
  }
}
