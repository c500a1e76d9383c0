/**
  Operations in any case.

  Commands, categories and first arguments are compared without regard to case; the log
  records rules in lower case, but a first argument is kept as it was given.  Seen in lower
  case, every operation is the same operation in lower case.  The log is a list of rules here,
  as in AclCompaction.
*/
module AclCase {
  import opened SdsText
  import opened AclRules
  import opened AclCompaction

  function LowerAll(l: seq<string>): (r: seq<string>)
    ensures |r| == |l| && forall i :: 0 <= i < |l| ==> r[i] == Lower(l[i])
  {
    seq(|l|, i requires 0 <= i < |l| => Lower(l[i]))
  }

  lemma LowerAllHead(l: seq<string>, front: seq<string>)
    requires l != []
    ensures front + [Lower(l[0])] + LowerAll(l[1..]) == front + LowerAll(l)
    ensures LowerAll([]) == []
  {
  }

  /** Permissions with all first arguments in lower case: what the permission test sees. */
  function Fold(p: Permissions): Permissions {
    p.(args := map id | id in p.args :: LowerAll(p.args[id]))
  }

  function FoldSelector(s: Selector): Selector {
    s.(permissions := Fold(s.permissions))
  }

  /** A first argument is added as given, unless it is there in some case. */
  function AddAnyCase(p: Permissions, id: nat, arg: string): Permissions {
    if id in p.args && Lower(arg) in LowerAll(p.args[id]) then p
    else p.(args := p.args[id := (if id in p.args then p.args[id] else []) + [arg]])
  }

  /** What is behind the last bar, or nothing. */
  function Suffix(op: string): string {
    if '|' in op then op[LastBar(op) + 1..] else ""
  }

  function ApplyAnyCase(table: Table, p: Permissions, op: string, a: Action): Permissions {
    if a.AllowArgument? then AddAnyCase(p, a.command.id, Suffix(op)) else Apply(table, p, a)
  }

  /** One operation in any case. */
  function SetAnyCase(table: Table, s: Selector, op: string): Result<Selector> {
    match Parse(table, Lower(op))
    case Err(e) => Err(e)
    case Ok(a) =>
      var p := ApplyAnyCase(table, s.permissions, op, a);
      if a.SetAll? then Ok(Selector(p, []))
      else
        var name := RuleName(Lower(op), a);
        Ok(Selector(p, RemoveOverruled(s.rules, name) + [Sign(Allows(a)) + name]))
  }

  // ---- Seen in lower case ----

  lemma LowerTwice(s: string)
    ensures Lower(Lower(s)) == Lower(s)
  {
  }

  lemma FoldAdd(p: Permissions, id: nat, arg: string)
    ensures Fold(AddAnyCase(p, id, arg)) == AddArgument(Fold(p), id, Lower(arg))
  {
    var had := if id in p.args then p.args[id] else [];
    assert LowerAll(had + [arg]) == LowerAll(had) + [Lower(arg)];
  }

  lemma FoldGrant(p: Permissions, t: Target, allow: bool)
    ensures Fold(Grant(p, t, allow)) == Grant(Fold(p), t, allow)
  {
  }

  lemma {:induction false} FoldSubs(p: Permissions, c: Command, subs: seq<Subcommand>, k: string, allow: bool)
    ensures Fold(GrantSubs(p, c, subs, k, allow)) == GrantSubs(Fold(p), c, subs, k, allow)
    decreases |subs|
  {
    hide Fold, Grant;
    if subs != [] {
      FoldGrant(p, Sub(c, subs[0]), allow);
      var q := if k in subs[0].categories then Grant(p, Sub(c, subs[0]), allow) else p;
      FoldSubs(q, c, subs[1..], k, allow);
    }
  }

  lemma {:induction false} FoldCategory(p: Permissions, commands: seq<Command>, k: string, allow: bool)
    ensures Fold(GrantCategory(p, commands, k, allow)) == GrantCategory(Fold(p), commands, k, allow)
    decreases |commands|
  {
    hide Fold, Grant, GrantSubs;
    if commands != [] {
      var c := commands[0];
      FoldGrant(p, Whole(c), allow);
      var q := if k in c.categories then Grant(p, Whole(c), allow) else p;
      FoldSubs(q, c, Subs(c), k, allow);
      FoldCategory(GrantSubs(q, c, Subs(c), k, allow), commands[1..], k, allow);
    }
  }

  lemma FoldApply(table: Table, p: Permissions, a: Action)
    requires !a.AllowArgument?
    ensures Fold(Apply(table, p, a)) == Apply(table, Fold(p), a)
  {
    match a {
      case SetAll(_) =>
      case Change(t, allow) => FoldGrant(p, t, allow);
      case ChangeCategory(k, allow) => FoldCategory(p, table.commands, k, allow);
    }
  }

  lemma LastBarAt(s: string, i: nat)
    requires i < |s| && s[i] == '|' && forall k :: i < k < |s| ==> s[k] != '|'
    ensures LastBar(s) == i
  {
    var j := LastBar(s);
    assert forall k :: j < k < |s| ==> s[k] == s[j + 1..][k - j - 1];
  }

  lemma LowerLastBar(op: string)
    ensures '|' in op <==> '|' in Lower(op)
    ensures '|' in op ==> LastBar(Lower(op)) == LastBar(op)
  {
    hide LastBar;
    var low := Lower(op);
    assert forall i :: 0 <= i < |op| ==> (op[i] == '|' <==> low[i] == '|');
    if '|' in op {
      var i := LastBar(op);
      assert low[i] == '|';
      forall k | i < k < |op|
        ensures low[k] != '|'
      {
        assert op[k] == op[i + 1..][k - i - 1];
      }
      LastBarAt(low, i);
    }
  }

  lemma LowerTail(s: string, n: nat)
    requires n <= |s|
    ensures Lower(s[n..]) == Lower(s)[n..]
  {
  }

  lemma LowerBar(op: string)
    ensures Lower(Suffix(op)) == Suffix(Lower(op))
  {
    LowerLastBar(op);
    hide LastBar, LowerChar;
    if '|' in op {
      LowerTail(op, LastBar(op) + 1);
    }
  }

  lemma ArgumentIsSuffix(table: Table, op: string)
    requires Parse(table, op).Ok? && Parse(table, op).value.AllowArgument?
    ensures Parse(table, op).value.arg == Suffix(op)
  {
    ParsedByAllow(table, op);
    AllowedArgument(table, op);
  }

  /** Every operation, seen in lower case, is the operation in lower case. */
  lemma AnyCaseFolds(table: Table, s: Selector, op: string)
    ensures SetAnyCase(table, s, op).Ok? <==> SetSelector(table, FoldSelector(s), Lower(op)).Ok?
    ensures SetAnyCase(table, s, op).Err? ==> SetAnyCase(table, s, op) == SetSelector(table, FoldSelector(s), Lower(op))
    ensures SetAnyCase(table, s, op).Ok? ==>
              FoldSelector(SetAnyCase(table, s, op).value) == SetSelector(table, FoldSelector(s), Lower(op)).value
  {
    if Parse(table, Lower(op)).Ok? {
      var a := Parse(table, Lower(op)).value;
      if a.AllowArgument? {
        ArgumentIsSuffix(table, Lower(op));
        LowerBar(op);
        hide Parse, Fold, Suffix;
        FoldAdd(s.permissions, a.command.id, Suffix(op));
      } else {
        hide Parse, Fold;
        FoldApply(table, s.permissions, a);
      }
    }
  }

  function RunAnyCase(table: Table, s: Selector, ops: seq<string>): Selector
    decreases |ops|
  {
    if ops == [] then s
    else
      var next := match SetAnyCase(table, s, ops[0])
                  case Ok(t) => t
                  case Err(_) => s;
      RunAnyCase(table, next, ops[1..])
  }

  lemma {:induction false} RunFolds(table: Table, s: Selector, ops: seq<string>)
    ensures FoldSelector(RunAnyCase(table, s, ops)) == Run(table, FoldSelector(s), LowerAll(ops))
    decreases |ops|
  {
    hide SetAnyCase, SetSelector, Fold;
    if ops != [] {
      AnyCaseFolds(table, s, ops[0]);
      var next := match SetAnyCase(table, s, ops[0])
                  case Ok(t) => t
                  case Err(_) => s;
      RunFolds(table, next, ops[1..]);
      assert LowerAll(ops)[1..] == LowerAll(ops[1..]);
    }
  }

  /** Every history of operations on the list of rules, in any case, leaves a selector that its log rebuilds. */
  lemma AnyCaseConsistent(table: Table, ops: seq<string>)
    requires WellFormed(table)
    ensures Consistent(table, FoldSelector(RunAnyCase(table, EMPTY, ops)))
  {
    assert FoldSelector(EMPTY) == EMPTY;
    EmptyConsistent(table);
    RunFolds(table, EMPTY, ops);
    RunConsistent(table, EMPTY, LowerAll(ops));
  }

  // ---- Selectors already in lower case ----

  /** All first arguments are in lower case. */
  ghost predicate LowerArguments(p: Permissions) {
    forall id, arg :: id in p.args && arg in p.args[id] ==> Lower(arg) == arg
  }

  lemma LowerIsFolded(p: Permissions)
    ensures LowerArguments(p) <==> Fold(p) == p
  {
    if LowerArguments(p) {
      assert forall id :: id in p.args ==> LowerAll(p.args[id]) == p.args[id];
    } else {
      var id, arg :| id in p.args && arg in p.args[id] && Lower(arg) != arg;
      var i :| 0 <= i < |p.args[id]| && p.args[id][i] == arg;
      assert LowerAll(p.args[id])[i] != p.args[id][i];
    }
  }

  /** The same places hold as in lower case exactly when everything is in lower case. */
  lemma SameAsFolded(p: Permissions)
    ensures Same(p, Fold(p)) <==> LowerArguments(p)
  {
    if LowerArguments(p) {
      LowerIsFolded(p);
    } else {
      var id, arg :| id in p.args && arg in p.args[id] && Lower(arg) != arg;
      if arg in LowerAll(p.args[id]) {
        var i :| 0 <= i < |p.args[id]| && LowerAll(p.args[id])[i] == arg;
        LowerTwice(p.args[id][i]);
      }
      assert Holds(p, Argument(id, arg)) && !Holds(Fold(p), Argument(id, arg));
    }
  }

  lemma LowerStays(table: Table, s: Selector, op: string)
    requires Fold(s.permissions) == s.permissions && Lower(op) == op
    ensures SetAnyCase(table, s, op) == SetSelector(table, s, op)
    ensures var r := SetSelector(table, s, op);
            r.Ok? ==> Fold(r.value.permissions) == r.value.permissions
  {
    AnyCaseFolds(table, s, op);
    if Parse(table, op).Ok? && Parse(table, op).value.AllowArgument? {
      ArgumentIsSuffix(table, op);
      LowerBar(op);
      var a := Parse(table, op).value;
      var had := if a.command.id in s.permissions.args then s.permissions.args[a.command.id] else [];
      assert LowerAll(had) == had;
    }
  }

  /** On lower case a run is the run in lower case. */
  lemma {:induction false} LowerRun(table: Table, s: Selector, ops: seq<string>)
    requires Fold(s.permissions) == s.permissions && LowerAll(ops) == ops
    ensures RunAnyCase(table, s, ops) == Run(table, s, ops)
    ensures Fold(Run(table, s, ops).permissions) == Run(table, s, ops).permissions
    decreases |ops|
  {
    hide SetAnyCase, SetSelector, Fold;
    if ops != [] {
      assert Lower(ops[0]) == LowerAll(ops)[0];
      LowerStays(table, s, ops[0]);
      var next := match SetSelector(table, s, ops[0])
                  case Ok(t) => t
                  case Err(_) => s;
      assert LowerAll(ops[1..]) == LowerAll(ops)[1..];
      LowerRun(table, next, ops[1..]);
    }
  }

  // ---- What every selector keeps ----

  /** The log is in lower case and rebuilds the permissions as the permission test sees them. */
  ghost predicate Sound(table: Table, s: Selector) {
    LowerAll(s.rules) == s.rules && Consistent(table, FoldSelector(s))
  }

  lemma {:induction false} RemoveLower(rules: seq<string>, name: string)
    requires LowerAll(rules) == rules
    ensures LowerAll(RemoveOverruled(rules, name)) == RemoveOverruled(rules, name)
    decreases |rules|
  {
    if rules != [] {
      assert LowerAll(rules[1..]) == LowerAll(rules)[1..];
      RemoveLower(rules[1..], name);
      assert Lower(rules[0]) == LowerAll(rules)[0];
    }
  }

  lemma SetAnyCaseSound(table: Table, s: Selector, op: string)
    requires WellFormed(table) && Sound(table, s) && SetAnyCase(table, s, op).Ok?
    ensures Sound(table, SetAnyCase(table, s, op).value)
  {
    var a := Parse(table, Lower(op)).value;
    AnyCaseFolds(table, s, op);
    SetSelectorConsistent(table, FoldSelector(s), Lower(op));
    if !a.SetAll? {
      RecordedText(table, Lower(op));
      hide Parse, Consistent, Fold, ApplyAnyCase;
      LowerTwice(op);
      var kept := RemoveOverruled(s.rules, RuleName(Lower(op), a));
      RemoveLower(s.rules, RuleName(Lower(op), a));
      assert LowerAll(kept + [Lower(op)]) == LowerAll(kept) + [Lower(op)];
    }
  }

  lemma EmptySound(table: Table)
    ensures Sound(table, EMPTY)
  {
    assert FoldSelector(EMPTY) == EMPTY;
    EmptyConsistent(table);
  }
}
