/**
  The command permissions of an ACL selector.

  A selector keeps a bitmap of allowed command ids, the allowed first arguments of
  otherwise blocked commands, and a compacted log of the rules that were applied.
  The log loses rules from its middle; that it still rebuilds the same permissions is
  proved in AclCompaction.

  Here operations are in lower case; AclCase reduces operations in any case to these.
*/
module AclRules {
  import opened Wrappers
  import opened SdsText

  datatype Error = NotFound | SubcommandArgument | Syntax

  datatype Result<+T> = Ok(value: T) | Err(error: Error)

  // ---- The command table ----

  datatype Subcommand = Subcommand(name: string, id: nat, categories: set<string>)

  datatype Command = Command(name: string, id: nat, categories: set<string>, subcommands: Option<seq<Subcommand>>)

  datatype Table = Table(commands: seq<Command>, categories: set<string>)

  const COMMAND_BITS: nat := 1024

  /** Set only by +@all: commands loaded later are allowed too. */
  const FUTURE_COMMANDS: nat := COMMAND_BITS - 1

  function Subs(c: Command): seq<Subcommand> {
    match c.subcommands
    case None => []
    case Some(subs) => subs
  }

  function IdsOf(subs: seq<Subcommand>): set<nat> {
    set s | s in subs :: s.id
  }

  function SubIds(c: Command): set<nat> {
    IdsOf(Subs(c))
  }

  ghost predicate IsSubId(table: Table, id: nat) {
    exists c :: c in table.commands && id in SubIds(c)
  }

  /** The names in the table are in lower case. */
  ghost predicate LowerNames(table: Table) {
    && (forall c :: c in table.commands ==> Lower(c.name) == c.name)
    && (forall c, s :: c in table.commands && s in Subs(c) ==> Lower(s.name) == s.name)
    && (forall k :: k in table.categories ==> Lower(k) == k)
  }

  /** Names have no bar, ids stay below the reserved bit, and a command never shares its id with a subcommand. */
  ghost predicate WellFormed(table: Table) {
    && (forall c :: c in table.commands ==> '|' !in c.name && c.id < FUTURE_COMMANDS && !IsSubId(table, c.id))
    && (forall c, s :: c in table.commands && s in Subs(c) ==> '|' !in s.name && s.id < FUTURE_COMMANDS)
    && (forall k :: k in table.categories ==> '|' !in k)
  }

  datatype Target = Whole(command: Command) | Sub(parent: Command, sub: Subcommand)

  function FullName(t: Target): string {
    match t
    case Whole(c) => c.name
    case Sub(c, s) => c.name + "|" + s.name
  }

  function TargetId(t: Target): nat {
    match t
    case Whole(c) => c.id
    case Sub(_, s) => s.id
  }

  /** The ids whose permission changes with the target: a container takes its subcommands along. */
  function TargetIds(t: Target): set<nat> {
    match t
    case Whole(c) => {c.id} + SubIds(c)
    case Sub(_, s) => {s.id}
  }

  function FindCommand(commands: seq<Command>, name: string): (r: Option<Command>)
    ensures r.Some? ==> r.value in commands && r.value.name == name
  {
    if commands == [] then None
    else if commands[0].name == name then Some(commands[0])
    else FindCommand(commands[1..], name)
  }

  function FindSub(subs: seq<Subcommand>, name: string): (r: Option<Subcommand>)
    ensures r.Some? ==> r.value in subs && r.value.name == name
  {
    if subs == [] then None
    else if subs[0].name == name then Some(subs[0])
    else FindSub(subs[1..], name)
  }

  /** The position of the first bar, or the length. */
  function FirstBar(s: string): (i: nat)
    ensures i <= |s|
    ensures '|' !in s[..i]
    ensures i < |s| ==> s[i] == '|'
  {
    if s == [] || s[0] == '|' then 0 else 1 + FirstBar(s[1..])
  }

  /** The position of the last bar. */
  function LastBar(s: string): (i: nat)
    requires '|' in s
    ensures i < |s| && s[i] == '|'
    ensures '|' !in s[i + 1..]
  {
    if s[|s| - 1] == '|' then |s| - 1
    else
      assert s == s[..|s| - 1] + [s[|s| - 1]];
      LastBar(s[..|s| - 1])
  }

  /** A name is a command, or a container and one of its subcommands joined by a bar. */
  function Lookup(table: Table, s: string): (r: Option<Target>)
    ensures r.Some? ==> FullName(r.value) == s
  {
    var bar := FirstBar(s);
    if bar == |s| then
      match FindCommand(table.commands, s)
      case None => None
      case Some(c) => Some(Whole(c))
    else if '|' in s[bar + 1..] then None
    else
      match FindCommand(table.commands, s[..bar])
      case None => None
      case Some(c) =>
        if c.subcommands.None? then None
        else
          match FindSub(c.subcommands.value, s[bar + 1..])
          case None => None
          case Some(sub) =>
            assert s == s[..bar] + "|" + s[bar + 1..];
            Some(Sub(c, sub))
  }

  // ---- Operations ----

  datatype Action =
    | SetAll(value: bool)
    | Change(target: Target, allow: bool)
    | AllowArgument(command: Command, arg: string)
    | ChangeCategory(category: string, allow: bool)

  predicate IsCategoryOp(op: string) {
    |op| >= 2 && op[1] == '@'
  }

  function ParseAllow(table: Table, op: string): (r: Result<Action>)
    requires |op| >= 1 && op[0] == '+'
  {
    if '|' !in op then
      match Lookup(table, op[1..])
      case None => Err(NotFound)
      case Some(t) => Ok(Change(t, true))
    else
      var bar := LastBar(op);
      var copy, sub := op[1..bar], op[bar + 1..];
      match Lookup(table, copy)
      case None => Err(NotFound)
      case Some(Sub(_, _)) => Err(SubcommandArgument)
      case Some(Whole(c)) =>
        if sub == "" then Err(Syntax)
        else if c.subcommands.Some? then
          match Lookup(table, op[1..])
          case None => Err(NotFound)
          case Some(t) => Ok(Change(t, true))
        else Ok(AllowArgument(c, sub))
  }

  function Parse(table: Table, op: string): Result<Action> {
    if op == "allcommands" || op == "+@all" then Ok(SetAll(true))
    else if op == "nocommands" || op == "-@all" then Ok(SetAll(false))
    else if |op| >= 1 && op[0] == '+' && !IsCategoryOp(op) then ParseAllow(table, op)
    else if |op| >= 1 && op[0] == '-' && !IsCategoryOp(op) then
      match Lookup(table, op[1..])
      case None => Err(NotFound)
      case Some(t) => Ok(Change(t, false))
    else if |op| >= 1 && (op[0] == '+' || op[0] == '-') && IsCategoryOp(op) then
      if op[2..] in table.categories then Ok(ChangeCategory(op[2..], op[0] == '+')) else Err(NotFound)
    else Err(Syntax)
  }

  // ---- Permissions ----

  /** The set bits of the bitmap, and the first arguments allowed per command id. */
  datatype Permissions = Permissions(bits: set<nat>, args: map<nat, seq<string>>)

  function BitsBelow(n: nat): (bits: set<nat>)
    ensures forall i: nat :: i in bits <==> i < n
  {
    if n == 0 then {} else BitsBelow(n - 1) + {n - 1}
  }

  const NOTHING := Permissions({}, map[])

  function Allowing(bits: set<nat>, ids: set<nat>, allow: bool): set<nat> {
    if allow then bits + ids else bits - ids
  }

  function Grant(p: Permissions, t: Target, allow: bool): Permissions {
    Permissions(Allowing(p.bits, TargetIds(t), allow), p.args - {TargetId(t)})
  }

  function AddArgument(p: Permissions, id: nat, arg: string): Permissions {
    if id in p.args && arg in p.args[id] then p
    else p.(args := p.args[id := (if id in p.args then p.args[id] else []) + [arg]])
  }

  function GrantSubs(p: Permissions, c: Command, subs: seq<Subcommand>, category: string, allow: bool): Permissions
    decreases |subs|
  {
    if subs == [] then p
    else
      var q := if category in subs[0].categories then Grant(p, Sub(c, subs[0]), allow) else p;
      GrantSubs(q, c, subs[1..], category, allow)
  }

  function GrantCategory(p: Permissions, commands: seq<Command>, category: string, allow: bool): Permissions
    decreases |commands|
  {
    if commands == [] then p
    else
      var c := commands[0];
      var q := if category in c.categories then Grant(p, Whole(c), allow) else p;
      GrantCategory(GrantSubs(q, c, Subs(c), category, allow), commands[1..], category, allow)
  }

  function Apply(table: Table, p: Permissions, a: Action): Permissions {
    match a
    case SetAll(v) => Permissions(if v then BitsBelow(COMMAND_BITS) else {}, map[])
    case Change(t, allow) => Grant(p, t, allow)
    case AllowArgument(c, arg) => AddArgument(p, c.id, arg)
    case ChangeCategory(k, allow) => GrantCategory(p, table.commands, k, allow)
  }

  // ---- The rule log ----

  /** A retained rule is overruled by a new one for the same name, or for the command it belongs to. */
  predicate Overrules(name: string, rule: string) {
    |rule| >= 1 && (rule[1..] == name || name + "|" <= rule[1..])
  }

  function RemoveOverruled(rules: seq<string>, name: string): seq<string> {
    if rules == [] then []
    else
      var rest := RemoveOverruled(rules[1..], name);
      if Overrules(name, rules[0]) then rest else [rules[0]] + rest
  }

  /** The text recorded for an operation. */
  function RuleName(op: string, a: Action): string
    requires !a.SetAll? ==> |op| >= 1
  {
    match a
    case SetAll(_) => ""
    case Change(t, _) => FullName(t)
    case AllowArgument(_, _) => op[1..]
    case ChangeCategory(_, _) => op[1..]
  }

  datatype Selector = Selector(permissions: Permissions, rules: seq<string>)

  const EMPTY := Selector(NOTHING, [])

  function Sign(allow: bool): string {
    if allow then "+" else "-"
  }

  function Allows(a: Action): bool {
    match a
    case SetAll(v) => v
    case Change(_, allow) => allow
    case AllowArgument(_, _) => true
    case ChangeCategory(_, allow) => allow
  }

  /** One operation: @all clears the log, any other is appended after the rules it overrules are dropped. */
  function SetSelector(table: Table, s: Selector, op: string): Result<Selector> {
    match Parse(table, op)
    case Err(e) => Err(e)
    case Ok(a) =>
      var p := Apply(table, s.permissions, a);
      if a.SetAll? then Ok(Selector(p, []))
      else
        var name := RuleName(op, a);
        Ok(Selector(p, RemoveOverruled(s.rules, name) + [Sign(Allows(a)) + name]))
  }
}
