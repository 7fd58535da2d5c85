/** The command definition tree: nodes with a name, a description, argument definitions and child
    nodes, built with a fluent builder and searched with first-match lookups. */
module Schema {
  import opened Wrappers
  import opened Seqs

  datatype ArgType = Flag | Value

  datatype ArgDef = ArgDef(short: string, long: string, description: string, argType: ArgType)

  datatype CommandDef = CommandDef(
    name: string,
    description: string,
    args: seq<ArgDef>,
    subcommands: seq<CommandDef>)

  /** The closure `find_arg` searches with: the long or the short name matches. */
  function NamesArg(name: string): ArgDef -> bool
  {
    (d: ArgDef) => d.long == name || d.short == name
  }

  /** The closure `find_subcommand` searches with. */
  function HasName(name: string): CommandDef -> bool
  {
    (s: CommandDef) => s.name == name
  }

  /** `CommandDef::new`: a node with no arguments and no children. */
  function New(name: string, description: string): (c: CommandDef)
    ensures c.name == name && c.description == description
    ensures forall n :: FindArg(c, n).None? && FindSubcommand(c, n).None?
  {
    CommandDef(name, description, [], [])
  }

  /** `CommandDef::add_arg`: the definition goes after all earlier ones; nothing else changes. */
  function AddArg(c: CommandDef, short: string, long: string, argType: ArgType, description: string): (r: CommandDef)
    ensures r.name == c.name && r.description == c.description && r.subcommands == c.subcommands
    ensures r.args == c.args + [ArgDef(short, long, description, argType)]
  {
    c.(args := c.args + [ArgDef(short, long, description, argType)])
  }

  /** `CommandDef::add_subcommand`: the child goes after all earlier ones; nothing else changes. */
  function AddSubcommand(c: CommandDef, sub: CommandDef): (r: CommandDef)
    ensures r.name == c.name && r.description == c.description && r.args == c.args
    ensures r.subcommands == c.subcommands + [sub]
  {
    c.(subcommands := c.subcommands + [sub])
  }

  /** `find_arg`: the first definition whose long or short name is `name`. */
  function FindArg(c: CommandDef, name: string): (r: Option<ArgDef>)
    ensures r.Some? ==> r.value in c.args && (r.value.long == name || r.value.short == name)
    ensures r.None? <==> forall d :: d in c.args ==> d.long != name && d.short != name
  {
    match FindFirst(c.args, NamesArg(name))
    case None => None
    case Some(k) => Some(c.args[k])
  }

  /** `find_subcommand`: the first child named `name`. */
  function FindSubcommand(c: CommandDef, name: string): (r: Option<CommandDef>)
    ensures r.Some? ==> r.value in c.subcommands && r.value.name == name
    ensures r.None? <==> forall s :: s in c.subcommands ==> s.name != name
  {
    match FindFirst(c.subcommands, HasName(name))
    case None => None
    case Some(k) => Some(c.subcommands[k])
  }

  /** When several definitions share a name, `find_arg` returns the earliest one. */
  lemma FindArgFirst(c: CommandDef, name: string)
    ensures FindArg(c, name).Some? ==>
      exists k :: 0 <= k < |c.args| && FindArg(c, name).value == c.args[k]
        && (forall j :: 0 <= j < k ==> c.args[j].long != name && c.args[j].short != name)
  {
  }

  /** When several children share a name, `find_subcommand` returns the earliest one. */
  lemma FindSubcommandFirst(c: CommandDef, name: string)
    ensures FindSubcommand(c, name).Some? ==>
      exists k :: 0 <= k < |c.subcommands| && FindSubcommand(c, name).value == c.subcommands[k]
        && (forall j :: 0 <= j < k ==> c.subcommands[j].name != name)
  {
  }

  /** Adding an argument never shadows an earlier one with the same name: lookups that found a
      definition before find the same one after, and only names of the new definition that were
      unknown now find it. */
  lemma AddArgLookup(c: CommandDef, short: string, long: string, argType: ArgType, description: string, name: string)
    ensures FindArg(AddArg(c, short, long, argType, description), name) ==
      if FindArg(c, name).Some? then FindArg(c, name)
      else if long == name || short == name then Some(ArgDef(short, long, description, argType))
      else None
  {
    FindFirstAppend(c.args, ArgDef(short, long, description, argType), NamesArg(name));
  }

  /** Adding a child never shadows an earlier child with the same name. */
  lemma AddSubcommandLookup(c: CommandDef, sub: CommandDef, name: string)
    ensures FindSubcommand(AddSubcommand(c, sub), name) ==
      if FindSubcommand(c, name).Some? then FindSubcommand(c, name)
      else if sub.name == name then Some(sub)
      else None
  {
    FindFirstAppend(c.subcommands, sub, HasName(name));
  }

  /** `get_command_from_path`. A one-element path must be the node's own name; a longer path looks
      `path[1]` up among the children without comparing `path[0]` with the node's name. */
  function GetCommandFromPath(c: CommandDef, path: seq<string>): (r: Option<CommandDef>)
    ensures r.Some? ==> |path| > 0 && r.value.name == path[|path| - 1]
    ensures |path| == 0 ==> r.None?
    ensures |path| == 1 ==> (r.Some? <==> c.name == path[0])
    decreases |path|
  {
    if |path| == 0 then None
    else if |path| == 1 && c.name == path[0] then Some(c)
    else if |path| > 1 then
      match FindSubcommand(c, path[1])
      case Some(sub) => GetCommandFromPath(sub, path[1..])
      case None => None
    else None
  }

  /** The consistent reading of a name path: every element, the first included, must name the node
      reached so far. */
  function Resolve(c: CommandDef, path: seq<string>): Option<CommandDef>
    decreases |path|
  {
    if |path| == 0 || path[0] != c.name then None
    else if |path| == 1 then Some(c)
    else match FindSubcommand(c, path[1])
      case Some(sub) => Resolve(sub, path[1..])
      case None => None
  }

  /** Whenever the path starts with the node's own name, `get_command_from_path` agrees with the
      consistent reading. */
  lemma {:induction false} GetCommandFromPathAgrees(c: CommandDef, path: seq<string>)
    requires |path| > 0 && path[0] == c.name
    ensures GetCommandFromPath(c, path) == Resolve(c, path)
    decreases |path|
  {
    if |path| > 1 {
      match FindSubcommand(c, path[1])
      case Some(sub) =>
        GetCommandFromPathAgrees(sub, path[1..]);
      case None =>
    }
  }

  /** A path longer than one element resolves the same whatever its first element is. */
  lemma GetCommandFromPathIgnoresHead(c: CommandDef, x: string, y: string, rest: seq<string>)
    requires |rest| > 0
    ensures GetCommandFromPath(c, [x] + rest) == GetCommandFromPath(c, [y] + rest)
  {
    assert ([x] + rest)[1..] == rest == ([y] + rest)[1..];
  }

  /** A path that resolves to a node extends, by a child's name, to a path that resolves to that
      child. */
  lemma {:induction false} GetCommandFromPathExtend(root: CommandDef, path: seq<string>, node: CommandDef, name: string)
    requires GetCommandFromPath(root, path) == Some(node)
    requires FindSubcommand(node, name).Some?
    ensures GetCommandFromPath(root, path + [name]) == FindSubcommand(node, name)
    decreases |path|
  {
    var longer := path + [name];
    if |path| == 1 {
      assert longer[1] == name && longer[1..] == [name];
    } else {
      var sub := FindSubcommand(root, path[1]).value;
      assert longer[1] == path[1];
      assert longer[1..] == path[1..] + [name];
      GetCommandFromPathExtend(sub, path[1..], node, name);
    }
  }
}
