/** Help text for a node of the command tree addressed by a name path. */
module Help {
  import opened Wrappers
  import opened Seqs
  import opened Schema
  import opened Parser

  function ArgTypeLabel(t: ArgType): string
  {
    match t
    case Flag => "flag"
    case Value => "value"
  }

  /** The help line of one argument definition. */
  function ArgLine(a: ArgDef): string
  {
    "  -" + a.short + ", --" + a.long + ": " + a.description + " (" + ArgTypeLabel(a.argType) + ")\n"
  }

  /** The help line of one child command. */
  function SubcommandLine(s: CommandDef): string
  {
    "  " + s.name + ": " + s.description + "\n"
  }

  /** One help line per argument definition, in definition order. */
  function ArgLines(args: seq<ArgDef>): seq<string>
  {
    seq(|args|, k requires 0 <= k < |args| => ArgLine(args[k]))
  }

  /** One help line per child command, in definition order. */
  function SubcommandLines(subs: seq<CommandDef>): seq<string>
  {
    seq(|subs|, k requires 0 <= k < |subs| => SubcommandLine(subs[k]))
  }

  const UNKNOWN_COMMAND := "Unknown command: "

  /** The header the help text of a resolved node starts with. */
  function Header(c: CommandDef): string
  {
    "Command: " + c.name + "\n" + c.description + "\n"
  }

  /** The text `get_help` produces for `path`: the unknown-command message when the path does not
      resolve, otherwise the node's header, its argument lines and its child lines, each in
      definition order. */
  function HelpText(root: CommandDef, path: seq<string>): (text: string)
    ensures HasPrefix(text, UNKNOWN_COMMAND) <==> GetCommandFromPath(root, path).None?
    ensures GetCommandFromPath(root, path).Some? ==> HasPrefix(text, "Command: " + path[|path| - 1] + "\n")
  {
    match GetCommandFromPath(root, path)
    case None => UNKNOWN_COMMAND + Join(path, " ")
    case Some(c) =>
      var text := Header(c) + "Arguments:\n" + Concat(ArgLines(c.args))
                  + "\nSubcommands:\n" + Concat(SubcommandLines(c.subcommands));
      assert text[..|"Command: " + c.name + "\n"|] == "Command: " + c.name + "\n";
      assert text[0] == 'C' != UNKNOWN_COMMAND[0];
      text
  }

  /** A loop of `get_help`: each formatted line is pushed onto the text in turn. */
  method PushLines(text: string, lines: seq<string>) returns (out: string)
    ensures out == text + Concat(lines)
  {
    out := text;
    for k := 0 to |lines|
      invariant out == text + Concat(lines[..k])
    {
      ConcatStep(lines, k);
      out := out + lines[k];
    }
    assert lines[..|lines|] == lines;
  }

  /** `get_help`: never fails; the unknown-command message for a path that does not resolve,
      otherwise the node's header followed by its argument lines and its child lines. */
  method GetHelp(root: CommandDef, path: seq<string>) returns (text: string)
    ensures text == HelpText(root, path)
  {
    var found := GetCommandFromPath(root, path);
    if found.None? {
      return UNKNOWN_COMMAND + Join(path, " ");
    }
    var command := found.value;
    text := Header(command) + "Arguments:\n";
    text := PushLines(text, ArgLines(command.args));
    text := text + "\nSubcommands:\n";
    text := PushLines(text, SubcommandLines(command.subcommands));
  }

  /** The argument lines appear in definition order: the line of `args[k]` comes right after those
      of the definitions before it and right before those after it. */
  lemma ArgLinesSplit(args: seq<ArgDef>, k: nat)
    requires k < |args|
    ensures Concat(ArgLines(args)) == Concat(ArgLines(args[..k])) + ArgLine(args[k]) + Concat(ArgLines(args[k + 1..]))
  {
    var lines := ArgLines(args);
    assert lines == ArgLines(args[..k]) + [ArgLine(args[k])] + ArgLines(args[k + 1..]);
    ConcatAppend(ArgLines(args[..k]) + [ArgLine(args[k])], ArgLines(args[k + 1..]));
    ConcatAppend(ArgLines(args[..k]), [ArgLine(args[k])]);
    assert Concat([ArgLine(args[k])]) == ArgLine(args[k]) by {
      assert [ArgLine(args[k])][..0] == [];
    }
  }

  /** The help shown for any parse error of any argument list describes the node the parse stopped
      at, never the unknown-command message. */
  lemma HelpForParseError(root: CommandDef, argv: seq<string>)
    requires ParseArgs(root, argv).Err?
    ensures var path := ParseArgs(root, argv).error.path;
      && |path| > 0
      && !HasPrefix(HelpText(root, path), UNKNOWN_COMMAND)
      && HasPrefix(HelpText(root, path), "Command: " + path[|path| - 1] + "\n")
  {
    ParseArgsAccounts(root, argv);
    HelpWhereStopped(root, ParseArgs(root, argv));
  }

  /** The help for the path of any result that stops at a node of the tree describes that node. */
  lemma HelpWhereStopped(root: CommandDef, r: ParseResult)
    requires StopsAtNode(root, r)
    ensures var path := ResultPath(r);
      && |path| > 0
      && !HasPrefix(HelpText(root, path), UNKNOWN_COMMAND)
      && HasPrefix(HelpText(root, path), "Command: " + path[|path| - 1] + "\n")
  {
  }
}
