/** Whole-pipeline behaviour on a small command tree: `root` with a value argument
    `-n`/`--name`, a flag `-f`/`--flag`, and one child `child` with no arguments. */
module Scenarios {
  import opened Wrappers
  import opened Seqs
  import opened Tokenizer
  import opened Schema
  import opened Parser
  import opened Help

  function Child(): CommandDef
  {
    New("child", "a child command")
  }

  function Root(): CommandDef
  {
    AddSubcommand(
      AddArg(AddArg(New("root", "the root command"), "n", "name", ArgType.Value, "a name"),
             "f", "flag", ArgType.Flag, "a switch"),
      Child())
  }

  lemma RootLookups()
    ensures FindArg(Root(), "name") == Some(ArgDef("n", "name", "a name", ArgType.Value))
    ensures FindArg(Root(), "n") == Some(ArgDef("n", "name", "a name", ArgType.Value))
    ensures FindArg(Root(), "flag") == Some(ArgDef("f", "flag", "a switch", ArgType.Flag))
    ensures FindSubcommand(Root(), "child") == Some(Child())
    ensures FindSubcommand(Root(), "tail").None?
    ensures FindArg(Child(), "bogus").None?
  {
    var root := Root();
    AddArgLookup(New("root", "the root command"), "n", "name", ArgType.Value, "a name", "name");
    AddArgLookup(New("root", "the root command"), "n", "name", ArgType.Value, "a name", "n");
    var withName := AddArg(New("root", "the root command"), "n", "name", ArgType.Value, "a name");
    AddArgLookup(withName, "f", "flag", ArgType.Flag, "a switch", "name");
    AddArgLookup(withName, "f", "flag", ArgType.Flag, "a switch", "n");
    AddArgLookup(withName, "f", "flag", ArgType.Flag, "a switch", "flag");
    AddSubcommandLookup(AddArg(withName, "f", "flag", ArgType.Flag, "a switch"), Child(), "child");
    AddSubcommandLookup(AddArg(withName, "f", "flag", ArgType.Flag, "a switch"), Child(), "tail");
  }

  /** A non-empty argument that does not start with `-` is a word. */
  lemma ClassifyPlain(w: string)
    requires |w| > 0 && w[0] != '-'
    ensures Classify(w) == Word(w)
  {
    assert w[..1] == [w[0]];
    ClassifyRenderWord(w);
  }

  /** Without a `--` anywhere, every argument is classified on its own. */
  lemma TokenizedPlain(argv: seq<string>)
    requires "--" !in argv
    ensures forall k :: 0 <= k < |argv| ==> Tokenized(argv)[k] == Classify(argv[k])
  {
    forall k | 0 <= k < |argv|
      ensures "--" !in argv[..k]
    {
      assert forall x :: x in argv[..k] ==> x in argv;
    }
  }

  /** What the scenarios below need of a node: the shape of `Root()` as its lookups see it. Each
      scenario is proved over any such node and then applied to `Root()`, only so that the literal
      tree stays out of the solver's context. */
  ghost predicate RootShaped(def: CommandDef)
  {
    && def.name == "root"
    && FindArg(def, "name") == Some(ArgDef("n", "name", "a name", ArgType.Value))
    && FindArg(def, "flag") == Some(ArgDef("f", "flag", "a switch", ArgType.Flag))
    && FindSubcommand(def, "child") == Some(Child())
    && FindSubcommand(def, "tail").None?
    && FindArg(Child(), "bogus").None?
  }

  lemma RootIsRootShaped()
    ensures RootShaped(Root())
  {
    RootLookups();
  }

  /** A value option takes the next word; the word after it is a positional. */
  lemma ValueThenPositional()
    ensures ParseArgs(Root(), ["root", "--name", "X", "tail"])
            == Ok(Command(["root"], map["name" := Arg.Value("X")], ["tail"]))
  {
    var argv := ["root", "--name", "X", "tail"];
    TokenizedPlain(argv);
    ClassifyPlain("root");
    ClassifyPlain("X");
    ClassifyPlain("tail");
    assert "--" + "name" == "--name";
    ClassifyRenderLong("name");
    assert Tokenized(argv) == [Word("root"), Long("name"), Word("X"), Word("tail")];
    RootIsRootShaped();
    ValueThenPositionalAt(Root());
  }

  lemma ValueThenPositionalAt(def: CommandDef)
    requires RootShaped(def)
    ensures Parse(def, [Word("root"), Long("name"), Word("X"), Word("tail")], [])
            == Ok(Command(["root"], map["name" := Arg.Value("X")], ["tail"]))
  {
    assert [] + [def.name] == ["root"];
    ParseValueOption(def, Word("root"), Long("name"), Word("X"), "X", "tail", [], []);
  }

  /** After `--`, a string that looks like an option is a positional word. */
  lemma EndOfOptionsLiteral()
    ensures ParseArgs(Root(), ["root", "--", "--not-a-flag", "x"])
            == Ok(Command(["root"], map[], ["--not-a-flag", "x"]))
  {
    ParseArgsEndOfOptions(Root(), "root", ["--not-a-flag", "x"]);
    assert ["root", "--"] + ["--not-a-flag", "x"] == ["root", "--", "--not-a-flag", "x"];
  }

  /** After a flag, a child's name no longer dispatches and is taken as a positional. */
  lemma LatchAfterFlag()
    ensures ParseArgs(Root(), ["root", "--flag", "child"])
            == Ok(Command(["root"], map["flag" := Arg.Flag], ["child"]))
  {
    var argv := ["root", "--flag", "child"];
    TokenizedPlain(argv);
    ClassifyPlain("root");
    ClassifyPlain("child");
    assert "--" + "flag" == "--flag";
    ClassifyRenderLong("flag");
    assert Tokenized(argv) == [Word("root"), Long("flag"), Word("child")];
    RootIsRootShaped();
    LatchAfterFlagAt(Root());
  }

  lemma LatchAfterFlagAt(def: CommandDef)
    requires RootShaped(def)
    ensures Parse(def, [Word("root"), Long("flag"), Word("child")], [])
            == Ok(Command(["root"], map["flag" := Arg.Flag], ["child"]))
  {
    var tokens := [Word("root"), Long("flag"), Word("child")];
    var args := map["flag" := Arg.Flag];
    assert [] + [def.name] == ["root"];
    assert map[]["flag" := Arg.Flag] == args;
    assert [] + ["child"] == ["child"];
    LoopFlagStep(def, tokens, ["root"], 1, map[], [], |def.subcommands| > 0, ArgDef("f", "flag", "a switch", ArgType.Flag));
    LoopWordStep(def, tokens, ["root"], 2, args, [], false);
    LoopEndStep(def, tokens, ["root"], 3, args, ["child"], false, false);
  }

  /** An unknown option after a dispatch is reported with the child's path. */
  lemma UnknownArgInChild()
    ensures ParseArgs(Root(), ["root", "child", "--bogus"]) == Err(UnknownArg(["root", "child"], "bogus"))
  {
    var argv := ["root", "child", "--bogus"];
    TokenizedPlain(argv);
    ClassifyPlain("root");
    ClassifyPlain("child");
    assert "--" + "bogus" == "--bogus";
    ClassifyRenderLong("bogus");
    assert Tokenized(argv) == [Word("root"), Word("child"), Long("bogus")];
    RootIsRootShaped();
    UnknownArgInChildAt(Root());
  }

  lemma UnknownArgInChildAt(def: CommandDef)
    requires RootShaped(def)
    ensures Parse(def, [Word("root"), Word("child"), Long("bogus")], []) == Err(UnknownArg(["root", "child"], "bogus"))
  {
    var tokens := [Word("root"), Word("child"), Long("bogus")];
    ParseDispatch(def, tokens, []);
    assert tokens[1..] == [Word("child"), Long("bogus")];
    assert [] + [def.name] == ["root"];
    UnknownArgAtChild();
  }

  /** The child's own parse of `child --bogus`, below `root`. */
  lemma UnknownArgAtChild()
    ensures Parse(Child(), [Word("child"), Long("bogus")], ["root"]) == Err(UnknownArg(["root", "child"], "bogus"))
  {
    assert ["root"] + [Child().name] == ["root", "child"];
    assert [Word("child"), Long("bogus")] == [Word("child"), Long("bogus")] + [];
    RootLookups();
    ParseUnknownOption(Child(), Word("child"), Long("bogus"), [], ["root"]);
  }

  /** A value option at the end of the arguments has no value. */
  lemma MissingValueAtEnd()
    ensures ParseArgs(Root(), ["root", "--name"]) == Err(MissingArgValue(["root"], "name"))
  {
    var argv := ["root", "--name"];
    TokenizedPlain(argv);
    ClassifyPlain("root");
    assert "--" + "name" == "--name";
    ClassifyRenderLong("name");
    assert Tokenized(argv) == [Word("root"), Long("name")];
    RootIsRootShaped();
    MissingValueAtEndAt(Root());
  }

  lemma MissingValueAtEndAt(def: CommandDef)
    requires RootShaped(def)
    ensures Parse(def, [Word("root"), Long("name")], []) == Err(MissingArgValue(["root"], "name"))
  {
    assert [] + [def.name] == ["root"];
    ParseValueOption(def, Word("root"), Long("name"), Word(""), "", "", [], []);
  }

  /** `--` right after a value option is not taken as the end of the options: the option is
      reported as missing its value. */
  lemma EndOfOptionsNotAValue()
    ensures ParseArgs(Root(), ["root", "--name", "--", "x"]) == Err(MissingArgValue(["root"], "name"))
  {
    var argv := ["root", "--name", "--", "x"];
    assert "--" + "name" == "--name";
    OptionThenEndTokens(argv, "root", "name", "x");
    RootIsRootShaped();
    EndOfOptionsNotAValueAt(Root());
  }

  /** A word, a long option, `--` and a last argument tokenize one for one, the last as a word. */
  lemma OptionThenEndTokens(argv: seq<string>, a: string, n: string, x: string)
    requires argv == [a, "--" + n, "--", x]
    requires |a| > 0 && a[0] != '-' && n != "" && '=' !in n
    ensures Tokenized(argv) == [Word(a), Long(n), EndOfOptions, Word(x)]
  {
    var t := Tokenized(argv);
    assert a != "--" by {
      assert "--"[0] == '-';
    }
    assert t[0] == Word(a) by {
      ClassifyPlain(a);
    }
    assert t[1] == Long(n) by {
      assert argv[..1] == [a];
      ClassifyRenderLong(n);
    }
    assert t[2] == EndOfOptions && t[3] == Word(x) by {
      assert argv[..2] == [a, "--" + n];
      assert |"--" + n| > 2;
      EndOfOptionsLatch(argv, 2);
    }
  }

  lemma EndOfOptionsNotAValueAt(def: CommandDef)
    requires RootShaped(def)
    ensures Parse(def, [Word("root"), Long("name"), EndOfOptions, Word("x")], [])
            == Err(MissingArgValue(["root"], "name"))
  {
    assert [] + [def.name] == ["root"];
    assert [Word("root"), Long("name"), EndOfOptions, Word("x")]
        == [Word("root"), Long("name"), EndOfOptions] + [Word("x")];
    ParseValueOption(def, Word("root"), Long("name"), EndOfOptions, "", "", [Word("x")], []);
  }

  /** A flag given an inline value is refused. */
  lemma FlagWithValue()
    ensures ParseArgs(Root(), ["root", "--flag=1"]) == Err(UnexpectedArgValue(["root"], "flag"))
  {
    var argv := ["root", "--flag=1"];
    TokenizedPlain(argv);
    ClassifyPlain("root");
    assert "--" + "flag" + "=" + "1" == "--flag=1";
    ClassifyRenderLongWithValue("flag", "1");
    assert Tokenized(argv) == [Word("root"), LongWithValue("flag", "1")];
    RootIsRootShaped();
    FlagWithValueAt(Root());
  }

  lemma FlagWithValueAt(def: CommandDef)
    requires RootShaped(def)
    ensures Parse(def, [Word("root"), LongWithValue("flag", "1")], []) == Err(UnexpectedArgValue(["root"], "flag"))
  {
    assert [] + [def.name] == ["root"];
    assert [Word("root"), LongWithValue("flag", "1")] == [Word("root"), LongWithValue(Long("flag").name, "1")] + [];
    ParseFlagOption(def, Word("root"), Long("flag"), "1", "", [], []);
  }

  /** `help`, `-h` and `--help` request help for the root, although the root has a child and
      arguments. */
  lemma HelpForms()
    ensures ParseArgs(Root(), ["root", "help"]) == Err(HelpRequested(["root"]))
    ensures ParseArgs(Root(), ["root", "-h"]) == Err(HelpRequested(["root"]))
    ensures ParseArgs(Root(), ["root", "--help"]) == Err(HelpRequested(["root"]))
  {
    HelpFormsTokens();
    assert [] + [Root().name] == ["root"];
    ParseHelpRequested(Root(), [Word("root"), Word("help")], []);
    ParseHelpRequested(Root(), [Word("root"), Short("h")], []);
    ParseHelpRequested(Root(), [Word("root"), Long("help")], []);
  }

  lemma HelpFormsTokens()
    ensures Tokenized(["root", "help"]) == [Word("root"), Word("help")]
    ensures Tokenized(["root", "-h"]) == [Word("root"), Short("h")]
    ensures Tokenized(["root", "--help"]) == [Word("root"), Long("help")]
  {
    ClassifyPlain("root");
    ClassifyPlain("help");
    assert "-" + "h" == "-h";
    ClassifyRenderShort("h");
    assert "--" + "help" == "--help";
    ClassifyRenderLong("help");
    TokenizedPair("root", "help");
    TokenizedPair("root", "-h");
    TokenizedPair("root", "--help");
  }

  /** Two arguments, neither of them `--`, are classified on their own. */
  lemma TokenizedPair(a: string, b: string)
    requires a != "--" && b != "--"
    ensures Tokenized([a, b]) == [Classify(a), Classify(b)]
  {
    TokenizedPlain([a, b]);
  }

  /** Help for a path whose only name is not the root's is the unknown-command message. */
  lemma HelpUnknownRoot()
    ensures HelpText(Root(), ["other"]) == "Unknown command: other"
  {
    assert Root().name == "root";
    assert GetCommandFromPath(Root(), ["other"]).None?;
  }

  /** An unresolved longer path is reported joined by spaces. */
  lemma HelpUnknownChild()
    ensures HelpText(Root(), ["x", "tail"]) == "Unknown command: x tail"
  {
    RootIsRootShaped();
    HelpUnknownChildAt(Root());
  }

  lemma HelpUnknownChildAt(def: CommandDef)
    requires RootShaped(def)
    ensures HelpText(def, ["x", "tail"]) == "Unknown command: x tail"
  {
    assert ["x", "tail"][1..] == ["tail"];
    assert GetCommandFromPath(def, ["x", "tail"]).None?;
    assert Join(["x", "tail"], " ") == "x tail";
  }

  /** A longer path is looked up below the root whatever its first name. */
  lemma HelpIgnoresFirstName()
    ensures HasPrefix(HelpText(Root(), ["other", "child"]), "Command: child\n")
  {
    RootIsRootShaped();
    HelpIgnoresFirstNameAt(Root());
  }

  lemma HelpIgnoresFirstNameAt(def: CommandDef)
    requires RootShaped(def)
    ensures HasPrefix(HelpText(def, ["other", "child"]), "Command: child\n")
  {
    assert ["other", "child"][1..] == ["child"];
    assert GetCommandFromPath(def, ["other", "child"]) == Some(Child());
  }
}
