/** The recursive-descent parser: walks the token sequence against the command tree and yields
    either the matched command (path, named arguments, positionals) or the first parse error. */
module Parser {
  import opened Wrappers
  import opened Seqs
  import opened Tokenizer
  import opened Schema

  datatype Arg = Value(value: string) | Flag

  /** Every error carries the path of node names reached when parsing stopped. */
  datatype ParseError =
    | UnknownCommand(path: seq<string>, name: string)
    | UnknownArg(path: seq<string>, name: string)
    | MissingArgValue(path: seq<string>, name: string)
    | UnexpectedArgValue(path: seq<string>, name: string)
    | MissingValue(path: seq<string>, name: string)
    | HelpRequested(path: seq<string>)

  datatype Command = Command(path: seq<string>, args: map<string, Arg>, positional: seq<string>)
  {
    /** `Command::get_path`. */
    function GetPath(): (p: seq<string>)
      ensures p == path
    {
      path
    }

    /** `Command::get_arg`: the parsed argument stored under a canonical long name. */
    function GetArg(long: string): (r: Option<Arg>)
      ensures r.Some? <==> long in args
      ensures r.Some? ==> r.value == args[long]
    {
      if long in args then Some(args[long]) else None
    }

    /** `Command::get_positional_string`: the positionals joined by single spaces. */
    function GetPositionalString(): (s: string)
      ensures |positional| == 0 ==> s == ""
      ensures |positional| == 1 ==> s == positional[0]
      ensures |positional| > 1 ==> HasPrefix(s, positional[0] + " ")
    {
      Join(positional, " ")
    }
  }

  type ParseResult = Result<Command, ParseError>

  function ResultPath(r: ParseResult): seq<string>
  {
    match r
    case Ok(cmd) => cmd.path
    case Err(e) => e.path
  }

  /** The remaining iterations of the loop of `parse_intrnal` at node `def`, from cursor `i` with
      the accumulated arguments and positionals and the two latches. A subcommand dispatch
      continues in the child with the slice that starts at the child's name token. */
  function Loop(def: CommandDef, tokens: seq<Token>, path: seq<string>, i: nat,
                args: map<string, Arg>, positional: seq<string>,
                canBeSubcommand: bool, everythingIsPositional: bool): (r: ParseResult)
    requires 1 <= i
    ensures |path| <= |ResultPath(r)| && ResultPath(r)[..|path|] == path
    decreases |tokens|, |tokens| - i
  {
    if i >= |tokens| then Ok(Command(path, args, positional))
    else
      var tok := tokens[i];
      if everythingIsPositional then
        var positional' := if tok.Word? then positional + [tok.word] else positional;
        Loop(def, tokens, path, i + 1, args, positional', canBeSubcommand, true)
      else if tok.EndOfOptions? then
        Loop(def, tokens, path, i + 1, args, positional, canBeSubcommand, true)
      else if tok == Word("help") then
        Err(HelpRequested(path))
      else if canBeSubcommand && tok.Word? && FindSubcommand(def, tok.word).Some? then
        var child := FindSubcommand(def, tok.word).value;
        var path' := path + [child.name];
        var r := Loop(child, tokens[i..], path', 1, map[], [], |child.subcommands| > 0, false);
        assert ResultPath(r)[..|path|] == ResultPath(r)[..|path'|][..|path|];
        r
      else if tok.Short? || tok.Long? then
        if tok.name == "help" || tok.name == "h" then Err(HelpRequested(path))
        else match FindArg(def, tok.name)
          case None => Err(UnknownArg(path, tok.name))
          case Some(d) =>
            if d.argType == ArgType.Flag then
              Loop(def, tokens, path, i + 1, args[d.long := Arg.Flag], positional, false, false)
            else if i + 1 >= |tokens| || !tokens[i + 1].Word? then
              Err(MissingArgValue(path, tok.name))
            else
              Loop(def, tokens, path, i + 2, args[d.long := Arg.Value(tokens[i + 1].word)], positional, false, false)
      else if tok.LongWithValue? then
        match FindArg(def, tok.name)
        case None => Err(UnknownArg(path, tok.name))
        case Some(d) =>
          if d.argType == ArgType.Flag then Err(UnexpectedArgValue(path, tok.name))
          else Loop(def, tokens, path, i + 1, args[d.long := Arg.Value(tok.value)], positional, false, false)
      else
        Loop(def, tokens, path, i + 1, args, positional + [tok.word], false, false)
  }

  /** `parse_intrnal(tokens, path)` at node `def`: the node's name is appended to the path and the
      cursor starts at 1, so the slice's first token is never examined. */
  function Parse(def: CommandDef, tokens: seq<Token>, path: seq<string>): (r: ParseResult)
    ensures |path| < |ResultPath(r)| && ResultPath(r)[..|path|] == path && ResultPath(r)[|path|] == def.name
  {
    var path' := path + [def.name];
    var r := Loop(def, tokens, path', 1, map[], [], |def.subcommands| > 0, false);
    assert ResultPath(r)[..|path|] == ResultPath(r)[..|path'|][..|path|];
    assert ResultPath(r)[|path|] == ResultPath(r)[..|path'|][|path|];
    r
  }

  /** `CommandDef::parse`: tokenize the whole argument list, program name included, and parse it
      from the root with an empty path. */
  function ParseArgs(root: CommandDef, argv: seq<string>): (r: ParseResult)
    ensures |ResultPath(r)| > 0 && ResultPath(r)[0] == root.name
  {
    Parse(root, Tokenized(argv), [])
  }

  /** `parse_intrnal`: a loop over the cursor that updates the argument map, the positional list
      and the two latches, and hands the rest of the tokens to a child on a subcommand dispatch. */
  method ParseInternal(def: CommandDef, tokens: seq<Token>, path: seq<string>) returns (r: ParseResult)
    ensures r == Parse(def, tokens, path)
    decreases |tokens|
  {
    var args: map<string, Arg> := map[];
    var positional: seq<string> := [];
    var canBeSubcommand := |def.subcommands| > 0;
    var path' := path + [def.name];
    var i := 1;
    var everythingIsPositional := false;

    while i < |tokens|
      invariant 1 <= i
      invariant Loop(def, tokens, path', i, args, positional, canBeSubcommand, everythingIsPositional)
             == Parse(def, tokens, path)
      decreases |tokens| - i
    {
      var tok := tokens[i];

      if everythingIsPositional {
        if tok.Word? {
          positional := positional + [tok.word];
        }
        i := i + 1;
        continue;
      }

      if tok.EndOfOptions? {
        everythingIsPositional := true;
        i := i + 1;
        continue;
      }

      if tok == Word("help") {
        return Err(HelpRequested(path'));
      }

      if canBeSubcommand && tok.Word? {
        var sub := FindSubcommand(def, tok.word);
        if sub.Some? {
          r := ParseInternal(sub.value, tokens[i..], path');
          return;
        }
      }

      canBeSubcommand := false;

      if tok.Short? || tok.Long? {
        var name := tok.name;
        if name == "help" || name == "h" {
          return Err(HelpRequested(path'));
        }
        var found := FindArg(def, name);
        if found.None? {
          return Err(UnknownArg(path', name));
        }
        var argDef := found.value;
        var parsed: Arg;
        if argDef.argType == ArgType.Flag {
          parsed := Arg.Flag;
        } else {
          if i + 1 >= |tokens| {
            return Err(MissingArgValue(path', name));
          }
          var next := tokens[i + 1];
          if !next.Word? {
            return Err(MissingArgValue(path', name));
          }
          i := i + 1;
          parsed := Arg.Value(next.word);
        }
        args := args[argDef.long := parsed];
        i := i + 1;
        continue;
      }

      if tok.LongWithValue? {
        var found := FindArg(def, tok.name);
        if found.None? {
          return Err(UnknownArg(path', tok.name));
        }
        var argDef := found.value;
        if argDef.argType == ArgType.Flag {
          return Err(UnexpectedArgValue(path', tok.name));
        }
        args := args[argDef.long := Arg.Value(tok.value)];
      }

      if tok.Word? {
        positional := positional + [tok.word];
      }

      i := i + 1;
    }

    r := Ok(Command(path', args, positional));
  }

  /** `CommandDef::parse` without the debug output. */
  method ParseCommandLine(root: CommandDef, argv: seq<string>) returns (r: ParseResult)
    ensures r == ParseArgs(root, argv)
  {
    var tokens := Tokenize(argv);
    r := ParseInternal(root, tokens, []);
  }

  /** The contents of the word tokens, in order; other tokens are skipped. */
  function WordsOf(tokens: seq<Token>): seq<string>
  {
    if |tokens| == 0 then []
    else (if tokens[0].Word? then [tokens[0].word] else []) + WordsOf(tokens[1..])
  }

  /** Once the subcommand latch is closed, or everything is positional, the parse stays at this
      node: success and every error carry exactly the current path. */
  lemma {:induction false} LoopStaysAtNode(def: CommandDef, tokens: seq<Token>, path: seq<string>, i: nat,
      args: map<string, Arg>, positional: seq<string>, canBeSubcommand: bool, everythingIsPositional: bool)
    requires 1 <= i
    requires !canBeSubcommand || everythingIsPositional
    ensures ResultPath(Loop(def, tokens, path, i, args, positional, canBeSubcommand, everythingIsPositional)) == path
    decreases |tokens| - i
  {
    if i < |tokens| {
      // Cursor positions are bound to names before the lemma calls, which keeps the proof cheap.
      var next, skip := i + 1, i + 2;
      var tok := tokens[i];
      if everythingIsPositional {
        var positional' := if tok.Word? then positional + [tok.word] else positional;
        LoopStaysAtNode(def, tokens, path, next, args, positional', canBeSubcommand, true);
      } else if tok.EndOfOptions? {
        LoopStaysAtNode(def, tokens, path, next, args, positional, canBeSubcommand, true);
      } else if tok == Word("help") {
      } else if tok.Short? || tok.Long? {
        if tok.name != "help" && tok.name != "h" && FindArg(def, tok.name).Some? {
          var d := FindArg(def, tok.name).value;
          if d.argType == ArgType.Flag {
            LoopStaysAtNode(def, tokens, path, next, args[d.long := Arg.Flag], positional, false, false);
          } else if i + 1 < |tokens| && tokens[i + 1].Word? {
            LoopStaysAtNode(def, tokens, path, skip, args[d.long := Arg.Value(tokens[i + 1].word)], positional, false, false);
          }
        }
      } else if tok.LongWithValue? {
        if FindArg(def, tok.name).Some? {
          var d := FindArg(def, tok.name).value;
          LoopStaysAtNode(def, tokens, path, next, args[d.long := Arg.Value(tok.value)], positional, false, false);
        }
      } else {
        LoopStaysAtNode(def, tokens, path, next, args, positional + [tok.word], false, false);
      }
    }
  }

  /** A word dispatches to a child only as the first token after the node's own name token; the
      child's result, success or error, is the node's result unchanged. Otherwise the parse ends at
      this node, whatever later words name a child. */
  lemma ParseDispatch(def: CommandDef, tokens: seq<Token>, path: seq<string>)
    ensures
      if |tokens| > 1 && tokens[1].Word? && tokens[1].word != "help" && FindSubcommand(def, tokens[1].word).Some?
      then Parse(def, tokens, path) == Parse(FindSubcommand(def, tokens[1].word).value, tokens[1..], path + [def.name])
      else ResultPath(Parse(def, tokens, path)) == path + [def.name]
  {
    var p := path + [def.name];
    var canBeSubcommand := |def.subcommands| > 0;
    if |tokens| > 1 {
      var tok := tokens[1];
      if tok.EndOfOptions? {
        LoopStaysAtNode(def, tokens, p, 2, map[], [], canBeSubcommand, true);
      } else if tok.Short? || tok.Long? {
        if tok.name != "help" && tok.name != "h" && FindArg(def, tok.name).Some? {
          var d := FindArg(def, tok.name).value;
          if d.argType == ArgType.Flag {
            LoopStaysAtNode(def, tokens, p, 2, map[d.long := Arg.Flag], [], false, false);
          } else if 2 < |tokens| && tokens[2].Word? {
            LoopStaysAtNode(def, tokens, p, 3, map[d.long := Arg.Value(tokens[2].word)], [], false, false);
          }
        }
      } else if tok.LongWithValue? {
        if FindArg(def, tok.name).Some? {
          var d := FindArg(def, tok.name).value;
          LoopStaysAtNode(def, tokens, p, 2, map[d.long := Arg.Value(tok.value)], [], false, false);
        }
      } else if tok != Word("help") && !(canBeSubcommand && FindSubcommand(def, tok.word).Some?) {
        assert [] + [tok.word] == [tok.word];
        LoopStaysAtNode(def, tokens, p, 2, map[], [tok.word], false, false);
      }
    }
  }

  /** `help` as the first word, or `-h`, `-help`, `--h`, `--help` as the first option, requests
      help for this node, even where a child or an argument definition carries that name. */
  lemma ParseHelpRequested(def: CommandDef, tokens: seq<Token>, path: seq<string>)
    requires |tokens| > 1
    requires tokens[1] in {Word("help"), Short("help"), Short("h"), Long("help"), Long("h")}
    ensures Parse(def, tokens, path) == Err(HelpRequested(path + [def.name]))
  {
  }

  /** An option whose name no definition of the node carries stops the parse with `UnknownArg`,
      whatever follows it. */
  lemma ParseUnknownOption(def: CommandDef, t: Token, opt: Token, rest: seq<Token>, path: seq<string>)
    requires opt.LongWithValue? || ((opt.Short? || opt.Long?) && opt.name != "help" && opt.name != "h")
    requires FindArg(def, opt.name).None?
    ensures Parse(def, [t, opt] + rest, path) == Err(UnknownArg(path + [def.name], opt.name))
  {
    var tokens := [t, opt] + rest;
    LoopUnknownArgStep(def, tokens, path + [def.name], 1, map[], [], |def.subcommands| > 0);
  }

  /** A flag, in its short or long form, is stored as present under its definition's long name
      and takes no value: parsing goes on with the very next token, with child dispatch switched
      off, so a following word is a positional. `--name=value` is refused for a flag. */
  lemma ParseFlagOption(def: CommandDef, t: Token, opt: Token, v: string, w: string, rest: seq<Token>,
      path: seq<string>)
    requires (opt.Short? || opt.Long?) && opt.name != "help" && opt.name != "h"
    requires FindArg(def, opt.name).Some? && FindArg(def, opt.name).value.argType == ArgType.Flag
    ensures var p := path + [def.name];
      var stored := map[FindArg(def, opt.name).value.long := Arg.Flag];
      && Parse(def, [t, opt] + rest, path) == Loop(def, [t, opt] + rest, p, 2, stored, [], false, false)
      && Parse(def, [t, opt], path) == Ok(Command(p, stored, []))
      && (w != "help" ==> Parse(def, [t, opt, Word(w)], path) == Ok(Command(p, stored, [w])))
      && Parse(def, [t, LongWithValue(opt.name, v)] + rest, path) == Err(UnexpectedArgValue(p, opt.name))
  {
    var p := path + [def.name];
    var cs := |def.subcommands| > 0;
    var d := FindArg(def, opt.name).value;
    var stored := map[d.long := Arg.Flag];
    assert map[][d.long := Arg.Flag] == stored;
    var tokens := [t, opt] + rest;
    LoopFlagStep(def, tokens, p, 1, map[], [], cs, d);
    var single := [t, opt];
    LoopFlagStep(def, single, p, 1, map[], [], cs, d);
    LoopEndStep(def, single, p, 2, stored, [], false, false);
    if w != "help" {
      var pair := [t, opt, Word(w)];
      // Cursor positions are bound to names before the lemma calls, which keeps the proof cheap.
      var two := 2;
      var three := 3;
      LoopFlagStep(def, pair, p, 1, map[], [], cs, d);
      LoopWordStep(def, pair, p, two, stored, [], false);
      assert [] + [w] == [w];
      LoopEndStep(def, pair, p, three, stored, [w], false, false);
    }
    var inline := [t, LongWithValue(opt.name, v)] + rest;
    LoopUnexpectedArgValueStep(def, inline, p, 1, map[], [], cs);
  }

  /** A value option in its short or long form takes the next token, which must be a word: that
      word is the value, stored under the definition's long name and never examined as a
      positional, a help request or a child's name; parsing goes on after it with child dispatch
      switched off. Without a following word, at the end or before any other token, the result
      is `MissingArgValue`. */
  lemma ParseValueOption(def: CommandDef, t: Token, opt: Token, next: Token, v: string, w: string,
      rest: seq<Token>, path: seq<string>)
    requires (opt.Short? || opt.Long?) && opt.name != "help" && opt.name != "h"
    requires FindArg(def, opt.name).Some? && FindArg(def, opt.name).value.argType == ArgType.Value
    ensures var p := path + [def.name];
      var stored := map[FindArg(def, opt.name).value.long := Arg.Value(v)];
      && Parse(def, [t, opt], path) == Err(MissingArgValue(p, opt.name))
      && (!next.Word? ==> Parse(def, [t, opt, next] + rest, path) == Err(MissingArgValue(p, opt.name)))
      && Parse(def, [t, opt, Word(v)] + rest, path) == Loop(def, [t, opt, Word(v)] + rest, p, 3, stored, [], false, false)
      && (w != "help" ==> Parse(def, [t, opt, Word(v), Word(w)], path) == Ok(Command(p, stored, [w])))
  {
    var p := path + [def.name];
    var cs := |def.subcommands| > 0;
    var d := FindArg(def, opt.name).value;
    var stored := map[d.long := Arg.Value(v)];
    assert map[][d.long := Arg.Value(v)] == stored;
    LoopMissingArgValueStep(def, [t, opt], p, 1, map[], [], cs);
    if !next.Word? {
      var tokens := [t, opt, next] + rest;
      LoopMissingArgValueStep(def, tokens, p, 1, map[], [], cs);
    }
    var tokens := [t, opt, Word(v)] + rest;
    LoopTakeValueStep(def, tokens, p, 1, map[], [], cs, d);
    if w != "help" {
      var four := [t, opt, Word(v), Word(w)];
      // Cursor positions are bound to names before the lemma calls, which keeps the proof cheap.
      var three := 3;
      var end := 4;
      LoopTakeValueStep(def, four, p, 1, map[], [], cs, d);
      LoopWordStep(def, four, p, three, stored, [], false);
      assert [] + [w] == [w];
      LoopEndStep(def, four, p, end, stored, [w], false, false);
    }
  }

  /** `--name=value` for a value option supplies the value itself, stored under the definition's
      long name; parsing goes on with the next token, with child dispatch switched off. */
  lemma ParseInlineValue(def: CommandDef, t: Token, name: string, v: string, rest: seq<Token>, path: seq<string>)
    requires FindArg(def, name).Some? && FindArg(def, name).value.argType == ArgType.Value
    ensures var p := path + [def.name];
      var stored := map[FindArg(def, name).value.long := Arg.Value(v)];
      && Parse(def, [t, LongWithValue(name, v)] + rest, path)
         == Loop(def, [t, LongWithValue(name, v)] + rest, p, 2, stored, [], false, false)
      && Parse(def, [t, LongWithValue(name, v)], path) == Ok(Command(p, stored, []))
  {
    var p := path + [def.name];
    var cs := |def.subcommands| > 0;
    var d := FindArg(def, name).value;
    var stored := map[d.long := Arg.Value(v)];
    assert map[][d.long := Arg.Value(v)] == stored;
    var tokens := [t, LongWithValue(name, v)] + rest;
    LoopInlineValueStep(def, tokens, p, 1, map[], [], cs, d);
    var single := [t, LongWithValue(name, v)];
    LoopInlineValueStep(def, single, p, 1, map[], [], cs, d);
    LoopEndStep(def, single, p, 2, stored, [], false, false);
  }

  /** Once everything is positional, the parse succeeds with every remaining word appended to the
      positionals verbatim and the arguments unchanged. */
  lemma {:induction false} LoopAfterEndOfOptions(def: CommandDef, tokens: seq<Token>, path: seq<string>, i: nat,
      args: map<string, Arg>, positional: seq<string>, canBeSubcommand: bool)
    requires 1 <= i <= |tokens|
    ensures Loop(def, tokens, path, i, args, positional, canBeSubcommand, true)
         == Ok(Command(path, args, positional + WordsOf(tokens[i..])))
    decreases |tokens| - i
  {
    if i == |tokens| {
      assert tokens[i..] == [];
      assert positional + [] == positional;
    } else {
      var tok, next := tokens[i], i + 1;
      var positional' := if tok.Word? then positional + [tok.word] else positional;
      LoopSkipStep(def, tokens, path, i, args, positional, canBeSubcommand, true);
      LoopAfterEndOfOptions(def, tokens, path, next, args, positional', canBeSubcommand);
      WordsOfStep(tokens, i, positional);
    }
  }

  /** Collecting the words from the cursor is collecting the current token's word, then the rest. */
  lemma WordsOfStep(tokens: seq<Token>, i: nat, positional: seq<string>)
    requires i < |tokens|
    ensures (if tokens[i].Word? then positional + [tokens[i].word] else positional) + WordsOf(tokens[i + 1..])
         == positional + WordsOf(tokens[i..])
  {
    assert tokens[i..][0] == tokens[i] && tokens[i..][1..] == tokens[i + 1..];
  }

  lemma {:induction false} WordsOfWords(tokens: seq<Token>, words: seq<string>)
    requires |tokens| == |words|
    requires forall j :: 0 <= j < |tokens| ==> tokens[j] == Word(words[j])
    ensures WordsOf(tokens) == words
    decreases |tokens|
  {
    if |tokens| > 0 {
      WordsOfWords(tokens[1..], words[1..]);
      assert words == [words[0]] + words[1..];
    }
  }

  /** `--` right after the program name: no `UnknownArg` for what follows, every later argument is
      a positional, verbatim and in order, and no subcommand is entered. */
  lemma ParseArgsEndOfOptions(root: CommandDef, program: string, rest: seq<string>)
    requires program != "--"
    ensures ParseArgs(root, [program, "--"] + rest) == Ok(Command([root.name], map[], rest))
  {
    var argv := [program, "--"] + rest;
    var tokens := Tokenized(argv);
    assert argv[..1] == [program];
    EndOfOptionsLatch(argv, 1);
    assert argv[2..] == rest;
    WordsOfWords(tokens[2..], rest);
    assert [] + [root.name] == [root.name];
    LoopAfterEndOfOptions(root, tokens, [root.name], 2, map[], [], |root.subcommands| > 0);
    assert [] + rest == rest;
  }

  /** The loop reads nothing before its cursor. */
  lemma {:induction false} LoopReadsFromCursor(def: CommandDef, tokens: seq<Token>, tokens': seq<Token>, path: seq<string>,
      i: nat, args: map<string, Arg>, positional: seq<string>, canBeSubcommand: bool, everythingIsPositional: bool)
    requires 1 <= i
    requires |tokens| == |tokens'|
    requires forall j :: i <= j < |tokens| ==> tokens[j] == tokens'[j]
    ensures Loop(def, tokens, path, i, args, positional, canBeSubcommand, everythingIsPositional)
         == Loop(def, tokens', path, i, args, positional, canBeSubcommand, everythingIsPositional)
    decreases |tokens| - i
  {
    if i < |tokens| {
      // Cursor positions are bound to names before the lemma calls, which keeps the proof cheap.
      var next, skip := i + 1, i + 2;
      var tok := tokens[i];
      assert tokens[i..] == tokens'[i..];
      if everythingIsPositional {
        var positional' := if tok.Word? then positional + [tok.word] else positional;
        LoopReadsFromCursor(def, tokens, tokens', path, next, args, positional', canBeSubcommand, true);
      } else if tok.EndOfOptions? {
        LoopReadsFromCursor(def, tokens, tokens', path, next, args, positional, canBeSubcommand, true);
      } else if tok == Word("help") {
      } else if canBeSubcommand && tok.Word? && FindSubcommand(def, tok.word).Some? {
      } else if tok.Short? || tok.Long? {
        if tok.name != "help" && tok.name != "h" && FindArg(def, tok.name).Some? {
          var d := FindArg(def, tok.name).value;
          if d.argType == ArgType.Flag {
            LoopReadsFromCursor(def, tokens, tokens', path, next, args[d.long := Arg.Flag], positional, false, false);
          } else if i + 1 < |tokens| && tokens[i + 1].Word? {
            LoopReadsFromCursor(def, tokens, tokens', path, skip, args[d.long := Arg.Value(tokens[i + 1].word)], positional, false, false);
          }
        }
      } else if tok.LongWithValue? {
        if FindArg(def, tok.name).Some? {
          var d := FindArg(def, tok.name).value;
          LoopReadsFromCursor(def, tokens, tokens', path, next, args[d.long := Arg.Value(tok.value)], positional, false, false);
        }
      } else {
        LoopReadsFromCursor(def, tokens, tokens', path, next, args, positional + [tok.word], false, false);
      }
    }
  }

  /** A parse never examines the first token of its slice (the program name at the top, the
      child's own name token after a dispatch). */
  lemma ParseIgnoresFirstToken(def: CommandDef, t: Token, t': Token, rest: seq<Token>, path: seq<string>)
    ensures Parse(def, [t] + rest, path) == Parse(def, [t'] + rest, path)
  {
    LoopReadsFromCursor(def, [t] + rest, [t'] + rest, path + [def.name], 1, map[], [], |def.subcommands| > 0, false);
  }

  /** Every stored key is the canonical long name of one of the node's definitions, holding a flag
      exactly when that definition is a flag. */
  ghost predicate ArgsTyped(node: CommandDef, args: map<string, Arg>)
  {
    forall k :: KeyTyped(node, args, k)
  }

  /** The key `k`, if stored, is the long name of a definition of the node with the same kind. */
  ghost predicate KeyTyped(node: CommandDef, args: map<string, Arg>, k: string)
  {
    k in args ==> exists d :: d in node.args && d.long == k && (args[k].Flag? <==> d.argType == ArgType.Flag)
  }

  /** What a result says about the node it stopped at. */
  ghost predicate Accounts(node: CommandDef, r: ParseResult)
  {
    match r
    case Ok(cmd) => ArgsTyped(node, cmd.args)
    case Err(UnknownArg(_, n)) => FindArg(node, n).None?
    case Err(MissingArgValue(_, n)) => FindArg(node, n).Some? && FindArg(node, n).value.argType == ArgType.Value
    case Err(UnexpectedArgValue(_, n)) => FindArg(node, n).Some? && FindArg(node, n).value.argType == ArgType.Flag
    case Err(HelpRequested(_)) => true
    case Err(UnknownCommand(_, _)) => false
    case Err(MissingValue(_, _)) => false
  }

  lemma ArgsTypedInsert(node: CommandDef, args: map<string, Arg>, d: ArgDef, v: Arg)
    requires ArgsTyped(node, args)
    requires d in node.args && (v.Flag? <==> d.argType == ArgType.Flag)
    ensures ArgsTyped(node, args[d.long := v])
  {
    var args' := args[d.long := v];
    forall k
      ensures KeyTyped(node, args', k)
    {
      if k == d.long {
        assert d in node.args && d.long == k && (args'[k].Flag? <==> d.argType == ArgType.Flag);
      } else {
        assert KeyTyped(node, args, k);
        assert k in args' ==> args'[k] == args[k];
      }
    }
  }

  /** The result's path resolves, from `root`, to a node whose definitions account for the result. */
  ghost predicate StopsAtNode(root: CommandDef, r: ParseResult)
  {
    GetCommandFromPath(root, ResultPath(r)).Some? && Accounts(GetCommandFromPath(root, ResultPath(r)).value, r)
  }

  // One-step unfoldings of Loop, one per kind of token, so that the proofs below never unfold
  // Loop next to the predicates they establish.

  lemma LoopSkipStep(def: CommandDef, tokens: seq<Token>, path: seq<string>, i: nat,
      args: map<string, Arg>, positional: seq<string>, canBeSubcommand: bool, everythingIsPositional: bool)
    requires 1 <= i < |tokens|
    requires everythingIsPositional || tokens[i].EndOfOptions?
    ensures Loop(def, tokens, path, i, args, positional, canBeSubcommand, everythingIsPositional)
         == Loop(def, tokens, path, i + 1, args,
                 if everythingIsPositional && tokens[i].Word? then positional + [tokens[i].word] else positional,
                 canBeSubcommand, true)
  {
  }

  lemma LoopWordStep(def: CommandDef, tokens: seq<Token>, path: seq<string>, i: nat,
      args: map<string, Arg>, positional: seq<string>, canBeSubcommand: bool)
    requires 1 <= i < |tokens|
    requires tokens[i].Word? && tokens[i] != Word("help")
    requires !(canBeSubcommand && FindSubcommand(def, tokens[i].word).Some?)
    ensures Loop(def, tokens, path, i, args, positional, canBeSubcommand, false)
         == Loop(def, tokens, path, i + 1, args, positional + [tokens[i].word], false, false)
  {
  }

  lemma LoopFlagStep(def: CommandDef, tokens: seq<Token>, path: seq<string>, i: nat,
      args: map<string, Arg>, positional: seq<string>, canBeSubcommand: bool, d: ArgDef)
    requires 1 <= i < |tokens|
    requires (tokens[i].Short? || tokens[i].Long?) && tokens[i].name != "help" && tokens[i].name != "h"
    requires FindArg(def, tokens[i].name) == Some(d) && d.argType == ArgType.Flag
    ensures Loop(def, tokens, path, i, args, positional, canBeSubcommand, false)
         == Loop(def, tokens, path, i + 1, args[d.long := Arg.Flag], positional, false, false)
  {
  }

  lemma LoopTakeValueStep(def: CommandDef, tokens: seq<Token>, path: seq<string>, i: nat,
      args: map<string, Arg>, positional: seq<string>, canBeSubcommand: bool, d: ArgDef)
    requires 1 <= i && i + 1 < |tokens|
    requires (tokens[i].Short? || tokens[i].Long?) && tokens[i].name != "help" && tokens[i].name != "h"
    requires FindArg(def, tokens[i].name) == Some(d) && d.argType == ArgType.Value
    requires tokens[i + 1].Word?
    ensures Loop(def, tokens, path, i, args, positional, canBeSubcommand, false)
         == Loop(def, tokens, path, i + 2, args[d.long := Arg.Value(tokens[i + 1].word)], positional, false, false)
  {
  }

  lemma LoopInlineValueStep(def: CommandDef, tokens: seq<Token>, path: seq<string>, i: nat,
      args: map<string, Arg>, positional: seq<string>, canBeSubcommand: bool, d: ArgDef)
    requires 1 <= i < |tokens|
    requires tokens[i].LongWithValue?
    requires FindArg(def, tokens[i].name) == Some(d) && d.argType == ArgType.Value
    ensures Loop(def, tokens, path, i, args, positional, canBeSubcommand, false)
         == Loop(def, tokens, path, i + 1, args[d.long := Arg.Value(tokens[i].value)], positional, false, false)
  {
  }

  lemma LoopEndStep(def: CommandDef, tokens: seq<Token>, path: seq<string>, i: nat,
      args: map<string, Arg>, positional: seq<string>, canBeSubcommand: bool, everythingIsPositional: bool)
    requires 1 <= i && |tokens| <= i
    ensures Loop(def, tokens, path, i, args, positional, canBeSubcommand, everythingIsPositional)
         == Ok(Command(path, args, positional))
  {
  }

  lemma LoopHelpStep(def: CommandDef, tokens: seq<Token>, path: seq<string>, i: nat,
      args: map<string, Arg>, positional: seq<string>, canBeSubcommand: bool)
    requires 1 <= i < |tokens|
    requires tokens[i] == Word("help") || ((tokens[i].Short? || tokens[i].Long?) && tokens[i].name in {"help", "h"})
    ensures Loop(def, tokens, path, i, args, positional, canBeSubcommand, false) == Err(HelpRequested(path))
  {
  }

  lemma LoopDispatchStep(def: CommandDef, tokens: seq<Token>, path: seq<string>, i: nat,
      args: map<string, Arg>, positional: seq<string>)
    requires 1 <= i < |tokens|
    requires tokens[i].Word? && tokens[i] != Word("help") && FindSubcommand(def, tokens[i].word).Some?
    ensures var child := FindSubcommand(def, tokens[i].word).value;
      Loop(def, tokens, path, i, args, positional, true, false)
      == Loop(child, tokens[i..], path + [child.name], 1, map[], [], |child.subcommands| > 0, false)
  {
  }

  lemma LoopUnknownArgStep(def: CommandDef, tokens: seq<Token>, path: seq<string>, i: nat,
      args: map<string, Arg>, positional: seq<string>, canBeSubcommand: bool)
    requires 1 <= i < |tokens|
    requires tokens[i].LongWithValue? || ((tokens[i].Short? || tokens[i].Long?) && tokens[i].name !in {"help", "h"})
    requires FindArg(def, tokens[i].name).None?
    ensures Loop(def, tokens, path, i, args, positional, canBeSubcommand, false) == Err(UnknownArg(path, tokens[i].name))
  {
  }

  lemma LoopMissingArgValueStep(def: CommandDef, tokens: seq<Token>, path: seq<string>, i: nat,
      args: map<string, Arg>, positional: seq<string>, canBeSubcommand: bool)
    requires 1 <= i < |tokens|
    requires (tokens[i].Short? || tokens[i].Long?) && tokens[i].name !in {"help", "h"}
    requires FindArg(def, tokens[i].name).Some? && FindArg(def, tokens[i].name).value.argType == ArgType.Value
    requires i + 1 >= |tokens| || !tokens[i + 1].Word?
    ensures Loop(def, tokens, path, i, args, positional, canBeSubcommand, false) == Err(MissingArgValue(path, tokens[i].name))
  {
  }

  lemma LoopUnexpectedArgValueStep(def: CommandDef, tokens: seq<Token>, path: seq<string>, i: nat,
      args: map<string, Arg>, positional: seq<string>, canBeSubcommand: bool)
    requires 1 <= i < |tokens|
    requires tokens[i].LongWithValue?
    requires FindArg(def, tokens[i].name).Some? && FindArg(def, tokens[i].name).value.argType == ArgType.Flag
    ensures Loop(def, tokens, path, i, args, positional, canBeSubcommand, false) == Err(UnexpectedArgValue(path, tokens[i].name))
  {
  }

  /** Carries `StopsAtNode` across an equation between results. It is a proof device only: it
      lets the lemmas below move from one Loop call to an equal one without unfolding Loop in the
      same context as `StopsAtNode`. */
  lemma StopsAtNodeTransfer(root: CommandDef, r: ParseResult, r': ParseResult)
    requires r == r' && StopsAtNode(root, r')
    ensures StopsAtNode(root, r)
  {
  }

  /** A result that stops at the node `path` names, and that the node accounts for. Like the lemma
      above, it is a proof device that keeps Loop from being unfolded next to `StopsAtNode`. */
  lemma StopsHere(root: CommandDef, def: CommandDef, path: seq<string>, here: ParseResult, r: ParseResult)
    requires GetCommandFromPath(root, path) == Some(def)
    requires here == r && ResultPath(r) == path && Accounts(def, r)
    ensures StopsAtNode(root, here)
  {
  }

  /** The path of every result names nodes actually descended into, so it resolves to a node of the
      tree; an error names what that node's definitions lack; the parsed arguments are keyed by
      canonical long names; `UnknownCommand` and `MissingValue` never occur. */
  lemma {:induction false} LoopAccounts(root: CommandDef, def: CommandDef, tokens: seq<Token>, path: seq<string>, i: nat,
      args: map<string, Arg>, positional: seq<string>, canBeSubcommand: bool, everythingIsPositional: bool)
    requires 1 <= i
    requires GetCommandFromPath(root, path) == Some(def)
    requires ArgsTyped(def, args)
    ensures StopsAtNode(root, Loop(def, tokens, path, i, args, positional, canBeSubcommand, everythingIsPositional))
    decreases |tokens|, |tokens| - i, 1
  {
    var here := Loop(def, tokens, path, i, args, positional, canBeSubcommand, everythingIsPositional);
    if i >= |tokens| {
      LoopEndStep(def, tokens, path, i, args, positional, canBeSubcommand, everythingIsPositional);
      StopsHere(root, def, path, here, Ok(Command(path, args, positional)));
    } else if everythingIsPositional || tokens[i].EndOfOptions? {
      LoopAccountsSkip(root, def, tokens, path, i, args, positional, canBeSubcommand, everythingIsPositional);
    } else if tokens[i] == Word("help") || ((tokens[i].Short? || tokens[i].Long?) && tokens[i].name in {"help", "h"}) {
      LoopHelpStep(def, tokens, path, i, args, positional, canBeSubcommand);
      StopsHere(root, def, path, here, Err(HelpRequested(path)));
    } else if canBeSubcommand && tokens[i].Word? && FindSubcommand(def, tokens[i].word).Some? {
      LoopAccountsDispatch(root, def, tokens, path, i, args, positional);
    } else if tokens[i].Short? || tokens[i].Long? {
      LoopAccountsNamed(root, def, tokens, path, i, args, positional, canBeSubcommand);
    } else if tokens[i].LongWithValue? {
      LoopAccountsInline(root, def, tokens, path, i, args, positional, canBeSubcommand);
    } else {
      LoopAccountsWord(root, def, tokens, path, i, args, positional, canBeSubcommand);
    }
  }

  /** LoopAccounts once everything is positional, or at `--`. */
  lemma {:induction false} LoopAccountsSkip(root: CommandDef, def: CommandDef, tokens: seq<Token>, path: seq<string>, i: nat,
      args: map<string, Arg>, positional: seq<string>, canBeSubcommand: bool, everythingIsPositional: bool)
    requires 1 <= i < |tokens|
    requires everythingIsPositional || tokens[i].EndOfOptions?
    requires GetCommandFromPath(root, path) == Some(def)
    requires ArgsTyped(def, args)
    ensures StopsAtNode(root, Loop(def, tokens, path, i, args, positional, canBeSubcommand, everythingIsPositional))
    decreases |tokens|, |tokens| - i, 0
  {
    LoopSkipStep(def, tokens, path, i, args, positional, canBeSubcommand, everythingIsPositional);
    var next := i + 1;
    var positional' := if everythingIsPositional && tokens[i].Word? then positional + [tokens[i].word] else positional;
    LoopAccounts(root, def, tokens, path, next, args, positional', canBeSubcommand, true);
    StopsAtNodeTransfer(root, Loop(def, tokens, path, i, args, positional, canBeSubcommand, everythingIsPositional),
                        Loop(def, tokens, path, next, args, positional', canBeSubcommand, true));
  }

  /** LoopAccounts for a word that is kept as a positional. */
  lemma {:induction false} LoopAccountsWord(root: CommandDef, def: CommandDef, tokens: seq<Token>, path: seq<string>, i: nat,
      args: map<string, Arg>, positional: seq<string>, canBeSubcommand: bool)
    requires 1 <= i < |tokens|
    requires tokens[i].Word? && tokens[i] != Word("help")
    requires !(canBeSubcommand && FindSubcommand(def, tokens[i].word).Some?)
    requires GetCommandFromPath(root, path) == Some(def)
    requires ArgsTyped(def, args)
    ensures StopsAtNode(root, Loop(def, tokens, path, i, args, positional, canBeSubcommand, false))
    decreases |tokens|, |tokens| - i, 0
  {
    LoopWordStep(def, tokens, path, i, args, positional, canBeSubcommand);
    var next, positional' := i + 1, positional + [tokens[i].word];
    LoopAccounts(root, def, tokens, path, next, args, positional', false, false);
    StopsAtNodeTransfer(root, Loop(def, tokens, path, i, args, positional, canBeSubcommand, false),
                        Loop(def, tokens, path, next, args, positional', false, false));
  }

  /** LoopAccounts for a word that names a child while the latch is open. */
  lemma {:induction false} LoopAccountsDispatch(root: CommandDef, def: CommandDef, tokens: seq<Token>, path: seq<string>, i: nat,
      args: map<string, Arg>, positional: seq<string>)
    requires 1 <= i < |tokens|
    requires tokens[i].Word? && tokens[i] != Word("help") && FindSubcommand(def, tokens[i].word).Some?
    requires GetCommandFromPath(root, path) == Some(def)
    ensures StopsAtNode(root, Loop(def, tokens, path, i, args, positional, true, false))
    decreases |tokens|, |tokens| - i, 0
  {
    var name := tokens[i].word;
    var child := FindSubcommand(def, name).value;
    GetCommandFromPathExtend(root, path, def, name);
    var path' := path + [child.name];
    var there := Loop(child, tokens[i..], path', 1, map[], [], |child.subcommands| > 0, false);
    LoopDispatchStep(def, tokens, path, i, args, positional);
    LoopAccounts(root, child, tokens[i..], path', 1, map[], [], |child.subcommands| > 0, false);
    StopsAtNodeTransfer(root, Loop(def, tokens, path, i, args, positional, true, false), there);
  }

  /** LoopAccounts for an option name with no definition. */
  lemma LoopAccountsUnknown(root: CommandDef, def: CommandDef, tokens: seq<Token>, path: seq<string>, i: nat,
      args: map<string, Arg>, positional: seq<string>, canBeSubcommand: bool)
    requires 1 <= i < |tokens|
    requires tokens[i].LongWithValue? || ((tokens[i].Short? || tokens[i].Long?) && tokens[i].name !in {"help", "h"})
    requires FindArg(def, tokens[i].name).None?
    requires GetCommandFromPath(root, path) == Some(def)
    ensures StopsAtNode(root, Loop(def, tokens, path, i, args, positional, canBeSubcommand, false))
  {
    LoopUnknownArgStep(def, tokens, path, i, args, positional, canBeSubcommand);
    StopsHere(root, def, path, Loop(def, tokens, path, i, args, positional, canBeSubcommand, false), Err(UnknownArg(path, tokens[i].name)));
  }

  /** LoopAccounts for `-name` and `--name`. */
  lemma {:induction false} LoopAccountsNamed(root: CommandDef, def: CommandDef, tokens: seq<Token>, path: seq<string>, i: nat,
      args: map<string, Arg>, positional: seq<string>, canBeSubcommand: bool)
    requires 1 <= i < |tokens|
    requires (tokens[i].Short? || tokens[i].Long?) && tokens[i].name !in {"help", "h"}
    requires GetCommandFromPath(root, path) == Some(def)
    requires ArgsTyped(def, args)
    ensures StopsAtNode(root, Loop(def, tokens, path, i, args, positional, canBeSubcommand, false))
    decreases |tokens|, |tokens| - i, 0
  {
    var name := tokens[i].name;
    if FindArg(def, name).None? {
      LoopAccountsUnknown(root, def, tokens, path, i, args, positional, canBeSubcommand);
    } else {
      var d := FindArg(def, name).value;
      if d.argType == ArgType.Flag {
        ArgsTypedInsert(def, args, d, Arg.Flag);
        LoopFlagStep(def, tokens, path, i, args, positional, canBeSubcommand, d);
        var next, args' := i + 1, args[d.long := Arg.Flag];
        LoopAccounts(root, def, tokens, path, next, args', positional, false, false);
        StopsAtNodeTransfer(root, Loop(def, tokens, path, i, args, positional, canBeSubcommand, false), Loop(def, tokens, path, next, args', positional, false, false));
      } else if i + 1 < |tokens| && tokens[i + 1].Word? {
        var v := Arg.Value(tokens[i + 1].word);
        ArgsTypedInsert(def, args, d, v);
        LoopTakeValueStep(def, tokens, path, i, args, positional, canBeSubcommand, d);
        var next, args' := i + 2, args[d.long := v];
        LoopAccounts(root, def, tokens, path, next, args', positional, false, false);
        StopsAtNodeTransfer(root, Loop(def, tokens, path, i, args, positional, canBeSubcommand, false), Loop(def, tokens, path, next, args', positional, false, false));
      } else {
        LoopMissingArgValueStep(def, tokens, path, i, args, positional, canBeSubcommand);
        StopsHere(root, def, path, Loop(def, tokens, path, i, args, positional, canBeSubcommand, false), Err(MissingArgValue(path, name)));
      }
    }
  }

  /** LoopAccounts for `--name=value`. */
  lemma {:induction false} LoopAccountsInline(root: CommandDef, def: CommandDef, tokens: seq<Token>, path: seq<string>, i: nat,
      args: map<string, Arg>, positional: seq<string>, canBeSubcommand: bool)
    requires 1 <= i < |tokens|
    requires tokens[i].LongWithValue?
    requires GetCommandFromPath(root, path) == Some(def)
    requires ArgsTyped(def, args)
    ensures StopsAtNode(root, Loop(def, tokens, path, i, args, positional, canBeSubcommand, false))
    decreases |tokens|, |tokens| - i, 0
  {
    var name := tokens[i].name;
    if FindArg(def, name).None? {
      LoopAccountsUnknown(root, def, tokens, path, i, args, positional, canBeSubcommand);
    } else {
      var d := FindArg(def, name).value;
      if d.argType == ArgType.Flag {
        LoopUnexpectedArgValueStep(def, tokens, path, i, args, positional, canBeSubcommand);
        StopsHere(root, def, path, Loop(def, tokens, path, i, args, positional, canBeSubcommand, false), Err(UnexpectedArgValue(path, name)));
      } else {
        var v := Arg.Value(tokens[i].value);
        ArgsTypedInsert(def, args, d, v);
        LoopInlineValueStep(def, tokens, path, i, args, positional, canBeSubcommand, d);
        var next, args' := i + 1, args[d.long := v];
        LoopAccounts(root, def, tokens, path, next, args', positional, false, false);
        StopsAtNodeTransfer(root, Loop(def, tokens, path, i, args, positional, canBeSubcommand, false), Loop(def, tokens, path, next, args', positional, false, false));
      }
    }
  }

  /** For any argument list, the result's path starts with the root's name and resolves, through
      `get_command_from_path`, to the node the parse stopped at; errors and stored arguments agree
      with that node's definitions. */
  lemma ParseArgsAccounts(root: CommandDef, argv: seq<string>)
    ensures var r := ParseArgs(root, argv);
      && |ResultPath(r)| > 0 && ResultPath(r)[0] == root.name
      && StopsAtNode(root, r)
  {
    var tokens := Tokenized(argv);
    assert [] + [root.name] == [root.name];
    assert ParseArgs(root, argv) == Loop(root, tokens, [root.name], 1, map[], [], |root.subcommands| > 0, false);
    LoopAccounts(root, root, tokens, [root.name], 1, map[], [], |root.subcommands| > 0, false);
  }

  /** The path `get_path` reports for a successful parse names a node of the tree: it starts
      with the root's name, `get_command_from_path` finds the node it ends at, and every stored
      argument is one of that node's definitions, with a value exactly when it is not a flag. */
  lemma ParsedPathResolves(root: CommandDef, argv: seq<string>)
    requires ParseArgs(root, argv).Ok?
    ensures var cmd := ParseArgs(root, argv).value;
      var p := cmd.GetPath();
      && |p| > 0 && p[0] == root.name
      && GetCommandFromPath(root, p).Some?
      && GetCommandFromPath(root, p).value.name == p[|p| - 1]
      && ArgsTyped(GetCommandFromPath(root, p).value, cmd.args)
  {
    ParseArgsAccounts(root, argv);
  }

  /** A key `get_arg` finds after a successful parse is the long name of a definition of the node
      the parse stopped at, and it holds `Flag` exactly when that definition is a flag. */
  lemma ParsedArgTyped(root: CommandDef, argv: seq<string>, k: string)
    requires ParseArgs(root, argv).Ok?
    ensures var cmd := ParseArgs(root, argv).value;
      var node := GetCommandFromPath(root, cmd.GetPath());
      && node.Some?
      && (cmd.GetArg(k).Some? ==>
            exists d :: d in node.value.args && d.long == k && (cmd.GetArg(k).value.Flag? <==> d.argType == ArgType.Flag))
  {
    ParsedPathResolves(root, argv);
    assert KeyTyped(GetCommandFromPath(root, ParseArgs(root, argv).value.GetPath()).value, ParseArgs(root, argv).value.args, k);
  }

  /** `get_positional_string` in full: the first positional, then every later one preceded by a
      single space. */
  lemma PositionalStringJoined(cmd: Command)
    requires |cmd.positional| > 0
    ensures cmd.GetPositionalString() == cmd.positional[0] + Concat(Prefixed(" ", cmd.positional[1..]))
  {
    JoinAsConcat(cmd.positional, " ");
  }
}
