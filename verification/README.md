# Workspace manager command line: parser and workspace list

This project models the hand-written command-line layer of a small workspace manager. It also
models the in-memory list of registered workspaces kept by its configuration. It covers:

- **Tokenizer** (`tokenizer.dfy`). Each raw argument becomes one token:
  - `-name` becomes a short option;
  - `--name` becomes a long option;
  - `--name=value` becomes a long option with an inline value;
  - `--` becomes the end-of-options marker;
  - anything else becomes a word.

  After a `--`, every later argument is a verbatim word. This is in the spirit of Guideline 10 in
  section 12.2 of the POSIX Utility Syntax Guidelines, but it differs from it in one respect: a
  `--` right after an option that takes a value is neither the value nor the end of the options,
  and the parse fails with `MissingArgValue` (`Scenarios.EndOfOptionsNotAValue`). The loop of `tokenize` is the method `Tokenize`, proved
  equal to the function `Tokenized`.
- **Command definition tree** (`schema.dfy`). Nodes have a name, a description, argument
  definitions (short name, long name, description, flag or value) and child nodes. The fluent
  builder is `New`, `AddArg` and `AddSubcommand`. The lookups return the first match (`FindArg`,
  `FindSubcommand`). `GetCommandFromPath` resolves a name path to a node.
- **Parser** (`parser.dfy`). `ParseInternal` is the cursor loop of `parse_intrnal`. It updates the
  argument map, the positional list and the two latches, and it hands the rest of the tokens to a
  child when a word names one. It is proved equal to `Parse`, a tail-recursive definition of the
  remaining loop iterations (`Loop`). Every property of the parser is proved about `Parse`:
  - help requests;
  - subcommand dispatch and its one-way latch;
  - option handling and its three errors;
  - the end-of-options latch;
  - the result path;
  - the well-typedness of the stored arguments.
- **Help** (`help.dfy`). `GetHelp` builds the help text of the node a path resolves to, pushing one
  line per argument and per child. Otherwise it returns the unknown-command message. It is proved
  equal to `HelpText`.
- **Workspace list** (`config.dfy`). `Config` is a class whose `workspaces` field the methods
  `AddWs` (append) and `RemoveWs` (retain the other paths, report whether the list got shorter)
  update in place. `HasWs` and `GetWsAll` read it.
- **Scenarios** (`scenarios.dfy`). These are whole-pipeline facts about one concrete tree: a root
  with a value option `-n`/`--name`, a flag `-f`/`--flag` and a child `child`.

`wrappers.dfy` holds `Option` and `Result`. `seqs.dfy` holds the sequence helpers that stand for
the Rust library calls: `Iterator::find`, the prefix test of `str::strip_prefix`, `join` and repeated `push_str`.

A child does not share its parent's cursor. It receives the slice that starts at its own name
token and starts its cursor at 1. `Loop` recurses on `tokens[i..]`. `LoopReadsFromCursor` and
`ParseIgnoresFirstToken` show that the loop never looks at tokens before its cursor.

## Model

| member | source | states |
|---|---|---|
| Seqs.FindFirst | src/commands.rs:305-311 | The index found satisfies the predicate and no earlier element does; nothing is found exactly when no element satisfies it. |
| Seqs.FindFirstAppend | src/commands.rs:305-311 | Appending an element never changes an earlier first match; the new element is found only when nothing before it matched. |
| Tokenizer.SplitOnce | src/commands.rs:339 | `split_once("=")`: no split exactly when the separator is absent; otherwise the parts rebuild the string around the separator and the left part has no separator. |
| Tokenizer.SplitAtFirstUnique | src/commands.rs:339 | A string splits around the first occurrence of the separator in only one way. |
| Tokenizer.Classify | src/commands.rs:332-352 | The token of an argument renders back to exactly that argument, and it is canonical: a short name does not start with `-`, a long name is non-empty without `=`, an inline key has no `=`, a word does not start with `-`. |
| Tokenizer.ClassifyRenderShort | src/commands.rs:347-349 | `-n` is classified as short option `n` whenever `n` does not start with `-`. |
| Tokenizer.ClassifyRenderLong | src/commands.rs:338-343 | `--n` is classified as long option `n` for every non-empty `n` without `=`. |
| Tokenizer.ClassifyRenderLongWithValue | src/commands.rs:338-341 | `--k=v` is split at its first `=` into key `k` and value `v` whenever `k` has no `=`, whatever `v` holds. |
| Tokenizer.ClassifyRenderWord | src/commands.rs:352 | An argument without a leading `-` is a word, verbatim. |
| Tokenizer.ClassifyRender | src/commands.rs:332-352 | Every canonical token is read back from its rendering; with Classify's contract, classification is a bijection between arguments and canonical tokens. |
| Tokenizer.Tokenized | src/commands.rs:323-356 | Never fails; exactly one token per argument, in order; token `k` is a verbatim word when a `--` occurs before position `k`, and the classification of `args[k]` otherwise; every token renders back to its argument. |
| Tokenizer.EndOfOptionsLatch | src/commands.rs:327-336 | The first `--` yields the end-of-options marker and every later argument becomes a verbatim word, even one that starts with `-`. |
| Tokenizer.Tokenize | src/commands.rs:323-356 | The loop with its latch produces exactly `Tokenized(args)`. |
| Schema.New | src/commands.rs:95-102 | The new node has the given name and description, and no name finds an argument or a child in it. |
| Schema.AddArg | src/commands.rs:104-121 | The definition is appended after all earlier ones; name, description and children are unchanged. |
| Schema.AddSubcommand | src/commands.rs:123-126 | The child is appended after all earlier ones; name, description and arguments are unchanged. |
| Schema.FindArg | src/commands.rs:309-311 | A found definition is one of the node's and has the name as long or short name; nothing is found exactly when no definition has that name. |
| Schema.FindSubcommand | src/commands.rs:305-307 | A found child is one of the node's and has that name; nothing is found exactly when no child has it. |
| Schema.FindArgFirst | src/commands.rs:309-311 | When several definitions carry the name, the one found is the earliest: no definition before it has the name as long or short name. |
| Schema.FindSubcommandFirst | src/commands.rs:305-307 | When several children carry the name, the one found is the earliest: no child before it has that name. |
| Schema.AddArgLookup | src/commands.rs:104-121 | After adding a definition, a name that found one before finds the same one; otherwise it finds the new definition exactly when that has the name as long or short name. |
| Schema.AddSubcommandLookup | src/commands.rs:123-126 | After adding a child, a name that found one before finds the same one; otherwise it finds the new child exactly when the names agree. |
| Schema.GetCommandFromPath | src/commands.rs:156-173 | A resolved node is named by the last path element; the empty path resolves to nothing; a one-element path resolves exactly when it is the node's own name. |
| Schema.GetCommandFromPathAgrees | src/commands.rs:156-173 | For a path that starts with the root's name, the lookup agrees with `Resolve`, the reading that checks every element against the node reached. |
| Schema.GetCommandFromPathIgnoresHead | src/commands.rs:166-169 | A path longer than one element resolves the same whatever its first element is, because only `path[1..]` is compared. |
| Schema.GetCommandFromPathExtend | src/commands.rs:166-169 | If a path resolves to a node, the path extended by a child's name resolves to that child. |
| Parser.Command.GetPath | src/commands.rs:372-374 | The accessor returns the stored path; `ParsedPathResolves` states what that path is after a successful parse. |
| Parser.ParsedPathResolves | src/commands.rs:175-303 | After a successful parse, the path `get_path` returns is non-empty and starts with the root's name. `get_command_from_path` resolves it to a node named by its last element, and every stored argument is one of that node's definitions, with a value exactly when it is not a flag. |
| Parser.Command.GetArg | src/commands.rs:376-378 | Finds a value exactly when the long name is a key, and then it is the stored value; `ParsedArgTyped` states what such a key is after a successful parse. |
| Parser.ParsedArgTyped | src/commands.rs:175-303 | After a successful parse, a key `get_arg` finds is the long name of a definition of the node the parse stopped at (which `get_command_from_path` resolves from `get_path`), holding `Flag` exactly when that definition is a flag. |
| Parser.Command.GetPositionalString | src/commands.rs:380-382 | No positionals give the empty string and one positional gives itself; more start with the first positional and a space. `PositionalStringJoined` states the whole string. |
| Parser.PositionalStringJoined | src/commands.rs:380-382 | With at least one positional, the string is the first positional followed by every later one, each preceded by exactly one space, in order. |
| Seqs.JoinAsConcat | src/commands.rs:381 | `join(sep)` of a non-empty list is its first part followed by every later part, each preceded by the separator. |
| Parser.Loop | src/commands.rs:196-296 | The remaining iterations of the cursor loop: whatever the outcome, the result's path extends the current path, because a dispatch only appends names. |
| Parser.Parse | src/commands.rs:182-303 | `parse_intrnal` at a node: the result's path is the given path followed by the node's name, then possibly the names of descendants. |
| Parser.ParseArgs | src/commands.rs:175-180 | `parse` from the root with an empty path: every result's path starts with the root's name. |
| Parser.ParseInternal | src/commands.rs:182-303 | The loop over the cursor, with its in-place updates and the recursive dispatch, returns exactly `Parse(def, tokens, path)`. |
| Parser.ParseCommandLine | src/commands.rs:175-180 | Tokenizing the whole argument list and parsing from the root with an empty path gives exactly `ParseArgs(root, argv)`. |
| Parser.LoopStaysAtNode | src/commands.rs:219-227 | Once the subcommand latch is closed, or everything is positional, every result carries exactly the current path. |
| Parser.ParseDispatch | src/commands.rs:219-227 | If the first token after the node's name is a word, not `help`, that names a child, the result is the child's result unchanged; otherwise the result's path ends at this node. |
| Parser.ParseHelpRequested | src/commands.rs:213-232 | `help` as the first word, or `-h`, `-help`, `--h`, `--help` as the first option, fails with `HelpRequested` and the current path, even where a child or an argument has that name. |
| Parser.ParseUnknownOption | src/commands.rs:229-238 | A short, long or inline option whose name no definition carries fails with `UnknownArg`, whatever follows it. |
| Parser.ParseFlagOption | src/commands.rs:229-241 | A flag, short or long, is stored as present under its definition's long name and takes no value: parsing goes on with the very next token with dispatch switched off, so a following word other than `help` is a positional. `--name=value` for a flag fails with `UnexpectedArgValue` whatever follows. |
| Parser.ParseValueOption | src/commands.rs:241-266 | A value option, short or long, fails with `MissingArgValue` at the end and before every token that is not a word, whatever follows. A following word is the value whatever it says: it is stored under the long name and parsing goes on after it with dispatch switched off, so a later word other than `help` is a positional. |
| Parser.ParseInlineValue | src/commands.rs:269-288 | `--name=value` for a value option stores the value under the long name, and parsing goes on with the next token with dispatch switched off. |
| Parser.LoopAfterEndOfOptions | src/commands.rs:199-211 | Once everything is positional, the parse succeeds; every remaining word is appended to the positionals in order and the arguments are unchanged. |
| Parser.ParseArgsEndOfOptions | src/commands.rs:199-211 | `--` right after the program name gives success at the root, with no arguments and every later argument as a positional, verbatim and in order. |
| Parser.LoopReadsFromCursor | src/commands.rs:193-197 | The result depends only on the tokens from the cursor on. |
| Parser.ParseIgnoresFirstToken | src/commands.rs:193 | A parse never examines the first token of its slice (the program name, or a child's own name token). |
| Parser.LoopSkipStep | src/commands.rs:199-211 | At any cursor position, once everything is positional a word is appended to the positionals and any other token is skipped; a `--` sets the latch. |
| Parser.LoopWordStep | src/commands.rs:289-295 | At any cursor position, a word other than `help` that does not dispatch is appended to the positionals and closes the dispatch latch. |
| Parser.LoopHelpStep | src/commands.rs:213-232 | At any cursor position before the latch, `help`, or a short or long option named `help` or `h`, fails with `HelpRequested` and the current path. |
| Parser.LoopDispatchStep | src/commands.rs:219-224 | At any cursor position with the dispatch latch open, a word other than `help` that names a child gives exactly the child's parse of the slice that starts at that word, with the child's name appended to the path. |
| Parser.LoopUnknownArgStep | src/commands.rs:229-277 | At any cursor position, an option whose name no definition carries fails with `UnknownArg`. |
| Parser.LoopFlagStep | src/commands.rs:239-267 | At any cursor position, a flag option stores `Flag` under the definition's long name, closes the dispatch latch and advances the cursor by one. |
| Parser.LoopTakeValueStep | src/commands.rs:241-266 | At any cursor position, a value option followed by a word stores that word under the long name, closes the dispatch latch and advances the cursor by two. |
| Parser.LoopMissingArgValueStep | src/commands.rs:241-258 | At any cursor position, a value option at the end or before a non-word fails with `MissingArgValue`. |
| Parser.LoopInlineValueStep | src/commands.rs:269-289 | At any cursor position, `--name=value` for a value option stores the value under the long name and advances the cursor by one. |
| Parser.LoopUnexpectedArgValueStep | src/commands.rs:279-284 | At any cursor position, `--name=value` for a flag fails with `UnexpectedArgValue`. |
| Parser.LoopEndStep | src/commands.rs:296-302 | With the cursor at the end, the result is success with the current path, arguments and positionals. |
| Parser.LoopAccounts | src/commands.rs:196-296 | From any state whose stored arguments fit the node, the result's path resolves from the root to the node the parse stopped at. Stored keys are long names of that node's definitions, of the matching kind. Errors name what the node lacks. `UnknownCommand` and `MissingValue` never occur. |
| Parser.ParseArgsAccounts | src/commands.rs:175-303 | For every argument list, the result's path starts with the root's name and resolves to the node the parse stopped at, and the result agrees with that node's definitions. |
| Help.HelpText | src/commands.rs:128-154 | The text starts with `Unknown command: ` exactly when the path does not resolve; otherwise it starts with `Command: ` and the last path element. |
| Help.PushLines | src/commands.rs:135-151 | Pushing the lines one after the other appends exactly their concatenation. |
| Help.GetHelp | src/commands.rs:128-154 | The text built with the two push loops is exactly `HelpText(root, path)`. |
| Help.ArgLinesSplit | src/commands.rs:135-146 | The line of each argument comes right after the lines of the definitions before it and right before those after it. |
| Help.HelpForParseError | src/commands.rs:128-131 | For every argument list that fails to parse, the help for the error's path describes a node of the tree and is never the unknown-command message. |
| Config.AnyWithPath | src/config.rs:57 | True exactly when some entry has the path. |
| Config.Retained | src/config.rs:73 | `retain` with `ws.path != p`: the list never grows, and no surviving entry has the removed path. |
| Config.RetainedCounts | src/config.rs:73 | `retain` keeps every entry with another path as often as before, and no entry with the removed path. |
| Config.RetainedMembers | src/config.rs:73 | An entry survives exactly when it was present and has another path. |
| Config.RetainedShorter | src/config.rs:72-74 | The list never grows, and it gets shorter exactly when some entry had the removed path. |
| Config.RetainedAppend | src/config.rs:73 | Removal distributes over concatenation, so the survivors keep their relative order. |
| Config.RetainedIdempotent | src/config.rs:71-75 | Removing the same path twice removes nothing more. |
| Config.AddThenRemove | src/config.rs:64-75 | Removing a path just added gives the list as it was, with that path removed. |
| Config.Config.constructor | src/config.rs:18-21 | The configuration starts with no workspaces. |
| Config.Config.HasWs | src/config.rs:56-58 | True exactly when some stored workspace has exactly this path. |
| Config.Config.GetWsAll | src/config.rs:60-62 | The stored list itself, in insertion order; a path is registered (`has_ws`) exactly when some entry of the returned list has it. |
| Config.Config.AddWs | src/config.rs:64-69 | Exactly one entry with the path is appended and earlier entries are unchanged; afterwards the path is present, and membership changes for no other path. |
| Config.Config.RemoveWs | src/config.rs:71-75 | The new list is the old one with every entry of that path dropped, in order. The result is true exactly when the path was present. Afterwards the path is absent, and membership changes for no other path. |
| Scenarios.RootLookups | src/commands.rs:104-126 | In the example tree, both names of an argument find its definition, the child is found by name, and other names find nothing. |
| Scenarios.ClassifyPlain | src/commands.rs:352 | A non-empty argument that does not start with `-` is a word. |
| Scenarios.ValueThenPositional | src/commands.rs:240-266 | `root --name X tail` stores `X` under `name` and leaves `tail` as the only positional. |
| Scenarios.EndOfOptionsLiteral | src/commands.rs:327-336 | `root -- --not-a-flag x` has two positionals and no arguments. |
| Scenarios.LatchAfterFlag | src/commands.rs:219-227 | In `root --flag child`, after the flag the child's name is a positional, not a dispatch. |
| Scenarios.UnknownArgInChild | src/commands.rs:219-238 | In `root child --bogus`, the unknown option is reported with the path `root child`. |
| Scenarios.MissingValueAtEnd | src/commands.rs:243-249 | `root --name` fails with `MissingArgValue`. |
| Scenarios.EndOfOptionsNotAValue | src/commands.rs:241-258 | `root --name -- x` fails with `MissingArgValue` for `name`: the `--` is neither the value nor the end of the options. |
| Scenarios.FlagWithValue | src/commands.rs:279-284 | `root --flag=1` fails with `UnexpectedArgValue`. |
| Scenarios.HelpForms | src/commands.rs:213-232 | `help`, `-h` and `--help` request help at the root, although the root has a child and arguments. |
| Scenarios.HelpUnknownRoot | src/commands.rs:129-131 | The help for `other` is `Unknown command: other`. |
| Scenarios.HelpUnknownChild | src/commands.rs:129-131 | The help for `x tail` is `Unknown command: x tail`, with the names joined by a space. |
| Scenarios.HelpIgnoresFirstName | src/commands.rs:166-169 | The help for `other child` describes the child, whatever the first name is. |

## Left out

- `Display for ParseError` (the error messages) is not modelled. It is string formatting only.
- `CommandDef::parse` reads `std::env::Args` and prints the tokens for debugging. `ParseCommandLine` takes the argument list as a parameter and prints nothing.
- `Config::load`, `Config::save` and `get_path` are not modelled: they use the file system, the home directory and JSON. The constructor stands for the configuration `load` returns when no file exists.
- `fzf.rs`, `tmux.rs` and `main.rs` are not part of this model. They spawn processes, read the environment and print.
- The builder's `self.args.push` and `self.subcommands.push` on a node taken by value are modelled as functions that return the extended node. The node is moved in and out, so nothing else can observe the update.
- The argument map (`HashMap`) is a Dafny `map`, and `PathBuf` is a `string` compared as a whole. Rust compares paths component by component, so `/a/b/` equals `/a/b` and `/a//b` equals `/a/b` in `has_ws` and `remove_ws`, while the model treats them as different. The front end (`get_path_from_str` in `main.rs`) passes a canonicalised path or the current directory, where the two comparisons agree.
- The `'static` lifetimes of names and the borrowing of the definition tree are not modelled.
- `UnknownCommand` and `MissingValue` are kept in `ParseError`, but nothing constructs them. `LoopAccounts` proves that no parse returns them.
- POSIX Guideline 10 is not modelled as such: the model follows the code, in which a `--` right after an option that takes a value makes that option fail with `MissingArgValue` instead of ending the options.
- Parser.ParseArgsEndOfOptions: requires the program name itself not to be `--`. When it is, the first token is still never examined, but the second `--` is then a word after the latch, so the statement differs.
- Help.GetHelp: each line is formatted by `ArgLine` or `SubcommandLine` and pushed by the loop in `PushLines`. The `format!` of each line is not modelled character by character beyond the layout those functions give.
- Config.Config.GetWsAll: returns the list by value, not a borrowed slice.
