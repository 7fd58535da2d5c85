/** The lexical layer of the argument parser: one token per raw argument, with a one-way
    "everything is positional" latch set by `--`, an end-of-options delimiter in the spirit of
    Guideline 10 in section 12.2 of the POSIX Utility Syntax Guidelines. */
module Tokenizer {
  import opened Wrappers
  import opened Seqs

  datatype Token =
    | Short(name: string)
    | Long(name: string)
    | LongWithValue(name: string, value: string)
    | EndOfOptions
    | Word(word: string)

  /** The raw argument a token was read from. */
  function Render(t: Token): string
  {
    match t
    case Short(n) => "-" + n
    case Long(n) => "--" + n
    case LongWithValue(k, v) => "--" + k + "=" + v
    case EndOfOptions => "--"
    case Word(w) => w
  }

  /** The tokens the classifier can produce while the latch is still open. */
  predicate Canonical(t: Token)
  {
    match t
    case Short(n) => !HasPrefix(n, "-")
    case Long(n) => n != "" && '=' !in n
    case LongWithValue(k, _) => '=' !in k
    case EndOfOptions => true
    case Word(w) => !HasPrefix(w, "-")
  }

  /** `str::split_once` on a single character: the parts before and after its first occurrence. */
  function SplitOnce(s: string, c: char): (r: Option<(string, string)>)
    ensures r.None? <==> c !in s
    ensures r.Some? ==> s == r.value.0 + [c] + r.value.1 && c !in r.value.0
  {
    match FindFirst(s, ch => ch == c)
    case None => None
    case Some(k) =>
      assert s == s[..k] + [c] + s[k + 1..];
      Some((s[..k], s[k + 1..]))
  }

  /** A string splits around the first occurrence of `c` in one way only. */
  lemma SplitAtFirstUnique(a: string, b: string, a': string, b': string, c: char)
    requires a + [c] + b == a' + [c] + b'
    requires c !in a && c !in a'
    ensures a == a' && b == b'
  {
    var s := a + [c] + b;
    assert s[|a|] == c && s[|a'|] == c;
    assert forall j :: 0 <= j < |a| ==> s[j] == a[j];
    assert forall j :: 0 <= j < |a'| ==> s[j] == a'[j];
    assert |a| == |a'|;
    assert a == s[..|a|] == a';
    assert b == s[|a| + 1..] == b';
  }

  /** How one raw argument is classified while the latch is open. */
  function Classify(arg: string): (t: Token)
    ensures Render(t) == arg
    ensures Canonical(t)
  {
    if arg == "--" then EndOfOptions
    else if HasPrefix(arg, "--") then
      match SplitOnce(arg[2..], '=')
      case Some((k, v)) => LongWithValue(k, v)
      case None => Long(arg[2..])
    else if HasPrefix(arg, "-") then
      assert |arg| >= 2 ==> arg[..2] == [arg[0], arg[1]] && arg[1..][..1] == [arg[1]];
      Short(arg[1..])
    else Word(arg)
  }

  lemma ClassifyRenderShort(n: string)
    requires !HasPrefix(n, "-")
    ensures Classify("-" + n) == Short(n)
  {
    var s := "-" + n;
    assert s[1..] == n;
    assert |n| >= 1 ==> s[..2] == ['-', n[0]] && n[..1] == [n[0]];
  }

  lemma ClassifyRenderLong(n: string)
    requires n != "" && '=' !in n
    ensures Classify("--" + n) == Long(n)
  {
    var s := "--" + n;
    assert s[2..] == n;
    assert |s| > 2;
  }

  lemma ClassifyRenderLongWithValue(k: string, v: string)
    requires '=' !in k
    ensures Classify("--" + k + "=" + v) == LongWithValue(k, v)
  {
    var s := "--" + k + "=" + v;
    assert |s| > 2;
    assert s[..2] == "--";
    assert s[2..] == k + ['='] + v;
    var split := SplitOnce(s[2..], '=');
    SplitAtFirstUnique(split.value.0, split.value.1, k, v, '=');
  }

  lemma ClassifyRenderWord(w: string)
    requires !HasPrefix(w, "-")
    ensures Classify(w) == Word(w)
  {
    assert |w| >= 1 ==> w[..1] == [w[0]];
    assert |w| >= 2 ==> w[..2] == [w[0], w[1]];
  }

  /** Every canonical token is read back from its own rendering: together with Classify's
      contract, classification is a bijection between raw strings and canonical tokens. */
  lemma ClassifyRender(t: Token)
    requires Canonical(t)
    ensures Classify(Render(t)) == t
  {
    match t
    case Short(n) => ClassifyRenderShort(n);
    case Long(n) => ClassifyRenderLong(n);
    case LongWithValue(k, v) => ClassifyRenderLongWithValue(k, v);
    case EndOfOptions =>
    case Word(w) => ClassifyRenderWord(w);
  }

  /** The token emitted for `args[k]`: a verbatim word once a `--` has been seen earlier, the
      classification otherwise. */
  function TokenAt(args: seq<string>, k: nat): Token
    requires k < |args|
  {
    if "--" in args[..k] then Word(args[k]) else Classify(args[k])
  }

  /** The token sequence for a whole argument list, as the tokenizer's loop builds it. */
  function Tokenized(args: seq<string>): (tokens: seq<Token>)
    ensures |tokens| == |args|
    ensures forall k :: 0 <= k < |args| ==> tokens[k] == TokenAt(args, k)
    ensures forall k :: 0 <= k < |args| ==> Render(tokens[k]) == args[k]
  {
    if |args| == 0 then []
    else if args[0] == "--" then
      var tokens := [EndOfOptions] + seq(|args| - 1, j requires 0 <= j < |args| - 1 => Word(args[j + 1]));
      assert forall k :: 1 <= k < |args| ==> args[..k][0] == "--";
      tokens
    else
      var tokens := [Classify(args[0])] + Tokenized(args[1..]);
      forall k | 1 <= k < |args|
        ensures TokenAt(args, k) == TokenAt(args[1..], k - 1)
      {
        assert args[..k] == [args[0]] + args[1..][..k - 1];
      }
      tokens
  }

  /** A literal `--` is the end-of-options marker, and every later argument is a verbatim word,
      even one that starts with `-`. */
  lemma EndOfOptionsLatch(args: seq<string>, k: nat)
    requires k < |args| && args[k] == "--" && "--" !in args[..k]
    ensures Tokenized(args)[k] == EndOfOptions
    ensures forall j :: k < j < |args| ==> Tokenized(args)[j] == Word(args[j])
  {
    forall j | k < j < |args|
      ensures "--" in args[..j]
    {
      assert args[..j][k] == "--";
    }
  }

  /** `tokenize`: one pass over the arguments with the latch. */
  method Tokenize(args: seq<string>) returns (out: seq<Token>)
    ensures out == Tokenized(args)
  {
    out := [];
    var everythingIsPositional := false;
    for k := 0 to |args|
      invariant |out| == k
      invariant everythingIsPositional <==> "--" in args[..k]
      invariant forall j :: 0 <= j < k ==> out[j] == TokenAt(args, j)
    {
      var arg := args[k];
      assert args[..k + 1] == args[..k] + [arg];
      if everythingIsPositional {
        out := out + [Word(arg)];
      } else if arg == "--" {
        out := out + [EndOfOptions];
        everythingIsPositional := true;
      } else if HasPrefix(arg, "--") {
        var rest := arg[2..];
        match SplitOnce(rest, '=') {
          case Some((key, value)) =>
            out := out + [LongWithValue(key, value)];
          case None =>
            out := out + [Long(rest)];
        }
      } else if HasPrefix(arg, "-") {
        out := out + [Short(arg[1..])];
      } else {
        out := out + [Word(arg)];
      }
    }
  }
}
