/** Sequence and string helpers standing for the Rust library calls the parser uses. */
module Seqs {
  import opened Wrappers

  /** Index of the first element satisfying `p`: what `Iterator::find` with a closure returns a
      reference to. */
  function FindFirst<T>(xs: seq<T>, p: T -> bool): (r: Option<nat>)
    ensures r.Some? ==> r.value < |xs| && p(xs[r.value])
    ensures r.Some? ==> forall j :: 0 <= j < r.value ==> !p(xs[j])
    ensures r.None? ==> forall j :: 0 <= j < |xs| ==> !p(xs[j])
  {
    if |xs| == 0 then None
    else if p(xs[0]) then Some(0)
    else match FindFirst(xs[1..], p)
      case None => None
      case Some(k) => Some(k + 1)
  }

  /** Appending an element never changes an earlier first match: the first match in definition
      order wins. */
  lemma FindFirstAppend<T>(xs: seq<T>, x: T, p: T -> bool)
    ensures FindFirst(xs + [x], p) ==
      if FindFirst(xs, p).Some? then FindFirst(xs, p)
      else if p(x) then Some(|xs|)
      else None
  {
    var ys := xs + [x];
    assert forall j :: 0 <= j < |xs| ==> ys[j] == xs[j];
    assert ys[|xs|] == x;
    match FindFirst(xs, p)
    case Some(k) =>
      var r := FindFirst(ys, p);
      assert p(ys[k]);
      assert r.Some?;
      assert !(r.value < k);
      assert !(r.value > k);
    case None =>
      var r := FindFirst(ys, p);
      if r.Some? {
        assert r.value == |xs|;
      }
  }

  predicate HasPrefix<T(==)>(s: seq<T>, prefix: seq<T>)
  {
    |prefix| <= |s| && s[..|prefix|] == prefix
  }

  /** `[&str]::join`: the parts with `sep` between consecutive ones. */
  function Join(parts: seq<string>, sep: string): string
  {
    if |parts| == 0 then ""
    else if |parts| == 1 then parts[0]
    else parts[0] + sep + Join(parts[1..], sep)
  }

  /** The parts written one after the other, as repeated `String::push_str` does. */
  function Concat(parts: seq<string>): string
  {
    if |parts| == 0 then "" else Concat(parts[..|parts| - 1]) + parts[|parts| - 1]
  }

  lemma {:induction false} ConcatAppend(a: seq<string>, b: seq<string>)
    ensures Concat(a + b) == Concat(a) + Concat(b)
    decreases |b|
  {
    if |b| == 0 {
      assert a + b == a;
    } else {
      ConcatAppend(a, b[..|b| - 1]);
      assert (a + b)[..|a + b| - 1] == a + b[..|b| - 1];
    }
  }

  /** Writing one more part extends the text by exactly that part. */
  lemma ConcatStep(parts: seq<string>, k: nat)
    requires k < |parts|
    ensures Concat(parts[..k + 1]) == Concat(parts[..k]) + parts[k]
  {
    assert parts[..k + 1][..k] == parts[..k];
  }

  /** Each part preceded by `sep`. */
  function Prefixed(sep: string, parts: seq<string>): (r: seq<string>)
    ensures |r| == |parts|
  {
    seq(|parts|, k requires 0 <= k < |parts| => sep + parts[k])
  }

  /** Joining is the first part followed by every later part, each preceded by the separator. */
  lemma {:induction false} JoinAsConcat(parts: seq<string>, sep: string)
    requires |parts| > 0
    ensures Join(parts, sep) == parts[0] + Concat(Prefixed(sep, parts[1..]))
    decreases |parts|
  {
    if |parts| == 1 {
      assert parts[1..] == [];
      assert parts[0] + "" == parts[0];
    } else {
      var tail := parts[1..];
      JoinAsConcat(tail, sep);
      assert tail[1..] == parts[2..];
      var x := sep + parts[1];
      assert Prefixed(sep, tail) == [x] + Prefixed(sep, parts[2..]);
      ConcatAppend([x], Prefixed(sep, parts[2..]));
      assert [x][..0] == [];
      assert Concat([x]) == x;
    }
  }
}
