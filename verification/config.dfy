/** The in-memory list of registered workspaces: membership by path, appending, and removal of
    every entry with a given path. Paths are compared as whole strings. */
module Config {

  datatype Workspace = Workspace(path: string)

  /** `Iterator::any` over the list: some entry has path `p`. */
  function AnyWithPath(ws: seq<Workspace>, p: string): (b: bool)
    ensures b <==> exists k :: 0 <= k < |ws| && ws[k].path == p
  {
    if |ws| == 0 then false
    else if ws[|ws| - 1].path == p then true
    else
      var b := AnyWithPath(ws[..|ws| - 1], p);
      assert forall k :: 0 <= k < |ws| - 1 ==> ws[..|ws| - 1][k] == ws[k];
      b
  }

  /** `Vec::retain` with the closure `ws.path != p`: the entries with another path, in their
      original order. */
  function Retained(ws: seq<Workspace>, p: string): (r: seq<Workspace>)
    ensures |r| <= |ws|
    ensures forall k :: 0 <= k < |r| ==> r[k].path != p
  {
    if |ws| == 0 then []
    else if ws[|ws| - 1].path == p then Retained(ws[..|ws| - 1], p)
    else Retained(ws[..|ws| - 1], p) + [ws[|ws| - 1]]
  }

  /** Exactly the entries with another path survive, each as often as before. */
  lemma {:induction false} RetainedCounts(ws: seq<Workspace>, p: string)
    ensures forall w: Workspace :: multiset(Retained(ws, p))[w] == if w.path == p then 0 else multiset(ws)[w]
    decreases |ws|
  {
    if |ws| > 0 {
      var front, last := ws[..|ws| - 1], ws[|ws| - 1];
      assert ws == front + [last];
      RetainedCounts(front, p);
    }
  }

  /** An entry survives exactly when it was present and has another path. */
  lemma RetainedMembers(ws: seq<Workspace>, p: string)
    ensures forall w: Workspace :: w in Retained(ws, p) <==> w in ws && w.path != p
  {
    RetainedCounts(ws, p);
    forall w: Workspace
      ensures w in Retained(ws, p) <==> w in ws && w.path != p
    {
      assert w in Retained(ws, p) <==> multiset(Retained(ws, p))[w] > 0;
      assert w in ws <==> multiset(ws)[w] > 0;
    }
  }

  /** The list gets shorter exactly when some entry has the removed path. */
  lemma {:induction false} RetainedShorter(ws: seq<Workspace>, p: string)
    ensures |Retained(ws, p)| <= |ws|
    ensures |Retained(ws, p)| < |ws| <==> AnyWithPath(ws, p)
    decreases |ws|
  {
    if |ws| > 0 {
      var front, last := ws[..|ws| - 1], ws[|ws| - 1];
      RetainedShorter(front, p);
      assert AnyWithPath(ws, p) <==> AnyWithPath(front, p) || last.path == p;
    }
  }

  /** Removal keeps relative order: removing from a concatenation removes from each part. */
  lemma {:induction false} RetainedAppend(a: seq<Workspace>, b: seq<Workspace>, p: string)
    ensures Retained(a + b, p) == Retained(a, p) + Retained(b, p)
    decreases |b|
  {
    if |b| == 0 {
      assert a + b == a;
    } else {
      var front, last := b[..|b| - 1], b[|b| - 1];
      assert (a + b)[..|a + b| - 1] == a + front;
      assert (a + b)[|a + b| - 1] == last;
      RetainedAppend(a, front, p);
    }
  }

  /** Removing twice removes nothing more. */
  lemma {:induction false} RetainedIdempotent(ws: seq<Workspace>, p: string)
    ensures Retained(Retained(ws, p), p) == Retained(ws, p)
    decreases |ws|
  {
    if |ws| > 0 {
      var front := ws[..|ws| - 1];
      var last := ws[|ws| - 1];
      RetainedIdempotent(front, p);
      if last.path != p {
        RetainedAppend(Retained(front, p), [last], p);
      }
    }
  }

  /** Removing a path just added restores the list as it was with that path removed. */
  lemma AddThenRemove(ws: seq<Workspace>, p: string)
    ensures Retained(ws + [Workspace(p)], p) == Retained(ws, p)
  {
    RetainedAppend(ws, [Workspace(p)], p);
  }

  /** The persistent configuration: the registered workspaces in the order they were added. */
  class Config {
    var workspaces: seq<Workspace>

    /** The configuration `Config::load` yields when no file exists. */
    constructor ()
      ensures workspaces == []
    {
      workspaces := [];
    }

    /** `has_ws`: some stored workspace has exactly this path. */
    function HasWs(path: string): (b: bool)
      reads this
      ensures b <==> exists k :: 0 <= k < |workspaces| && workspaces[k].path == path
    {
      AnyWithPath(workspaces, path)
    }

    /** `get_ws_all`: the stored list itself, in insertion order. */
    function GetWsAll(): (r: seq<Workspace>)
      reads this
      ensures r == workspaces
      ensures forall q :: HasWs(q) <==> exists k :: 0 <= k < |r| && r[k].path == q
    {
      workspaces
    }

    /** `add_ws`: one entry at the end, duplicates included; earlier entries are untouched. */
    method AddWs(path: string)
      modifies this
      ensures workspaces == old(workspaces) + [Workspace(path)]
      ensures HasWs(path)
      ensures forall q :: HasWs(q) <==> old(HasWs(q)) || q == path
    {
      workspaces := workspaces + [Workspace(path)];
      assert workspaces[|workspaces| - 1].path == path;
      forall q
        ensures HasWs(q) <==> old(HasWs(q)) || q == path
      {
        assert forall k :: 0 <= k < |old(workspaces)| ==> workspaces[k] == old(workspaces)[k];
      }
    }

    /** `remove_ws`: drops every entry with this path, keeps the others in order, and reports
        whether the list got shorter, which is whether the path was present. */
    method RemoveWs(path: string) returns (removed: bool)
      modifies this
      ensures workspaces == Retained(old(workspaces), path)
      ensures removed <==> old(HasWs(path))
      ensures !HasWs(path)
      ensures forall q :: q != path ==> (HasWs(q) <==> old(HasWs(q)))
    {
      var originalLen := |workspaces|;
      ghost var before := workspaces;
      RetainedShorter(before, path);
      RetainedMembers(before, path);
      workspaces := Retained(workspaces, path);
      removed := originalLen > |workspaces|;
      forall q | q != path
        ensures HasWs(q) <==> old(HasWs(q))
      {
        if old(HasWs(q)) {
          var k :| 0 <= k < |before| && before[k].path == q;
          assert before[k] in workspaces;
        }
        if HasWs(q) {
          var k :| 0 <= k < |workspaces| && workspaces[k].path == q;
          assert workspaces[k] in before;
        }
      }
    }
  }
}
