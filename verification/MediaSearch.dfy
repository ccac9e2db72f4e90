/** The search for matching files below an entry, with a limit on how many are returned. */
module MediaSearch {
  import opened Options
  import opened MediaTree

  /** The matching files of a tree in depth-first order; entries without a child count are files. */
  function FilesOf(t: Tree, matches: Tree -> bool): seq<Tree>
    decreases t, 0
  {
    if t.childCount >= 0 then Files(t.children, matches) else if matches(t) then [t] else []
  }

  function Files(ts: seq<Tree>, matches: Tree -> bool): seq<Tree>
    decreases ts, 1
  {
    if ts == [] then [] else Files(ts[..|ts| - 1], matches) + FilesOf(ts[|ts| - 1], matches)
  }

  function Filtered(ts: seq<Tree>, matches: Tree -> bool): seq<Tree> {
    if ts == [] then []
    else Filtered(ts[..|ts| - 1], matches) + if matches(ts[|ts| - 1]) then [ts[|ts| - 1]] else []
  }

  lemma {:induction false} FilteredConcat(a: seq<Tree>, b: seq<Tree>, matches: Tree -> bool)
    ensures Filtered(a + b, matches) == Filtered(a, matches) + Filtered(b, matches)
  {
    if b == [] {
      assert a + b == a;
    } else {
      var c := b[..|b| - 1];
      assert (a + b)[..|a + b| - 1] == a + c;
      FilteredConcat(a, c, matches);
    }
  }

  lemma {:induction false} FilesOfFiltered(t: Tree, all: Tree -> bool, matches: Tree -> bool)
    requires forall x :: all(x)
    ensures FilesOf(t, matches) == Filtered(FilesOf(t, all), matches)
    decreases t, 0
  {
    if t.childCount >= 0 { FilesFiltered(t.children, all, matches); } else { assert [t][..0] == []; }
  }

  /** The matching files are those of all files that match, in the same order. */
  lemma {:induction false} FilesFiltered(ts: seq<Tree>, all: Tree -> bool, matches: Tree -> bool)
    requires forall x :: all(x)
    ensures Files(ts, matches) == Filtered(Files(ts, all), matches)
    decreases ts, 1
  {
    if ts != [] {
      var front, last := ts[..|ts| - 1], ts[|ts| - 1];
      FilesFiltered(front, all, matches);
      FilesOfFiltered(last, all, matches);
      FilteredConcat(Files(front, all), FilesOf(last, all), matches);
    }
  }

  /** The first count elements; 0 stands for all. */
  function First<T>(count: int, s: seq<T>): (f: seq<T>)
    ensures count >= 0 ==> f <= s
    ensures count > 0 ==> |f| == if |s| < count then |s| else count
  {
    if count == 0 then s else if count < 0 then [] else if |s| <= count then s else s[..count]
  }

  /** Filling up in two portions: the second gets what is left of the limit, which is never 0. */
  lemma FirstConcat<T>(count: int, a: seq<T>, b: seq<T>)
    requires count >= 0
    ensures First(count, a + b) ==
            if count == 0 then a + b
            else if |First(count, a)| < count then First(count, a) + First(count - |First(count, a)|, b)
            else First(count, a)
  {
    if count > 0 && |a| < count {
      assert First(count, a) == a;
      if |a| + |b| > count { assert (a + b)[..count] == a + b[..count - |a|]; }
    } else if count > 0 {
      assert First(count, a) == a[..count];
      assert |b| > 0 || |a| > count ==> (a + b)[..count] == a[..count];
      assert b == [] ==> a + b == a;
    }
  }

  /** The DIDL document under construction: the items added so far. */
  class Buffer {
    var items: seq<Tree>

    constructor ()
      ensures items == []
    {
      items := [];
    }

    method AddItem(t: Tree)
      modifies this
      ensures items == old(items) + [t]
    {
      items := items + [t];
    }
  }

  lemma FilesNext(ts: seq<Tree>, i: nat, matches: Tree -> bool)
    requires i < |ts|
    ensures Files(ts[..i + 1], matches) == Files(ts[..i], matches) + FilesOf(ts[i], matches)
  {
    assert ts[..i + 1][..i] == ts[..i];
  }

  /** One child: what is below a container, or the file itself if it matches. */
  method SearchOne(out: Buffer, rest: int, child: Tree, matches: Tree -> bool) returns (n: int)
    requires rest >= 0
    modifies out
    ensures out.items == old(out.items) + First(rest, FilesOf(child, matches))
    ensures n == |First(rest, FilesOf(child, matches))|
    decreases child, 2
  {
    hide Files;
    hide First;
    FirstSmall(rest, child);
    n := 0;
    if child.childCount >= 0 {
      n := SearchBelow(out, rest, child, matches);
    } else if matches(child) {
      out.AddItem(child);
      n := 1;
    }
  }

  /** What the loop has after one more child, in either case of its test. */
  lemma FirstNext(count: int, sofar: seq<Tree>, here: seq<Tree>)
    ensures count == 0 ==> First(count, sofar + here) == First(count, sofar) + First(0, here)
    ensures count != 0 && |First(count, sofar)| < count ==>
      First(count, sofar + here) == First(count, sofar) + First(count - |First(count, sofar)|, here)
    ensures count != 0 && |First(count, sofar)| >= count ==> First(count, sofar + here) == First(count, sofar)
  {
    if count >= 0 { FirstConcat(count, sofar, here); }
  }

  /** The loop over the children, common to both searches: what was added so far are the first
      matching files, and a positive limit leaves a positive rest. */
  method SearchChildren(out: Buffer, count: int, entry: Tree, matches: Tree -> bool) returns (n: int)
    modifies out
    ensures out.items == old(out.items) + First(count, Files(entry.children, matches))
    ensures n == |First(count, Files(entry.children, matches))|
    decreases entry, 0
  {
    hide Files;
    hide FilesOf;
    hide First;
    var ts := entry.children;
    n := 0;
    var i := 0;
    FirstOfNothing(count, ts, matches);
    while i < |ts|
      invariant 0 <= i <= |ts|
      invariant out.items == old(out.items) + First(count, Files(ts[..i], matches))
      invariant n == |First(count, Files(ts[..i], matches))|
    {
      FilesNext(ts, i, matches);
      FirstNext(count, Files(ts[..i], matches), FilesOf(ts[i], matches));
      if count == 0 || n < count {
        var rest := if count == 0 then 0 else count - n;
        assert count != 0 ==> rest >= 1;
        var more := SearchOne(out, rest, ts[i], matches);
        n := n + more;
      }
      i := i + 1;
    }
    assert ts[..i] == ts;
  }

  lemma FirstOfNothing(count: int, ts: seq<Tree>, matches: Tree -> bool)
    ensures First(count, Files(ts[..0], matches)) == []
  {
  }

  /** One file fits whenever there is room at all. */
  lemma FirstSmall(rest: int, t: Tree)
    requires rest >= 0
    ensures First(rest, [t]) == [t]
    ensures First<Tree>(rest, []) == []
  {
  }

  /** The matching files below an entry, at most count of them, or all for 0; -1 for a file. */
  method SearchBelow(out: Buffer, count: int, entry: Tree, matches: Tree -> bool) returns (n: int)
    requires count >= 0
    modifies out
    ensures entry.childCount == -1 ==> n == -1 && out.items == old(out.items)
    ensures entry.childCount != -1 ==>
      out.items == old(out.items) + First(count, Files(entry.children, matches))
      && n == |First(count, Files(entry.children, matches))|
    decreases entry, 1
  {
    if entry.childCount == -1 {
      return -1;
    }
    n := SearchChildren(out, count, entry, matches);
  }

  /** The search at the top: a limit of 0 is replaced by the number of children. */
  method SearchTop(out: Buffer, count: int, entry: Tree, matches: Tree -> bool) returns (n: int)
    modifies out
    ensures entry.childCount == -1 ==> n == -1 && out.items == old(out.items)
    ensures entry.childCount != -1 ==>
      out.items == old(out.items) + Returned(count, entry, matches) && n == |Returned(count, entry, matches)|
  {
    if entry.childCount == -1 {
      return -1;
    }
    var limit := count;
    if limit == 0 {
      limit := entry.childCount;
    }
    n := SearchChildren(out, limit, entry, matches);
  }

  function Returned(count: int, entry: Tree, matches: Tree -> bool): seq<Tree> {
    First(if count == 0 then entry.childCount else count, Files(entry.children, matches))
  }

  // ----- what a request gets -----

  /** A positive limit gets exactly the first so many matching files in depth-first order. */
  lemma PositiveCount(count: int, entry: Tree, matches: Tree -> bool)
    requires count > 0
    ensures var files := Files(entry.children, matches);
      Returned(count, entry, matches) == files[..if |files| < count then |files| else count]
  {
  }

  /** A limit of 0, which asks for everything, gets everything exactly when there are no more
      matching files than children, or no children. */
  lemma ZeroCountIff(entry: Tree, matches: Tree -> bool)
    requires entry.childCount == |entry.children|
    ensures var files := Files(entry.children, matches);
      Returned(0, entry, matches) == files <==> |files| <= entry.childCount || entry.childCount == 0
  {
  }

  /** Two files in the only directory: a request for everything gets one of them. */
  lemma ZeroCountMisses(matches: Tree -> bool) returns (entry: Tree)
    requires forall t :: matches(t)
    ensures entry.childCount == |entry.children| == 1
    ensures |Files(entry.children, matches)| == 2 && |Returned(0, entry, matches)| == 1
  {
    var a, b := Tree(2, "a", -1, []), Tree(3, "b", -1, []);
    var dir := Tree(1, "dir", 2, [a, b]);
    entry := Tree(0, "root", 1, [dir]);
    assert [a, b][..1] == [a] && [a][..0] == [];
    assert Files([a], matches) == [a];
    assert Files([a, b], matches) == [a] + [b];
    assert [dir][..0] == [];
    assert Files([dir], matches) == [] + [a, b];
  }
}
