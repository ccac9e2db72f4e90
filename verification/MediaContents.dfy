/** Which entries the media tree has, read off the content directories. */
module MediaContents {
  import opened Options
  import opened MediaTree
  import opened MediaSearch

  /** A tree without its ids. */
  datatype Shape = Item(name: string) | Container(name: string, inside: seq<Shape>)

  /** A directory is shown if its name can be converted, a file if besides its extension is valid and
      its mime type known. */
  predicate Shown(n: Dirent) {
    match n
    case Skipped => false
    case File(_, valid, mime, title) => valid && mime && title
    case Dir(_, title, _) => title
  }

  /** One item for each file that is shown and one container for each directory, with what is shown
      inside it; in the order of the directories. */
  function Shapes(ns: seq<Dirent>): seq<Shape> {
    if ns == [] then [] else (if Shown(ns[0]) then [ShapeOf(ns[0])] else []) + Shapes(ns[1..])
  }

  function ShapeOf(n: Dirent): Shape
    requires Shown(n)
  {
    if n.File? then Item(n.name) else Container(n.name, Shapes(n.entries))
  }

  function TreeShape(t: Tree): Shape
    decreases t, 0
  {
    if t.childCount == -1 then Item(t.name) else Container(t.name, TreeShapes(t.children))
  }

  function TreeShapes(ts: seq<Tree>): seq<Shape>
    decreases ts, 1
  {
    if ts == [] then [] else [TreeShape(ts[0])] + TreeShapes(ts[1..])
  }

  /** Items have no children, and containers count theirs. */
  predicate Counted(t: Tree)
    decreases t, 0
  {
    (if t.childCount == -1 then t.children == [] else t.childCount == |t.children|) && AllCounted(t.children)
  }

  predicate AllCounted(ts: seq<Tree>)
    decreases ts, 1
  {
    ts != [] ==> Counted(ts[0]) && AllCounted(ts[1..])
  }

  lemma {:induction false} ScanShows(n: Dirent, next: int)
    ensures Scan(n, next).0.Some? <==> Shown(n)
    ensures Shown(n) ==> TreeShape(Scan(n, next).0.value) == ShapeOf(n) && Counted(Scan(n, next).0.value)
    decreases n, 0
  {
    if n.Dir? { ScanAllShows(n.entries, next + 1); }
  }

  /** A scan finds exactly the files and directories that are to be shown, in their order, whatever
      ids it gives out. */
  lemma {:induction false} ScanAllShows(ns: seq<Dirent>, next: int)
    ensures TreeShapes(ScanAll(ns, next).0) == Shapes(ns)
    ensures AllCounted(ScanAll(ns, next).0)
    decreases ns, 1
  {
    if ns != [] {
      var (t, mid) := Scan(ns[0], next);
      var (rest, last) := ScanAll(ns[1..], mid);
      ScanShows(ns[0], next);
      ScanAllShows(ns[1..], mid);
      if t.Some? {
        assert ([t.value] + rest)[1..] == rest;
      } else {
        assert [] + rest == rest;
      }
    }
  }

  /** The whole tree has the root and, below it, exactly what is to be shown. */
  lemma BuiltShows(xbox: bool, startingId: int, contents: seq<Dirent>)
    ensures var t := Built(xbox, startingId, contents);
      TreeShape(t) == Container("root", Shapes(contents)) && Counted(t)
  {
    ScanAllShows(contents, FirstId(xbox, startingId));
  }

  // ----- the path to an entry -----

  /** The entry n is reached by the path, position by position, through directories that are
      shown. */
  predicate Leads(ns: seq<Dirent>, path: seq<nat>, n: Dirent)
    decreases |path|
  {
    && path != [] && path[0] < |ns| && Shown(ns[path[0]])
    && if |path| == 1 then ns[path[0]] == n else ns[path[0]].Dir? && Leads(ns[path[0]].entries, path[1..], n)
  }

  predicate InShapes(x: Shape, shapes: seq<Shape>)
    decreases shapes, 1
  {
    shapes != [] && (InShape(x, shapes[0]) || InShapes(x, shapes[1..]))
  }

  predicate InShape(x: Shape, s: Shape)
    decreases s, 0
  {
    x == s || (s.Container? && InShapes(x, s.inside))
  }

  lemma {:induction false} ShapesAt(ns: seq<Dirent>, i: nat, x: Shape)
    requires i < |ns| && Shown(ns[i]) && InShape(x, ShapeOf(ns[i]))
    ensures InShapes(x, Shapes(ns))
  {
    if i == 0 {
      assert Shapes(ns) == [ShapeOf(ns[0])] + Shapes(ns[1..]);
    } else {
      ShapesAt(ns[1..], i - 1, x);
      var rest := Shapes(ns[1..]);
      if Shown(ns[0]) {
        assert ([ShapeOf(ns[0])] + rest)[1..] == rest;
      } else {
        assert [] + rest == rest;
      }
    }
  }

  lemma {:induction false} LeadsToShape(ns: seq<Dirent>, path: seq<nat>, n: Dirent)
    requires Leads(ns, path, n)
    ensures Shown(n) && InShapes(ShapeOf(n), Shapes(ns))
    decreases |path|
  {
    if |path| > 1 { LeadsToShape(ns[path[0]].entries, path[1..], n); }
    ShapesAt(ns, path[0], ShapeOf(n));
  }

  lemma {:induction false} ShapeIsLed(ns: seq<Dirent>, x: Shape) returns (path: seq<nat>, n: Dirent)
    requires InShapes(x, Shapes(ns))
    ensures Leads(ns, path, n) && Shown(n) && ShapeOf(n) == x
    decreases ns
  {
    var rest := Shapes(ns[1..]);
    if Shown(ns[0]) { assert ([ShapeOf(ns[0])] + rest)[1..] == rest; } else { assert [] + rest == rest; }
    if Shown(ns[0]) && x == ShapeOf(ns[0]) {
      path, n := [0], ns[0];
    } else if Shown(ns[0]) && InShape(x, ShapeOf(ns[0])) {
      path, n := ShapeIsLed(ns[0].entries, x);
      assert ([0] + path)[1..] == path;
      path := [0] + path;
    } else {
      path, n := ShapeIsLed(ns[1..], x);
      LeadsLater(ns, path, n);
      path := [path[0] + 1] + path[1..];
    }
  }

  lemma LeadsLater(ns: seq<Dirent>, path: seq<nat>, n: Dirent)
    requires ns != [] && Leads(ns[1..], path, n)
    ensures Leads(ns, [path[0] + 1] + path[1..], n)
  {
    assert ([path[0] + 1] + path[1..])[1..] == path[1..];
    assert ns[1..][path[0]] == ns[path[0] + 1];
  }

  /** A path leads to something of shape x. */
  predicate Reached(ns: seq<Dirent>, path: seq<nat>, n: Dirent, x: Shape) {
    Leads(ns, path, n) && Shown(n) && ShapeOf(n) == x
  }

  /** A file or directory is in the tree if and only if a path leads to it on which every directory
      is shown. */
  lemma InTreeIff(ns: seq<Dirent>, next: int, x: Shape)
    ensures InShapes(x, TreeShapes(ScanAll(ns, next).0)) <==> exists path, n :: Reached(ns, path, n, x)
  {
    hide InShapes;
    ScanAllShows(ns, next);
    if InShapes(x, Shapes(ns)) {
      var path, n := ShapeIsLed(ns, x);
      assert Reached(ns, path, n, x);
    } else {
      forall path, n
        ensures !Reached(ns, path, n, x)
      {
        if Reached(ns, path, n, x) { LeadsToShape(ns, path, n); }
      }
    }
  }

  // ----- ids -----

  /** Ids that are used up for names that cannot be converted. */
  function LostIds(n: Dirent): nat {
    match n
    case Skipped => 0
    case File(_, valid, mime, title) => if valid && mime && !title then 1 else 0
    case Dir(_, title, entries) => if title then LostIdsIn(entries) else 1
  }

  function LostIdsIn(ns: seq<Dirent>): nat {
    if ns == [] then 0 else LostIds(ns[0]) + LostIdsIn(ns[1..])
  }

  lemma {:induction false} IdsUsed(n: Dirent, next: int)
    ensures Scan(n, next).1 == next + LostIds(n) + (if Shown(n) then |Preorder(Scan(n, next).0.value)| else 0)
    decreases n, 0
  {
    if n.Dir? && n.title {
      IdsUsedIn(n.entries, next + 1);
    } else if Shown(n) {
      assert Preorder(Tree(next, n.name, -1, [])) == [next];
    }
  }

  /** A scan uses one id for each entry, and one for each name that cannot be converted. */
  lemma {:induction false} IdsUsedIn(ns: seq<Dirent>, next: int)
    ensures ScanAll(ns, next).1 == next + LostIdsIn(ns) + |PreorderAll(ScanAll(ns, next).0)|
    decreases ns, 1
  {
    if ns != [] {
      var (t, mid) := Scan(ns[0], next);
      var (rest, last) := ScanAll(ns[1..], mid);
      IdsUsed(ns[0], next);
      IdsUsedIn(ns[1..], mid);
      if t.Some? {
        assert ([t.value] + rest)[1..] == rest;
      } else {
        assert [] + rest == rest;
      }
    }
  }

  lemma {:induction false} Consecutive(s: seq<int>, lo: int)
    requires Increasing(s) && Within(s, lo, lo + |s|)
    ensures forall i | 0 <= i < |s| :: s[i] == lo + i
  {
    if s != [] {
      var n := |s| - 1;
      var front := s[..n];
      forall i | 0 <= i < n
        ensures lo <= front[i] < lo + n
      {
        assert s[i] < s[n];
      }
      Consecutive(front, lo);
      assert forall i | 0 <= i < n :: s[i] == front[i];
      if n > 0 { assert s[n - 1] < s[n]; }
    }
  }

  /** If all names can be converted the ids are consecutive, in depth-first order. */
  lemma IdsConsecutive(ns: seq<Dirent>, next: int)
    requires LostIdsIn(ns) == 0
    ensures var ids := PreorderAll(ScanAll(ns, next).0);
      forall i | 0 <= i < |ids| :: ids[i] == next + i
  {
    ScanAllIncreases(ns, next);
    IdsUsedIn(ns, next);
    Consecutive(PreorderAll(ScanAll(ns, next).0), next);
  }

  // ----- what a search finds -----

  function Names(ts: seq<Tree>): seq<string> {
    if ts == [] then [] else Names(ts[..|ts| - 1]) + [ts[|ts| - 1].name]
  }

  /** The names of the items, in depth-first order. */
  function ItemsOf(s: Shape): seq<string>
    decreases s, 0
  {
    if s.Item? then [s.name] else Items(s.inside)
  }

  function Items(shapes: seq<Shape>): seq<string>
    decreases shapes, 1
  {
    if shapes == [] then [] else ItemsOf(shapes[0]) + Items(shapes[1..])
  }

  lemma {:induction false} NamesConcat(a: seq<Tree>, b: seq<Tree>)
    ensures Names(a + b) == Names(a) + Names(b)
  {
    if b == [] {
      assert a + b == a;
    } else {
      var c := b[..|b| - 1];
      assert (a + b)[..|a + b| - 1] == a + c;
      NamesConcat(a, c);
    }
  }

  lemma {:induction false} ItemsConcat(a: seq<Shape>, b: seq<Shape>)
    ensures Items(a + b) == Items(a) + Items(b)
  {
    if a == [] {
      assert a + b == b;
    } else {
      assert (a + b)[1..] == a[1..] + b;
      ItemsConcat(a[1..], b);
    }
  }

  lemma {:induction false} ShapesSnoc(ts: seq<Tree>)
    requires ts != []
    ensures TreeShapes(ts) == TreeShapes(ts[..|ts| - 1]) + [TreeShape(ts[|ts| - 1])]
    decreases |ts|
  {
    if |ts| > 1 {
      ShapesSnoc(ts[1..]);
      assert ts[1..][..|ts| - 2] == ts[..|ts| - 1][1..];
    }
  }

  lemma {:induction false} AllFiles(t: Tree, matches: Tree -> bool)
    requires (forall x :: matches(x)) && Counted(t)
    ensures Names(FilesOf(t, matches)) == ItemsOf(TreeShape(t))
    decreases t, 0
  {
    if t.childCount >= 0 {
      AllFilesIn(t.children, matches);
    } else {
      assert [t][..0] == [];
    }
  }

  lemma {:induction false} AllCountedFront(ts: seq<Tree>)
    requires ts != [] && AllCounted(ts)
    ensures AllCounted(ts[..|ts| - 1]) && Counted(ts[|ts| - 1])
    decreases |ts|
  {
    if |ts| > 1 {
      AllCountedFront(ts[1..]);
      assert ts[1..][..|ts| - 2] == ts[..|ts| - 1][1..];
    }
  }

  lemma {:induction false} AllFilesIn(ts: seq<Tree>, matches: Tree -> bool)
    requires (forall x :: matches(x)) && AllCounted(ts)
    ensures Names(Files(ts, matches)) == Items(TreeShapes(ts))
    decreases ts, 1
  {
    if ts != [] {
      var front, last := ts[..|ts| - 1], ts[|ts| - 1];
      AllCountedFront(ts);
      AllFilesIn(front, matches);
      AllFiles(last, matches);
      NamesConcat(Files(front, matches), FilesOf(last, matches));
      ShapesSnoc(ts);
      ItemsConcat(TreeShapes(front), [TreeShape(last)]);
      assert [TreeShape(last)][1..] == [];
    }
  }

  /** An unlimited search for everything finds exactly the files that are to be shown. */
  lemma SearchFindsShown(xbox: bool, startingId: int, contents: seq<Dirent>, matches: Tree -> bool)
    requires forall x :: matches(x)
    ensures Names(Files(Built(xbox, startingId, contents).children, matches)) == Items(Shapes(contents))
  {
    ScanAllShows(contents, FirstId(xbox, startingId));
    AllFilesIn(Built(xbox, startingId, contents).children, matches);
  }

  /** A directory with one playable file. */
  lemma OneFile(xbox: bool, startingId: int)
    ensures var first := FirstId(xbox, startingId);
      Built(xbox, startingId, [Dir("music", true, [File("a.mp3", true, true, true)])]).children
      == [Tree(first, "music", 1, [Tree(first + 1, "a.mp3", -1, [])])]
  {
    var first := FirstId(xbox, startingId);
    var file := File("a.mp3", true, true, true);
    var dir := Dir("music", true, [file]);
    assert [file][1..] == [] && [dir][1..] == [];
    assert ScanAll([file], first + 1).0 == [Tree(first + 1, "a.mp3", -1, [])];
    assert Scan(dir, first).0 == Some(Tree(first, "music", 1, [Tree(first + 1, "a.mp3", -1, [])]));
  }
}
