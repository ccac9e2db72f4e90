/** The tree of media entries: the ids a scan of the content directories gives out, and finding
    an entry by its id. */
module MediaTree {
  import opened Options

  /** What scandir reports: a name that is skipped, being hidden or without status; a file, with
      whether its extension is known, its mime type is found and its name can be converted; a
      directory, with whether its name can be converted. */
  datatype Dirent =
    | Skipped
    | File(name: string, valid: bool, mime: bool, title: bool)
    | Dir(name: string, title: bool, entries: seq<Dirent>)

  /** An entry: its id, its name, its number of children or -1 for an item, and its children. */
  datatype Tree = Tree(id: int, name: string, childCount: int, children: seq<Tree>)

  // ----- what a scan builds -----

  /** The entry for one name, if there is one, and the next id. A file without mime type gives its
      id back; a name that cannot be converted uses one up. */
  function Scan(n: Dirent, next: int): (r: (Option<Tree>, int))
    ensures r.1 >= next
    decreases n, 0
  {
    match n
    case Skipped => (None, next)
    case File(name, valid, mime, title) =>
      if !valid || !mime then (None, next) else if !title then (None, next + 1) else (Some(Tree(next, name, -1, [])), next + 1)
    case Dir(name, title, entries) =>
      if !title then (None, next + 1)
      else
        var (children, last) := ScanAll(entries, next + 1);
        (Some(Tree(next, name, |children|, children)), last)
  }

  function Listed(t: Option<Tree>): seq<Tree> {
    if t == None then [] else [t.value]
  }

  function ScanAll(ns: seq<Dirent>, next: int): (r: (seq<Tree>, int))
    ensures r.1 >= next
    decreases ns, 1
  {
    if ns == [] then ([], next)
    else
      var (t, mid) := Scan(ns[0], next);
      var (rest, last) := ScanAll(ns[1..], mid);
      (Listed(t) + rest, last)
  }

  /** The root has id 0 for an xbox, which leaves the counter alone, and takes the first id
      otherwise. */
  function RootId(xbox: bool, startingId: int): int {
    if xbox then 0 else startingId
  }

  function FirstId(xbox: bool, startingId: int): int {
    if xbox then startingId else startingId + 1
  }

  /** Content directories are taken for directories, whatever they are. */
  predicate OnlyDirs(contents: seq<Dirent>) {
    forall c | c in contents :: c.Dir?
  }

  /** The whole tree for a list of content directories. */
  function Built(xbox: bool, startingId: int, contents: seq<Dirent>): Tree {
    var children := ScanAll(contents, FirstId(xbox, startingId)).0;
    Tree(RootId(xbox, startingId), "root", |children|, children)
  }

  // ----- ids in depth-first order -----

  function Preorder(t: Tree): seq<int>
    decreases t, 0
  {
    [t.id] + PreorderAll(t.children)
  }

  function PreorderAll(ts: seq<Tree>): seq<int>
    decreases ts, 1
  {
    if ts == [] then [] else Preorder(ts[0]) + PreorderAll(ts[1..])
  }

  predicate Increasing(s: seq<int>) {
    forall i, j | 0 <= i < j < |s| :: s[i] < s[j]
  }

  predicate Within(s: seq<int>, lo: int, hi: int) {
    forall i | 0 <= i < |s| :: lo <= s[i] < hi
  }

  lemma IncreasingConcat(a: seq<int>, b: seq<int>, lo: int, mid: int, hi: int)
    requires Increasing(a) && Within(a, lo, mid) && Increasing(b) && Within(b, mid, hi) && lo <= mid <= hi
    ensures Increasing(a + b) && Within(a + b, lo, hi)
  {
  }

  /** A scan gives out ids in depth-first order, each above the one before, whatever was skipped,
      given back or lost on the way. */
  lemma {:induction false} ScanIncreases(n: Dirent, next: int)
    ensures Scan(n, next).0.Some? ==>
      Increasing(Preorder(Scan(n, next).0.value)) && Within(Preorder(Scan(n, next).0.value), next, Scan(n, next).1)
    decreases n, 0
  {
    if n.Dir? && n.title {
      ScanAllIncreases(n.entries, next + 1);
      var (children, last) := ScanAll(n.entries, next + 1);
      IncreasingConcat([next], PreorderAll(children), next, next + 1, last);
    } else if n.File? && n.valid && n.mime && n.title {
      assert Preorder(Tree(next, n.name, -1, [])) == [next];
    }
  }

  lemma PreorderCons(t: Option<Tree>, rest: seq<Tree>)
    ensures PreorderAll(Listed(t) + rest) == (if t.Some? then Preorder(t.value) else []) + PreorderAll(rest)
  {
    hide Preorder;
    if t.Some? {
      assert ([t.value] + rest)[1..] == rest;
    } else {
      assert [] + rest == rest;
      assert [] + PreorderAll(rest) == PreorderAll(rest);
    }
  }

  lemma NoneIncreases(lo: int, hi: int)
    ensures Increasing([]) && Within([], lo, hi)
  {
  }

  lemma {:induction false} ScanAllIncreases(ns: seq<Dirent>, next: int)
    ensures Increasing(PreorderAll(ScanAll(ns, next).0)) && Within(PreorderAll(ScanAll(ns, next).0), next, ScanAll(ns, next).1)
    decreases ns, 1
  {
    hide Scan;
    hide Increasing;
    hide Within;
    NoneIncreases(next, next);
    if ns != [] {
      var (t, mid) := Scan(ns[0], next);
      var (rest, last) := ScanAll(ns[1..], mid);
      ScanIncreases(ns[0], next);
      ScanAllIncreases(ns[1..], mid);
      PreorderCons(t, rest);
      hide Preorder;
      hide PreorderAll;
      NoneIncreases(next, mid);
      IncreasingConcat(if t.Some? then Preorder(t.value) else [], PreorderAll(rest), next, mid, last);
    }
  }

  lemma BuiltIncreases(xbox: bool, startingId: int, contents: seq<Dirent>)
    requires xbox ==> startingId > 0
    ensures Increasing(Preorder(Built(xbox, startingId, contents)))
  {
    var first := FirstId(xbox, startingId);
    ScanAllIncreases(contents, first);
    var (children, last) := ScanAll(contents, first);
    IncreasingConcat([RootId(xbox, startingId)], PreorderAll(children), RootId(xbox, startingId), first, last);
  }

  /** Ids increase in depth-first order for all contents exactly when an xbox does not start at the
      id of its root. */
  lemma IdsIncreaseIff(xbox: bool, startingId: int)
    ensures (forall contents | OnlyDirs(contents) :: Increasing(Preorder(Built(xbox, startingId, contents)))) <==> (xbox ==> startingId > 0)
  {
    if xbox ==> startingId > 0 {
      forall contents | OnlyDirs(contents)
        ensures Increasing(Preorder(Built(xbox, startingId, contents)))
      {
        BuiltIncreases(xbox, startingId, contents);
      }
    } else {
      var contents := [Dir("", true, [])];
      assert OnlyDirs(contents);
      var s := Preorder(Built(xbox, startingId, contents));
      var child := Tree(startingId, "", 0, []);
      assert Scan(contents[0], startingId) == (Some(child), startingId + 1);
      assert contents[1..] == [];
      assert ScanAll(contents, startingId).0 == [child];
      assert Preorder(child) == [startingId];
      assert PreorderAll([child]) == [startingId] by { assert [child][1..] == []; }
      assert s == [0] + [startingId];
      assert !(s[0] < s[1]);
    }
  }

  // ----- finding an entry -----

  /** A search of the whole tree, depth first. */
  function Search(t: Tree, id: int): Option<Tree>
    decreases t, 0
  {
    if t.id == id then Some(t) else SearchAll(t.children, id)
  }

  function SearchAll(ts: seq<Tree>, id: int): Option<Tree>
    decreases ts, 1
  {
    if ts == [] then None
    else
      var r := Search(ts[0], id);
      if r != None then r else SearchAll(ts[1..], id)
  }

  /** What the index answers: it holds every entry but the root, which answers to 0. */
  function Lookup(root: Tree, id: int): Option<Tree> {
    if id == 0 then Some(root) else SearchAll(root.children, id)
  }

  lemma {:induction false} SearchFinds(t: Tree, id: int)
    ensures Search(t, id).Some? <==> id in Preorder(t)
    ensures Search(t, id).Some? ==> Search(t, id).value.id == id
    decreases t, 0
  {
    SearchAllFinds(t.children, id);
  }

  lemma {:induction false} SearchAllFinds(ts: seq<Tree>, id: int)
    ensures SearchAll(ts, id).Some? <==> id in PreorderAll(ts)
    ensures SearchAll(ts, id).Some? ==> SearchAll(ts, id).value.id == id
    decreases ts, 1
  {
    if ts != [] {
      SearchFinds(ts[0], id);
      SearchAllFinds(ts[1..], id);
    }
  }

  /** Without an xbox the root has the first id, and only 0 leads to it: the index finds what a
      search of the whole tree finds, for all contents and ids, exactly with an xbox or when the
      ids start at 0. */
  lemma LookupSearchesIff(xbox: bool, startingId: int)
    ensures (forall contents, id | OnlyDirs(contents) :: Lookup(Built(xbox, startingId, contents), id) == Search(Built(xbox, startingId, contents), id))
            <==> xbox || startingId == 0
  {
    if !xbox && startingId != 0 {
      assert OnlyDirs([]);
      var t := Built(xbox, startingId, []);
      assert Lookup(t, startingId) == None && Search(t, startingId) == Some(t);
    }
  }

  /** Is e one of the entries of a tree? */
  predicate InTree(t: Tree, e: Tree)
    decreases t, 0
  {
    e == t || InForest(t.children, e)
  }

  predicate InForest(ts: seq<Tree>, e: Tree)
    decreases ts, 1
  {
    ts != [] && (InTree(ts[0], e) || InForest(ts[1..], e))
  }

  lemma {:induction false} InTreeId(t: Tree, e: Tree)
    requires InTree(t, e)
    ensures e.id in Preorder(t)
    decreases t, 0
  {
    if e != t { InForestId(t.children, e); }
  }

  lemma {:induction false} InForestId(ts: seq<Tree>, e: Tree)
    requires InForest(ts, e)
    ensures e.id in PreorderAll(ts)
    decreases ts, 1
  {
    if InTree(ts[0], e) { InTreeId(ts[0], e); } else { InForestId(ts[1..], e); }
  }

  lemma IncreasingParts(a: seq<int>, b: seq<int>)
    requires Increasing(a + b)
    ensures Increasing(a) && Increasing(b) && forall x | x in a :: x !in b
  {
    var s := a + b;
    assert forall i | 0 <= i < |a| :: s[i] == a[i];
    assert forall i | 0 <= i < |b| :: s[|a| + i] == b[i];
  }

  lemma {:induction false} SearchUnique(t: Tree, e: Tree)
    requires Increasing(Preorder(t)) && InTree(t, e)
    ensures Search(t, e.id) == Some(e)
    decreases t, 0
  {
    IncreasingParts([t.id], PreorderAll(t.children));
    if e != t {
      InForestId(t.children, e);
      assert t.id in [t.id];
      SearchAllUnique(t.children, e);
    }
  }

  lemma {:induction false} SearchAllUnique(ts: seq<Tree>, e: Tree)
    requires Increasing(PreorderAll(ts)) && InForest(ts, e)
    ensures SearchAll(ts, e.id) == Some(e)
    decreases ts, 1
  {
    IncreasingParts(Preorder(ts[0]), PreorderAll(ts[1..]));
    if InTree(ts[0], e) {
      SearchUnique(ts[0], e);
    } else {
      InForestId(ts[1..], e);
      SearchFinds(ts[0], e.id);
      SearchAllUnique(ts[1..], e);
    }
  }

  /** Every entry is found by its own id. */
  ghost predicate AllFound(t: Tree) {
    forall e | InTree(t, e) :: Lookup(t, e.id) == Some(e)
  }

  predicate GoodStart(xbox: bool, startingId: int) {
    if xbox then startingId > 0 else startingId == 0
  }

  /** n empty content directories. */
  function EmptyDirs(n: nat): (ns: seq<Dirent>)
    ensures OnlyDirs(ns)
  {
    if n == 0 then [] else [Dir("", true, [])] + EmptyDirs(n - 1)
  }

  lemma {:induction false} LastEmptyDir(n: nat, next: int)
    ensures InForest(ScanAll(EmptyDirs(n + 1), next).0, Tree(next + n, "", 0, []))
  {
    var dirs := EmptyDirs(n + 1);
    assert dirs[1..] == EmptyDirs(n);
    assert Scan(dirs[0], next) == (Some(Tree(next, "", 0, [])), next + 1);
    var rest := ScanAll(EmptyDirs(n), next + 1).0;
    assert ScanAll(dirs, next).0 == [Tree(next, "", 0, [])] + rest;
    assert ([Tree(next, "", 0, [])] + rest)[1..] == rest;
    if n > 0 { LastEmptyDir(n - 1, next + 1); }
  }

  /** Every entry is found by its id, for all contents, exactly when the starting id is positive
      with an xbox and 0 without. */
  lemma AllFoundIff(xbox: bool, startingId: int)
    ensures (forall contents | OnlyDirs(contents) :: AllFound(Built(xbox, startingId, contents))) <==> GoodStart(xbox, startingId)
  {
    if GoodStart(xbox, startingId) {
      forall contents | OnlyDirs(contents)
        ensures AllFound(Built(xbox, startingId, contents))
      {
        var t := Built(xbox, startingId, contents);
        BuiltIncreases(xbox, startingId, contents);
        forall e | InTree(t, e)
          ensures Lookup(t, e.id) == Some(e)
        {
          SearchUnique(t, e);
        }
      }
    } else if xbox {
      var contents := EmptyDirs(-startingId + 1);
      var t := Built(xbox, startingId, contents);
      LastEmptyDir(-startingId, startingId);
      var e := Tree(0, "", 0, []);
      assert InTree(t, e) && e != t && Lookup(t, e.id) == Some(t);
      assert !AllFound(t);
    } else {
      assert OnlyDirs([]);
      var t := Built(xbox, startingId, []);
      assert InTree(t, t) && Lookup(t, t.id) == None;
      assert !AllFound(t);
    }
  }

  /** With an xbox that starts at 0 the first directory has the id of the root, and cannot be
      found. */
  lemma HiddenDirectory(entries: seq<Dirent>)
    ensures var t := Built(true, 0, [Dir("", true, entries)]);
      |t.children| == 1 && t.children[0].id == t.id == 0 && Lookup(t, 0) == Some(t) && t.children[0] != t
      && !Increasing(Preorder(t))
  {
    var contents := [Dir("", true, entries)];
    assert contents[1..] == [];
    var child := Scan(contents[0], 0).0.value;
    assert ScanAll(contents, 0).0 == [child];
    var t := Built(true, 0, contents);
    assert Preorder(t)[0] == 0 && Preorder(t)[1] == 0 by {
      assert PreorderAll([child]) == Preorder(child) + PreorderAll([child][1..]);
    }
  }

  /** Without an xbox, a root that does not have id 0 cannot be found by its id. */
  lemma HiddenRoot(startingId: int)
    requires startingId != 0
    ensures var t := Built(false, startingId, []);
      t.id == startingId && Lookup(t, startingId) == None && Search(t, startingId) == Some(t)
  {
  }
}
