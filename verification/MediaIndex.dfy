/** The media tree as it is built: entries with NULL-terminated child arrays, the counter that
    ids come from, and the index by id. */
module MediaIndex {
  import opened Options
  import opened MediaTree

  /** kids are the children before the NULL, below all entries of the subtree but the top. */
  class Entry {
    const id: int
    const name: string
    var childs: seq<Entry?>
    var childCount: int
    ghost var kids: seq<Entry>
    ghost var below: set<Entry>

    constructor (id: int, name: string, childCount: int)
      ensures this.id == id && this.name == name && this.childCount == childCount
      ensures childs == [null] && kids == [] && below == {}
    {
      this.id, this.name, this.childCount, childs, kids, below := id, name, childCount, [null], [], {};
    }
  }

  /** The entry and everything below it is the tree t. */
  ghost predicate Denotes(e: Entry, t: Tree)
    reads e, e.below
    decreases t
  {
    && e.id == t.id
    && e.name == t.name
    && e.childCount == t.childCount
    && e.childs == e.kids + [null]
    && e !in e.below
    && |e.kids| == |t.children|
    && (forall i | 0 <= i < |e.kids| ::
          e.kids[i] in e.below && e.kids[i].below <= e.below && Denotes(e.kids[i], t.children[i]))
    && (forall x | x in e.below :: exists i | 0 <= i < |e.kids| :: x == e.kids[i] || x in e.kids[i].below)
  }

  ghost function Whole(e: Entry): set<Entry>
    reads e
  {
    {e} + e.below
  }

  // ----- entries and trees -----

  lemma {:induction false} BelowInTree(e: Entry, t: Tree, x: Entry) returns (tx: Tree)
    requires Denotes(e, t) && x in e.below
    ensures InForest(t.children, tx) && Denotes(x, tx)
    decreases t
  {
    var i :| 0 <= i < |e.kids| && (x == e.kids[i] || x in e.kids[i].below);
    if x == e.kids[i] {
      tx := t.children[i];
    } else {
      tx := BelowInTree(e.kids[i], t.children[i], x);
    }
    ChildInForest(t.children, i, tx);
  }

  lemma {:induction false} ChildInForest(ts: seq<Tree>, i: nat, e: Tree)
    requires i < |ts| && InTree(ts[i], e)
    ensures InForest(ts, e)
  {
    if i > 0 { ChildInForest(ts[1..], i - 1, e); }
  }

  lemma {:induction false} IdBelow(e: Entry, t: Tree, id: int) returns (x: Entry)
    requires Denotes(e, t) && id in PreorderAll(t.children)
    ensures x in e.below && x.id == id
    decreases t
  {
    var i := ChildWithId(t.children, id);
    if t.children[i].id == id {
      x := e.kids[i];
    } else {
      x := IdBelow(e.kids[i], t.children[i], id);
    }
  }

  lemma {:induction false} ChildWithId(ts: seq<Tree>, id: int) returns (i: nat)
    requires id in PreorderAll(ts)
    ensures i < |ts| && id in Preorder(ts[i])
  {
    if id in Preorder(ts[0]) {
      i := 0;
    } else {
      i := ChildWithId(ts[1..], id);
      i := i + 1;
    }
  }

  lemma ScanAllFrom(ns: seq<Dirent>, i: nat, next: int)
    requires i < |ns|
    ensures var (t, mid) := Scan(ns[i], next);
      ScanAll(ns[i..], next) == (MediaTree.Listed(t) + ScanAll(ns[i + 1..], mid).0, ScanAll(ns[i + 1..], mid).1)
  {
    assert ns[i..][0] == ns[i] && ns[i..][1..] == ns[i + 1..];
  }

  lemma ScanAllEnd(ns: seq<Dirent>, next: int)
    ensures ScanAll(ns[|ns|..], next) == ([], next) && ns[0..] == ns
  {
  }

  lemma Regroup(a: seq<Tree>, b: seq<Tree>, c: seq<Tree>)
    ensures a + (b + c) == a + b + c
  {
  }

  // ----- the server -----

  class Ushare {
    const xbox360: bool
    const startingId: int
    var nrEntries: int
    var rootEntry: Entry?
    var rb: map<int, Entry>
    ghost var objs: set<Entry>

    constructor (xbox360: bool, startingId: int)
      ensures this.xbox360 == xbox360 && this.startingId == startingId
      ensures nrEntries == 0 && rootEntry == null && rb == map[] && objs == {} && Indexed()
    {
      this.xbox360, this.startingId := xbox360, startingId;
      nrEntries, rootEntry, rb, objs := 0, null, map[], {};
    }

    ghost function Next(): int
      reads this`nrEntries
    {
      startingId + nrEntries
    }

    /** The index holds exactly objs, each under its id, and ids to come are new. */
    ghost predicate Indexed()
      reads this`rb, this`objs, this`nrEntries
    {
      && (forall x | x in objs :: x.id in rb && rb[x.id] == x && x.id < Next())
      && (forall id | id in rb :: rb[id] in objs && rb[id].id == id)
    }

    /** A new entry, if its mime type is found and its name can be converted. */
    method EntryNew(name: string, dir: bool, mime: bool, title: bool) returns (entry: Entry?)
      modifies this`nrEntries
      ensures entry != null <==> (dir || mime) && title
      ensures entry != null ==>
        fresh(entry) && entry.childs == [null] && entry.kids == [] && entry.below == {}
        && entry.name == name && entry.childCount == (if dir then 0 else -1)
        && entry.id == if xbox360 && rootEntry == null then 0 else startingId + old(nrEntries)
      ensures nrEntries == old(nrEntries) + if (xbox360 && rootEntry == null) then (if !dir && !mime then -1 else 0)
                                            else if !dir && !mime then 0 else 1
    {
      var id := 0;
      if xbox360 {
        if rootEntry != null {
          id := startingId + nrEntries;
          nrEntries := nrEntries + 1;
        } else {
          id := 0;
        }
      } else {
        id := startingId + nrEntries;
        nrEntries := nrEntries + 1;
      }
      var e := new Entry(id, name, if dir then 0 else -1);
      if !dir {
        if !mime {
          nrEntries := nrEntries - 1;
          return null;
        }
      }
      if !title {
        return null;
      }
      entry := e;
    }

    /** The number of children before the NULL, and whether child is one of them. */
    method ListLength(entry: Entry, child: Entry) returns (n: nat, listed: bool)
      requires entry.childs == entry.kids + [null]
      ensures n == |entry.kids| && (listed <==> child in entry.kids)
    {
      n, listed := 0, false;
      while entry.childs[n] != null
        invariant 0 <= n <= |entry.kids|
        invariant listed <==> child in entry.kids[..n]
        decreases |entry.childs| - n
      {
        assert entry.childs[n] == entry.kids[n];
        if entry.childs[n] == child {
          listed := true;
        }
        n := n + 1;
      }
      assert entry.kids[..n] == entry.kids;
    }

    /** The array grows by one, and the child goes in front of its NULL. */
    method Append(entry: Entry, child: Entry, ghost ts: seq<Tree>, ghost t: Tree)
      requires Denotes(entry, Tree(entry.id, entry.name, |ts|, ts)) && Denotes(child, t)
      requires entry !in Whole(child) && child !in Whole(entry)
      modifies entry
      ensures Denotes(entry, Tree(entry.id, entry.name, |ts| + 1, ts + [t]))
      ensures entry.kids == old(entry.kids) + [child] && entry.below == old(entry.below) + Whole(child)
    {
      KidsBelow(entry, Tree(entry.id, entry.name, |ts|, ts));
      hide Denotes;
      var n, listed := ListLength(entry, child);
      ghost var kids := entry.kids;
      entry.childs := entry.childs[..n] + [child, null];
      entry.childCount := entry.childCount + 1;
      entry.kids := kids + [child];
      entry.below := entry.below + Whole(child);
      forall k | 0 <= k < |kids|
        ensures Denotes(kids[k], ts[k])
      {
        assert old(Denotes(kids[k], ts[k]));
      }
      assert old(Denotes(child, t));
      AppendedDenotes(entry, child, ts, t);
    }

    /** The index takes an entry up unless its id is there. */
    method IndexChild(child: Entry)
      requires Indexed() && child.id < Next() && child.id !in rb
      modifies this`rb, this`objs
      ensures Indexed() && objs == old(objs) + {child}
    {
      if child.id !in rb {
        rb := rb[child.id := child];
      }
      objs := objs + {child};
    }

    /** The child goes to the end of the array, and into the index under its id. */
    method AddChild(entry: Entry, child: Entry, ghost ts: seq<Tree>, ghost t: Tree)
      requires Indexed() && child.id < Next() && child.id !in rb
      requires Denotes(entry, Tree(entry.id, entry.name, |ts|, ts)) && Denotes(child, t)
      requires entry !in Whole(child) && child !in Whole(entry)
      modifies this`rb, this`objs, entry
      ensures Indexed() && objs == old(objs) + {child}
      ensures Denotes(entry, Tree(entry.id, entry.name, |ts| + 1, ts + [t]))
      ensures entry.kids == old(entry.kids) + [child] && entry.below == old(entry.below) + Whole(child)
    {
      KidsBelow(entry, Tree(entry.id, entry.name, |ts|, ts));
      hide Denotes;
      var n, listed := ListLength(entry, child);
      if listed {
        return;
      }
      Append(entry, child, ts, t);
      IndexChild(child);
    }

    /** What a scan below entry did: more trees at its end, every new entry in the index under an
        id of its own. */
    twostate predicate Grew(entry: Entry, ts: seq<Tree>)
      reads this, entry, entry.below
    {
      && Indexed()
      && Denotes(entry, Tree(entry.id, entry.name, |ts|, ts))
      && old(entry.below) <= entry.below
      && objs == old(objs) + (entry.below - old(entry.below))
      && (forall x | x in entry.below && x !in old(entry.below) :: fresh(x) && x.id >= old(Next()))
    }

    method AddFile(entry: Entry, node: Dirent, ghost ts: seq<Tree>)
      requires rootEntry != null && node.File?
      requires Indexed() && Denotes(entry, Tree(entry.id, entry.name, |ts|, ts))
      modifies this`nrEntries, this`rb, this`objs, entry
      ensures var (t, next) := Scan(node, old(Next())); Grew(entry, ts + MediaTree.Listed(t)) && Next() == next
    {
      hide Denotes;
      if node.valid {
        var child := EntryNew(node.name, false, node.mime, node.title);
        if child != null {
          ghost var t := Tree(child.id, child.name, -1, []);
          LeafDenotes(child, t);
          assert old(Denotes(entry, Tree(entry.id, entry.name, |ts|, ts)));
          AddChild(entry, child, ts, t);
          return;
        }
      }
      assert ts + [] == ts;
      assert old(Denotes(entry, Tree(entry.id, entry.name, |ts|, ts)));
    }

    method AddOne(entry: Entry, node: Dirent, ghost ts: seq<Tree>)
      requires rootEntry != null
      requires Indexed() && Denotes(entry, Tree(entry.id, entry.name, |ts|, ts))
      modifies this`nrEntries, this`rb, this`objs, entry
      ensures var (t, next) := Scan(node, old(Next())); Grew(entry, ts + MediaTree.Listed(t)) && Next() == next
      decreases node, 0
    {
      hide Denotes;
      assert ts + [] == ts;
      match node
      case Skipped =>
      case File(_, _, _, _) => AddFile(entry, node, ts);
      case Dir(name, title, entries) =>
        var child := EntryNew(name, true, true, title);
        if child != null {
          LeafDenotes(child, Tree(child.id, child.name, 0, []));
          AddContainer(child, entries, []);
          ghost var children := ScanAll(entries, old(Next()) + 1).0;
          assert [] + children == children;
          assert old(Denotes(entry, Tree(entry.id, entry.name, |ts|, ts)));
          AddChild(entry, child, ts, Tree(child.id, child.name, |children|, children));
        } else {
          assert old(Denotes(entry, Tree(entry.id, entry.name, |ts|, ts)));
        }
    }

    /** The entries of a directory, in their order. */
    method AddContainer(entry: Entry, nodes: seq<Dirent>, ghost ts: seq<Tree>)
      requires rootEntry != null
      requires Indexed() && Denotes(entry, Tree(entry.id, entry.name, |ts|, ts))
      modifies this`nrEntries, this`rb, this`objs, entry
      ensures var (new_, next) := ScanAll(nodes, old(Next())); Grew(entry, ts + new_) && Next() == next
      decreases nodes, 1
    {
      hide Denotes;
      hide ScanAll;
      hide Scan;
      ghost var start := Next();
      ghost var built: seq<Tree> := [];
      ScanAllEnd(nodes, Next());
      assert ts + [] == ts;
      var i := 0;
      while i < |nodes|
        invariant 0 <= i <= |nodes|
        invariant Grew(entry, ts + built) && start == old(Next()) <= Next()
        invariant built + ScanAll(nodes[i..], Next()).0 == ScanAll(nodes, start).0
        invariant ScanAll(nodes[i..], Next()).1 == ScanAll(nodes, start).1
      {
        ghost var (t, mid) := Scan(nodes[i], Next());
        ghost var rest := ScanAll(nodes[i + 1..], mid).0;
        ScanAllFrom(nodes, i, Next());
        AddOne(entry, nodes[i], ts + built);
        Regroup(ts, built, MediaTree.Listed(t));
        Regroup(built, MediaTree.Listed(t), rest);
        built := built + MediaTree.Listed(t);
        i := i + 1;
      }
      ScanAllEnd(nodes, Next());
      assert built + [] == built;
    }

    /** One content directory: its entry is linked first and scanned afterwards. */
    method BuildOne(root: Entry, node: Dirent, ghost ts: seq<Tree>)
      requires rootEntry == root && node.Dir?
      requires Indexed() && Denotes(root, Tree(root.id, root.name, |ts|, ts))
      modifies this`nrEntries, this`rb, this`objs, root
      ensures var (t, next) := Scan(node, old(Next())); Grew(root, ts + MediaTree.Listed(t)) && Next() == next
    {
      hide Denotes;
      hide ScanAll;
      var entry := EntryNew(node.name, true, true, node.title);
      assert old(Denotes(root, Tree(root.id, root.name, |ts|, ts)));
      if entry == null {
        assert ts + [] == ts;
        return;
      }
      ghost var leaf := Tree(entry.id, entry.name, 0, []);
      LeafDenotes(entry, leaf);
      KidsBelow(root, Tree(root.id, root.name, |ts|, ts));
      AddChild(root, entry, ts, leaf);
      ScanLinked(root, entry, node.entries, ts);
    }

    /** The scan of a directory whose entry is already the last child of the root. */
    method ScanLinked(root: Entry, entry: Entry, nodes: seq<Dirent>, ghost ts: seq<Tree>)
      requires rootEntry == root && Indexed()
      requires Denotes(root, Tree(root.id, root.name, |ts| + 1, ts + [Tree(entry.id, entry.name, 0, [])]))
      requires root.kids[|ts|] == entry && entry.below == {} && entry.kids == [] && entry.childs == [null]
      requires entry.childCount == 0 && forall k | 0 <= k < |ts| :: root.kids[k] != entry && entry !in root.kids[k].below
      modifies this`nrEntries, this`rb, this`objs, entry, root`below
      ensures var (children, next) := ScanAll(nodes, old(Next()));
        Denotes(root, Tree(root.id, root.name, |ts| + 1, ts + [Tree(entry.id, entry.name, |children|, children)])) && Next() == next
      ensures Indexed() && old(root.below) <= root.below && objs == old(objs) + (root.below - old(root.below))
      ensures forall x | x in root.below && x !in old(root.below) :: fresh(x) && x.id >= old(Next())
    {
      hide ScanAll;
      ghost var children := ScanAll(nodes, Next()).0;
      ghost var kids := root.kids;
      KidsBelow(root, Tree(root.id, root.name, |ts| + 1, ts + [Tree(entry.id, entry.name, 0, [])]));
      hide Denotes;
      LeafDenotes(entry, Tree(entry.id, entry.name, 0, []));
      assert [] + children == children;
      AddContainer(entry, nodes, []);
      root.below := root.below + entry.below;
      forall k | 0 <= k < |ts|
        ensures Denotes(kids[k], ts[k])
      {
        assert old(Denotes(kids[k], ts[k]));
      }
      AppendedDenotes(root, entry, ts, Tree(entry.id, entry.name, |children|, children));
    }

    /** The whole tree, for a server that has none yet. */
    method Build(contents: seq<Dirent>)
      requires rootEntry == null && nrEntries == 0 && rb == map[] && objs == {} && OnlyDirs(contents)
      modifies this
      ensures rootEntry != null && Denotes(rootEntry, Built(xbox360, startingId, contents))
      ensures Indexed() && objs == rootEntry.below
    {
      hide Denotes;
      hide ScanAll;
      hide Scan;
      var root := EntryNew("root", true, true, true);
      rootEntry := root;
      LeafDenotes(root, Tree(root.id, root.name, 0, []));
      ghost var start := FirstId(xbox360, startingId);
      ghost var built: seq<Tree> := [];
      ScanAllEnd(contents, Next());
      var i := 0;
      while i < |contents|
        invariant 0 <= i <= |contents|
        invariant rootEntry == root && fresh(root) && root.id == RootId(xbox360, startingId)
        invariant Indexed() && objs == root.below && Denotes(root, Tree(root.id, root.name, |built|, built))
        invariant built + ScanAll(contents[i..], Next()).0 == ScanAll(contents, start).0
        modifies this`nrEntries, this`rb, this`objs, root
      {
        ghost var (t, mid) := Scan(contents[i], Next());
        ghost var rest := ScanAll(contents[i + 1..], mid).0;
        ScanAllFrom(contents, i, Next());
        assert contents[i] in contents;
        BuildOne(root, contents[i], built);
        Regroup(built, MediaTree.Listed(t), rest);
        built := built + MediaTree.Listed(t);
        i := i + 1;
      }
      ScanAllEnd(contents, Next());
      assert built + [] == built;
    }

    /** The entry with an id: the root for 0, else what the index has. */
    method GetEntry(id: int, ghost contents: seq<Dirent>) returns (r: Entry?)
      requires rootEntry != null && Denotes(rootEntry, Built(xbox360, startingId, contents))
      requires Indexed() && objs == rootEntry.below
      ensures var found := Lookup(Built(xbox360, startingId, contents), id);
        if found == None then r == null else r != null && Denotes(r, found.value)
    {
      ghost var t := Built(xbox360, startingId, contents);
      if id == 0 {
        return rootEntry;
      }
      SearchAllFinds(t.children, id);
      ScanAllIncreases(contents, FirstId(xbox360, startingId));
      hide Denotes;
      hide SearchAll;
      if id in rb {
        r := rb[id];
        ghost var e := BelowInTree(rootEntry, t, r);
        DenotesId(r, e);
        SearchAllUnique(t.children, e);
      } else {
        if id in PreorderAll(t.children) {
          ghost var x := IdBelow(rootEntry, t, id);
          assert false;
        }
        r := null;
      }
    }
  }

  lemma DenotesId(e: Entry, t: Tree)
    requires Denotes(e, t)
    ensures e.id == t.id
  {
  }

  lemma LeafDenotes(e: Entry, t: Tree)
    requires e.childs == [null] && e.kids == [] && e.below == {}
    requires t.id == e.id && t.name == e.name && t.childCount == e.childCount && t.children == []
    ensures Denotes(e, t)
  {
  }

  lemma KidsBelow(e: Entry, t: Tree)
    requires Denotes(e, t)
    ensures e.childs == e.kids + [null] && e.childCount == t.childCount && |e.kids| == |t.children| && e !in e.below
    ensures forall i | 0 <= i < |e.kids| ::
      e.kids[i] in e.below && e.kids[i].below <= e.below && Denotes(e.kids[i], t.children[i])
    ensures forall x | x in e.below :: exists i | 0 <= i < |e.kids| :: x == e.kids[i] || x in e.kids[i].below
  {
  }

  lemma AppendedDenotes(entry: Entry, child: Entry, ts: seq<Tree>, t: Tree)
    requires |entry.kids| == |ts| + 1 && entry.kids[|ts|] == child && entry.childCount == |ts| + 1
    requires entry.childs == entry.kids + [null] && entry !in entry.below
    requires child in entry.below && child.below <= entry.below && Denotes(child, t)
    requires forall k | 0 <= k < |ts| ::
      entry.kids[k] in entry.below && entry.kids[k].below <= entry.below && Denotes(entry.kids[k], ts[k])
    requires forall x | x in entry.below :: exists i | 0 <= i < |entry.kids| :: x == entry.kids[i] || x in entry.kids[i].below
    ensures Denotes(entry, Tree(entry.id, entry.name, |ts| + 1, ts + [t]))
  {
  }
}
