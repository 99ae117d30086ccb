/** The destination of an extraction, as a map from relative path to node, and
    the order of creation that keeps it a tree. */
module FileTree {
  import opened Bytes
  import opened Paths

  /** Permission bits; `Symlink` and `Special` occur only in trees being read. */
  datatype Node = Dir(mode: nat) | File(content: Bytes, mode: nat) | Symlink | Special

  type Tree = map<Path, Node>

  datatype Item = Item(path: Path, node: Node)

  // ---- permission bits ----

  const MODE_755: nat := 7 * 64 + 5 * 8 + 5
  const MODE_644: nat := 6 * 64 + 4 * 8 + 4

  /** `mode & 0o777`. */
  function FileMode(mode: nat): (m: nat) { mode % 512 }

  /** `(mode & 0o777) | 0o700`. */
  function DirMode(mode: nat): (m: nat) { 7 * 64 + mode % 64 }

  /** `mode & 0o111 != 0`. */
  predicate Executable(mode: nat) {
    mode % 2 == 1 || mode / 8 % 2 == 1 || mode / 64 % 2 == 1
  }

  // ---- trees ----

  ghost predicate ParentIsDir(t: Tree, p: Path)
    requires p != []
  {
    |p| > 1 ==> Parent(p) in t && t[Parent(p)].Dir?
  }

  /** Every path is safe and its parent is a directory of the tree. */
  ghost predicate IsTree(t: Tree) {
    forall p :: p in t ==> SafePath(p) && ParentIsDir(t, p)
  }

  /** In a tree every proper ancestor of a path is a directory, so no file is
      above another entry and nothing lies outside the destination. */
  lemma {:induction false} AncestorsAreDirs(t: Tree, p: Path, n: nat)
    requires IsTree(t) && p in t && 0 < n < |p|
    ensures p[..n] in t && t[p[..n]].Dir?
    decreases |p|
  {
    if n < |p| - 1 {
      AncestorsAreDirs(t, Parent(p), n);
      assert Parent(p)[..n] == p[..n];
    }
  }

  /** `fs::create_dir` and `OpenOptions::create_new`: refuse an existing path
      and a missing parent. */
  function Create(t: Tree, p: Path, node: Node): (r: Option<Tree>) {
    if p == [] || p in t then None
    else if |p| > 1 && (Parent(p) !in t || !t[Parent(p)].Dir?) then None
    else Some(t[p := node])
  }

  // ---- copying ----

  /** `copy_exact_release_archive_entry`: copy at most the declared size, then
      insist on neither less nor more. */
  method CopyExact(data: Bytes, declared: nat) returns (written: Bytes, exact: bool)
    ensures exact <==> |data| == declared
    ensures written == data[..if |data| < declared then |data| else declared]
  {
    written := data[..if |data| < declared then |data| else declared];
    if |written| != declared {
      return written, false;
    }
    exact := |data| == |written|;
    assert data[..|data|] == data;
  }

  // ---- creation orders ----

  /** Creating the items one after another; a later item replaces an earlier one. */
  function TreeOf(items: seq<Item>): (t: Tree) {
    if items == [] then map[]
    else
      var last := items[|items| - 1];
      TreeOf(items[..|items| - 1])[last.path := last.node]
  }

  lemma {:induction false} TreeOfOrigin(items: seq<Item>, p: Path) returns (i: nat)
    requires p in TreeOf(items)
    ensures i < |items| && items[i] == Item(p, TreeOf(items)[p])
  {
    var n := |items| - 1;
    if items[n].path == p {
      i := n;
    } else {
      i := TreeOfOrigin(items[..n], p);
      assert items[..n][i] == items[i];
    }
  }

  lemma {:induction false} TreeOfHas(items: seq<Item>, i: nat)
    requires i < |items|
    ensures items[i].path in TreeOf(items)
  {
    var n := |items| - 1;
    if i < n {
      assert items[..n][i] == items[i];
      TreeOfHas(items[..n], i);
    }
  }

  ghost predicate DistinctPaths(items: seq<Item>) {
    forall i, j :: 0 <= i < j < |items| ==> items[i].path != items[j].path
  }

  /** Item `i`'s parent is the root or an earlier explicit directory item. */
  ghost predicate ParentEarlier(items: seq<Item>, i: nat)
    requires i < |items|
  {
    |items[i].path| > 1 ==>
      exists j :: 0 <= j < i && items[j].node.Dir? && items[j].path == Parent(items[i].path)
  }

  ghost predicate ParentsFirst(items: seq<Item>) {
    forall i :: 0 <= i < |items| ==> ParentEarlier(items, i)
  }

  ghost predicate AllSafePaths(items: seq<Item>) {
    forall i :: 0 <= i < |items| ==> SafePath(items[i].path)
  }

  /** The order an extractor demands of an archive. */
  ghost predicate WellOrdered(items: seq<Item>) {
    AllSafePaths(items) && DistinctPaths(items) && ParentsFirst(items)
  }

  ghost function PathsOf(items: seq<Item>): set<Path> {
    set i | 0 <= i < |items| :: items[i].path
  }

  ghost function DirsOf(items: seq<Item>): set<Path> {
    set i | 0 <= i < |items| && items[i].node.Dir? :: items[i].path
  }

  lemma TreeOfSnoc(items: seq<Item>, item: Item)
    ensures TreeOf(items + [item]) == TreeOf(items)[item.path := item.node]
  {
    assert (items + [item])[..|items|] == items;
  }

  lemma PathsOfSnoc(items: seq<Item>, item: Item)
    ensures PathsOf(items + [item]) == PathsOf(items) + {item.path}
  {
    var all := items + [item];
    forall p
      ensures p in PathsOf(all) <==> p in PathsOf(items) + {item.path}
    {
      if p in PathsOf(items) {
        var i :| 0 <= i < |items| && items[i].path == p;
        assert all[i] == items[i];
      }
      if p == item.path {
        assert all[|items|] == item;
      }
    }
  }

  lemma DirsOfSnoc(items: seq<Item>, item: Item)
    ensures DirsOf(items + [item]) == DirsOf(items) + (if item.node.Dir? then {item.path} else {})
  {
    var all := items + [item];
    forall p
      ensures p in DirsOf(all) <==> p in DirsOf(items) || (item.node.Dir? && p == item.path)
    {
      if p in DirsOf(items) {
        var i :| 0 <= i < |items| && items[i].node.Dir? && items[i].path == p;
        assert all[i] == items[i];
      }
      if item.node.Dir? && p == item.path {
        assert all[|items|] == item;
      }
    }
  }

  lemma TreeOfLookup(items: seq<Item>, i: nat)
    requires i < |items| && DistinctPaths(items)
    ensures items[i].path in TreeOf(items) && TreeOf(items)[items[i].path] == items[i].node
  {
    TreeOfHas(items, i);
    var j := TreeOfOrigin(items, items[i].path);
    assert j == i;
  }

  /** Growing a well-ordered list by one: exactly the two checks an extractor makes. */
  lemma WellOrderedSnoc(items: seq<Item>, item: Item)
    requires WellOrdered(items) && SafePath(item.path)
    ensures WellOrdered(items + [item]) <==>
            item.path !in PathsOf(items) && (|item.path| > 1 ==> Parent(item.path) in DirsOf(items))
  {
    var all := items + [item];
    assert all[|items|] == item;
    if WellOrdered(all) {
      assert ParentEarlier(all, |items|);
      forall i | 0 <= i < |items|
        ensures items[i].path != item.path
      {
        assert all[i] == items[i];
      }
    }
    if item.path !in PathsOf(items) && (|item.path| > 1 ==> Parent(item.path) in DirsOf(items)) {
      forall i | 0 <= i < |all|
        ensures ParentEarlier(all, i)
      {
        if |all[i].path| > 1 {
          if i < |items| {
            assert ParentEarlier(items, i);
          }
          var j :| 0 <= j < |items| && j < i && items[j].node.Dir? && items[j].path == Parent(all[i].path);
          assert all[j] == items[j];
        }
      }
    }
  }

  lemma WellOrderedPrefix(items: seq<Item>, rest: seq<Item>)
    requires WellOrdered(items + rest)
    ensures WellOrdered(items)
  {
    var all := items + rest;
    forall i | 0 <= i < |items|
      ensures SafePath(items[i].path) && ParentEarlier(items, i)
    {
      assert all[i] == items[i];
      assert ParentEarlier(all, i);
      if |items[i].path| > 1 {
        var j :| 0 <= j < i && all[j].node.Dir? && all[j].path == Parent(all[i].path);
        assert items[j] == all[j];
      }
    }
    forall i, j | 0 <= i < j < |items|
      ensures items[i].path != items[j].path
    {
      assert all[i] == items[i] && all[j] == items[j];
    }
  }

  lemma WellOrderedTake(items: seq<Item>, n: nat)
    requires n <= |items| && WellOrdered(items)
    ensures WellOrdered(items[..n])
  {
    assert items == items[..n] + items[n..];
    WellOrderedPrefix(items[..n], items[n..]);
  }

  /** Creating the items of a well-ordered list one after another never hits an
      existing path or a missing parent, and always leaves a tree. */
  lemma WellOrderedBuildsTree(items: seq<Item>)
    requires WellOrdered(items)
    ensures IsTree(TreeOf(items))
    ensures TreeOf(items).Keys == PathsOf(items)
    ensures forall p :: p in DirsOf(items) <==> p in TreeOf(items) && TreeOf(items)[p].Dir?
  {
    var t := TreeOf(items);
    forall p
      ensures p in PathsOf(items) <==> p in t
      ensures p in DirsOf(items) <==> p in t && t[p].Dir?
    {
      TreePaths(items, p);
    }
    forall p | p in t
      ensures SafePath(p) && ParentIsDir(t, p)
    {
      TreeParents(items, p);
    }
  }

  lemma TreePaths(items: seq<Item>, p: Path)
    requires DistinctPaths(items)
    ensures p in PathsOf(items) <==> p in TreeOf(items)
    ensures p in DirsOf(items) <==> p in TreeOf(items) && TreeOf(items)[p].Dir?
  {
    if p in TreeOf(items) {
      var i := TreeOfOrigin(items, p);
    }
    if p in PathsOf(items) {
      var i :| 0 <= i < |items| && items[i].path == p;
      TreeOfLookup(items, i);
    }
    if p in DirsOf(items) {
      var i :| 0 <= i < |items| && items[i].node.Dir? && items[i].path == p;
      TreeOfLookup(items, i);
    }
  }

  lemma TreeParents(items: seq<Item>, p: Path)
    requires WellOrdered(items) && p in TreeOf(items)
    ensures SafePath(p) && ParentIsDir(TreeOf(items), p)
  {
    var i := TreeOfOrigin(items, p);
    assert ParentEarlier(items, i);
    if |p| > 1 {
      var j :| 0 <= j < i && items[j].node.Dir? && items[j].path == Parent(items[i].path);
      TreeOfLookup(items, j);
    }
  }

  // ---- what every extractor loop keeps ----

  /** The loop's variables hold exactly what the finished items built. */
  ghost predicate Holds(done: seq<Item>, seen: set<Path>, directories: set<Path>, tree: Tree) {
    && WellOrdered(done)
    && tree == TreeOf(done)
    && seen == PathsOf(done)
    && directories == DirsOf(done)
  }

  lemma HoldsSnoc(done: seq<Item>, item: Item, seen: set<Path>, directories: set<Path>, tree: Tree)
    requires Holds(done, seen, directories, tree) && WellOrdered(done + [item])
    ensures Holds(done + [item], seen + {item.path},
                  if item.node.Dir? then directories + {item.path} else directories,
                  tree[item.path := item.node])
  {
    TreeOfSnoc(done, item);
    PathsOfSnoc(done, item);
    DirsOfSnoc(done, item);
  }

  /** Written paths are exactly `seen`, the directories exactly `directories`,
      and the destination is a tree. */
  lemma HoldsIsTree(done: seq<Item>, seen: set<Path>, directories: set<Path>, tree: Tree)
    requires Holds(done, seen, directories, tree)
    ensures IsTree(tree)
    ensures tree.Keys == seen
    ensures forall p :: p in directories <==> p in tree && tree[p].Dir?
  {
    WellOrderedBuildsTree(done);
  }

  /** The duplicate check and the explicit-parent check. */
  predicate Admitted(p: Path, seen: set<Path>, directories: set<Path>) {
    p !in seen && (|p| > 1 ==> Parent(p) in directories)
  }

  /** One loop step: the two checks on the next item decide whether the list
      stays well ordered, and then its creation cannot be refused. */
  lemma HoldsStep(done: seq<Item>, item: Item, seen: set<Path>, directories: set<Path>, tree: Tree)
    requires Holds(done, seen, directories, tree) && SafePath(item.path)
    ensures WellOrdered(done + [item]) <==> Admitted(item.path, seen, directories)
    ensures Admitted(item.path, seen, directories) ==> item.path !in tree && ParentIsDir(tree, item.path)
    ensures Admitted(item.path, seen, directories) ==>
              Holds(done + [item], seen + {item.path},
                    if item.node.Dir? then directories + {item.path} else directories,
                    tree[item.path := item.node])
  {
    WellOrderedSnoc(done, item);
    HoldsIsTree(done, seen, directories, tree);
    if WellOrdered(done + [item]) {
      HoldsSnoc(done, item, seen, directories, tree);
    }
  }

  lemma UnsafeSnoc(done: seq<Item>, item: Item)
    requires !SafePath(item.path)
    ensures !WellOrdered(done + [item])
  {
    assert (done + [item])[|done|] == item;
  }

  lemma DistinctInit(items: seq<Item>)
    requires items != [] && DistinctPaths(items)
    ensures var init, last := items[..|items| - 1], items[|items| - 1];
            && DistinctPaths(init) && last.path !in TreeOf(init)
            && TreeOf(items) == TreeOf(init)[last.path := last.node]
            && |TreeOf(items)| == |TreeOf(init)| + 1
  {
    var init, last := items[..|items| - 1], items[|items| - 1];
    if last.path in TreeOf(init) {
      var i := TreeOfOrigin(init, last.path);
    }
    assert TreeOf(items).Keys == TreeOf(init).Keys + {last.path};
    assert |TreeOf(items)| == |TreeOf(items).Keys| && |TreeOf(init)| == |TreeOf(init).Keys|;
  }

  /** As many nodes as items. */
  lemma {:induction false} TreeOfSize(items: seq<Item>)
    requires DistinctPaths(items)
    ensures |TreeOf(items)| == |items|
  {
    if items != [] {
      DistinctInit(items);
      TreeOfSize(items[..|items| - 1]);
    }
  }
}
