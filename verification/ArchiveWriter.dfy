/** From a directory tree to a sorted entry list and on to TAR and ZIP entries. */
module ArchiveWriter {
  import opened Bytes
  import opened Sorting
  import opened Paths
  import opened FileTree
  import Utf8

  /** What the directory walk yields: a path relative to the source, and the node. */
  datatype Visit = Visit(rel: Path, node: Node)

  /** An archive entry; `content` stands for the file behind the source path. */
  datatype ArchiveEntry = ArchiveEntry(path: Bytes, isDir: bool, mode: nat, content: Bytes)

  // ---- archive_entries ----

  predicate RootNameOk(name: Bytes) {
    && |Components(name)| == 1 && Components(name)[0].Normal?
    && SLASH !in name && BACKSLASH !in name
  }

  predicate ComponentOk(c: Bytes) {
    SafeName(c) && Utf8.Valid(c) && BACKSLASH !in c
  }

  predicate VisitOk(v: Visit) {
    && (v.node.Dir? || v.node.File?)
    && forall i :: 0 <= i < |v.rel| ==> ComponentOk(v.rel[i])
  }

  predicate AllVisitsOk(walk: seq<Visit>) {
    forall i :: 0 <= i < |walk| ==> VisitOk(walk[i])
  }

  /** Directories and executables become 0o755, other files 0o644. */
  function ArchiveMode(n: Node): (mode: nat) {
    if n.Dir? || (n.File? && Executable(n.mode)) then MODE_755 else MODE_644
  }

  function EntryOf(item: Item): (e: ArchiveEntry) {
    ArchiveEntry(Text(item.path), item.node.Dir?, ArchiveMode(item.node),
                 if item.node.File? then item.node.content else [])
  }

  function ItemAt(name: Bytes, v: Visit): (item: Item) {
    Item([name] + v.rel, v.node)
  }

  function WalkItems(walk: seq<Visit>, name: Bytes): (items: seq<Item>)
    ensures |items| == |walk|
  {
    seq(|walk|, i requires 0 <= i < |walk| => ItemAt(name, walk[i]))
  }

  function EntryKey(e: ArchiveEntry): (k: Bytes) { e.path }

  function ItemKey(item: Item): (k: Bytes) { Text(item.path) }

  /** The entry list of a walk, or `None` where listing is refused. */
  function Listing(walk: seq<Visit>, name: Bytes): (r: Option<seq<ArchiveEntry>>) {
    if !RootNameOk(name) || !AllVisitsOk(walk) then None
    else
      var es := Sort(EntryKey, Map(EntryOf, WalkItems(walk, name)));
      if es == [] || es[0].path != name || !es[0].isDir then None else Some(es)
  }

  /** Building one entry path component by component, as the original does. */
  method EntryPath(name: Bytes, rel: Path) returns (path: Bytes)
    ensures path == Text([name] + rel)
  {
    path := name;
    var i := 0;
    assert [name] + rel[..0] == [name];
    while i < |rel|
      invariant 0 <= i <= |rel|
      invariant path == Text([name] + rel[..i])
    {
      assert [name] + rel[..i + 1] == ([name] + rel[..i]) + [rel[i]];
      JoinSnoc([name] + rel[..i], rel[i], SLASH);
      path := path + [SLASH] + rel[i];
      i := i + 1;
    }
    assert rel[..i] == rel;
  }

  method ArchiveEntries(walk: seq<Visit>, name: Bytes) returns (r: Option<seq<ArchiveEntry>>)
    ensures r == Listing(walk, name)
    ensures r.Some? ==> SortedBy(EntryKey, r.value)
    ensures r.Some? ==> multiset(r.value) == multiset(Map(EntryOf, WalkItems(walk, name)))
    ensures r.Some? ==> r.value[0].path == name
  {
    if !RootNameOk(name) {
      return None;
    }
    var entries: seq<ArchiveEntry> := [];
    ghost var all := Map(EntryOf, WalkItems(walk, name));
    var i := 0;
    while i < |walk|
      invariant 0 <= i <= |walk|
      invariant forall j :: 0 <= j < i ==> VisitOk(walk[j])
      invariant entries == all[..i]
    {
      var v := walk[i];
      if !VisitOk(v) {
        return None;
      }
      var path := EntryPath(name, v.rel);
      entries := entries + [ArchiveEntry(path, v.node.Dir?, ArchiveMode(v.node),
                                         if v.node.File? then v.node.content else [])];
      assert all[i] == EntryOf(ItemAt(name, v));
      i := i + 1;
    }
    assert entries == all;
    SortSorts(EntryKey, entries);
    SortPermutes(EntryKey, entries);
    var sorted := Sort(EntryKey, entries);
    if sorted == [] || sorted[0].path != name || !sorted[0].isDir {
      return None;
    }
    return Some(sorted);
  }

  // ---- trees that can be released ----

  /** The tree of one release directory: rooted at `name`, files and
      directories only, every name clean UTF-8. */
  ghost predicate ReleaseTree(t: Tree, name: Bytes) {
    && IsTree(t)
    && [name] in t && t[[name]].Dir?
    && (forall p :: p in t ==> CleanPath(p) && p[0] == name && (t[p].Dir? || t[p].File?))
    && (forall p, i :: p in t && 0 <= i < |p| ==> Utf8.Valid(p[i]))
  }

  /** The walk visits every node of the tree once, in whatever order. */
  ghost predicate Lists(walk: seq<Visit>, name: Bytes, t: Tree) {
    DistinctPaths(WalkItems(walk, name)) && TreeOf(WalkItems(walk, name)) == t
  }

  /** The tree with the modes an archive keeps. */
  function NormalNode(n: Node): (r: Node) {
    match n
    case Dir(_) => Dir(MODE_755)
    case File(content, _) => File(content, ArchiveMode(n))
    case Symlink => Symlink
    case Special => Special
  }

  /** Normalizing keeps the contents and the executable bit, and nothing else of a mode. */
  lemma NormalNodeKeeps(n: Node)
    ensures n.Dir? ==> NormalNode(n) == Dir(493)
    ensures n.File? ==> NormalNode(n).File? && NormalNode(n).content == n.content
    ensures n.File? ==> NormalNode(n).mode == (if Executable(n.mode) then 493 else 420)
    ensures n.File? ==> (Executable(NormalNode(n).mode) <==> Executable(n.mode))
  {}

  function NormalItem(item: Item): (r: Item) { Item(item.path, NormalNode(item.node)) }

  function NormalTree(t: Tree): (r: Tree) { map p | p in t :: NormalNode(t[p]) }

  // ---- sorting ----

  lemma SortedParentEarlier(items: seq<Item>, i: nat, j: nat)
    requires SortedBy(ItemKey, items) && i < |items| && j < |items|
    requires CleanPath(items[i].path) && |items[i].path| > 1 && items[j].path == Parent(items[i].path)
    ensures j < i
  {
    ParentSortsFirst(items[i].path);
    if j > i {
      LeqAntisymmetric(ItemKey(items[i]), ItemKey(items[j]));
    }
  }

  /** Byte order is an extraction order: in a sorted list of the nodes of a
      tree every directory precedes what it contains. */
  lemma SortedIsWellOrdered(items: seq<Item>, t: Tree)
    requires IsTree(t) && SortedBy(ItemKey, items) && DistinctPaths(items)
    requires TreeOf(items) == t && forall p :: p in t ==> CleanPath(p)
    ensures WellOrdered(items)
  {
    forall i | 0 <= i < |items|
      ensures SafePath(items[i].path) && ParentEarlier(items, i)
    {
      TreeOfHas(items, i);
      var p := items[i].path;
      if |p| > 1 {
        var q := Parent(p);
        assert q in t && t[q].Dir?;
        var j := TreeOfOrigin(items, q);
        SortedParentEarlier(items, i, j);
      }
    }
  }

  lemma EntriesAreDistinct(items: seq<Item>)
    requires DistinctPaths(items) && forall i :: 0 <= i < |items| ==> CleanPath(items[i].path)
    ensures Distinct(Map(EntryOf, items))
  {
    var es := Map(EntryOf, items);
    forall i, j | 0 <= i < j < |es|
      ensures es[i] != es[j]
    {
      if es[i] == es[j] {
        TextInjective(items[i].path, items[j].path);
      }
    }
  }

  lemma EntriesAreNodes(items: seq<Item>, t: Tree, e: ArchiveEntry)
    requires DistinctPaths(items) && TreeOf(items) == t
    ensures e in Map(EntryOf, items) <==> exists p :: p in t && e == EntryOf(Item(p, t[p]))
  {
    var es := Map(EntryOf, items);
    if e in es {
      var i :| 0 <= i < |es| && es[i] == e;
      TreeOfLookup(items, i);
      assert items[i] == Item(items[i].path, t[items[i].path]);
    }
    if exists p :: p in t && e == EntryOf(Item(p, t[p])) {
      var p :| p in t && e == EntryOf(Item(p, t[p]));
      var i := TreeOfOrigin(items, p);
      assert es[i] == e;
    }
  }

  /** What the entries of a listed tree are, whatever the walk order. */
  lemma EntriesOfTree(walk: seq<Visit>, name: Bytes, t: Tree)
    requires ReleaseTree(t, name) && Lists(walk, name, t)
    ensures var es := Map(EntryOf, WalkItems(walk, name));
            && Distinct(es)
            && (forall e :: e in es <==> exists p :: p in t && e == EntryOf(Item(p, t[p])))
  {
    var items := WalkItems(walk, name);
    forall i | 0 <= i < |items|
      ensures CleanPath(items[i].path)
    {
      TreeOfHas(items, i);
    }
    EntriesAreDistinct(items);
    forall e
      ensures e in Map(EntryOf, items) <==> exists p :: p in t && e == EntryOf(Item(p, t[p]))
    {
      EntriesAreNodes(items, t, e);
    }
  }

  lemma EntryKeyDetermines(walk: seq<Visit>, name: Bytes, t: Tree)
    requires ReleaseTree(t, name) && Lists(walk, name, t)
    ensures KeyDetermines(EntryKey, Map(EntryOf, WalkItems(walk, name)))
  {
    EntriesOfTree(walk, name, t);
    var es := Map(EntryOf, WalkItems(walk, name));
    forall x, y | x in es && y in es && EntryKey(x) == EntryKey(y)
      ensures x == y
    {
      var p :| p in t && x == EntryOf(Item(p, t[p]));
      var q :| q in t && y == EntryOf(Item(q, t[q]));
      TextInjective(p, q);
    }
  }

  lemma RootNameIsClean(name: Bytes)
    requires CleanName(name)
    ensures RootNameOk(name)
    ensures Text([name]) == name
  {
    CleanComponents([name]);
    assert Text([name]) == name;
    SplitSingle(name, SLASH);
    assert PartComponents([name]) == [Normal(name)] + PartComponents([]);
  }

  /** Every walk of a release tree is listed, in the order of its sorted items. */
  lemma ListingOfTree(walk: seq<Visit>, name: Bytes, t: Tree)
    requires ReleaseTree(t, name) && Lists(walk, name, t)
    ensures Listing(walk, name) == Some(Map(EntryOf, Sort(ItemKey, WalkItems(walk, name))))
  {
    var items := WalkItems(walk, name);
    assert CleanName(name) by { assert CleanPath([name]) && [name][0] == name; }
    RootNameIsClean(name);
    VisitsAreOk(walk, name, t);
    SortMaps(EntryOf, ItemKey, EntryKey, items);
    FirstIsRoot(items, name, t);
  }

  lemma FirstIsRoot(items: seq<Item>, name: Bytes, t: Tree)
    requires ReleaseTree(t, name) && DistinctPaths(items) && TreeOf(items) == t
    ensures items != [] && Sort(ItemKey, items)[0].path == [name] && Sort(ItemKey, items)[0].node.Dir?
  {
    SortSorts(ItemKey, items);
    SortedKeepsTree(items);
    RootComesFirst(Sort(ItemKey, items), name, t);
  }

  lemma SortedWalkIsWellOrdered(walk: seq<Visit>, name: Bytes, t: Tree)
    requires ReleaseTree(t, name) && Lists(walk, name, t)
    ensures WellOrdered(Sort(ItemKey, WalkItems(walk, name)))
    ensures TreeOf(Sort(ItemKey, WalkItems(walk, name))) == t
  {
    SortSorts(ItemKey, WalkItems(walk, name));
    SortedKeepsTree(WalkItems(walk, name));
    SortedIsWellOrdered(Sort(ItemKey, WalkItems(walk, name)), t);
  }

  lemma RelativeIsOk(p: Path, rel: Path)
    requires CleanPath(p) && p[1..] == rel && forall i :: 0 <= i < |p| ==> Utf8.Valid(p[i])
    ensures forall k :: 0 <= k < |rel| ==> ComponentOk(rel[k])
  {
    forall k | 0 <= k < |rel|
      ensures ComponentOk(rel[k])
    {
      assert rel[k] == p[k + 1] && CleanName(p[k + 1]);
    }
  }

  lemma VisitsAreOk(walk: seq<Visit>, name: Bytes, t: Tree)
    requires ReleaseTree(t, name) && Lists(walk, name, t)
    ensures AllVisitsOk(walk)
  {
    var items := WalkItems(walk, name);
    forall i | 0 <= i < |walk|
      ensures VisitOk(walk[i])
    {
      TreeOfLookup(items, i);
      assert items[i] == Item([name] + walk[i].rel, walk[i].node);
      assert ([name] + walk[i].rel)[1..] == walk[i].rel;
      RelativeIsOk(items[i].path, walk[i].rel);
    }
  }

  lemma TreeOfMembers(a: seq<Item>, b: seq<Item>, p: Path)
    requires DistinctPaths(b) && (forall x :: x in a ==> x in b) && p in TreeOf(a)
    ensures p in TreeOf(b) && TreeOf(b)[p] == TreeOf(a)[p]
  {
    var i := TreeOfOrigin(a, p);
    assert a[i] in b;
    var j :| 0 <= j < |b| && b[j] == a[i];
    TreeOfLookup(b, j);
  }

  lemma SameMembersSameTree(a: seq<Item>, b: seq<Item>)
    requires DistinctPaths(a) && DistinctPaths(b) && forall x :: x in a <==> x in b
    ensures TreeOf(a) == TreeOf(b)
  {
    assert SubTree(TreeOf(a), TreeOf(b)) by {
      forall p | p in TreeOf(a)
        ensures p in TreeOf(b) && TreeOf(b)[p] == TreeOf(a)[p]
      {
        TreeOfMembers(a, b, p);
      }
    }
    assert SubTree(TreeOf(b), TreeOf(a)) by {
      forall p | p in TreeOf(b)
        ensures p in TreeOf(a) && TreeOf(a)[p] == TreeOf(b)[p]
      {
        TreeOfMembers(b, a, p);
      }
    }
    SubTreeBothWays(TreeOf(a), TreeOf(b));
  }

  ghost predicate SubTree(a: Tree, b: Tree) {
    forall p :: p in a ==> p in b && b[p] == a[p]
  }

  lemma SubTreeBothWays(a: Tree, b: Tree)
    requires SubTree(a, b) && SubTree(b, a)
    ensures a == b
  {}

  /** Sorting the walk changes neither the tree nor the distinctness of its paths. */
  lemma SortedKeepsTree(items: seq<Item>)
    requires DistinctPaths(items)
    ensures DistinctPaths(Sort(ItemKey, items)) && TreeOf(Sort(ItemKey, items)) == TreeOf(items)
  {
    SortPermutes(ItemKey, items);
    PermutedDistinct(items, Sort(ItemKey, items));
    MultisetMembers(items, Sort(ItemKey, items));
    SameMembersSameTree(items, Sort(ItemKey, items));
  }

  lemma PermutedDistinct(items: seq<Item>, sorted: seq<Item>)
    requires multiset(items) == multiset(sorted) && DistinctPaths(items)
    ensures DistinctPaths(sorted)
  {
    assert Distinct(items);
    DistinctMultiset(items);
    MultisetMembers(items, sorted);
    forall i, j | 0 <= i < j < |sorted|
      ensures sorted[i].path != sorted[j].path
    {
      if sorted[i].path == sorted[j].path {
        assert sorted[i] in items && sorted[j] in items;
        var x :| 0 <= x < |items| && items[x] == sorted[i];
        var y :| 0 <= y < |items| && items[y] == sorted[j];
        assert x == y;
        TwiceInMultiset(sorted, i, j);
        assert false;
      }
    }
  }

  lemma RootComesFirst(sorted: seq<Item>, name: Bytes, t: Tree)
    requires ReleaseTree(t, name) && SortedBy(ItemKey, sorted) && DistinctPaths(sorted) && TreeOf(sorted) == t
    ensures sorted != [] && sorted[0] == Item([name], t[[name]])
  {
    var i := TreeOfOrigin(sorted, [name]);
    TreeOfLookup(sorted, 0);
    var p := sorted[0].path;
    if i > 0 {
      RootSortsFirst(p);
      assert Text([name]) == name;
      LeqAntisymmetric(Text(p), name);
      TextInjective(p, [name]);
      assert false;
    }
  }

  // ---- exactly the release trees can be listed ----

  /** What any file system guarantees of the tree below `name`: it is a tree and
      no name contains a NUL. */
  ghost predicate OnDisk(t: Tree) {
    forall p :: p in t ==> NulFree(p)
  }

  predicate NulFree(p: Path) {
    forall i :: 0 <= i < |p| ==> NUL !in p[i]
  }

  predicate AllUtf8(p: Path) {
    forall i :: 0 <= i < |p| ==> Utf8.Valid(p[i])
  }

  lemma ListedPathIsClean(name: Bytes, v: Visit, p: Path)
    requires RootNameOk(name) && Utf8.Valid(name) && VisitOk(v)
    requires p == [name] + v.rel && NulFree(p)
    ensures CleanPath(p) && AllUtf8(p)
  {
    RootNameIsSafe(name);
    forall i | 0 <= i < |p|
      ensures CleanName(p[i]) && Utf8.Valid(p[i])
    {
      if i > 0 {
        assert p[i] == v.rel[i - 1] && ComponentOk(v.rel[i - 1]);
      }
    }
  }

  lemma OnePart(name: Bytes)
    ensures PartComponents([name]) == if name == [] || name == DOT then []
                                      else if name == DOTDOT then [ParentDir] else [Normal(name)]
  {
    assert [name][1..] == [];
  }

  lemma RootNameIsSafe(name: Bytes)
    requires RootNameOk(name)
    ensures SafeName(name) && BACKSLASH !in name
  {
    SplitSingle(name, SLASH);
    OnePart(name);
  }

  lemma ListedTreeIsRelease(walk: seq<Visit>, name: Bytes, t: Tree)
    requires IsTree(t) && OnDisk(t) && Lists(walk, name, t) && Utf8.Valid(name)
    requires RootNameOk(name) && AllVisitsOk(walk) && [name] in t && t[[name]].Dir?
    ensures ReleaseTree(t, name)
  {
    forall p | p in t
      ensures CleanPath(p) && p[0] == name && (t[p].Dir? || t[p].File?) && AllUtf8(p)
    {
      ListedNode(walk, name, t, p);
    }
  }

  lemma ListedNode(walk: seq<Visit>, name: Bytes, t: Tree, p: Path)
    requires OnDisk(t) && Lists(walk, name, t) && Utf8.Valid(name) && RootNameOk(name) && AllVisitsOk(walk) && p in t
    ensures CleanPath(p) && p[0] == name && (t[p].Dir? || t[p].File?) && AllUtf8(p)
  {
    var items := WalkItems(walk, name);
    var i := TreeOfOrigin(items, p);
    assert items[i] == Item([name] + walk[i].rel, walk[i].node);
    assert VisitOk(walk[i]);
    ListedPathIsClean(name, walk[i], p);
  }

  lemma FirstEntryIsRoot(walk: seq<Visit>, name: Bytes, t: Tree)
    requires Lists(walk, name, t) && Listing(walk, name).Some?
    ensures [name] in t && t[[name]].Dir?
  {
    var items := WalkItems(walk, name);
    var es := Map(EntryOf, items);
    SortPermutes(EntryKey, es);
    MultisetMembers(Sort(EntryKey, es), es);
    var first := Sort(EntryKey, es)[0];
    assert first in Sort(EntryKey, es);
    var i :| 0 <= i < |es| && es[i] == first;
    TreeOfLookup(items, i);
    var rel := walk[i].rel;
    assert rel == [] by {
      if rel != [] {
        JoinCons(name, rel, SLASH);
      }
    }
    assert items[i].path == [name];
  }

  /** A walk of any tree on disk is listed exactly when the tree is a release
      tree: links, special nodes, backslashes and non-UTF-8 names are refused,
      and nothing else is. */
  lemma ListingIsExact(walk: seq<Visit>, name: Bytes, t: Tree)
    requires IsTree(t) && OnDisk(t) && Lists(walk, name, t) && Utf8.Valid(name)
    ensures Listing(walk, name).Some? <==> ReleaseTree(t, name)
  {
    if Listing(walk, name).Some? {
      FirstEntryIsRoot(walk, name, t);
      assert [name][0] == name;
      ListedTreeIsRelease(walk, name, t);
    }
    if ReleaseTree(t, name) {
      ListingOfTree(walk, name, t);
    }
  }
}
