/** Bounded extraction of a compiler pack, TAR and ZIP: its own path rule and
    its own counters, the same order of creation. */
module PackExtract {
  import opened Bytes
  import opened Paths
  import opened FileTree
  import Utf8

  const MAX_UNPACKED_BYTES: nat := 8 * 1024 * 1024 * 1024
  const MAX_PACK_FILES: nat := 250_000
  const MAX_PACK_DIRECTORIES: nat := 100_000
  const U64_MAX: nat := 0xFFFF_FFFF_FFFF_FFFF

  datatype Failure =
    | UnsafePath | Duplicate | MissingParent | DirectoryPayload | NotRegular | Overflow
    | OverBounds | TooManyEntries | Refused | MissingMode | SizeMismatch | CreateFailed

  datatype Outcome = Done | Failed(failure: Failure)

  // ---- bounded_archive_path ----

  /** All components normal, UTF-8 and free of separators; at least one. */
  function PackPath(path: Bytes): (r: Option<Path>)
    ensures r.Some? ==> SafePath(r.value)
  {
    match NormalNames(Components(path))
    case None => None
    case Some(p) =>
      if p == [] || exists i :: 0 <= i < |p| && (p[i] == [] || !Utf8.Valid(p[i]) || SLASH in p[i] || BACKSLASH in p[i])
      then None
      else
        ComponentNames(path);
        Some(p)
  }

  lemma {:induction false} PartNames(parts: seq<Bytes>)
    requires NormalNames(PartComponents(parts)).Some?
    ensures var p := NormalNames(PartComponents(parts)).value;
            forall i :: 0 <= i < |p| ==> p[i] != [] && p[i] != DOT && p[i] != DOTDOT
  {
    if parts != [] {
      var rest := PartComponents(parts[1..]);
      if parts[0] == [] || parts[0] == DOT {
        assert PartComponents(parts) == rest;
      } else {
        assert PartComponents(parts)[1..] == rest;
      }
      PartNames(parts[1..]);
    }
  }

  lemma ComponentNames(path: Bytes)
    requires NormalNames(Components(path)).Some?
    ensures var p := NormalNames(Components(path)).value;
            forall i :: 0 <= i < |p| ==> p[i] != [] && p[i] != DOT && p[i] != DOTDOT
  {
    var parts := Split(path, SLASH);
    assert Components(path) == PartComponents(parts);
    PartNames(parts);
  }

  /** Exactly which pack paths are accepted, and as what: not absolute, no part
      `..`, no leading `.`, at least one part that names something, and these all
      UTF-8 without backslashes. */
  lemma PackPathExact(path: Bytes, p: Path)
    ensures PackPath(path) == Some(p) <==>
            && (path == [] || path[0] != 47)
            && [46, 46] !in Split(path, 47) && Split(path, 47)[0] != [46]
            && p != [] && p == NamedParts(Split(path, 47))
            && forall i :: 0 <= i < |p| ==> Utf8.Valid(p[i]) && 92 !in p[i]
  {
    NormalComponents(path);
    NamedPartsAreParts(Split(path, 47));
  }

  lemma {:induction false} NamedPartsAreParts(parts: seq<Bytes>)
    ensures forall i :: 0 <= i < |NamedParts(parts)| ==> NamedParts(parts)[i] in parts && NamedParts(parts)[i] != []
  {
    if parts != [] {
      NamedPartsAreParts(parts[1..]);
      assert forall q :: q in parts[1..] ==> q in parts;
    }
  }

  // ---- the counters ----

  /** What an entry adds: a directory, or a file of some size. */
  datatype Load = DirLoad | FileLoad(size: nat)

  function FileCount(loads: seq<Load>): (n: nat)
    ensures n <= |loads|
  {
    if loads == [] then 0
    else FileCount(loads[..|loads| - 1]) + (if loads[|loads| - 1].FileLoad? then 1 else 0)
  }

  function FileBytes(loads: seq<Load>): (n: nat) {
    if loads == [] then 0
    else FileBytes(loads[..|loads| - 1]) + (if loads[|loads| - 1].FileLoad? then loads[|loads| - 1].size else 0)
  }

  predicate WithinBounds(fileCount: nat, directoryCount: nat, unpackedBytes: nat) {
    fileCount <= MAX_PACK_FILES && directoryCount <= MAX_PACK_DIRECTORIES && unpackedBytes <= MAX_UNPACKED_BYTES
  }

  /** The bounds of the whole pack; every prefix then meets them too. */
  predicate PackFits(loads: seq<Load>) {
    WithinBounds(FileCount(loads), |loads| - FileCount(loads), FileBytes(loads))
  }

  lemma {:induction false} CountsGrow(loads: seq<Load>, n: nat)
    requires n <= |loads|
    ensures FileCount(loads[..n]) <= FileCount(loads) && n - FileCount(loads[..n]) <= |loads| - FileCount(loads)
    ensures FileBytes(loads[..n]) <= FileBytes(loads)
    decreases |loads|
  {
    if n < |loads| {
      CountsGrow(loads[..|loads| - 1], n);
      assert loads[..|loads| - 1][..n] == loads[..n];
    } else {
      assert loads[..n] == loads;
    }
  }

  lemma PackFitsPrefix(loads: seq<Load>, n: nat)
    requires n <= |loads| && PackFits(loads)
    ensures PackFits(loads[..n])
  {
    CountsGrow(loads, n);
  }

  ghost predicate Counted(done: seq<Load>, fileCount: nat, directoryCount: nat, unpackedBytes: nat) {
    && PackFits(done)
    && fileCount == FileCount(done) && directoryCount == |done| - FileCount(done)
    && unpackedBytes == FileBytes(done)
  }

  /** The three counters of both loops, raised by one entry and checked. */
  method Raise(load: Load, fileCount: nat, directoryCount: nat, unpackedBytes: nat, ghost done: seq<Load>)
    returns (failure: Option<Failure>, fileCount': nat, directoryCount': nat, unpackedBytes': nat)
    requires Counted(done, fileCount, directoryCount, unpackedBytes)
    ensures failure.None? <==> PackFits(done + [load])
    ensures failure.None? ==> Counted(done + [load], fileCount', directoryCount', unpackedBytes')
    ensures failure.Some? ==> failure.value.OverBounds? || failure.value.Overflow?
  {
    assert (done + [load])[..|done|] == done;
    fileCount', directoryCount', unpackedBytes' := fileCount, directoryCount, unpackedBytes;
    if load.DirLoad? {
      directoryCount' := directoryCount + 1;
    } else {
      fileCount' := fileCount + 1;
      if unpackedBytes + load.size > U64_MAX {
        failure := Some(Overflow);
        return;
      }
      unpackedBytes' := unpackedBytes + load.size;
    }
    failure := if WithinBounds(fileCount', directoryCount', unpackedBytes') then None else Some(OverBounds);
  }

  /** The places of the files, and of the directories. */
  ghost function Places(loads: seq<Load>, files: bool): (places: set<nat>) {
    set i: nat | i < |loads| && loads[i].FileLoad? == files
  }

  function SizeOf(l: Load): (n: nat) { if l.FileLoad? then l.size else 0 }

  lemma {:induction false} CountsArePlaces(loads: seq<Load>)
    ensures FileCount(loads) == |Places(loads, true)| && |loads| - FileCount(loads) == |Places(loads, false)|
    ensures FileBytes(loads) == Sum(Map(SizeOf, loads))
  {
    if loads == [] {
      assert Places(loads, true) == {} && Places(loads, false) == {};
    } else {
      var init, n := loads[..|loads| - 1], |loads| - 1;
      CountsArePlaces(init);
      PlacesSnoc(loads, true);
      PlacesSnoc(loads, false);
      MapLast(SizeOf, loads);
      SumAppend(Map(SizeOf, init), [SizeOf(loads[n])]);
      assert Sum([SizeOf(loads[n])]) == SizeOf(loads[n]);
    }
  }

  lemma PlacesSnoc(loads: seq<Load>, files: bool)
    requires loads != []
    ensures var n := |loads| - 1;
            |Places(loads, files)| == |Places(loads[..n], files)| + (if loads[n].FileLoad? == files then 1 else 0)
  {
    var n: nat := |loads| - 1;
    var before, after := Places(loads[..n], files), Places(loads, files);
    forall i: nat
      ensures i in after <==> i in before || (i == n && loads[n].FileLoad? == files)
    {
      assert i < n ==> loads[..n][i] == loads[i];
    }
    assert n !in before;
    OneMore(before, after, n, loads[n].FileLoad? == files);
  }

  lemma OneMore(before: set<nat>, after: set<nat>, n: nat, more: bool)
    requires n !in before && forall i: nat :: i in after <==> i in before || (i == n && more)
    ensures |after| == |before| + (if more then 1 else 0)
  {
    assert after == if more then before + {n} else before;
  }

  // ---- the checks both loops make on a path ----

  function ItemAt(path: Bytes, node: Node): (item: Item) {
    Item(if PackPath(path).Some? then PackPath(path).value else [], node)
  }

  method CheckPath(path: Bytes, ghost node: Node, seen: set<Path>, directories: set<Path>, ghost tree: Tree,
                   ghost done: seq<Item>)
    returns (failure: Option<Failure>, seen': set<Path>)
    requires Holds(done, seen, directories, tree)
    ensures failure.None? <==> WellOrdered(done + [ItemAt(path, node)])
    ensures failure.None? ==>
              && PackPath(path).Some?
              && var p := PackPath(path).value;
              && p !in tree && ParentIsDir(tree, p) && seen' == seen + {p}
              && Holds(done + [ItemAt(path, node)], seen', if node.Dir? then directories + {p} else directories,
                       tree[p := node])
    ensures failure != Some(CreateFailed)
  {
    seen' := seen;
    var checked := PackPath(path);
    if checked.None? {
      UnsafeSnoc(done, ItemAt(path, node));
      return Some(UnsafePath), seen;
    }
    var relative := checked.value;
    HoldsStep(done, ItemAt(path, node), seen, directories, tree);
    if relative in seen {
      return Some(Duplicate), seen;
    }
    seen' := seen + {relative};
    if |relative| > 1 && Parent(relative) !in directories {
      return Some(MissingParent), seen';
    }
    assert Admitted(relative, seen, directories);
    failure := None;
  }

  // ---- TAR ----

  datatype TarKind = TarDir | TarFile | TarOther

  /** A resolved entry; `unpacked` is what the library writes, or `None` when it refuses. */
  datatype TarEntry = TarEntry(path: Bytes, kind: TarKind, size: nat, unpacked: Option<Node>)

  function TarLoad(e: TarEntry): (l: Load) { if e.kind.TarDir? then DirLoad else FileLoad(e.size) }

  /** The library writes a directory for a directory entry and a file for a file entry. */
  predicate Honest(e: TarEntry) {
    e.unpacked.Some? ==> (e.kind.TarDir? <==> e.unpacked.value.Dir?)
  }

  function TarItem(e: TarEntry): (item: Item) {
    ItemAt(e.path, if e.unpacked.Some? then e.unpacked.value else Special)
  }

  predicate TarSound(e: TarEntry) {
    !e.kind.TarOther? && (e.kind.TarDir? ==> e.size == 0) && e.unpacked.Some?
  }

  ghost predicate AllTarSound(es: seq<TarEntry>, n: nat)
    requires n <= |es|
  {
    forall i :: 0 <= i < n ==> TarSound(es[i])
  }

  ghost predicate TarAccepts(es: seq<TarEntry>) {
    && AllTarSound(es, |es|)
    && WellOrdered(Map(TarItem, es))
    && PackFits(Map(TarLoad, es))
  }

  method PlaceTar(entry: TarEntry, seen: set<Path>, directories: set<Path>, tree: Tree,
                  fileCount: nat, directoryCount: nat, unpackedBytes: nat,
                  ghost done: seq<Item>, ghost loads: seq<Load>)
    returns (failure: Option<Failure>, seen': set<Path>, directories': set<Path>, tree': Tree,
             fileCount': nat, directoryCount': nat, unpackedBytes': nat)
    requires Honest(entry)
    requires Holds(done, seen, directories, tree)
    requires Counted(loads, fileCount, directoryCount, unpackedBytes)
    ensures failure.None? ==> TarSound(entry) && Holds(done + [TarItem(entry)], seen', directories', tree')
    ensures failure.None? ==> Counted(loads + [TarLoad(entry)], fileCount', directoryCount', unpackedBytes')
    ensures failure.Some? ==>
              !TarSound(entry) || !WellOrdered(done + [TarItem(entry)]) || !PackFits(loads + [TarLoad(entry)])
    ensures IsTree(tree')
    ensures failure != Some(CreateFailed)
  {
    HoldsIsTree(done, seen, directories, tree);
    directories', tree' := directories, tree;
    fileCount', directoryCount', unpackedBytes' := fileCount, directoryCount, unpackedBytes;
    failure, seen' := CheckPath(entry.path, TarItem(entry).node, seen, directories, tree, done);
    if failure.None? {
      failure := TarKindFailure(entry);
    }
    if failure.None? {
      failure, fileCount', directoryCount', unpackedBytes' :=
        Raise(TarLoad(entry), fileCount, directoryCount, unpackedBytes, loads);
    }
    if failure.None? {
      failure, tree' := Unpack(tree, PackPath(entry.path).value, entry.unpacked);
      if entry.kind.TarDir? {
        directories' := directories + {PackPath(entry.path).value};
      }
    }
  }

  method Unpack(tree: Tree, relative: Path, node: Option<Node>) returns (failure: Option<Failure>, tree': Tree)
    requires IsTree(tree) && SafePath(relative) && relative !in tree && ParentIsDir(tree, relative)
    ensures failure.None? <==> node.Some?
    ensures failure.None? ==> tree' == tree[relative := node.value]
    ensures IsTree(tree')
    ensures failure != Some(CreateFailed)
  {
    if node.None? {
      return Some(Refused), tree;
    }
    var created := Create(tree, relative, node.value);
    if created.None? {
      return Some(CreateFailed), tree;
    }
    return None, created.value;
  }

  function TarKindFailure(e: TarEntry): (r: Option<Failure>)
    ensures r.None? <==> !e.kind.TarOther? && (e.kind.TarDir? ==> e.size == 0)
    ensures r != Some(CreateFailed)
  {
    if e.kind.TarOther? then Some(NotRegular)
    else if e.kind.TarDir? && e.size != 0 then Some(DirectoryPayload)
    else None
  }

  /** The bounds of a TAR pack, over its entries. */
  lemma TarBoundsExact(es: seq<TarEntry>)
    ensures PackFits(Map(TarLoad, es)) <==>
            && |set i: nat | i < |es| && !es[i].kind.TarDir?| <= 250_000
            && |set i: nat | i < |es| && es[i].kind.TarDir?| <= 100_000
            && Sum(seq(|es|, i requires 0 <= i < |es| => if es[i].kind.TarDir? then 0 else es[i].size)) <= 8_589_934_592
  {
    var loads := Map(TarLoad, es);
    CountsArePlaces(loads);
    assert Places(loads, true) == set i: nat | i < |es| && !es[i].kind.TarDir?;
    assert Places(loads, false) == set i: nat | i < |es| && es[i].kind.TarDir?;
    assert Map(SizeOf, loads) == seq(|es|, i requires 0 <= i < |es| => if es[i].kind.TarDir? then 0 else es[i].size);
  }

  lemma TarSoundStep(es: seq<TarEntry>, i: nat)
    requires i < |es|
    ensures AllTarSound(es, i) && TarSound(es[i]) ==> AllTarSound(es, i + 1)
    ensures TarAccepts(es) ==> TarSound(es[i])
  {}

  lemma TarMapStep(es: seq<TarEntry>, i: nat)
    requires i < |es|
    ensures Map(TarItem, es[..i + 1]) == Map(TarItem, es[..i]) + [TarItem(es[i])]
    ensures Map(TarLoad, es[..i + 1]) == Map(TarLoad, es[..i]) + [TarLoad(es[i])]
  {
    assert es[..i + 1] == es[..i] + [es[i]];
  }

  lemma TarPrefix(es: seq<TarEntry>, n: nat)
    requires n <= |es|
    ensures TarAccepts(es) ==> WellOrdered(Map(TarItem, es[..n])) && PackFits(Map(TarLoad, es[..n]))
  {
    if TarAccepts(es) {
      MapPrefix(TarItem, es, n);
      MapPrefix(TarLoad, es, n);
      WellOrderedTake(Map(TarItem, es), n);
      PackFitsPrefix(Map(TarLoad, es), n);
    }
  }

  lemma ItemStands(items: seq<Item>, path: Bytes, node: Node)
    requires WellOrdered(items) && ItemAt(path, node) in items
    ensures PackPath(path).Some? && PackPath(path).value in TreeOf(items) && TreeOf(items)[PackPath(path).value] == node
  {
    var i :| 0 <= i < |items| && items[i] == ItemAt(path, node);
    TreeOfLookup(items, i);
    assert SafePath(items[i].path);
  }

  lemma TarStands(es: seq<TarEntry>)
    requires TarAccepts(es)
    ensures |TreeOf(Map(TarItem, es))| == |es|
    ensures forall e :: e in es ==>
              && PackPath(e.path).Some? && PackPath(e.path).value in TreeOf(Map(TarItem, es))
              && Some(TreeOf(Map(TarItem, es))[PackPath(e.path).value]) == e.unpacked
  {
    var items := Map(TarItem, es);
    TreeOfSize(items);
    forall e | e in es
      ensures PackPath(e.path).Some? && PackPath(e.path).value in TreeOf(items)
      ensures Some(TreeOf(items)[PackPath(e.path).value]) == e.unpacked
    {
      var i :| 0 <= i < |es| && es[i] == e;
      assert TarSound(e) && items[i] == TarItem(e);
      ItemStands(items, e.path, e.unpacked.value);
    }
  }

  /** What every accepted entry meets; its path has no `..` part. */
  lemma AcceptedTarEntry(es: seq<TarEntry>, i: nat)
    requires TarAccepts(es) && i < |es|
    ensures [46, 46] !in Split(es[i].path, 47)
    ensures es[i].kind == TarFile || (es[i].kind == TarDir && es[i].size == 0)
  {
    assert TarSound(es[i]) && SafePath(Map(TarItem, es)[i].path);
    PackPathExact(es[i].path, PackPath(es[i].path).value);
  }

  method ExtractTar(es: seq<TarEntry>) returns (r: Outcome, tree: Tree)
    requires forall i :: 0 <= i < |es| ==> Honest(es[i])
    ensures r.Done? <==> TarAccepts(es)
    ensures r.Done? ==> tree == TreeOf(Map(TarItem, es))
    ensures r.Done? ==> |tree| == |es|
    ensures r.Done? ==> forall e :: e in es ==>
              && PackPath(e.path).Some? && PackPath(e.path).value in tree
              && Some(tree[PackPath(e.path).value]) == e.unpacked
    ensures IsTree(tree)
    ensures r != Failed(CreateFailed)
  {
    var seen: set<Path>, directories: set<Path> := {}, {};
    var fileCount, directoryCount, unpackedBytes := 0, 0, 0;
    tree := map[];
    ghost var done: seq<Item>, loads: seq<Load> := [], [];
    var i := 0;
    assert Map(TarItem, es[..0]) == [] && Map(TarLoad, es[..0]) == [];
    while i < |es|
      invariant 0 <= i <= |es|
      invariant AllTarSound(es, i)
      invariant done == Map(TarItem, es[..i]) && loads == Map(TarLoad, es[..i])
      invariant Holds(done, seen, directories, tree)
      invariant Counted(loads, fileCount, directoryCount, unpackedBytes)
    {
      TarMapStep(es, i);
      TarSoundStep(es, i);
      var failure;
      failure, seen, directories, tree, fileCount, directoryCount, unpackedBytes :=
        PlaceTar(es[i], seen, directories, tree, fileCount, directoryCount, unpackedBytes,
                 done, loads);
      if failure.Some? {
        TarPrefix(es, i + 1);
        return Failed(failure.value), tree;
      }
      done, loads := done + [TarItem(es[i])], loads + [TarLoad(es[i])];
      i := i + 1;
    }
    assert es[..i] == es;
    HoldsIsTree(done, seen, directories, tree);
    TarStands(es);
    return Done, tree;
  }

  // ---- ZIP ----

  /** An entry as the ZIP library reports it. */
  datatype ZipEntry = ZipEntry(name: Bytes, enclosed: Option<Bytes>, unixMode: Option<nat>,
                               isDir: bool, isFile: bool, size: nat, data: Bytes)

  function ZipLoad(e: ZipEntry): (l: Load) { if e.isDir then DirLoad else FileLoad(e.size) }

  /** `mode & 0o170000` is zero, a directory or a regular file. */
  predicate KnownType(mode: Option<nat>) {
    mode.Some? ==> mode.value / 4096 % 16 in {0, 4, 8}
  }

  function ZipNode(e: ZipEntry): (n: Node) {
    var mode := if e.unixMode.Some? then FileMode(e.unixMode.value) else 0;
    if e.isDir then Dir(mode) else File(e.data, mode)
  }

  function ZipItem(e: ZipEntry): (item: Item) {
    ItemAt(if e.enclosed.Some? then e.enclosed.value else [], ZipNode(e))
  }

  predicate ZipSound(e: ZipEntry) {
    && e.enclosed.Some? && BACKSLASH !in e.name && KnownType(e.unixMode) && e.unixMode.Some?
    && (if e.isDir then e.size == 0 else e.isFile && |e.data| == e.size)
  }

  ghost predicate AllZipSound(es: seq<ZipEntry>, n: nat)
    requires n <= |es|
  {
    forall i :: 0 <= i < n ==> ZipSound(es[i])
  }

  ghost predicate ZipAccepts(es: seq<ZipEntry>) {
    && AllZipSound(es, |es|)
    && WellOrdered(Map(ZipItem, es))
    && PackFits(Map(ZipLoad, es))
  }

  function ZipKindFailure(e: ZipEntry): (r: Option<Failure>)
    ensures r.None? <==> KnownType(e.unixMode) && (if e.isDir then e.size == 0 else e.isFile)
    ensures r != Some(CreateFailed)
  {
    if !KnownType(e.unixMode) then Some(NotRegular)
    else if e.isDir && e.size != 0 then Some(DirectoryPayload)
    else if !e.isDir && !e.isFile then Some(NotRegular)
    else None
  }

  /** Create, copy everything the entry yields, then set the mode. */
  method WriteZip(tree: Tree, relative: Path, e: ZipEntry, createdMode: nat)
    returns (failure: Option<Failure>, tree': Tree)
    requires IsTree(tree) && SafePath(relative) && relative !in tree && ParentIsDir(tree, relative)
    ensures failure.None? <==> e.unixMode.Some? && (!e.isDir ==> |e.data| == e.size)
    ensures failure.None? ==> tree' == tree[relative := ZipNode(e)]
    ensures IsTree(tree')
    ensures failure != Some(CreateFailed)
  {
    var created := Create(tree, relative, if e.isDir then Dir(createdMode) else File(e.data, createdMode));
    if created.None? {
      return Some(CreateFailed), tree;
    }
    if !e.isDir && |e.data| != e.size {
      return Some(SizeMismatch), created.value;
    }
    if e.unixMode.None? {
      return Some(MissingMode), created.value;
    }
    tree' := created.value[relative := ZipNode(e)];
    assert tree' == tree[relative := ZipNode(e)];
    return None, tree';
  }

  method PlaceZip(entry: ZipEntry, createdMode: nat, seen: set<Path>, directories: set<Path>, tree: Tree,
                  fileCount: nat, directoryCount: nat, unpackedBytes: nat,
                  ghost done: seq<Item>, ghost loads: seq<Load>)
    returns (failure: Option<Failure>, seen': set<Path>, directories': set<Path>, tree': Tree,
             fileCount': nat, directoryCount': nat, unpackedBytes': nat)
    requires Holds(done, seen, directories, tree)
    requires Counted(loads, fileCount, directoryCount, unpackedBytes)
    ensures failure.None? ==> ZipSound(entry) && Holds(done + [ZipItem(entry)], seen', directories', tree')
    ensures failure.None? ==> Counted(loads + [ZipLoad(entry)], fileCount', directoryCount', unpackedBytes')
    ensures failure.Some? ==>
              !ZipSound(entry) || !WellOrdered(done + [ZipItem(entry)]) || !PackFits(loads + [ZipLoad(entry)])
    ensures IsTree(tree')
    ensures failure != Some(CreateFailed)
  {
    HoldsIsTree(done, seen, directories, tree);
    seen', directories', tree' := seen, directories, tree;
    fileCount', directoryCount', unpackedBytes' := fileCount, directoryCount, unpackedBytes;
    if entry.enclosed.None? || BACKSLASH in entry.name {
      failure := Some(UnsafePath);
      return;
    }
    failure, seen' := CheckPath(entry.enclosed.value, ZipNode(entry), seen, directories, tree, done);
    if failure.None? {
      failure := ZipKindFailure(entry);
    }
    if failure.None? {
      failure, fileCount', directoryCount', unpackedBytes' :=
        Raise(ZipLoad(entry), fileCount, directoryCount, unpackedBytes, loads);
    }
    if failure.None? {
      var relative := PackPath(entry.enclosed.value).value;
      failure, tree' := WriteZip(tree, relative, entry, createdMode);
      if entry.isDir {
        directories' := directories + {relative};
      }
    }
  }

  /** The bounds of a ZIP pack, over its entries. */
  lemma ZipBoundsExact(es: seq<ZipEntry>)
    ensures PackFits(Map(ZipLoad, es)) <==>
            && |set i: nat | i < |es| && !es[i].isDir| <= 250_000
            && |set i: nat | i < |es| && es[i].isDir| <= 100_000
            && Sum(seq(|es|, i requires 0 <= i < |es| => if es[i].isDir then 0 else es[i].size)) <= 8_589_934_592
  {
    var loads := Map(ZipLoad, es);
    CountsArePlaces(loads);
    assert Places(loads, true) == set i: nat | i < |es| && !es[i].isDir;
    assert Places(loads, false) == set i: nat | i < |es| && es[i].isDir;
    assert Map(SizeOf, loads) == seq(|es|, i requires 0 <= i < |es| => if es[i].isDir then 0 else es[i].size);
  }

  lemma ZipSoundStep(es: seq<ZipEntry>, i: nat)
    requires i < |es|
    ensures AllZipSound(es, i) && ZipSound(es[i]) ==> AllZipSound(es, i + 1)
    ensures ZipAccepts(es) ==> ZipSound(es[i])
  {}

  lemma ZipMapStep(es: seq<ZipEntry>, i: nat)
    requires i < |es|
    ensures Map(ZipItem, es[..i + 1]) == Map(ZipItem, es[..i]) + [ZipItem(es[i])]
    ensures Map(ZipLoad, es[..i + 1]) == Map(ZipLoad, es[..i]) + [ZipLoad(es[i])]
  {
    assert es[..i + 1] == es[..i] + [es[i]];
  }

  lemma ZipPrefix(es: seq<ZipEntry>, n: nat)
    requires n <= |es|
    ensures ZipAccepts(es) ==> WellOrdered(Map(ZipItem, es[..n])) && PackFits(Map(ZipLoad, es[..n]))
  {
    if ZipAccepts(es) {
      MapPrefix(ZipItem, es, n);
      MapPrefix(ZipLoad, es, n);
      WellOrderedTake(Map(ZipItem, es), n);
      PackFitsPrefix(Map(ZipLoad, es), n);
    }
  }

  lemma ZipStands(es: seq<ZipEntry>)
    requires ZipAccepts(es)
    ensures |TreeOf(Map(ZipItem, es))| == |es|
    ensures forall e :: e in es ==>
              && e.enclosed.Some? && e.unixMode.Some?
              && PackPath(e.enclosed.value).Some? && PackPath(e.enclosed.value).value in TreeOf(Map(ZipItem, es))
              && TreeOf(Map(ZipItem, es))[PackPath(e.enclosed.value).value] ==
                 if e.isDir then Dir(e.unixMode.value % 512) else File(e.data, e.unixMode.value % 512)
  {
    var items := Map(ZipItem, es);
    TreeOfSize(items);
    forall e | e in es
      ensures e.enclosed.Some? && e.unixMode.Some?
      ensures PackPath(e.enclosed.value).Some? && PackPath(e.enclosed.value).value in TreeOf(items)
      ensures TreeOf(items)[PackPath(e.enclosed.value).value] == ZipNode(e)
    {
      var i :| 0 <= i < |es| && es[i] == e;
      assert ZipSound(e) && items[i] == ZipItem(e);
      ItemStands(items, e.enclosed.value, ZipNode(e));
    }
  }

  /** What every accepted entry meets; its path has no `..` part. */
  lemma AcceptedZipEntry(es: seq<ZipEntry>, i: nat)
    requires ZipAccepts(es) && i < |es|
    ensures var e := es[i];
            && e.enclosed.Some? && [46, 46] !in Split(e.enclosed.value, 47) && 92 !in e.name
            && e.unixMode.Some? && e.unixMode.value / 4096 % 16 in {0, 4, 8}
            && (if e.isDir then e.size == 0 else e.isFile && |e.data| == e.size)
  {
    assert ZipSound(es[i]) && SafePath(Map(ZipItem, es)[i].path);
    PackPathExact(es[i].enclosed.value, PackPath(es[i].enclosed.value).value);
  }

  method ExtractZip(es: seq<ZipEntry>, createdMode: nat) returns (r: Outcome, tree: Tree)
    ensures r.Done? <==> ZipAccepts(es)
    ensures r.Done? ==> tree == TreeOf(Map(ZipItem, es))
    ensures r.Done? ==> |tree| == |es|
    ensures r.Done? ==> forall e :: e in es ==>
              && e.enclosed.Some? && e.unixMode.Some?
              && PackPath(e.enclosed.value).Some? && PackPath(e.enclosed.value).value in tree
              && tree[PackPath(e.enclosed.value).value] ==
                 if e.isDir then Dir(e.unixMode.value % 512) else File(e.data, e.unixMode.value % 512)
    ensures IsTree(tree)
    ensures r != Failed(CreateFailed)
  {
    var seen: set<Path>, directories: set<Path> := {}, {};
    var fileCount, directoryCount, unpackedBytes := 0, 0, 0;
    tree := map[];
    if |es| > MAX_PACK_FILES + MAX_PACK_DIRECTORIES {
      return Failed(TooManyEntries), tree;
    }
    ghost var done: seq<Item>, loads: seq<Load> := [], [];
    var i := 0;
    assert Map(ZipItem, es[..0]) == [] && Map(ZipLoad, es[..0]) == [];
    while i < |es|
      invariant 0 <= i <= |es|
      invariant AllZipSound(es, i)
      invariant done == Map(ZipItem, es[..i]) && loads == Map(ZipLoad, es[..i])
      invariant Holds(done, seen, directories, tree)
      invariant Counted(loads, fileCount, directoryCount, unpackedBytes)
    {
      ZipMapStep(es, i);
      ZipSoundStep(es, i);
      var failure;
      failure, seen, directories, tree, fileCount, directoryCount, unpackedBytes :=
        PlaceZip(es[i], createdMode, seen, directories, tree, fileCount, directoryCount, unpackedBytes, done, loads);
      if failure.Some? {
        ZipPrefix(es, i + 1);
        return Failed(failure.value), tree;
      }
      done, loads := done + [ZipItem(es[i])], loads + [ZipLoad(es[i])];
      i := i + 1;
    }
    assert es[..i] == es;
    HoldsIsTree(done, seen, directories, tree);
    ZipStands(es);
    return Done, tree;
  }
}
