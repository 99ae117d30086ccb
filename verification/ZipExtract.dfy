/** Bounded extraction of a release ZIP, after the central-directory scan. */
module ZipExtract {
  import opened Bytes
  import opened Paths
  import opened FileTree
  import opened Budget
  import opened ZipScan

  /** An entry as the ZIP library reports it: its name, whether the library
      finds the name enclosed, its declared size and Unix mode, and all that
      reading it yields. */
  datatype ZipEntry = ZipEntry(name: Bytes, enclosed: bool, size: nat, isSymlink: bool, isDir: bool,
                               unixMode: Option<nat>, data: Bytes)

  datatype Failure =
    | ScanRejected | CountChanged | UnsafeName | Duplicate | MissingParent | OverBudget
    | SymlinkEntry | DirectoryPayload | SpecialFile | SizeMismatch | CreateFailed

  datatype Outcome = Done | Failed(failure: Failure)

  /** `mode & 0o170000` is zero or a regular file. */
  predicate RegularType(mode: Option<nat>) {
    mode.Some? ==> mode.value / 4096 % 16 == 0 || mode.value / 4096 % 16 == 8
  }

  predicate Sound(e: ZipEntry) {
    && e.enclosed && !e.isSymlink
    && (if e.isDir then e.size == 0 else RegularType(e.unixMode) && |e.data| == e.size)
  }

  function ModeOr(mode: Option<nat>, default: nat): (m: nat) {
    if mode.Some? then mode.value else default
  }

  /** A refused name becomes the empty path, which is never well ordered. */
  function ItemOf(e: ZipEntry): (item: Item) {
    Item(if MemberPath(e.name).Some? then MemberPath(e.name).value else [],
         if e.isDir then Dir(DirMode(ModeOr(e.unixMode, MODE_755)))
         else File(e.data, FileMode(ModeOr(e.unixMode, MODE_644))))
  }

  function Items(es: seq<ZipEntry>): (items: seq<Item>)
    ensures |items| == |es|
  {
    Map(ItemOf, es)
  }

  function Sizes(es: seq<ZipEntry>): (sizes: seq<nat>)
    ensures |sizes| == |es|
  {
    Map((e: ZipEntry) => e.size, es)
  }

  ghost predicate AllSound(es: seq<ZipEntry>, n: nat)
    requires n <= |es|
  {
    forall i :: 0 <= i < n ==> Sound(es[i])
  }

  ghost predicate Accepts(es: seq<ZipEntry>) {
    && AllSound(es, |es|)
    && WellOrdered(Items(es))
    && Fits(Sizes(es))
  }

  /** The entry is in the tree as what it said it was. */
  ghost predicate StandsIn(e: ZipEntry, tree: Tree) {
    && MemberPath(e.name).Some? && MemberPath(e.name).value in tree
    && tree[MemberPath(e.name).value] ==
       if e.isDir then Dir(if e.unixMode.Some? then 448 + e.unixMode.value % 64 else 493)
       else File(e.data, if e.unixMode.Some? then e.unixMode.value % 512 else 420)
  }

  /** Every entry is in the tree, and nothing else is. */
  ghost predicate Stands(es: seq<ZipEntry>, tree: Tree) {
    |tree| == |es| && forall e :: e in es ==> StandsIn(e, tree)
  }

  lemma EntriesStand(es: seq<ZipEntry>)
    requires Accepts(es)
    ensures Stands(es, TreeOf(Items(es)))
  {
    TreeOfSize(Items(es));
    forall e | e in es
      ensures StandsIn(e, TreeOf(Items(es)))
    {
      var i :| 0 <= i < |es| && es[i] == e;
      EntryStands(es, i);
    }
  }

  lemma EntryStands(es: seq<ZipEntry>, i: nat)
    requires WellOrdered(Items(es)) && i < |es|
    ensures StandsIn(es[i], TreeOf(Items(es)))
  {
    TreeOfLookup(Items(es), i);
    assert SafePath(Items(es)[i].path);
  }

  /** What every accepted entry meets. No name has a `..` part. */
  lemma AcceptedEntry(es: seq<ZipEntry>, i: nat)
    requires Accepts(es) && i < |es|
    ensures var e := es[i];
            && [46, 46] !in Split(e.name, 47) && e.enclosed && !e.isSymlink
            && (if e.isDir then e.size == 0 else e.size == |e.data| <= 67_108_864)
            && (!e.isDir && e.unixMode.Some? ==> e.unixMode.value / 4096 % 16 == 0 || e.unixMode.value / 4096 % 16 == 8)
  {
    assert Sound(es[i]) && Sizes(es)[i] <= MAX_ENTRY_BYTES;
    assert SafePath(Items(es)[i].path);
    MemberPathExact(es[i].name, MemberPath(es[i].name).value);
  }

  method WriteEntry(e: ZipEntry, relative: Path, createdMode: nat, tree: Tree)
    returns (failure: Option<Failure>, tree': Tree)
    requires MemberPath(e.name) == Some(relative)
    requires IsTree(tree) && SafePath(relative) && relative !in tree && ParentIsDir(tree, relative)
    ensures failure.None? <==> (if e.isDir then e.size == 0 else RegularType(e.unixMode) && |e.data| == e.size)
    ensures failure.None? ==> tree' == tree[relative := ItemOf(e).node]
    ensures IsTree(tree')
    ensures failure != Some(CreateFailed) && failure != Some(OverBudget)
  {
    if e.isDir {
      if e.size != 0 {
        return Some(DirectoryPayload), tree;
      }
      var created := Create(tree, relative, Dir(DirMode(ModeOr(e.unixMode, MODE_755))));
      if created.None? {
        return Some(CreateFailed), tree;
      }
      return None, created.value;
    }
    if !RegularType(e.unixMode) {
      return Some(SpecialFile), tree;
    }
    var written, exact := CopyExact(e.data, e.size);
    var created := Create(tree, relative, File(written, createdMode));
    if created.None? {
      return Some(CreateFailed), tree;
    }
    if !exact {
      return Some(SizeMismatch), created.value;
    }
    assert written == e.data;
    tree' := created.value[relative := File(written, FileMode(ModeOr(e.unixMode, MODE_644)))];
    assert tree' == tree[relative := ItemOf(e).node];
    return None, tree';
  }

  lemma BudgetStep(es: seq<ZipEntry>, i: nat)
    requires i < |es|
    ensures Sizes(es[..i + 1]) == Sizes(es[..i]) + [es[i].size]
    ensures Fits(Sizes(es)) ==> Fits(Sizes(es[..i + 1]))
  {
    assert es[..i + 1] == es[..i] + [es[i]];
    assert Sizes(es)[..i + 1] == Sizes(es[..i + 1]);
    if Fits(Sizes(es)) {
      FitsPrefix(Sizes(es), i + 1);
    }
  }

  /** One pass of the extraction loop. */
  method PlaceEntry(entry: ZipEntry, createdMode: nat, budget: ReleaseArchiveBudget,
                    seen: set<Path>, directories: set<Path>, tree: Tree, ghost done: seq<Item>)
    returns (failure: Option<Failure>, seen': set<Path>, directories': set<Path>, tree': Tree)
    requires budget.Valid() && Holds(done, seen, directories, tree) && IsTree(tree)
    modifies budget
    ensures failure.None? ==> Sound(entry) && Holds(done + [ItemOf(entry)], seen', directories', tree')
    ensures failure.None? ==> budget.Valid() && budget.history == old(budget.history) + [entry.size]
    ensures failure.Some? ==>
              !Sound(entry) || !WellOrdered(done + [ItemOf(entry)]) || !Fits(old(budget.history) + [entry.size])
    ensures failure == Some(OverBudget) ==> !Fits(old(budget.history) + [entry.size])
    ensures IsTree(tree')
    ensures failure != Some(CreateFailed)
  {
    seen', directories', tree' := seen, directories, tree;
    var name := NormalizeMemberName(entry.name);
    if name.None? || !entry.enclosed {
      if name.None? {
        UnsafeSnoc(done, ItemOf(entry));
      }
      failure := Some(UnsafeName);
      return;
    }
    var relative := name.value;
    HoldsStep(done, ItemOf(entry), seen, directories, tree);
    if relative in seen {
      failure := Some(Duplicate);
      return;
    }
    seen' := seen + {relative};
    if |relative| > 1 && Parent(relative) !in directories {
      failure := Some(MissingParent);
      return;
    }
    assert Admitted(relative, seen, directories);
    var verdict := budget.Account(entry.size);
    if !verdict.Accepted? {
      failure := Some(OverBudget);
      return;
    }
    if entry.isSymlink {
      failure := Some(SymlinkEntry);
      return;
    }
    if entry.isDir {
      directories' := directories + {relative};
    }
    failure, tree' := WriteEntry(entry, relative, createdMode, tree);
  }

  lemma SoundStep(es: seq<ZipEntry>, i: nat)
    requires i < |es|
    ensures AllSound(es, i) && Sound(es[i]) ==> AllSound(es, i + 1)
    ensures Accepts(es) ==> Sound(es[i])
  {}

  lemma ItemsStep(es: seq<ZipEntry>, i: nat)
    requires i < |es|
    ensures Items(es[..i + 1]) == Items(es[..i]) + [ItemOf(es[i])]
  {
    assert es[..i + 1] == es[..i] + [es[i]];
  }

  lemma AcceptsPrefix(es: seq<ZipEntry>, n: nat)
    requires n <= |es|
    ensures Accepts(es) ==> WellOrdered(Items(es[..n]))
  {
    if Accepts(es) {
      MapPrefix(ItemOf, es, n);
      WellOrderedTake(Items(es), n);
    }
  }

  method ExtractEntries(es: seq<ZipEntry>, createdMode: nat) returns (r: Outcome, tree: Tree)
    ensures r.Done? <==> Accepts(es)
    ensures r.Done? ==> tree == TreeOf(Items(es))
    ensures r.Done? ==> Stands(es, tree)
    ensures IsTree(tree)
    ensures r != Failed(CreateFailed)
    ensures Fits(Sizes(es)) ==> r != Failed(OverBudget)
  {
    var budget := new ReleaseArchiveBudget();
    var seen: set<Path>, directories: set<Path> := {}, {};
    tree := map[];
    ghost var done: seq<Item> := [];
    var i := 0;
    assert Items(es[..0]) == [];
    while i < |es|
      invariant 0 <= i <= |es|
      invariant AllSound(es, i)
      invariant done == Items(es[..i])
      invariant Holds(done, seen, directories, tree) && IsTree(tree)
      invariant fresh(budget) && budget.Valid() && budget.history == Sizes(es[..i])
    {
      BudgetStep(es, i);
      ItemsStep(es, i);
      SoundStep(es, i);
      var failure;
      failure, seen, directories, tree :=
        PlaceEntry(es[i], createdMode, budget, seen, directories, tree, done);
      if failure.Some? {
        AcceptsPrefix(es, i + 1);
        return Failed(failure.value), tree;
      }
      done := done + [ItemOf(es[i])];
      i := i + 1;
    }
    assert es[..i] == es;
    EntriesStand(es);
    return Done, tree;
  }

  /** The whole ZIP path: scan, compare the counts, extract. A budget refusal is
      impossible when the library reports the sizes the scan already admitted. */
  method ExtractZip(file: Bytes, es: seq<ZipEntry>, createdMode: nat) returns (r: Outcome, tree: Tree)
    ensures r.Done? <==> Accepts(es) && HasRecords(file, |es|)
    ensures r.Done? ==> tree == TreeOf(Items(es))
    ensures r.Done? ==> Stands(es, tree)
    ensures IsTree(tree)
    ensures r != Failed(CreateFailed)
    ensures r == Failed(OverBudget) ==>
              forall k, recs, b :: Describes(file, k, recs, b) ==> multiset(DeclaredSizes(recs)) != multiset(Sizes(es))
  {
    var central := InspectCentralDirectory(file);
    if central.None? {
      return Failed(ScanRejected), map[];
    }
    if |es| != central.value.entryCount {
      return Failed(CountChanged), map[];
    }
    r, tree := ExtractEntries(es, createdMode);
    forall k, recs, b | Describes(file, k, recs, b) && multiset(DeclaredSizes(recs)) == multiset(Sizes(es))
      ensures r != Failed(OverBudget)
    {
      FitsAnyOrder(DeclaredSizes(recs), Sizes(es));
    }
  }
}
