/** Writing a release tree and extracting it again: exactly when that succeeds,
    that it gives back the tree with normalized modes, and that repackaging the
    result changes nothing. */
module RoundTrip {
  import opened Bytes
  import opened Sorting
  import opened Paths
  import opened FileTree
  import opened Budget
  import opened ArchiveWriter
  import opened Totals
  import Utf8
  import Tar = TarExtract
  import Zip = ZipExtract
  import Scan = ZipScan
  import W = ZipWriter

  // ---- what a tree costs ----

  const MAX_ARCHIVE_BYTES: nat := 1024 * 1024 * 1024

  function ContentBytes(n: Node): (size: nat) {
    if n.File? then |n.content| else 0
  }

  ghost predicate ContentsFit(t: Tree) {
    forall p :: p in t ==> ContentBytes(t[p]) <= MAX_ENTRY_BYTES
  }

  predicate IsLong(p: Path) { |Text(p)| > HEADER_NAME_BYTES }

  /** In a TAR a node is one record, or two when its path is long. */
  function TarRecordsFor(p: Path, n: Node): (count: nat) {
    if IsLong(p) then 2 else 1
  }

  function TarBytesFor(p: Path, n: Node): (size: nat) {
    ContentBytes(n) + if IsLong(p) then |Text(p)| + 1 else 0
  }

  /** The extraction budget of a TAR, read off the tree. */
  ghost predicate TarFits(t: Tree) {
    && ContentsFit(t)
    && Total(t, TarRecordsFor) <= MAX_ENTRIES
    && Total(t, TarBytesFor) <= MAX_EXPANDED_BYTES
  }

  function ZipBytesFor(p: Path, n: Node): (size: nat) { ContentBytes(n) }

  /** The length of a node's central record without extra fields. */
  function CentralBytesFor(p: Path, n: Node): (size: nat) {
    Scan.HEADER_LEN + |Text(p)| + if n.Dir? then 1 else 0
  }

  /** The extraction budget of a ZIP, read off the tree. */
  ghost predicate ZipFits(t: Tree) {
    ContentsFit(t) && |t| <= MAX_ENTRIES && Total(t, ZipBytesFor) <= MAX_EXPANDED_BYTES
  }

  ghost predicate SmallContents(items: seq<Item>) {
    forall i :: 0 <= i < |items| ==> ContentBytes(items[i].node) <= MAX_ENTRY_BYTES
  }

  lemma SmallContentsCons(items: seq<Item>)
    requires items != []
    ensures SmallContents(items) <==> ContentBytes(items[0].node) <= MAX_ENTRY_BYTES && SmallContents(items[1..])
  {
    assert forall i :: 1 <= i < |items| ==> items[i] == items[1..][i - 1];
  }

  lemma ContentsFitAsItems(items: seq<Item>, t: Tree)
    requires TreeOf(items) == t && DistinctPaths(items)
    ensures ContentsFit(t) <==> SmallContents(items)
  {
    forall i | 0 <= i < |items|
      ensures items[i].path in t && t[items[i].path] == items[i].node
    {
      TreeOfLookup(items, i);
    }
    if !ContentsFit(t) {
      var p :| p in t && ContentBytes(t[p]) > MAX_ENTRY_BYTES;
      var i := TreeOfOrigin(items, p);
      assert ContentBytes(items[i].node) > MAX_ENTRY_BYTES;
    }
  }

  // ---- TAR ----

  /** The name field of a GNU header. */
  const HEADER_NAME_BYTES: nat := 100

  /** What appending one entry writes. A path too long for the header goes into
      a GNU long-name record, NUL-terminated, and the header keeps some
      shortened name, here any function of the path. */
  function TarRecords(e: ArchiveEntry, shorten: Bytes -> Bytes): (raw: seq<Tar.RawEntry>) {
    var kind := if e.isDir then Tar.Directory else Tar.Regular;
    var data := if e.isDir then [] else e.content;
    if |e.path| > HEADER_NAME_BYTES then
      [Tar.RawEntry(Tar.LongName, |e.path| + 1, [], Some(MODE_644), e.path + [NUL]),
       Tar.RawEntry(kind, |data|, shorten(e.path), Some(e.mode), data)]
    else
      [Tar.RawEntry(kind, |data|, e.path, Some(e.mode), data)]
  }

  function TarStream(es: seq<ArchiveEntry>, shorten: Bytes -> Bytes): (raw: seq<Tar.RawEntry>) {
    if es == [] then [] else TarRecords(es[0], shorten) + TarStream(es[1..], shorten)
  }

  lemma StreamStep(raw: seq<Tar.RawEntry>, es: seq<ArchiveEntry>, i: nat, shorten: Bytes -> Bytes)
    requires i < |es|
    ensures raw + TarStream(es[i..], shorten)
         == raw + TarRecords(es[i], shorten) + TarStream(es[i + 1..], shorten)
  {
    assert es[i..][1..] == es[i + 1..];
    assert TarStream(es[i..], shorten) == TarRecords(es[i], shorten) + TarStream(es[i + 1..], shorten);
  }

  lemma {:induction false} StreamSnoc(es: seq<ArchiveEntry>, e: ArchiveEntry, shorten: Bytes -> Bytes)
    ensures TarStream(es + [e], shorten) == TarStream(es, shorten) + TarRecords(e, shorten)
  {
    if es == [] {
      assert es + [e] == [e] && [e][1..] == [];
      assert TarStream([e], shorten) == TarRecords(e, shorten) + TarStream([], shorten);
    } else {
      assert (es + [e])[1..] == es[1..] + [e];
      StreamSnoc(es[1..], e, shorten);
    }
  }

  method CreateTarArchive(es: seq<ArchiveEntry>, shorten: Bytes -> Bytes) returns (raw: seq<Tar.RawEntry>)
    ensures raw == TarStream(es, shorten)
  {
    raw := [];
    var i := 0;
    assert es[0..] == es;
    while i < |es|
      invariant 0 <= i <= |es|
      invariant raw + TarStream(es[i..], shorten) == TarStream(es, shorten)
    {
      StreamStep(raw, es, i, shorten);
      raw := raw + TarRecords(es[i], shorten);
      i := i + 1;
    }
    assert es[i..] == [] && raw + [] == raw;
  }

  /** An item whose path is clean UTF-8 and whose node can be archived. */
  ghost predicate Writable(item: Item) {
    CleanPath(item.path) && Utf8.Valid(Text(item.path)) && (item.node.Dir? || item.node.File?)
  }

  /** All member names fit the extractor's length limit. */
  ghost predicate NamesFit(items: seq<Item>) {
    forall i :: 0 <= i < |items| ==> |Text(items[i].path)| <= MAX_MEMBER_NAME_BYTES
  }

  lemma LongNameReads(item: Item)
    requires Writable(item) && |Text(item.path)| > HEADER_NAME_BYTES
    ensures var text := Text(item.path);
            Tar.LongNamePath(Tar.RawEntry(Tar.LongName, |text| + 1, [], Some(MODE_644), text + [NUL]))
            == if |text| <= MAX_MEMBER_NAME_BYTES then Some(item.path) else None
  {
    var text := Text(item.path);
    MemberPathOfText(item.path);
    CleanTextEnds(item.path);
    assert (text + [NUL])[..|text|] == text;
  }

  /** The member an item comes back as. */
  function MemberOf(item: Item, shorten: Bytes -> Bytes): (m: Tar.Member) {
    var records := TarRecords(EntryOf(item), shorten);
    Tar.Member(item.path, records[|records| - 1])
  }

  lemma AttachOne(item: Item, shorten: Bytes -> Bytes, rest: seq<Tar.RawEntry>)
    requires Writable(item)
    ensures Tar.Attach(TarRecords(EntryOf(item), shorten) + rest)
         == if |Text(item.path)| <= MAX_MEMBER_NAME_BYTES
            then Prefixed([MemberOf(item, shorten)], Tar.Attach(rest)) else None
  {
    var records := TarRecords(EntryOf(item), shorten);
    var raw := records + rest;
    if |Text(item.path)| > HEADER_NAME_BYTES {
      LongNameReads(item);
      assert raw[0] == records[0] && raw[1] == records[1] && raw[2..] == rest;
    } else {
      MemberPathOfText(item.path);
      assert raw[0] == records[0] && raw[1..] == rest;
    }
  }

  lemma {:induction false} AttachStream(items: seq<Item>, shorten: Bytes -> Bytes)
    requires forall i :: 0 <= i < |items| ==> Writable(items[i])
    ensures var r := Tar.Attach(TarStream(Map(EntryOf, items), shorten));
            && (r.Some? <==> NamesFit(items))
            && (r.Some? ==> r.value == Map((item: Item) => MemberOf(item, shorten), items))
  {
    if items != [] {
      var rest := TarStream(Map(EntryOf, items[1..]), shorten);
      MapHead(EntryOf, items);
      MapHead((item: Item) => MemberOf(item, shorten), items);
      AttachOne(items[0], shorten, rest);
      AttachStream(items[1..], shorten);
      NamesFitCons(items);
    }
  }

  lemma NamesFitCons(items: seq<Item>)
    requires items != []
    ensures NamesFit(items) <==> |Text(items[0].path)| <= MAX_MEMBER_NAME_BYTES && NamesFit(items[1..])
  {
    assert forall i :: 1 <= i < |items| ==> items[i] == items[1..][i - 1];
  }

  lemma MembersComeBack(items: seq<Item>, shorten: Bytes -> Bytes)
    requires forall i :: 0 <= i < |items| ==> Writable(items[i])
    ensures var ms := Map((item: Item) => MemberOf(item, shorten), items);
            && (forall i :: 0 <= i < |ms| ==> Tar.Sound(ms[i]))
            && Tar.Items(ms) == Map(NormalItem, items)
  {
    forall i | 0 <= i < |items|
      ensures Tar.Sound(MemberOf(items[i], shorten)) && Tar.ItemOf(MemberOf(items[i], shorten)) == NormalItem(items[i])
    {
      assert Writable(items[i]);
    }
  }

  // ---- both formats ----

  lemma NormalKeepsOrder(items: seq<Item>)
    requires WellOrdered(items)
    ensures WellOrdered(Map(NormalItem, items))
  {
    var ns := Map(NormalItem, items);
    forall i | 0 <= i < |ns|
      ensures ParentEarlier(ns, i)
    {
      assert ParentEarlier(items, i);
      if |ns[i].path| > 1 {
        var j :| 0 <= j < i && items[j].node.Dir? && items[j].path == Parent(items[i].path);
        assert ns[j].node.Dir? && ns[j].path == Parent(ns[i].path);
      }
    }
  }

  lemma NormalTreeUpdate(t: Tree, p: Path, n: Node)
    ensures NormalTree(t[p := n]) == NormalTree(t)[p := NormalNode(n)]
  {}

  lemma {:induction false} NormalTreeOf(items: seq<Item>)
    ensures TreeOf(Map(NormalItem, items)) == NormalTree(TreeOf(items))
  {
    if items != [] {
      var init, last := items[..|items| - 1], items[|items| - 1];
      NormalTreeOf(init);
      NormalTreeUpdate(TreeOf(init), last.path, last.node);
      TreeOfSnoc(Map(NormalItem, init), NormalItem(last));
      MapLast(NormalItem, items);
    }
  }

  lemma WritableWalk(walk: seq<Visit>, name: Bytes, t: Tree)
    requires ReleaseTree(t, name) && Lists(walk, name, t)
    ensures var items := Sort(ItemKey, WalkItems(walk, name));
            forall i :: 0 <= i < |items| ==> Writable(items[i])
  {
    var items := Sort(ItemKey, WalkItems(walk, name));
    SortedWalkIsWellOrdered(walk, name, t);
    forall i | 0 <= i < |items|
      ensures Writable(items[i])
    {
      TreeOfLookup(items, i);
      var p := items[i].path;
      assert p in t && CleanPath(p);
      assert forall n :: n in p ==> Utf8.Valid(n);
      Utf8.ValidJoin(p, SLASH);
    }
  }

  /** All paths of the tree fit the member-name limit. */
  ghost predicate PathsFit(t: Tree) {
    forall p :: p in t ==> |Text(p)| <= MAX_MEMBER_NAME_BYTES
  }

  lemma PathsFitAsNames(items: seq<Item>, t: Tree)
    requires TreeOf(items) == t && DistinctPaths(items)
    ensures PathsFit(t) <==> NamesFit(items)
  {
    forall i | 0 <= i < |items|
      ensures items[i].path in t
    {
      TreeOfHas(items, i);
    }
    if NamesFit(items) {
      forall p | p in t
        ensures |Text(p)| <= MAX_MEMBER_NAME_BYTES
      {
        var i := TreeOfOrigin(items, p);
      }
    }
  }

  lemma RecordCosts(item: Item, shorten: Bytes -> Bytes)
    requires Writable(item)
    ensures var raw := TarRecords(EntryOf(item), shorten);
            && |raw| == TarRecordsFor(item.path, item.node)
            && Sum(Tar.Sizes(raw)) == TarBytesFor(item.path, item.node)
  {
    var raw := TarRecords(EntryOf(item), shorten);
    var sizes := Tar.Sizes(raw);
    assert ContentBytes(item.node) == sizes[|sizes| - 1];
    if IsLong(item.path) {
      assert sizes == [|Text(item.path)| + 1, ContentBytes(item.node)];
      SumAppend([|Text(item.path)| + 1], [ContentBytes(item.node)]);
      assert sizes == [|Text(item.path)| + 1] + [ContentBytes(item.node)];
    } else {
      assert sizes == [ContentBytes(item.node)];
    }
  }

  /** The records of a tree are as many and as large as the tree says. */
  lemma {:induction false} StreamCosts(items: seq<Item>, shorten: Bytes -> Bytes)
    requires DistinctPaths(items) && forall i :: 0 <= i < |items| ==> Writable(items[i])
    ensures var raw := TarStream(Map(EntryOf, items), shorten);
            && |raw| == Total(TreeOf(items), TarRecordsFor)
            && Sum(Tar.Sizes(raw)) == Total(TreeOf(items), TarBytesFor)
  {
    if items != [] {
      var init, last := items[..|items| - 1], items[|items| - 1];
      var raw, more := TarStream(Map(EntryOf, init), shorten), TarRecords(EntryOf(last), shorten);
      DistinctInit(items);
      StreamCosts(init, shorten);
      MapLast(EntryOf, items);
      StreamSnoc(Map(EntryOf, init), EntryOf(last), shorten);
      RecordCosts(last, shorten);
      SizesAppend(raw, more);
      SumAppend(Tar.Sizes(raw), Tar.Sizes(more));
      TotalUpdate(TreeOf(init), TarRecordsFor, last.path, last.node);
      TotalUpdate(TreeOf(init), TarBytesFor, last.path, last.node);
    }
  }

  lemma AllSmallAppend(a: seq<nat>, b: seq<nat>)
    ensures AllSmall(a + b) <==> AllSmall(a) && AllSmall(b)
  {
    assert forall i :: 0 <= i < |a| ==> (a + b)[i] == a[i];
    assert forall i :: 0 <= i < |b| ==> (a + b)[|a| + i] == b[i];
  }

  lemma {:induction false} StreamIsSmall(items: seq<Item>, shorten: Bytes -> Bytes)
    requires NamesFit(items) && forall i :: 0 <= i < |items| ==> Writable(items[i])
    ensures AllSmall(Tar.Sizes(TarStream(Map(EntryOf, items), shorten))) <==>
            SmallContents(items)
  {
    if items != [] {
      NamesFitCons(items);
      StreamIsSmall(items[1..], shorten);
      SmallStreamCons(items, shorten);
      SmallRecord(items[0], shorten);
      SmallContentsCons(items);
    }
  }

  lemma SmallStreamCons(items: seq<Item>, shorten: Bytes -> Bytes)
    requires items != []
    ensures AllSmall(Tar.Sizes(TarStream(Map(EntryOf, items), shorten))) <==>
            && AllSmall(Tar.Sizes(TarRecords(EntryOf(items[0]), shorten)))
            && AllSmall(Tar.Sizes(TarStream(Map(EntryOf, items[1..]), shorten)))
  {
    var head, more := TarRecords(EntryOf(items[0]), shorten), TarStream(Map(EntryOf, items[1..]), shorten);
    MapHead(EntryOf, items);
    assert TarStream(Map(EntryOf, items), shorten) == head + more;
    SizesAppend(head, more);
    AllSmallAppend(Tar.Sizes(head), Tar.Sizes(more));
  }

  lemma SizesAppend(a: seq<Tar.RawEntry>, b: seq<Tar.RawEntry>)
    ensures Tar.Sizes(a + b) == Tar.Sizes(a) + Tar.Sizes(b)
  {}

  lemma SmallRecord(item: Item, shorten: Bytes -> Bytes)
    requires Writable(item) && |Text(item.path)| <= MAX_MEMBER_NAME_BYTES
    ensures AllSmall(Tar.Sizes(TarRecords(EntryOf(item), shorten))) <==> ContentBytes(item.node) <= MAX_ENTRY_BYTES
  {
    var sizes := Tar.Sizes(TarRecords(EntryOf(item), shorten));
    assert sizes[|sizes| - 1] == ContentBytes(item.node);
    assert |sizes| == 2 ==> sizes[0] == |Text(item.path)| + 1;
  }

  lemma StreamFits(items: seq<Item>, t: Tree, shorten: Bytes -> Bytes)
    requires DistinctPaths(items) && TreeOf(items) == t && NamesFit(items)
    requires forall i :: 0 <= i < |items| ==> Writable(items[i])
    ensures Fits(Tar.Sizes(TarStream(Map(EntryOf, items), shorten))) <==> TarFits(t)
  {
    StreamCosts(items, shorten);
    StreamIsSmall(items, shorten);
    ContentsFitAsItems(items, t);
  }

  /** TAR round trip. For every release tree, every walk of it and every way to
      shorten header names: listing succeeds; the stream is accepted exactly when
      the tree's paths fit the name limit and the tree, long names included, fits
      the budget; and then extraction gives the tree with normalized modes. */
  lemma TarRoundTrip(walk: seq<Visit>, name: Bytes, t: Tree, shorten: Bytes -> Bytes)
    requires ReleaseTree(t, name) && Lists(walk, name, t)
    ensures Listing(walk, name).Some?
    ensures var raw := TarStream(Listing(walk, name).value, shorten);
            && (Tar.Accepts(raw) <==> PathsFit(t) && TarFits(t))
            && (Tar.Accepts(raw) ==> TreeOf(Tar.Items(Tar.Attach(raw).value)) == NormalTree(t))
  {
    var items := Sort(ItemKey, WalkItems(walk, name));
    ListingOfTree(walk, name, t);
    SortedWalkIsWellOrdered(walk, name, t);
    WritableWalk(walk, name, t);
    AttachStream(items, shorten);
    PathsFitAsNames(items, t);
    if NamesFit(items) {
      StreamFits(items, t, shorten);
    }
    MembersComeBack(items, shorten);
    NormalKeepsOrder(items);
    NormalTreeOf(items);
  }

  /** `validate_release_archive_input`. */
  predicate ArchiveLengthOk(length: nat) { 0 < length <= MAX_ARCHIVE_BYTES }

  /** Listing, writing and extracting in one go; how long the compressed file
      becomes is up to the compressor. */
  method ShipThroughTar(walk: seq<Visit>, name: Bytes, shorten: Bytes -> Bytes, compressed: nat, createdMode: nat,
                        ghost t: Tree)
    returns (done: bool, tree: Tree)
    requires ReleaseTree(t, name) && Lists(walk, name, t)
    ensures done <==> PathsFit(t) && TarFits(t) && ArchiveLengthOk(compressed)
    ensures done ==> tree == NormalTree(t)
    ensures IsTree(tree)
  {
    TarRoundTrip(walk, name, t, shorten);
    var entries := ArchiveEntries(walk, name);
    var raw := CreateTarArchive(entries.value, shorten);
    if !ArchiveLengthOk(compressed) {
      return false, map[];
    }
    var r;
    r, tree := Tar.ExtractTar(raw, createdMode);
    done := r.Done?;
  }

  // ---- ZIP ----

  const S_IFDIR: nat := 4 * 4096
  const S_IFREG: nat := 8 * 4096

  /** What the ZIP library reports of one written entry. */
  function ZipEntryOf(e: ArchiveEntry): (z: Zip.ZipEntry) {
    if e.isDir then Zip.ZipEntry(e.path + [SLASH], true, 0, false, true, Some(S_IFDIR + e.mode), [])
    else Zip.ZipEntry(e.path, true, |e.content|, false, false, Some(S_IFREG + e.mode), e.content)
  }

  function ZipEntries(es: seq<ArchiveEntry>): (zs: seq<Zip.ZipEntry>)
    ensures |zs| == |es|
  {
    Map(ZipEntryOf, es)
  }

  /** As `PathsFit`, but a directory's name is one byte longer. */
  ghost predicate ZipPathsFit(t: Tree) {
    forall p :: p in t ==> |Text(p)| + (if t[p].Dir? then 1 else 0) <= MAX_MEMBER_NAME_BYTES
  }

  ghost predicate ZipNamesFit(items: seq<Item>) {
    forall i :: 0 <= i < |items| ==>
      |Text(items[i].path)| + (if items[i].node.Dir? then 1 else 0) <= MAX_MEMBER_NAME_BYTES
  }

  lemma ZipPathsFitAsNames(items: seq<Item>, t: Tree)
    requires TreeOf(items) == t && DistinctPaths(items)
    ensures ZipPathsFit(t) <==> ZipNamesFit(items)
  {
    if ZipNamesFit(items) {
      forall p | p in t
        ensures |Text(p)| + (if t[p].Dir? then 1 else 0) <= MAX_MEMBER_NAME_BYTES
      {
        var i := TreeOfOrigin(items, p);
      }
    }
    if ZipPathsFit(t) {
      forall i | 0 <= i < |items|
        ensures |Text(items[i].path)| + (if items[i].node.Dir? then 1 else 0) <= MAX_MEMBER_NAME_BYTES
      {
        TreeOfLookup(items, i);
      }
    }
  }

  lemma ZipOne(item: Item)
    requires Writable(item)
    ensures var z := ZipEntryOf(EntryOf(item));
            && Zip.Sound(z)
            && Zip.ItemOf(z).node == NormalItem(item).node
            && Zip.ItemOf(z).path ==
               if |Text(item.path)| + (if item.node.Dir? then 1 else 0) <= MAX_MEMBER_NAME_BYTES then item.path else []
  {
    MemberPathOfText(item.path);
    MemberPathOfDirectoryText(item.path);
  }

  lemma ZipItemsComeBack(items: seq<Item>)
    requires forall i :: 0 <= i < |items| ==> Writable(items[i])
    ensures var zs := ZipEntries(Map(EntryOf, items));
            && Zip.AllSound(zs, |zs|)
            && (ZipNamesFit(items) ==> Zip.Items(zs) == Map(NormalItem, items))
            && (!ZipNamesFit(items) ==> !WellOrdered(Zip.Items(zs)))
  {
    var zs := ZipEntries(Map(EntryOf, items));
    forall i | 0 <= i < |items|
      ensures Zip.Sound(zs[i])
      ensures Zip.Items(zs)[i].node == NormalItem(items[i]).node
      ensures Zip.Items(zs)[i].path ==
              if |Text(items[i].path)| + (if items[i].node.Dir? then 1 else 0) <= MAX_MEMBER_NAME_BYTES
              then items[i].path else []
    {
      ZipOne(items[i]);
    }
  }

  lemma {:induction false} ZipCosts(items: seq<Item>)
    requires DistinctPaths(items) && forall i :: 0 <= i < |items| ==> Writable(items[i])
    ensures var zs := ZipEntries(Map(EntryOf, items));
            && |zs| == |TreeOf(items)|
            && Sum(Zip.Sizes(zs)) == Total(TreeOf(items), ZipBytesFor)
            && Scan.HEADER_LEN * |zs| + W.NameBytes(zs) == Total(TreeOf(items), CentralBytesFor)
  {
    if items != [] {
      var init, last := items[..|items| - 1], items[|items| - 1];
      var before, z := ZipEntries(Map(EntryOf, init)), ZipEntryOf(EntryOf(last));
      DistinctInit(items);
      ZipCosts(init);
      MapLast(EntryOf, items);
      MapLast(ZipEntryOf, Map(EntryOf, items));
      assert ZipEntries(Map(EntryOf, items)) == before + [z];
      ZipCostsSnoc(before, z);
      TotalUpdate(TreeOf(init), ZipBytesFor, last.path, last.node);
      TotalUpdate(TreeOf(init), CentralBytesFor, last.path, last.node);
    }
  }

  lemma ZipCostsSnoc(zs: seq<Zip.ZipEntry>, z: Zip.ZipEntry)
    ensures Sum(Zip.Sizes(zs + [z])) == Sum(Zip.Sizes(zs)) + z.size
    ensures W.NameBytes(zs + [z]) == W.NameBytes(zs) + |z.name|
  {
    assert Zip.Sizes(zs + [z]) == Zip.Sizes(zs) + [z.size];
    SumAppend(Zip.Sizes(zs), [z.size]);
    assert Sum([z.size]) == z.size;
    assert (zs + [z])[..|zs|] == zs;
  }

  lemma ZipSizesFit(items: seq<Item>, t: Tree)
    requires DistinctPaths(items) && TreeOf(items) == t
    requires forall i :: 0 <= i < |items| ==> Writable(items[i])
    ensures Fits(Zip.Sizes(ZipEntries(Map(EntryOf, items)))) <==> ZipFits(t)
  {
    ZipCosts(items);
    ContentsFitAsItems(items, t);
    ZipSizesAreContents(items);
  }

  lemma ZipSizesAreContents(items: seq<Item>)
    requires forall i :: 0 <= i < |items| ==> Writable(items[i])
    ensures AllSmall(Zip.Sizes(ZipEntries(Map(EntryOf, items)))) <==>
            SmallContents(items)
  {
    var sizes := Zip.Sizes(ZipEntries(Map(EntryOf, items)));
    forall i | 0 <= i < |items|
      ensures sizes[i] == ContentBytes(items[i].node)
    {
      assert Writable(items[i]);
    }
  }

  lemma ZipNamesAreUtf8(items: seq<Item>)
    requires forall i :: 0 <= i < |items| ==> Writable(items[i])
    ensures W.NamesAreUtf8(ZipEntries(Map(EntryOf, items)))
  {
    forall i | 0 <= i < |items|
      ensures Utf8.Valid(ZipEntryOf(EntryOf(items[i])).name)
    {
      assert Writable(items[i]);
      Utf8.ValidConcat(Text(items[i].path), [SLASH]);
    }
  }

  /** The entry loop: entries are accepted exactly when the tree's names, a
      directory's one byte longer, and its contents are within bounds. */
  lemma ZipEntriesRoundTrip(walk: seq<Visit>, name: Bytes, t: Tree)
    requires ReleaseTree(t, name) && Lists(walk, name, t)
    ensures Listing(walk, name).Some?
    ensures var zs := ZipEntries(Listing(walk, name).value);
            && (Zip.Accepts(zs) <==> ZipPathsFit(t) && ZipFits(t))
            && (Zip.Accepts(zs) ==> TreeOf(Zip.Items(zs)) == NormalTree(t))
            && W.NamesAreUtf8(zs) && |zs| == |t|
            && Scan.HEADER_LEN * |zs| + W.NameBytes(zs) == Total(t, CentralBytesFor)
  {
    var items := Sort(ItemKey, WalkItems(walk, name));
    ListingOfTree(walk, name, t);
    SortedWalkIsWellOrdered(walk, name, t);
    WritableWalk(walk, name, t);
    ZipPathsFitAsNames(items, t);
    ZipItemsComeBack(items);
    ZipSizesFit(items, t);
    ZipCosts(items);
    ZipNamesAreUtf8(items);
    NormalKeepsOrder(items);
    NormalTreeOf(items);
  }

  /** The length of the central directory written for the tree. */
  ghost function DirectoryBytes(t: Tree, packs: seq<W.Packed>): (n: nat) {
    Total(t, CentralBytesFor) + W.ExtraBytes(packs)
  }

  /** ZIP round trip, through the written bytes and the scan of them. For every
      release tree, every walk and every way to pack the entries: the file is
      described to the scan and its entries are accepted exactly when the tree's
      names and contents are within bounds, the central directory has at most
      32 MiB, the local part is shorter than 2^32 - 1 bytes and every entry's
      metadata fits; and then the entries are the tree with normalized modes. */
  lemma ZipRoundTrip(walk: seq<Visit>, name: Bytes, t: Tree, packs: seq<W.Packed>, zip64: Bytes)
    requires ReleaseTree(t, name) && Lists(walk, name, t)
    requires Listing(walk, name).Some? && W.Writable(ZipEntries(Listing(walk, name).value), packs)
    ensures var zs := ZipEntries(Listing(walk, name).value);
            && (Zip.Accepts(zs) && Scan.HasRecords(W.ZipFile(zs, packs, zip64), |zs|) <==>
                  && ZipPathsFit(t) && ZipFits(t)
                  && DirectoryBytes(t, packs) <= Scan.MAX_CENTRAL_DIRECTORY_BYTES
                  && |W.LocalPart(packs)| < Scan.U32_MAX
                  && W.MetadataFits(zs, packs))
            && (Zip.Accepts(zs) ==> TreeOf(Zip.Items(zs)) == NormalTree(t))
  {
    var zs := ZipEntries(Listing(walk, name).value);
    ZipEntriesRoundTrip(walk, name, t);
    W.CentralSize(zs, packs);
    if Zip.Accepts(zs) {
      W.ScanAcceptsWritten(zs, packs, zip64);
    }
  }

  /** What the written file is long, when nothing in it overflows. */
  lemma FileLength(zs: seq<Zip.ZipEntry>, packs: seq<W.Packed>, zip64: Bytes)
    requires W.Writable(zs, packs)
    ensures |W.ZipFile(zs, packs, zip64)| >= |W.LocalPart(packs)| + |W.CentralPart(zs, packs)| + Scan.EOCD_LEN
    ensures |zs| <= Scan.U16_MAX && |W.LocalPart(packs)| <= Scan.U32_MAX && |W.CentralPart(zs, packs)| <= Scan.U32_MAX ==>
            |W.ZipFile(zs, packs, zip64)| == |W.LocalPart(packs)| + |W.CentralPart(zs, packs)| + Scan.EOCD_LEN
  {}

  /** Everything the file must meet, read off the tree and the packing. */
  ghost predicate ZipShips(t: Tree, zs: seq<Zip.ZipEntry>, packs: seq<W.Packed>)
    requires |zs| == |packs|
  {
    && ZipPathsFit(t) && ZipFits(t) && W.MetadataFits(zs, packs)
    && DirectoryBytes(t, packs) <= Scan.MAX_CENTRAL_DIRECTORY_BYTES
    && |W.LocalPart(packs)| + DirectoryBytes(t, packs) + Scan.EOCD_LEN <= MAX_ARCHIVE_BYTES
  }

  /** Listing, writing and extracting in one go: the whole way of a ZIP release,
      for whatever the ZIP library chooses as packing. */
  method ShipThroughZip(walk: seq<Visit>, name: Bytes, packs: seq<W.Packed>, zip64: Bytes, createdMode: nat, ghost t: Tree)
    returns (done: bool, tree: Tree)
    requires ReleaseTree(t, name) && Lists(walk, name, t)
    requires |packs| == |walk| && forall i :: 0 <= i < |packs| ==> packs[i].WellFormed()
    ensures Listing(walk, name).Some? && |Listing(walk, name).value| == |walk|
    ensures done <==> ZipShips(t, ZipEntries(Listing(walk, name).value), packs)
    ensures done ==> tree == NormalTree(t)
    ensures IsTree(tree)
  {
    ListingLength(walk, name, t);
    var entries := ArchiveEntries(walk, name);
    var zs := ZipEntries(entries.value);
    ZipEntriesRoundTrip(walk, name, t);
    ShortNames(zs, packs);
    var file := W.CreateZipArchive(zs, packs, zip64);
    if file.None? {
      return false, map[];
    }
    ZipRoundTrip(walk, name, t, packs, zip64);
    FileLength(zs, packs, zip64);
    W.CentralSize(zs, packs);
    if !ArchiveLengthOk(|file.value|) {
      return false, map[];
    }
    var r;
    r, tree := Zip.ExtractZip(file.value, zs, createdMode);
    done := r.Done?;
  }

  lemma ListingLength(walk: seq<Visit>, name: Bytes, t: Tree)
    requires ReleaseTree(t, name) && Lists(walk, name, t)
    ensures Listing(walk, name).Some? && |Listing(walk, name).value| == |walk|
  {
    ListingOfTree(walk, name, t);
    SortPermutes(ItemKey, WalkItems(walk, name));
    MultisetMembers(Sort(ItemKey, WalkItems(walk, name)), WalkItems(walk, name));
  }

  /** Accepted names fit their length field. */
  lemma ShortNames(zs: seq<Zip.ZipEntry>, packs: seq<W.Packed>)
    requires |zs| == |packs| && forall i :: 0 <= i < |packs| ==> packs[i].WellFormed()
    ensures Zip.Accepts(zs) ==> W.Writable(zs, packs)
  {
    if Zip.Accepts(zs) {
      forall i | 0 <= i < |zs|
        ensures |zs[i].name| <= Scan.U16_MAX
      {
        W.EntryHasName(zs, i);
      }
    }
  }

  // ---- repackaging ----

  lemma SameEntries(items: seq<Item>, items': seq<Item>, e: ArchiveEntry)
    requires DistinctPaths(items) && DistinctPaths(items')
    requires NormalTree(TreeOf(items)) == NormalTree(TreeOf(items'))
    ensures e in Map(EntryOf, items) ==> e in Map(EntryOf, items')
  {
    var t, t' := TreeOf(items), TreeOf(items');
    if e in Map(EntryOf, items) {
      EntriesAreNodes(items, t, e);
      var p :| p in t && e == EntryOf(Item(p, t[p]));
      SameEntry(t, t', p);
      EntriesAreNodes(items', t', e);
    }
  }

  lemma SameEntry(t: Tree, t': Tree, p: Path)
    requires NormalTree(t) == NormalTree(t') && p in t
    ensures p in t' && EntryOf(Item(p, t[p])) == EntryOf(Item(p, t'[p]))
  {
    assert p in NormalTree(t) && NormalTree(t)[p] == NormalNode(t[p]);
    assert p in NormalTree(t') && NormalTree(t')[p] == NormalNode(t'[p]);
  }

  /** Walks of trees that agree up to normalized modes list the same: neither
      the walk order nor any mode bit beyond the executable ones matters. */
  lemma ListingIsCanonical(walk: seq<Visit>, t: Tree, walk': seq<Visit>, t': Tree, name: Bytes)
    requires ReleaseTree(t, name) && Lists(walk, name, t)
    requires ReleaseTree(t', name) && Lists(walk', name, t')
    requires NormalTree(t) == NormalTree(t')
    ensures Listing(walk, name) == Listing(walk', name)
  {
    var es, es' := Map(EntryOf, WalkItems(walk, name)), Map(EntryOf, WalkItems(walk', name));
    assert multiset(es) == multiset(es') by {
      forall e
        ensures e in es <==> e in es'
      {
        SameEntries(WalkItems(walk, name), WalkItems(walk', name), e);
        SameEntries(WalkItems(walk', name), WalkItems(walk, name), e);
      }
      EntriesOfTree(walk, name, t);
      EntriesOfTree(walk', name, t');
      DistinctSameMultiset(es, es');
    }
    EntryKeyDetermines(walk, name, t);
    SortCanonical(EntryKey, es, es');
    ListingOfTree(walk, name, t);
    ListingOfTree(walk', name, t');
    SortMaps(EntryOf, ItemKey, EntryKey, WalkItems(walk, name));
    SortMaps(EntryOf, ItemKey, EntryKey, WalkItems(walk', name));
  }

  lemma NormalNodeIdempotent(n: Node)
    ensures NormalNode(NormalNode(n)) == NormalNode(n)
  {}

  lemma NormalTreeIsRelease(t: Tree, name: Bytes)
    requires ReleaseTree(t, name)
    ensures ReleaseTree(NormalTree(t), name)
    ensures NormalTree(NormalTree(t)) == NormalTree(t)
  {
    assert NormalTree(t).Keys == t.Keys;
    forall p | p in t
      ensures NormalNode(NormalNode(t[p])) == NormalNode(t[p])
    {
      NormalNodeIdempotent(t[p]);
    }
  }

  /** Repackaging is a fixed point: listing what was extracted, in any walk
      order, gives the entry list the archive was made from. */
  lemma RepackagingFixedPoint(walk: seq<Visit>, t: Tree, walk': seq<Visit>, name: Bytes)
    requires ReleaseTree(t, name) && Lists(walk, name, t)
    requires Lists(walk', name, NormalTree(t))
    ensures Listing(walk', name) == Listing(walk, name)
  {
    NormalTreeIsRelease(t, name);
    ListingIsCanonical(walk, t, walk', NormalTree(t), name);
  }
}
