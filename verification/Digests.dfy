/** The byte framings fed to SHA-256: the runtime-tree digest and the release
    asset-set digest. Statements are about the hashed bytes. */
module Digests {
  import opened Bytes
  import opened Division
  import opened Sorting
  import opened Paths

  // ---- fixed-width and decimal numbers ----

  const U64_MAX: nat := 0xFFFF_FFFF_FFFF_FFFF

  function Pow256(k: nat): (n: nat)
    ensures n > 0
  {
    if k == 0 then 1 else 256 * Pow256(k - 1)
  }

  /** The low `k` bytes of `n`, most significant first. */
  function BigEndian(n: nat, k: nat): (s: Bytes)
    ensures |s| == k
  {
    if k == 0 then [] else BigEndian(n / 256, k - 1) + [n % 256]
  }

  lemma {:induction false} BigEndianInjective(n: nat, m: nat, k: nat)
    requires n < Pow256(k) && m < Pow256(k) && BigEndian(n, k) == BigEndian(m, k)
    ensures n == m
  {
    if k > 0 {
      var a, b := BigEndian(n / 256, k - 1), BigEndian(m / 256, k - 1);
      assert BigEndian(n, k)[..k - 1] == a && BigEndian(m, k)[..k - 1] == b;
      assert BigEndian(n, k)[k - 1] == n % 256 && BigEndian(m, k)[k - 1] == m % 256;
      BigEndianInjective(n / 256, m / 256, k - 1);
    }
  }

  /** `u64::to_be_bytes`. */
  function Be64(n: nat): (s: Bytes)
    ensures |s| == 8
  {
    BigEndian(n, 8)
  }

  lemma Be64Injective(n: nat, m: nat)
    requires n <= U64_MAX && m <= U64_MAX && Be64(n) == Be64(m)
    ensures n == m
  {
    assert Pow256(4) == 0x1_0000_0000;
    assert Pow256(8) == U64_MAX + 1;
    BigEndianInjective(n, m, 8);
  }

  predicate IsDigit(b: byte) { 48 <= b <= 57 }

  /** `u64::to_string`. */
  function Decimal(n: nat): (s: Bytes)
    ensures s != [] && forall i :: 0 <= i < |s| ==> IsDigit(s[i])
    ensures n > 0 ==> s[0] != 48
    decreases n
  {
    if n < 10 then [48 + n] else Decimal(n / 10) + [48 + n % 10]
  }

  function DecimalValue(s: Bytes): (n: int) {
    if s == [] then 0 else 10 * DecimalValue(s[..|s| - 1]) + (s[|s| - 1] as int - 48)
  }

  lemma {:induction false} DecimalReadsBack(n: nat)
    ensures DecimalValue(Decimal(n)) == n
    decreases n
  {
    if n < 10 {
      assert [48 + n][..0] == [];
    } else {
      DecimalReadsBack(n / 10);
      var s := Decimal(n);
      assert s[..|s| - 1] == Decimal(n / 10);
    }
  }

  // ---- the runtime tree ----

  datatype Kind = FileKind | DirKind | SymlinkKind | OtherKind

  /** One walk entry below the root. For a file: the declared length, and the
      chunks that successive reads return, an empty chunk meaning end of file. */
  datatype Visit = Visit(path: Path, kind: Kind, declared: nat, chunks: seq<Bytes>)

  /** What ends up in the digest for one entry. */
  datatype Entry = Entry(isFile: bool, relative: Bytes, content: Bytes)

  /** `relative_slash` of a UTF-8 path: backslashes become slashes. */
  function RelativeSlash(path: Path): (s: Bytes) {
    Map((b: byte) => if b == BACKSLASH then SLASH else b, Text(path))
  }

  function Content(chunks: seq<Bytes>): (s: Bytes) {
    if chunks == [] || chunks[0] == [] then [] else chunks[0] + Content(chunks[1..])
  }

  function EntryOf(v: Visit): (e: Entry) {
    Entry(v.kind.FileKind?, RelativeSlash(v.path), if v.kind.FileKind? then Content(v.chunks) else [])
  }

  function Entries(walk: seq<Visit>): (es: seq<Entry>)
    ensures |es| == |walk|
  {
    Map(EntryOf, walk)
  }

  function RelativeKey(e: Entry): (k: Bytes) { e.relative }

  function Header(): (s: Bytes) { Ascii("depgraph-runtime-tree-v2") + [NUL] }

  function Frame(e: Entry): (s: Bytes)
    ensures |s| >= 17
  {
    [if e.isFile then 102 else 100] + Be64(|e.relative|) + e.relative + Be64(|e.content|) + e.content
  }

  function Frames(es: seq<Entry>): (s: Bytes) {
    if es == [] then [] else Frame(es[0]) + Frames(es[1..])
  }

  /** The hashed bytes of a list of entries, in walk order. */
  function Preimage(es: seq<Entry>): (s: Bytes) {
    Header() + Frames(Sort(RelativeKey, es))
  }

  /** Lengths fit 64 bits; directories carry no content. */
  predicate Representable(e: Entry) {
    |e.relative| <= U64_MAX && |e.content| <= U64_MAX && (e.isFile || e.content == [])
  }

  ghost predicate AllRepresentable(es: seq<Entry>) {
    forall i :: 0 <= i < |es| ==> Representable(es[i])
  }

  /** What can be hashed: a directory, or a file as long as it declares. */
  lemma HashableExactly(v: Visit)
    ensures Hashable(v) <==> v.kind == DirKind || (v.kind == FileKind && |Content(v.chunks)| == v.declared)
    ensures Regular(v) <==> v.kind == DirKind || v.kind == FileKind
  {}

  // ---- the bytes, written out ----

  /** Byte `i` of a big-endian number has weight 256 to the power `k - 1 - i`. */
  lemma {:induction false} BigEndianAt(n: nat, k: nat, i: nat)
    requires i < k
    ensures BigEndian(n, k)[i] == n / Pow256(k - 1 - i) % 256
    decreases k
  {
    if i < k - 1 {
      BigEndianAt(n / 256, k - 1, i);
      NestedDivision(n, 256, Pow256(k - 2 - i));
      assert BigEndian(n, k)[i] == BigEndian(n / 256, k - 1)[i];
    } else {
      assert Pow256(0) == 1;
    }
  }

  /** Where the parts of a frame are: `f` or `d`, the length of the path as eight
      big-endian bytes, the path, the length of the content the same way, the content. */
  lemma FrameBytes(e: Entry, i: nat)
    requires i < 8
    ensures var s, n := Frame(e), |e.relative|;
            && |s| == 17 + n + |e.content|
            && s[0] == Ascii(if e.isFile then "f" else "d")[0]
            && s[1 + i] == n / Pow256(7 - i) % 256
            && s[9..9 + n] == e.relative
            && s[9 + n + i] == |e.content| / Pow256(7 - i) % 256
            && s[17 + n..] == e.content
  {
    var s, n := Frame(e), |e.relative|;
    BigEndianAt(n, 8, i);
    BigEndianAt(|e.content|, 8, i);
    FrameParts(e, []);
    assert s + [] == s;
    InPart(s, 1, 9, i);
    InPart(s, 9 + n, 17 + n, i);
    assert s[17 + n..] == s[17 + n..|s|];
  }

  lemma InPart(s: Bytes, from: nat, to: nat, i: nat)
    requires from + i < to <= |s|
    ensures s[from..to][i] == s[from + i]
  {}

  /** What is hashed: the version line, a zero byte, and the frames of the entries
      in the order of their relative paths. */
  lemma PreimageBytes(es: seq<Entry>)
    ensures var sorted := Sort(RelativeKey, es);
            && Preimage(es) == Ascii("depgraph-runtime-tree-v2") + [0] + Concat(Map(Frame, sorted))
            && multiset(sorted) == multiset(es)
            && forall i, j :: 0 <= i < j < |sorted| ==> Leq(sorted[i].relative, sorted[j].relative)
  {
    SortPermutes(RelativeKey, es);
    SortSorts(RelativeKey, es);
    FramesConcat(Sort(RelativeKey, es));
  }

  lemma {:induction false} FramesConcat(es: seq<Entry>)
    ensures Frames(es) == Concat(Map(Frame, es))
  {
    if es != [] {
      MapHead(Frame, es);
      FramesConcat(es[1..]);
    }
  }

  /** The relative path of an entry, byte by byte. */
  lemma RelativeBytes(path: Path, i: nat)
    requires i < |Text(path)|
    ensures |RelativeSlash(path)| == |Text(path)|
    ensures RelativeSlash(path)[i] == if Text(path)[i] == 92 then 47 else Text(path)[i]
  {}

  // ---- the hashing loops ----

  /** The read loop of one file: feed every chunk, count, compare with the
      declared length. The result depends on the chunks only through their
      concatenation. */
  method HashFile(digest: Bytes, declared: nat, chunks: seq<Bytes>) returns (ok: bool, digest': Bytes)
    requires declared <= U64_MAX
    ensures digest' <= digest + Content(chunks)
    ensures ok <==> |Content(chunks)| == declared
    ensures ok ==> digest' == digest + Content(chunks)
  {
    digest' := digest;
    var actual, i := 0, 0;
    assert chunks[0..] == chunks;
    while i < |chunks| && chunks[i] != []
      invariant 0 <= i <= |chunks|
      invariant digest' + Content(chunks[i..]) == digest + Content(chunks)
      invariant actual + |Content(chunks[i..])| == |Content(chunks)|
      invariant digest' <= digest + Content(chunks)
    {
      assert chunks[i..][1..] == chunks[i + 1..];
      assert Content(chunks[i..]) == chunks[i] + Content(chunks[i + 1..]);
      if actual + |chunks[i]| > U64_MAX {
        return false, digest';
      }
      actual := actual + |chunks[i]|;
      digest' := digest' + chunks[i];
      i := i + 1;
    }
    assert Content(chunks[i..]) == [];
    assert digest' + [] == digest';
    ok := actual == declared;
  }

  /** Whether hashing this visit succeeds. */
  predicate Hashable(v: Visit) {
    v.kind.DirKind? || (v.kind.FileKind? && |Content(v.chunks)| == v.declared)
  }

  predicate Regular(v: Visit) {
    v.kind.FileKind? || v.kind.DirKind?
  }

  predicate AllHashable(walk: seq<Visit>) {
    forall i :: 0 <= i < |walk| ==> Hashable(walk[i])
  }

  ghost predicate HashableUpTo(walk: seq<Visit>, n: nat)
    requires n <= |walk|
  {
    forall i :: 0 <= i < n ==> Hashable(walk[i])
  }

  lemma HashableStep(walk: seq<Visit>, n: nat)
    requires n < |walk|
    ensures HashableUpTo(walk, n + 1) <==> HashableUpTo(walk, n) && Hashable(walk[n])
    ensures AllHashable(walk) ==> Hashable(walk[n])
  {}

  predicate HasFile(walk: seq<Visit>) {
    exists i :: 0 <= i < |walk| && walk[i].kind.FileKind?
  }

  function VisitKey(v: Visit): (k: Bytes) { RelativeSlash(v.path) }

  /** `sha256_tree`: collect, sort by relative path, frame, hash. `None` where
      the original stops: a link or special node, no file at all, or a file whose
      length differs from what it declared. */
  method HashTree(walk: seq<Visit>) returns (r: Option<Bytes>)
    requires forall i :: 0 <= i < |walk| ==> walk[i].declared <= U64_MAX
    ensures r.Some? <==> AllHashable(walk) && HasFile(walk)
    ensures r.Some? ==> r.value == Preimage(Entries(walk))
  {
    var entries := Collect(walk);
    if entries.None? {
      return None;
    }
    var sorted := Sort(VisitKey, entries.value);
    SortPermutes(VisitKey, walk);
    MultisetMembers(sorted, walk);
    SortedHashable(walk, sorted);
    SortMaps(EntryOf, VisitKey, RelativeKey, walk);
    r := HashSorted(sorted);
  }

  /** The collection loop: files and directories only, and at least one file. */
  method Collect(walk: seq<Visit>) returns (r: Option<seq<Visit>>)
    ensures r.Some? <==> HasFile(walk) && forall i :: 0 <= i < |walk| ==> Regular(walk[i])
    ensures r.Some? ==> r.value == walk
  {
    var entries: seq<Visit>, anyFile := [], false;
    var i := 0;
    while i < |walk|
      invariant 0 <= i <= |walk| && entries == walk[..i]
      invariant forall j :: 0 <= j < i ==> Regular(walk[j])
      invariant anyFile <==> exists j :: 0 <= j < i && walk[j].kind.FileKind?
    {
      if !Regular(walk[i]) {
        return None;
      }
      anyFile := anyFile || walk[i].kind.FileKind?;
      entries := entries + [walk[i]];
      i := i + 1;
    }
    assert entries == walk;
    return if anyFile then Some(entries) else None;
  }

  lemma SortedHashable(walk: seq<Visit>, sorted: seq<Visit>)
    requires forall v :: v in walk <==> v in sorted
    requires forall i :: 0 <= i < |walk| ==> walk[i].declared <= U64_MAX
    ensures AllHashable(walk) <==> AllHashable(sorted)
    ensures (forall i :: 0 <= i < |walk| ==> Regular(walk[i])) ==> forall i :: 0 <= i < |sorted| ==> Regular(sorted[i])
    ensures forall i :: 0 <= i < |sorted| ==> sorted[i].declared <= U64_MAX
  {
    assert forall i :: 0 <= i < |walk| ==> walk[i] in sorted;
    assert forall i :: 0 <= i < |sorted| ==> sorted[i] in walk;
  }

  lemma {:induction false} FramesSnoc(es: seq<Entry>, e: Entry)
    ensures Frames(es + [e]) == Frames(es) + Frame(e)
  {
    if es == [] {
      assert es + [e] == [e] && Frames([e]) == Frame(e) + Frames([e][1..]) && [e][1..] == [];
    } else {
      assert (es + [e])[1..] == es[1..] + [e];
      FramesSnoc(es[1..], e);
    }
  }

  /** Hashing one visit appends its frame. */
  method HashVisit(digest: Bytes, v: Visit) returns (ok: bool, digest': Bytes)
    requires Regular(v) && v.declared <= U64_MAX
    ensures ok <==> Hashable(v)
    ensures ok ==> digest' == digest + Frame(EntryOf(v))
  {
    var relative := RelativeSlash(v.path);
    var prefix := [if v.kind.FileKind? then 102 else 100] + Be64(|relative|) + relative;
    if v.kind.FileKind? {
      assert Hashable(v) ==> Frame(EntryOf(v)) == prefix + Be64(v.declared) + Content(v.chunks);
      ok, digest' := HashFile(digest + prefix + Be64(v.declared), v.declared, v.chunks);
    } else {
      assert Frame(EntryOf(v)) == prefix + Be64(0);
      ok, digest' := true, digest + prefix + Be64(0);
    }
  }

  /** What has been hashed after the first `n` visits. */
  function HashedPrefix(sorted: seq<Visit>, n: nat): (s: Bytes)
    requires n <= |sorted|
  {
    Header() + Frames(Entries(sorted[..n]))
  }

  lemma HashedPrefixStep(sorted: seq<Visit>, n: nat)
    requires n < |sorted|
    ensures HashedPrefix(sorted, n + 1) == HashedPrefix(sorted, n) + Frame(EntryOf(sorted[n]))
  {
    MapLast(EntryOf, sorted[..n + 1]);
    assert sorted[..n + 1][..n] == sorted[..n];
    FramesSnoc(Entries(sorted[..n]), EntryOf(sorted[n]));
  }

  lemma HashedPrefixEnds(sorted: seq<Visit>)
    ensures HashedPrefix(sorted, 0) == Header()
    ensures HashedPrefix(sorted, |sorted|) == Header() + Frames(Entries(sorted))
  {
    assert sorted[..0] == [] && sorted[..|sorted|] == sorted;
    assert Entries([]) == [] && Header() + [] == Header();
  }

  /** Hashing the sorted visits. */
  method HashSorted(sorted: seq<Visit>) returns (r: Option<Bytes>)
    requires forall i :: 0 <= i < |sorted| ==> Regular(sorted[i]) && sorted[i].declared <= U64_MAX
    ensures r.Some? <==> AllHashable(sorted)
    ensures r.Some? ==> r.value == Header() + Frames(Entries(sorted))
  {
    HashedPrefixEnds(sorted);
    var digest := Header();
    var i := 0;
    while i < |sorted|
      invariant 0 <= i <= |sorted|
      invariant HashableUpTo(sorted, i)
      invariant digest == HashedPrefix(sorted, i)
    {
      HashedPrefixStep(sorted, i);
      HashableStep(sorted, i);
      var ok;
      ok, digest := HashVisit(digest, sorted[i]);
      if !ok {
        return None;
      }
      i := i + 1;
    }
    r := Some(digest);
  }

  // ---- the framing is injective ----

  /** Frames are a prefix code: what follows a frame does not change how it reads. */
  lemma FrameUnique(a: Entry, b: Entry, s: Bytes, t: Bytes)
    requires Representable(a) && Representable(b) && Frame(a) + s == Frame(b) + t
    ensures a == b && s == t
  {
    FrameParts(a, s);
    FrameParts(b, t);
    Be64Injective(|a.relative|, |b.relative|);
    Be64Injective(|a.content|, |b.content|);
  }

  /** Where the parts of a frame are, whatever follows it. */
  lemma FrameParts(e: Entry, s: Bytes)
    ensures var x, n, m := Frame(e) + s, 9 + |e.relative|, 17 + |e.relative| + |e.content|;
            && |x| >= m && x[0] == (if e.isFile then 102 else 100)
            && x[1..9] == Be64(|e.relative|) && x[9..n] == e.relative
            && x[n..n + 8] == Be64(|e.content|) && x[n + 8..m] == e.content && x[m..] == s
  {
    var a, b, c, d, f := [if e.isFile then 102 else 100], Be64(|e.relative|), e.relative, Be64(|e.content|), e.content;
    assert Frame(e) == a + b + c + d + f;
    FiveParts(a, b, c, d, f, s);
  }

  lemma FiveParts(a: Bytes, b: Bytes, c: Bytes, d: Bytes, e: Bytes, s: Bytes)
    ensures var x := a + b + c + d + e + s;
            var i, j := |a| + |b|, |a| + |b| + |c|;
            && x[..|a|] == a && x[|a|..i] == b && x[i..j] == c && x[j..j + |d|] == d
            && x[j + |d|..j + |d| + |e|] == e && x[j + |d| + |e|..] == s
  {}

  lemma {:induction false} FramesInjective(xs: seq<Entry>, ys: seq<Entry>)
    requires AllRepresentable(xs) && AllRepresentable(ys) && Frames(xs) == Frames(ys)
    ensures xs == ys
  {
    if xs != [] && ys != [] {
      FrameUnique(xs[0], ys[0], Frames(xs[1..]), Frames(ys[1..]));
      FramesInjective(xs[1..], ys[1..]);
      assert xs == [xs[0]] + xs[1..] && ys == [ys[0]] + ys[1..];
    }
  }

  lemma SortRepresentable(es: seq<Entry>)
    requires AllRepresentable(es)
    ensures AllRepresentable(Sort(RelativeKey, es))
  {
    var sorted := Sort(RelativeKey, es);
    SortPermutes(RelativeKey, es);
    MultisetMembers(sorted, es);
    assert forall i :: 0 <= i < |sorted| ==> sorted[i] in es;
  }

  /** Equal pre-images come only from the same sorted list of kind, path and content. */
  lemma PreimageInjective(xs: seq<Entry>, ys: seq<Entry>)
    requires AllRepresentable(xs) && AllRepresentable(ys)
    ensures Preimage(xs) == Preimage(ys) <==> Sort(RelativeKey, xs) == Sort(RelativeKey, ys)
  {
    SortRepresentable(xs);
    SortRepresentable(ys);
    if Preimage(xs) == Preimage(ys) {
      var n := |Header()|;
      assert Preimage(xs)[n..] == Frames(Sort(RelativeKey, xs));
      assert Preimage(ys)[n..] == Frames(Sort(RelativeKey, ys));
      FramesInjective(Sort(RelativeKey, xs), Sort(RelativeKey, ys));
    }
  }

  // ---- walk order ----

  ghost predicate OrderIndependent(es: seq<Entry>) {
    forall other :: multiset(other) == multiset(es) ==> Preimage(other) == Preimage(es)
  }

  /** The digest is independent of the order of the entries exactly when no two
      different ones share a relative path. */
  lemma OrderIndependence(es: seq<Entry>)
    requires AllRepresentable(es)
    ensures OrderIndependent(es) <==> KeyDetermines(RelativeKey, es)
  {
    forall other | multiset(other) == multiset(es)
      ensures Preimage(other) == Preimage(es) <==> Sort(RelativeKey, other) == Sort(RelativeKey, es)
    {
      PermutedRepresentable(es, other);
      PreimageInjective(other, es);
    }
    SortOrderIndependent(RelativeKey, es);
  }

  lemma PermutedRepresentable(es: seq<Entry>, other: seq<Entry>)
    requires AllRepresentable(es) && multiset(other) == multiset(es)
    ensures AllRepresentable(other)
  {
    MultisetMembers(es, other);
    assert forall i :: 0 <= i < |other| ==> other[i] in es;
  }

  /** Without backslashes in names, distinct paths have distinct relative
      paths, so the digest of a real tree does not depend on the walk. */
  lemma CleanPathsAreOrderIndependent(walk: seq<Visit>)
    requires AllRepresentable(Entries(walk))
    requires forall i :: 0 <= i < |walk| ==> CleanPath(walk[i].path)
    requires forall i, j :: 0 <= i < j < |walk| ==> walk[i].path != walk[j].path
    ensures OrderIndependent(Entries(walk))
  {
    var es := Entries(walk);
    assert KeyDetermines(RelativeKey, es) by {
      forall x, y | x in es && y in es && RelativeKey(x) == RelativeKey(y)
        ensures x == y
      {
        var i :| 0 <= i < |es| && es[i] == x;
        var j :| 0 <= j < |es| && es[j] == y;
        CleanKeysDiffer(walk[i].path, walk[j].path);
        assert i == j;
      }
    }
    OrderIndependence(es);
  }

  lemma CleanKeysDiffer(p: Path, q: Path)
    requires CleanPath(p) && CleanPath(q) && RelativeSlash(p) == RelativeSlash(q)
    ensures p == q
  {
    RelativeSlashOfClean(p);
    RelativeSlashOfClean(q);
    TextInjective(p, q);
  }

  lemma RelativeSlashOfClean(p: Path)
    requires CleanPath(p)
    ensures RelativeSlash(p) == Text(p)
  {
    CleanTextEnds(p);
  }

  // ---- the asset set ----

  datatype Asset = Asset(name: Bytes, bytes: nat, sha256: Bytes)

  function AssetFrame(a: Asset): (s: Bytes) {
    a.name + [NUL] + Decimal(a.bytes) + [NUL] + a.sha256 + [NEWLINE]
  }

  function AssetFrames(assets: seq<Asset>): (s: Bytes) {
    if assets == [] then [] else AssetFrame(assets[0]) + AssetFrames(assets[1..])
  }

  method HashAsset(digest: Bytes, a: Asset) returns (digest': Bytes)
    ensures digest' == digest + AssetFrame(a)
  {
    digest' := digest + a.name;
    digest' := digest' + [NUL];
    digest' := digest' + Decimal(a.bytes);
    digest' := digest' + [NUL];
    digest' := digest' + a.sha256;
    digest' := digest' + [NEWLINE];
  }

  lemma {:induction false} AssetFramesSnoc(assets: seq<Asset>, a: Asset)
    ensures AssetFrames(assets + [a]) == AssetFrames(assets) + AssetFrame(a)
  {
    if assets == [] {
      assert assets + [a] == [a] && AssetFrames([a]) == AssetFrame(a) + AssetFrames([a][1..]) && [a][1..] == [];
    } else {
      assert (assets + [a])[1..] == assets[1..] + [a];
      AssetFramesSnoc(assets[1..], a);
    }
  }

  method HashAssets(assets: seq<Asset>) returns (digest: Bytes)
    ensures digest == AssetFrames(assets)
  {
    digest := [];
    var i := 0;
    while i < |assets|
      invariant 0 <= i <= |assets|
      invariant digest == AssetFrames(assets[..i])
    {
      AssetFramesSnoc(assets[..i], assets[i]);
      assert assets[..i + 1] == assets[..i] + [assets[i]];
      digest := HashAsset(digest, assets[i]);
      i := i + 1;
    }
    assert assets[..i] == assets;
  }

  /** File names hold no NUL and hex digests no newline. */
  predicate Plain(a: Asset) {
    NUL !in a.name && NEWLINE !in a.sha256
  }

  lemma CutAt(a: Bytes, b: Bytes, sep: byte, s: Bytes, t: Bytes)
    requires sep !in a && sep !in b && a + [sep] + s == b + [sep] + t
    ensures a == b && s == t
  {
    var x := a + [sep] + s;
    assert x == a + ([sep] + s) && x == b + ([sep] + t);
    IndexOfUnique(a, sep, [sep] + s);
    IndexOfUnique(b, sep, [sep] + t);
    assert x[..|a|] == a && x[..|b|] == b;
    assert x[|a| + 1..] == s && x[|b| + 1..] == t;
  }

  lemma AssetFrameUnique(a: Asset, b: Asset, s: Bytes, t: Bytes)
    requires Plain(a) && Plain(b) && AssetFrame(a) + s == AssetFrame(b) + t
    ensures a == b && s == t
  {
    var a2, b2 := a.sha256 + [NEWLINE] + s, b.sha256 + [NEWLINE] + t;
    var a1, b1 := Decimal(a.bytes) + [NUL] + a2, Decimal(b.bytes) + [NUL] + b2;
    assert AssetFrame(a) + s == a.name + [NUL] + a1;
    assert AssetFrame(b) + t == b.name + [NUL] + b1;
    CutAt(a.name, b.name, NUL, a1, b1);
    CutAt(Decimal(a.bytes), Decimal(b.bytes), NUL, a2, b2);
    CutAt(a.sha256, b.sha256, NEWLINE, s, t);
    DecimalReadsBack(a.bytes);
    DecimalReadsBack(b.bytes);
  }

  /** The asset list is recoverable from the hashed bytes. */
  lemma {:induction false} AssetFramesInjective(xs: seq<Asset>, ys: seq<Asset>)
    requires forall i :: 0 <= i < |xs| ==> Plain(xs[i])
    requires forall i :: 0 <= i < |ys| ==> Plain(ys[i])
    requires AssetFrames(xs) == AssetFrames(ys)
    ensures xs == ys
  {
    if xs != [] && ys != [] {
      AssetFrameUnique(xs[0], ys[0], AssetFrames(xs[1..]), AssetFrames(ys[1..]));
      AssetFramesInjective(xs[1..], ys[1..]);
      assert xs == [xs[0]] + xs[1..] && ys == [ys[0]] + ys[1..];
    }
  }
}
