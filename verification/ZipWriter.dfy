/** The bytes a release ZIP consists of: the local part, one central record per
    entry and the end record (sections 4.3.6, 4.3.12 and 4.3.16 of PKWARE
    APPNOTE.TXT), and exactly when the scan accepts them. */
module ZipWriter {
  import opened Bytes
  import opened Paths
  import opened Budget
  import opened ZipScan
  import Utf8
  import Zip = ZipExtract

  /** What the ZIP library chooses for one entry: versions, flags, method, time
      and checksum; attributes; extra fields; the local header and the packed data. */
  datatype Packed = Packed(fixed: Bytes, attributes: Bytes, extra: Bytes, localHeader: Bytes, data: Bytes) {
    predicate WellFormed() {
      |fixed| == 16 && |attributes| == 6 && |extra| <= U16_MAX
    }

    function Chunk(): Bytes { localHeader + data }
  }

  /** Fields that cannot hold their number hold the largest value instead. */
  function Clamp16(n: nat): (m: nat)
    ensures m <= U16_MAX && (m != U16_MAX ==> m == n)
  {
    if n < U16_MAX then n else U16_MAX
  }

  function Clamp32(n: nat): (m: nat)
    ensures m <= U32_MAX && (m != U32_MAX ==> m == n)
  {
    if n < U32_MAX then n else U32_MAX
  }

  // ---- one central record ----

  function Header(p: Packed, nameLength: nat, size: nat, offset: nat): (h: Bytes)
    requires p.WellFormed() && nameLength <= U16_MAX
    ensures |h| == HEADER_LEN
  {
    RECORD_SIGNATURE + p.fixed + Le32(Clamp32(|p.data|)) + Le32(Clamp32(size))
    + Le16(nameLength) + Le16(|p.extra|) + [0, 0] + [0, 0] + p.attributes + Le32(Clamp32(offset))
  }

  lemma HeaderFields(p: Packed, nameLength: nat, size: nat, offset: nat)
    requires p.WellFormed() && nameLength <= U16_MAX
    ensures var h := Header(p, nameLength, size, offset);
            && h[..4] == RECORD_SIGNATURE
            && U32(h, 20) == Clamp32(|p.data|) && U32(h, 24) == Clamp32(size)
            && U16(h, 28) == nameLength && U16(h, 30) == |p.extra|
            && U16(h, 32) == 0 && U16(h, 34) == 0 && U32(h, 42) == Clamp32(offset)
  {
    var h := Header(p, nameLength, size, offset);
    var c, z, o := Le32(Clamp32(|p.data|)), Le32(Clamp32(size)), Le32(Clamp32(offset));
    var n, e := Le16(nameLength), Le16(|p.extra|);
    assert h[20] == c[0] && h[21] == c[1] && h[22] == c[2] && h[23] == c[3];
    assert h[24] == z[0] && h[25] == z[1] && h[26] == z[2] && h[27] == z[3];
    assert h[28] == n[0] && h[29] == n[1] && h[30] == e[0] && h[31] == e[1];
    assert h[32] == 0 && h[33] == 0 && h[34] == 0 && h[35] == 0;
    assert h[42] == o[0] && h[43] == o[1] && h[44] == o[2] && h[45] == o[3];
  }

  function RecordOf(z: Zip.ZipEntry, p: Packed, offset: nat): (r: Record)
    requires p.WellFormed() && |z.name| <= U16_MAX
  {
    Record(Header(p, |z.name|, z.size, offset), z.name, p.extra, [])
  }

  lemma RecordFields(z: Zip.ZipEntry, p: Packed, offset: nat)
    requires p.WellFormed() && |z.name| <= U16_MAX
    ensures var r := RecordOf(z, p, offset);
            && r.WellFormed()
            && r.Compressed() == Clamp32(|p.data|) && r.Uncompressed() == Clamp32(z.size)
            && r.DiskStart() == 0 && r.LocalOffset() == Clamp32(offset)
            && |r.Serialize()| == HEADER_LEN + |z.name| + |p.extra|
  {
    HeaderFields(p, |z.name|, z.size, offset);
  }

  // ---- the whole archive ----

  /** One packing per entry, in a form the fields can measure. */
  predicate Writable(zs: seq<Zip.ZipEntry>, packs: seq<Packed>) {
    && |zs| == |packs|
    && (forall i :: 0 <= i < |packs| ==> packs[i].WellFormed())
    && (forall i :: 0 <= i < |zs| ==> |zs[i].name| <= U16_MAX)
  }

  function LocalPart(packs: seq<Packed>): (s: Bytes) {
    Concat(Map((p: Packed) => p.Chunk(), packs))
  }

  function Offset(packs: seq<Packed>, i: nat): (n: nat)
    requires i <= |packs|
  {
    |LocalPart(packs[..i])|
  }

  function CentralRecords(zs: seq<Zip.ZipEntry>, packs: seq<Packed>): (recs: seq<Record>)
    requires Writable(zs, packs)
    ensures |recs| == |zs|
  {
    seq(|zs|, i requires 0 <= i < |zs| => RecordOf(zs[i], packs[i], Offset(packs, i)))
  }

  function CentralPart(zs: seq<Zip.ZipEntry>, packs: seq<Packed>): (s: Bytes)
    requires Writable(zs, packs)
  {
    SerializeAll(CentralRecords(zs, packs))
  }

  /** The file, given what would stand before the end record of a ZIP64 archive. */
  function ZipFile(zs: seq<Zip.ZipEntry>, packs: seq<Packed>, zip64: Bytes): (file: Bytes)
    requires Writable(zs, packs)
  {
    var local, central := LocalPart(packs), CentralPart(zs, packs);
    var tail := if |zs| > U16_MAX || |central| > U32_MAX || |local| > U32_MAX then zip64 else [];
    local + central + tail + EndRecord(Clamp16(|zs|), Clamp32(|central|), Clamp32(|local|))
  }

  lemma LocalPartSnoc(packs: seq<Packed>, i: nat)
    requires i < |packs|
    ensures LocalPart(packs[..i + 1]) == LocalPart(packs[..i]) + packs[i].Chunk()
  {
    var chunk := (p: Packed) => p.Chunk();
    MapLast(chunk, packs[..i + 1]);
    assert packs[..i + 1][..i] == packs[..i];
    ConcatSnoc(Map(chunk, packs[..i]), packs[i].Chunk());
  }

  lemma {:induction false} SerializeSnoc(recs: seq<Record>, r: Record)
    ensures SerializeAll(recs + [r]) == SerializeAll(recs) + r.Serialize()
  {
    if recs == [] {
      assert recs + [r] == [r] && [r][1..] == [];
      assert SerializeAll([r]) == r.Serialize() + SerializeAll([]);
    } else {
      assert (recs + [r])[1..] == recs[1..] + [r];
      SerializeSnoc(recs[1..], r);
    }
  }

  /** `create_zip_archive`: every entry appends its chunk and is remembered; the
      central directory and the end record follow. `None` when a name does not
      fit its length field, which the library refuses. */
  method CreateZipArchive(zs: seq<Zip.ZipEntry>, packs: seq<Packed>, zip64: Bytes) returns (r: Option<Bytes>)
    requires |zs| == |packs| && forall i :: 0 <= i < |packs| ==> packs[i].WellFormed()
    ensures r == if Writable(zs, packs) then Some(ZipFile(zs, packs, zip64)) else None
  {
    var local: Bytes, recs: seq<Record> := [], [];
    var i := 0;
    while i < |zs|
      invariant 0 <= i <= |zs|
      invariant forall j :: 0 <= j < i ==> |zs[j].name| <= U16_MAX
      invariant local == LocalPart(packs[..i])
      invariant recs == seq(i, j requires 0 <= j < i => RecordOf(zs[j], packs[j], Offset(packs, j)))
    {
      if |zs[i].name| > U16_MAX {
        return None;
      }
      LocalPartSnoc(packs, i);
      recs := recs + [RecordOf(zs[i], packs[i], |local|)];
      local := local + packs[i].Chunk();
      i := i + 1;
    }
    assert packs[..i] == packs && recs == CentralRecords(zs, packs);
    var central := SerializeAll(recs);
    var tail := if |recs| > U16_MAX || |central| > U32_MAX || |local| > U32_MAX then zip64 else [];
    return Some(local + central + tail + EndRecord(Clamp16(|recs|), Clamp32(|central|), Clamp32(|local|)));
  }

  // ---- when the scan accepts it ----

  lemma CentralIsWellFormed(zs: seq<Zip.ZipEntry>, packs: seq<Packed>)
    requires Writable(zs, packs)
    ensures AllWellFormed(CentralRecords(zs, packs))
  {
    forall i | 0 <= i < |zs|
      ensures CentralRecords(zs, packs)[i].WellFormed()
    {
      RecordFields(zs[i], packs[i], Offset(packs, i));
    }
  }

  /** The end record is where the search finds it, and says what was clamped. */
  lemma EndRecordOf(local: Bytes, central: Bytes, tail: Bytes, count: nat, recs: seq<Record>, k: nat, b: Bounds)
    requires var file := local + central + tail + EndRecord(Clamp16(count), Clamp32(|central|), Clamp32(|local|));
             Describes(file, k, recs, b)
    ensures k == |local| + |central| + |tail| && |recs| == count < U16_MAX
    ensures |central| == b.size <= MAX_CENTRAL_DIRECTORY_BYTES && |local| == b.offset < U32_MAX
  {
    var body := local + central + tail;
    var file := body + EndRecord(Clamp16(count), Clamp32(|central|), Clamp32(|local|));
    TrailingEndRecord(body, Clamp16(count), Clamp32(|central|), Clamp32(|local|));
    EocdUnique(file, |body|);
    assert k == |body|;
  }

  lemma MiddleOf(a: Bytes, b: Bytes, c: Bytes)
    ensures (a + b + [] + c)[|a|..|a| + |b|] == b
    ensures a + b + [] + c == a + b + c
  {}

  /** A described written file is described by the records written. */
  lemma DescribedAsWritten(zs: seq<Zip.ZipEntry>, packs: seq<Packed>, zip64: Bytes, k: nat, recs: seq<Record>, b: Bounds)
    requires Writable(zs, packs) && Describes(ZipFile(zs, packs, zip64), k, recs, b)
    ensures recs == CentralRecords(zs, packs)
    ensures |CentralPart(zs, packs)| <= MAX_CENTRAL_DIRECTORY_BYTES && |LocalPart(packs)| < U32_MAX
  {
    var local, central := LocalPart(packs), CentralPart(zs, packs);
    var tail := if |zs| > U16_MAX || |central| > U32_MAX || |local| > U32_MAX then zip64 else [];
    EndRecordOf(local, central, tail, |zs|, recs, k, b);
    MiddleOf(local, central, EndRecord(Clamp16(|zs|), Clamp32(|central|), Clamp32(|local|)));
    assert SerializeAll(recs) == central;
    CentralIsWellFormed(zs, packs);
    ParseComplete(recs);
    ParseComplete(CentralRecords(zs, packs));
  }

  lemma PlainFile(zs: seq<Zip.ZipEntry>, packs: seq<Packed>, zip64: Bytes)
    requires Writable(zs, packs) && |zs| < U16_MAX
    requires |CentralPart(zs, packs)| < U32_MAX && |LocalPart(packs)| < U32_MAX
    ensures ZipFile(zs, packs, zip64)
         == LocalPart(packs) + CentralPart(zs, packs) + EndRecord(|zs|, |CentralPart(zs, packs)|, |LocalPart(packs)|)
  {
    var local, central := LocalPart(packs), CentralPart(zs, packs);
    MiddleOf(local, central, EndRecord(|zs|, |central|, |local|));
  }

  lemma WrittenIsDescribed(zs: seq<Zip.ZipEntry>, packs: seq<Packed>, zip64: Bytes)
    requires Writable(zs, packs) && Admissible(CentralRecords(zs, packs))
    requires |CentralPart(zs, packs)| <= MAX_CENTRAL_DIRECTORY_BYTES && |LocalPart(packs)| < U32_MAX
    ensures HasRecords(ZipFile(zs, packs, zip64), |zs|)
  {
    SerializedArchiveHasRecords(LocalPart(packs), CentralRecords(zs, packs));
    PlainFile(zs, packs, zip64);
  }

  // ---- which written directories are admissible ----

  /** Name and extra fields of every entry fit the metadata limit. */
  ghost predicate MetadataFits(zs: seq<Zip.ZipEntry>, packs: seq<Packed>)
    requires |zs| == |packs|
  {
    forall i :: 0 <= i < |zs| ==> |zs[i].name| + |packs[i].extra| <= MAX_MEMBER_METADATA_BYTES
  }

  ghost predicate NamesAreUtf8(zs: seq<Zip.ZipEntry>) {
    forall i :: 0 <= i < |zs| ==> Utf8.Valid(zs[i].name)
  }

  lemma OffsetsFit(packs: seq<Packed>, i: nat)
    requires i < |packs|
    ensures Offset(packs, i) + |packs[i].data| <= |LocalPart(packs)|
  {
    var chunk := (p: Packed) => p.Chunk();
    LocalPartSnoc(packs, i);
    assert packs == packs[..i + 1] + packs[i + 1..];
    MapAppend(chunk, packs[..i + 1], packs[i + 1..]);
    ConcatAppend(Map(chunk, packs[..i + 1]), Map(chunk, packs[i + 1..]));
  }

  lemma EntryHasName(zs: seq<Zip.ZipEntry>, i: nat)
    requires Zip.Accepts(zs) && i < |zs|
    ensures MemberPath(zs[i].name).Some? && Zip.Items(zs)[i].path == MemberPath(zs[i].name).value
    ensures zs[i].size <= MAX_ENTRY_BYTES
  {
    assert SafePath(Zip.Items(zs)[i].path);
    assert Zip.Sizes(zs)[i] <= MAX_ENTRY_BYTES;
  }

  lemma RecordIsAllowed(zs: seq<Zip.ZipEntry>, packs: seq<Packed>, i: nat)
    requires Writable(zs, packs) && Zip.Accepts(zs) && NamesAreUtf8(zs) && i < |zs|
    requires |LocalPart(packs)| < U32_MAX && MetadataFits(zs, packs)
    ensures var r := CentralRecords(zs, packs)[i];
            r.WellFormed() && RecordAllowed(r) && r.Uncompressed() == zs[i].size
  {
    RecordFields(zs[i], packs[i], Offset(packs, i));
    OffsetsFit(packs, i);
    EntryHasName(zs, i);
  }

  lemma CentralIsAdmissible(zs: seq<Zip.ZipEntry>, packs: seq<Packed>)
    requires Writable(zs, packs) && Zip.Accepts(zs) && NamesAreUtf8(zs)
    requires |LocalPart(packs)| < U32_MAX && MetadataFits(zs, packs)
    ensures Admissible(CentralRecords(zs, packs))
  {
    var recs := CentralRecords(zs, packs);
    forall i | 0 <= i < |recs|
      ensures recs[i].WellFormed() && RecordAllowed(recs[i]) && recs[i].Uncompressed() == zs[i].size
    {
      RecordIsAllowed(zs, packs, i);
    }
    assert DeclaredSizes(recs) == Zip.Sizes(zs);
    forall i, j | 0 <= i < j < |recs|
      ensures MemberPath(recs[i].name) != MemberPath(recs[j].name)
    {
      EntryHasName(zs, i);
      EntryHasName(zs, j);
    }
  }

  /** For entries the extractor would accept, the scan accepts the written file
      exactly when the central directory, the local part and every entry's
      metadata are within bounds. */
  lemma ScanAcceptsWritten(zs: seq<Zip.ZipEntry>, packs: seq<Packed>, zip64: Bytes)
    requires Writable(zs, packs) && Zip.Accepts(zs) && NamesAreUtf8(zs)
    ensures HasRecords(ZipFile(zs, packs, zip64), |zs|)
       <==> |CentralPart(zs, packs)| <= MAX_CENTRAL_DIRECTORY_BYTES && |LocalPart(packs)| < U32_MAX
            && MetadataFits(zs, packs)
  {
    if HasRecords(ZipFile(zs, packs, zip64), |zs|) {
      var k, recs, b :| Describes(ZipFile(zs, packs, zip64), k, recs, b) && |recs| == |zs|;
      DescribedAsWritten(zs, packs, zip64, k, recs, b);
      AdmissibleMetadata(zs, packs);
    }
    if |CentralPart(zs, packs)| <= MAX_CENTRAL_DIRECTORY_BYTES && |LocalPart(packs)| < U32_MAX && MetadataFits(zs, packs) {
      CentralIsAdmissible(zs, packs);
      WrittenIsDescribed(zs, packs, zip64);
    }
  }

  lemma AdmissibleMetadata(zs: seq<Zip.ZipEntry>, packs: seq<Packed>)
    requires Writable(zs, packs) && Admissible(CentralRecords(zs, packs))
    ensures MetadataFits(zs, packs)
  {
    forall i | 0 <= i < |zs|
      ensures |zs[i].name| + |packs[i].extra| <= MAX_MEMBER_METADATA_BYTES
    {
      assert RecordAllowed(CentralRecords(zs, packs)[i]);
    }
  }

  // ---- how large the directory is ----

  function ExtraBytes(packs: seq<Packed>): (n: nat) {
    if packs == [] then 0 else ExtraBytes(packs[..|packs| - 1]) + |packs[|packs| - 1].extra|
  }

  function NameBytes(zs: seq<Zip.ZipEntry>): (n: nat) {
    if zs == [] then 0 else NameBytes(zs[..|zs| - 1]) + |zs[|zs| - 1].name|
  }

  lemma {:induction false} CentralSize(zs: seq<Zip.ZipEntry>, packs: seq<Packed>)
    requires Writable(zs, packs)
    ensures |CentralPart(zs, packs)| == HEADER_LEN * |zs| + NameBytes(zs) + ExtraBytes(packs)
    decreases |zs|
  {
    if zs != [] {
      var n := |zs| - 1;
      CentralSize(zs[..n], packs[..n]);
      RecordFields(zs[n], packs[n], Offset(packs, n));
      CentralSnoc(zs, packs, n);
      SerializeSnoc(CentralRecords(zs[..n], packs[..n]), RecordOf(zs[n], packs[n], Offset(packs, n)));
    }
  }

  lemma CentralSnoc(zs: seq<Zip.ZipEntry>, packs: seq<Packed>, n: nat)
    requires Writable(zs, packs) && |zs| == n + 1
    ensures CentralRecords(zs, packs)
         == CentralRecords(zs[..n], packs[..n]) + [RecordOf(zs[n], packs[n], Offset(packs, n))]
  {
    assert forall i :: 0 <= i < n ==> packs[..n][..i] == packs[..i];
  }
}
