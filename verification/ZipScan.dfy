/** The central-directory scan that runs before a release ZIP is opened
    (sections 4.3.12 and 4.3.16 of PKWARE APPNOTE.TXT), sound and complete
    against a grammar of records. */
module ZipScan {
  import opened Bytes
  import opened Paths
  import opened Budget
  import Utf8

  const EOCD_LEN: nat := 22
  const MAX_ZIP_COMMENT_LEN: nat := 65_535
  const HEADER_LEN: nat := 46
  const MAX_CENTRAL_DIRECTORY_BYTES: nat := 32 * 1024 * 1024
  const MAX_MEMBER_METADATA_BYTES: nat := 64 * 1024
  const U16_MAX: nat := 0xFFFF
  const U32_MAX: nat := 0xFFFF_FFFF
  const EOCD_SIGNATURE: Bytes := [0x50, 0x4B, 5, 6]
  const RECORD_SIGNATURE: Bytes := [0x50, 0x4B, 1, 2]

  function U16(s: Bytes, i: nat): (n: nat)
    requires i + 2 <= |s|
    ensures n <= U16_MAX
  {
    s[i] as int + 256 * (s[i + 1] as int)
  }

  function U32(s: Bytes, i: nat): (n: nat)
    requires i + 4 <= |s|
    ensures n <= U32_MAX
  {
    s[i] as int + 256 * (s[i + 1] as int) + 65536 * (s[i + 2] as int) + 16777216 * (s[i + 3] as int)
  }

  // ---- the record grammar ----

  /** A central record: its 46 fixed bytes and the three fields they measure. */
  datatype Record = Record(header: Bytes, name: Bytes, extra: Bytes, comment: Bytes) {
    predicate WellFormed() {
      && |header| == HEADER_LEN
      && header[..4] == RECORD_SIGNATURE
      && U16(header, 28) == |name|
      && U16(header, 30) == |extra|
      && U16(header, 32) == |comment|
    }

    function Compressed(): nat requires |header| == HEADER_LEN { U32(header, 20) }
    function Uncompressed(): nat requires |header| == HEADER_LEN { U32(header, 24) }
    function DiskStart(): nat requires |header| == HEADER_LEN { U16(header, 34) }
    function LocalOffset(): nat requires |header| == HEADER_LEN { U32(header, 42) }

    function Serialize(): Bytes { header + name + extra + comment }
  }

  predicate AllWellFormed(recs: seq<Record>) {
    forall i :: 0 <= i < |recs| ==> recs[i].WellFormed()
  }

  function SerializeAll(recs: seq<Record>): (s: Bytes) {
    if recs == [] then [] else recs[0].Serialize() + SerializeAll(recs[1..])
  }

  function DeclaredSizes(recs: seq<Record>): (sizes: seq<nat>)
    requires AllWellFormed(recs)
    ensures |sizes| == |recs|
  {
    seq(|recs|, i requires 0 <= i < |recs| => recs[i].Uncompressed())
  }

  /** What one record must satisfy by itself. */
  predicate RecordAllowed(r: Record)
    requires r.WellFormed()
  {
    && r.Compressed() != U32_MAX && r.Uncompressed() != U32_MAX && r.LocalOffset() != U32_MAX
    && r.DiskStart() == 0
    && 0 < |r.name| <= MAX_MEMBER_NAME_BYTES
    && |r.name| + |r.extra| + |r.comment| <= MAX_MEMBER_METADATA_BYTES
    && Utf8.Valid(r.name)
    && MemberPath(r.name).Some?
  }

  ghost predicate AllAllowed(recs: seq<Record>)
    requires AllWellFormed(recs)
  {
    forall i :: 0 <= i < |recs| ==> RecordAllowed(recs[i])
  }

  ghost predicate NamesDiffer(recs: seq<Record>) {
    forall i, j :: 0 <= i < j < |recs| ==> MemberPath(recs[i].name) != MemberPath(recs[j].name)
  }

  /** Which record lists pass: allowed records, pairwise distinct normalized
      names, and sizes within the extraction budget. */
  ghost predicate Admissible(recs: seq<Record>) {
    AllWellFormed(recs) && AllAllowed(recs) && NamesDiffer(recs) && Fits(DeclaredSizes(recs))
  }

  ghost predicate EocdAt(file: Bytes, k: nat) {
    && k + EOCD_LEN <= |file|
    && file[k..k + 4] == EOCD_SIGNATURE
    && k + EOCD_LEN + U16(file, k + 20) == |file|
  }

  ghost predicate LastEocd(file: Bytes, k: nat) {
    EocdAt(file, k) && forall j: nat :: k < j ==> !EocdAt(file, j)
  }

  datatype Bounds = Bounds(entryCount: nat, offset: nat, size: nat)

  /** The archives the scan is for: one disk, no ZIP64, the bytes between
      `offset` and the end record tiled by `recs`, the end record telling so. */
  ghost predicate Describes(file: Bytes, k: nat, recs: seq<Record>, b: Bounds) {
    && LastEocd(file, k)
    && U16(file, k + 4) == 0 && U16(file, k + 6) == 0
    && U16(file, k + 8) == U16(file, k + 10) == b.entryCount == |recs|
    && b.entryCount != U16_MAX
    && U32(file, k + 12) == b.size <= MAX_CENTRAL_DIRECTORY_BYTES
    && U32(file, k + 16) == b.offset != U32_MAX
    && b.offset + b.size == k
    && file[b.offset..k] == SerializeAll(recs)
    && Admissible(recs)
  }

  /** The scan accepts the file and counts `n` records. */
  ghost predicate HasRecords(file: Bytes, n: nat) {
    exists k, recs, b :: Describes(file, k, recs, b) && |recs| == n
  }

  // ---- the grammar is unambiguous ----

  function Parse(s: Bytes): (r: Option<seq<Record>>)
    decreases |s|
  {
    if s == [] then Some([])
    else if |s| < HEADER_LEN || s[..4] != RECORD_SIGNATURE then None
    else
      var end := RecordEnd(s);
      if end > |s| then None else Prefixed([FirstRecord(s)], Parse(s[end..]))
  }

  function RecordEnd(s: Bytes): (n: nat)
    requires |s| >= HEADER_LEN
    ensures n >= HEADER_LEN
  {
    HEADER_LEN + U16(s, 28) + U16(s, 30) + U16(s, 32)
  }

  function FirstRecord(s: Bytes): (r: Record)
    requires |s| >= HEADER_LEN && RecordEnd(s) <= |s|
    ensures r.Serialize() == s[..RecordEnd(s)]
    ensures s[..4] == RECORD_SIGNATURE ==> r.WellFormed()
    ensures |r.header| == HEADER_LEN && r.header == s[..HEADER_LEN]
  {
    var n := HEADER_LEN + U16(s, 28);
    var e := n + U16(s, 30);
    var r := Record(s[..HEADER_LEN], s[HEADER_LEN..n], s[n..e], s[e..RecordEnd(s)]);
    assert r.header[..4] == s[..4];
    r
  }

  lemma {:induction false} ParseSound(s: Bytes)
    requires Parse(s).Some?
    ensures AllWellFormed(Parse(s).value)
    ensures SerializeAll(Parse(s).value) == s
    decreases |s|
  {
    if s != [] {
      var end := RecordEnd(s);
      ParseSound(s[end..]);
      var recs := Parse(s).value;
      assert recs[1..] == Parse(s[end..]).value;
      assert s == s[..end] + s[end..];
    }
  }

  lemma FirstRecordOf(r: Record, rest: Bytes)
    requires r.WellFormed()
    ensures var s := r.Serialize() + rest;
            RecordEnd(s) == |r.Serialize()| <= |s| && FirstRecord(s) == r && s[RecordEnd(s)..] == rest
            && s[..4] == RECORD_SIGNATURE
  {
    var s := r.Serialize() + rest;
    assert s[..HEADER_LEN] == r.header;
    assert s[..4] == r.header[..4];
    assert forall i :: 0 <= i < HEADER_LEN ==> s[i] == r.header[i];
    var n := HEADER_LEN + |r.name|;
    var e := n + |r.extra|;
    assert s[HEADER_LEN..n] == r.name;
    assert s[n..e] == r.extra;
    assert s[e..e + |r.comment|] == r.comment;
  }

  lemma ParseCons(r: Record, rest: Bytes)
    requires r.WellFormed()
    ensures Parse(r.Serialize() + rest) == Prefixed([r], Parse(rest))
  {
    FirstRecordOf(r, rest);
  }

  lemma ParseConsOf(r: Record, s: Bytes, rest: seq<Record>)
    requires r.WellFormed() && Parse(s) == Some(rest)
    ensures Parse(r.Serialize() + s) == Some([r] + rest)
  {
    ParseCons(r, s);
  }

  lemma {:induction false} ParseComplete(recs: seq<Record>)
    requires AllWellFormed(recs)
    ensures Parse(SerializeAll(recs)) == Some(recs)
  {
    if recs != [] {
      var rest := recs[1..];
      ParseComplete(rest);
      ParseConsOf(recs[0], SerializeAll(rest), rest);
      assert recs == [recs[0]] + rest;
    }
  }

  /** Every admissible record takes at least 47 bytes. */
  lemma {:induction false} RecordsTakeSpace(recs: seq<Record>)
    requires AllWellFormed(recs) && AllAllowed(recs)
    ensures |SerializeAll(recs)| >= 47 * |recs|
  {
    if recs != [] {
      assert RecordAllowed(recs[0]);
      RecordsTakeSpace(recs[1..]);
    }
  }

  // ---- the scan ----

  function NormalizedNames(recs: seq<Record>): (seen: set<Path>)
    requires AllWellFormed(recs) && forall i :: 0 <= i < |recs| ==> MemberPath(recs[i].name).Some?
  {
    set i | 0 <= i < |recs| :: MemberPath(recs[i].name).value
  }

  ghost predicate Scanned(recs: seq<Record>, seen: set<Path>, expanded: nat) {
    && Admissible(recs)
    && seen == NormalizedNames(recs)
    && expanded == Sum(DeclaredSizes(recs))
  }

  lemma SizesSnoc(recs: seq<Record>, r: Record)
    requires AllWellFormed(recs) && r.WellFormed()
    ensures AllWellFormed(recs + [r])
    ensures DeclaredSizes(recs + [r]) == DeclaredSizes(recs) + [r.Uncompressed()]
  {}

  lemma AllowedSnoc(recs: seq<Record>, r: Record)
    requires AllWellFormed(recs) && r.WellFormed()
    ensures AllWellFormed(recs + [r])
    ensures AllAllowed(recs + [r]) <==> AllAllowed(recs) && RecordAllowed(r)
  {
    var all := recs + [r];
    assert all[|recs|] == r;
    assert forall i :: 0 <= i < |recs| ==> all[i] == recs[i];
  }

  lemma NamesSnoc(recs: seq<Record>, r: Record)
    requires AllWellFormed(recs) && r.WellFormed() && AllAllowed(recs) && RecordAllowed(r) && NamesDiffer(recs)
    ensures AllAllowed(recs + [r])
    ensures NamesDiffer(recs + [r]) <==> MemberPath(r.name).value !in NormalizedNames(recs)
    ensures NormalizedNames(recs + [r]) == NormalizedNames(recs) + {MemberPath(r.name).value}
  {
    AllowedSnoc(recs, r);
    NormalizedNamesSnoc(recs, r);
    NamesDifferSnoc(recs, r);
  }

  lemma NormalizedNamesSnoc(recs: seq<Record>, r: Record)
    requires forall i :: 0 <= i < |recs| ==> MemberPath(recs[i].name).Some?
    requires AllWellFormed(recs) && r.WellFormed() && MemberPath(r.name).Some?
    ensures AllWellFormed(recs + [r]) && forall i :: 0 <= i < |recs| + 1 ==> MemberPath((recs + [r])[i].name).Some?
    ensures NormalizedNames(recs + [r]) == NormalizedNames(recs) + {MemberPath(r.name).value}
  {
    var all := recs + [r];
    assert all[|recs|] == r;
    assert forall i :: 0 <= i < |recs| ==> all[i] == recs[i];
  }

  lemma NamesDifferSnoc(recs: seq<Record>, r: Record)
    requires NamesDiffer(recs)
    ensures NamesDiffer(recs + [r]) <==> forall i :: 0 <= i < |recs| ==> MemberPath(recs[i].name) != MemberPath(r.name)
  {
    var all := recs + [r];
    assert all[|recs|] == r;
    assert forall i :: 0 <= i < |recs| ==> all[i] == recs[i];
  }

  lemma AdmissibleSnoc(recs: seq<Record>, r: Record, seen: set<Path>, expanded: nat)
    requires Scanned(recs, seen, expanded) && r.WellFormed()
    ensures Admissible(recs + [r]) <==>
            RecordAllowed(r) && MemberPath(r.name).value !in seen
            && r.Uncompressed() <= MAX_ENTRY_BYTES && expanded + r.Uncompressed() <= MAX_EXPANDED_BYTES
            && |recs| + 1 <= MAX_ENTRIES
    ensures Admissible(recs + [r]) ==> Scanned(recs + [r], seen + {MemberPath(r.name).value}, expanded + r.Uncompressed())
  {
    AllowedSnoc(recs, r);
    if RecordAllowed(r) {
      NamesSnoc(recs, r);
    }
    SizesSnoc(recs, r);
    FitsSnoc(DeclaredSizes(recs), r.Uncompressed());
  }

  lemma AdmissiblePrefix(recs: seq<Record>, rest: seq<Record>)
    requires Admissible(recs + rest)
    ensures Admissible(recs)
  {
    var all := recs + rest;
    assert forall i :: 0 <= i < |recs| ==> all[i] == recs[i];
    assert DeclaredSizes(recs) == DeclaredSizes(all)[..|recs|];
    FitsPrefix(DeclaredSizes(all), |recs|);
  }

  /** If `r` is the next record and spoils the list, no continuation repairs it. */
  lemma NextRecordDecides(recs: seq<Record>, r: Record, rest: Option<seq<Record>>)
    ensures forall more :: Prefixed([r], rest) == Some(more) && Admissible(recs + more) ==> Admissible(recs + [r])
  {
    if rest.Some? && Admissible(recs + ([r] + rest.value)) {
      assert recs + ([r] + rest.value) == (recs + [r]) + rest.value;
      AdmissiblePrefix(recs + [r], rest.value);
    }
  }

  /** The checks of one record against what was scanned before it. */
  method CheckRecord(r: Record, seen: set<Path>, expanded: nat, count: nat, ghost recs: seq<Record>)
    returns (ok: bool, seen': set<Path>, expanded': nat)
    requires r.WellFormed() && Scanned(recs, seen, expanded) && count == |recs|
    ensures ok <==> Admissible(recs + [r])
    ensures ok ==> Scanned(recs + [r], seen', expanded') && |r.name| > 0
  {
    AdmissibleSnoc(recs, r, seen, expanded);
    ok, seen', expanded' := false, seen, expanded;
    if r.Compressed() == U32_MAX || r.Uncompressed() == U32_MAX || r.LocalOffset() == U32_MAX {
      return;
    }
    if r.DiskStart() != 0 {
      return;
    }
    if |r.name| == 0 || |r.name| > MAX_MEMBER_NAME_BYTES {
      return;
    }
    if r.Uncompressed() > MAX_ENTRY_BYTES || expanded + r.Uncompressed() > MAX_EXPANDED_BYTES {
      return;
    }
    if |r.name| + |r.extra| + |r.comment| > MAX_MEMBER_METADATA_BYTES {
      return;
    }
    if !Utf8.Valid(r.name) {
      return;
    }
    var normalized := NormalizeMemberName(r.name);
    if normalized.None? || normalized.value in seen {
      return;
    }
    if count + 1 > MAX_ENTRIES {
      return;
    }
    ok, seen', expanded' := true, seen + {normalized.value}, expanded + r.Uncompressed();
  }

  /** Reading the header and the three fields it measures, unless truncated. */
  method ReadRecord(rest: Bytes) returns (r: Option<Record>, length: nat)
    requires rest != []
    ensures r.None? ==> Parse(rest).None?
    ensures r.Some? ==> r.value.WellFormed() && length == HEADER_LEN + |r.value.name| + |r.value.extra| + |r.value.comment|
    ensures r.Some? ==> length <= |rest| && Parse(rest) == Prefixed([r.value], Parse(rest[length..]))
  {
    length := 0;
    if |rest| < HEADER_LEN || rest[..4] != RECORD_SIGNATURE {
      return None, 0;
    }
    length := RecordEnd(rest);
    if length > |rest| {
      return None, 0;
    }
    return Some(FirstRecord(rest)), length;
  }

  /** One pass of the scan loop, over the record at `consumed`. */
  method ScanRecord(central: Bytes, consumed: nat, seen: set<Path>, expanded: nat, count: nat,
                    ghost recs: seq<Record>)
    returns (ok: bool, consumed': nat, seen': set<Path>, expanded': nat, ghost r: Record)
    requires consumed < |central| && Scanned(recs, seen, expanded) && count == |recs|
    ensures ok ==> consumed + 47 <= consumed' <= |central| && Scanned(recs + [r], seen', expanded')
    ensures ok ==> Parse(central[consumed..]) == Prefixed([r], Parse(central[consumed'..]))
    ensures !ok ==> forall more :: Parse(central[consumed..]) == Some(more) ==> !Admissible(recs + more)
  {
    ok, consumed', seen', expanded' := false, consumed, seen, expanded;
    r := Record([], [], [], []);
    var next, length := ReadRecord(central[consumed..]);
    if next.Some? {
      r := next.value;
      ok, seen', expanded' := CheckRecord(next.value, seen, expanded, count, recs);
      consumed' := consumed + length;
      assert central[consumed..][length..] == central[consumed'..];
      NextRecordDecides(recs, r, Parse(central[consumed'..]));
    }
  }

  /** The scan loop: the records of an admissible central directory, counted. */
  method ScanRecords(central: Bytes) returns (ok: bool, count: nat)
    ensures ok <==> Parse(central).Some? && Admissible(Parse(central).value)
    ensures ok ==> count == |Parse(central).value|
  {
    var consumed, seen, expanded := 0, {}, 0;
    ghost var recs: seq<Record> := [];
    count := 0;
    assert central[0..] == central;
    PrefixedNothing(Parse(central));
    while consumed < |central|
      invariant consumed <= |central| && count == |recs|
      invariant Scanned(recs, seen, expanded)
      invariant Parse(central) == Prefixed(recs, Parse(central[consumed..]))
      decreases |central| - consumed
    {
      var next;
      ghost var r;
      ok, next, seen, expanded, r := ScanRecord(central, consumed, seen, expanded, count, recs);
      if !ok {
        return;
      }
      PrefixedTwice(recs, [r], Parse(central[next..]));
      recs, consumed, count := recs + [r], next, count + 1;
    }
    assert central[consumed..] == [] && recs + [] == recs;
    ok := true;
  }

  /** The backwards search for the end record. It looks only at the tail a
      comment can occupy, which is where every end record must be. */
  method FindEocd(file: Bytes) returns (r: Option<nat>)
    ensures r.Some? ==> LastEocd(file, r.value)
    ensures r.None? ==> forall k: nat :: !EocdAt(file, k)
  {
    if |file| < EOCD_LEN {
      return None;
    }
    var tailLen := if |file| < EOCD_LEN + MAX_ZIP_COMMENT_LEN then |file| else EOCD_LEN + MAX_ZIP_COMMENT_LEN;
    var tailStart := |file| - tailLen;
    var tail := file[tailStart..];
    var index := |tail| - EOCD_LEN + 1;
    while index > 0
      invariant 0 <= index <= |tail| - EOCD_LEN + 1
      invariant forall k: nat :: tailStart + index <= k ==> !EocdAt(file, k)
    {
      index := index - 1;
      ghost var k := tailStart + index;
      assert tail[index..index + 4] == file[k..k + 4];
      assert U16(tail, index + 20) == U16(file, k + 20);
      if tail[index..index + 4] == EOCD_SIGNATURE
         && index + EOCD_LEN + U16(tail, index + 20) == |tail| {
        return Some(tailStart + index);
      }
    }
    return None;
  }

  /** Everything after the end record has been found at `k`. */
  method InspectAt(file: Bytes, k: nat) returns (r: Option<Bounds>)
    requires LastEocd(file, k)
    ensures r.Some? ==> exists recs :: Describes(file, k, recs, r.value)
    ensures forall recs, b :: Describes(file, k, recs, b) ==> r == Some(b)
  {
    var disk, centralDisk := U16(file, k + 4), U16(file, k + 6);
    var entriesOnDisk, totalEntries := U16(file, k + 8), U16(file, k + 10);
    var size, offset := U32(file, k + 12), U32(file, k + 16);
    if totalEntries == U16_MAX || size == U32_MAX || offset == U32_MAX {
      return None;
    }
    if disk != 0 || centralDisk != 0 || entriesOnDisk != totalEntries {
      return None;
    }
    if size > MAX_CENTRAL_DIRECTORY_BYTES || offset + size != k || offset + size > |file| {
      return None;
    }
    if totalEntries > MAX_ENTRIES {
      return None;
    }
    var ok, count := ScanRecords(file[offset..k]);
    ScanAgrees(file[offset..k]);
    if !ok || count != totalEntries {
      return None;
    }
    ParseSound(file[offset..k]);
    r := Some(Bounds(totalEntries, offset, size));
    assert Describes(file, k, Parse(file[offset..k]).value, r.value);
  }

  method InspectCentralDirectory(file: Bytes) returns (r: Option<Bounds>)
    // sound: an accepted file is described by its bounds and some record list
    ensures r.Some? ==> exists k, recs :: Describes(file, k, recs, r.value)
    // complete: a described file is accepted with exactly those bounds
    ensures forall k, recs, b :: Describes(file, k, recs, b) ==> r == Some(b)
  {
    var found := FindEocd(file);
    if found.None? {
      return None;
    }
    EocdUnique(file, found.value);
    r := InspectAt(file, found.value);
  }

  lemma EocdUnique(file: Bytes, k: nat)
    requires LastEocd(file, k)
    ensures forall j: nat :: LastEocd(file, j) ==> j == k
  {}

  lemma ScanAgrees(central: Bytes)
    ensures forall recs :: AllWellFormed(recs) && SerializeAll(recs) == central ==> Parse(central) == Some(recs)
  {
    forall recs | AllWellFormed(recs) && SerializeAll(recs) == central
      ensures Parse(central) == Some(recs)
    {
      ParseComplete(recs);
    }
  }

  // ---- what a writer without comments produces ----

  function Le16(n: nat): (s: Bytes)
    requires n <= U16_MAX
    ensures |s| == 2 && U16(s, 0) == n
  {
    [n % 256, n / 256]
  }

  function Le32(n: nat): (s: Bytes)
    requires n <= U32_MAX
    ensures |s| == 4 && U32(s, 0) == n
  {
    var low, high := n % 65536, n / 65536;
    [low % 256, low / 256, high % 256, high / 256]
  }

  function EndRecord(count: nat, size: nat, offset: nat): (s: Bytes)
    requires count <= U16_MAX && size <= U32_MAX && offset <= U32_MAX
    ensures |s| == EOCD_LEN
  {
    EOCD_SIGNATURE + [0, 0, 0, 0] + Le16(count) + Le16(count) + Le32(size) + Le32(offset) + [0, 0]
  }

  lemma EndRecordFields(count: nat, size: nat, offset: nat)
    requires count <= U16_MAX && size <= U32_MAX && offset <= U32_MAX
    ensures var s := EndRecord(count, size, offset);
            && s[..4] == EOCD_SIGNATURE
            && U16(s, 4) == U16(s, 6) == U16(s, 20) == 0
            && U16(s, 8) == U16(s, 10) == count
            && U32(s, 12) == size && U32(s, 16) == offset
  {
    var s := EndRecord(count, size, offset);
    var c, z, o := Le16(count), Le32(size), Le32(offset);
    assert s[8] == c[0] && s[9] == c[1] && s[10] == c[0] && s[11] == c[1];
    assert s[12] == z[0] && s[13] == z[1] && s[14] == z[2] && s[15] == z[3];
    assert s[16] == o[0] && s[17] == o[1] && s[18] == o[2] && s[19] == o[3];
  }

  lemma FieldShift(a: Bytes, b: Bytes, i: nat)
    requires i + 4 <= |b|
    ensures U16(a + b, |a| + i) == U16(b, i) && U32(a + b, |a| + i) == U32(b, i)
  {}

  /** An end record at the very end is the last one and reads back its fields. */
  lemma TrailingEndRecord(body: Bytes, count: nat, size: nat, offset: nat)
    requires count <= U16_MAX && size <= U32_MAX && offset <= U32_MAX
    ensures var file, k := body + EndRecord(count, size, offset), |body|;
            && LastEocd(file, k)
            && U16(file, k + 4) == U16(file, k + 6) == 0
            && U16(file, k + 8) == U16(file, k + 10) == count
            && U32(file, k + 12) == size && U32(file, k + 16) == offset
  {
    var end := EndRecord(count, size, offset);
    var file, k := body + end, |body|;
    EndRecordFields(count, size, offset);
    assert file[k..k + 4] == end[..4];
    FieldShift(body, end, 4);
    FieldShift(body, end, 6);
    FieldShift(body, end, 8);
    FieldShift(body, end, 10);
    FieldShift(body, end, 12);
    FieldShift(body, end, 16);
    assert file[k + 20] == end[20] && file[k + 21] == end[21];
  }

  /** Any local part, any admissible records and the plain end record: the scan
      accepts and reports exactly the record count and where the records are. */
  lemma SerializedArchiveIsDescribed(local: Bytes, recs: seq<Record>)
    requires Admissible(recs)
    requires |local| < U32_MAX && |SerializeAll(recs)| <= MAX_CENTRAL_DIRECTORY_BYTES
    ensures |recs| <= MAX_ENTRIES < U16_MAX
    ensures var size := |SerializeAll(recs)|;
            Describes(local + SerializeAll(recs) + EndRecord(|recs|, size, |local|),
                      |local| + size, recs, Bounds(|recs|, |local|, size))
  {
    var central := SerializeAll(recs);
    AdmissibleCount(recs);
    TrailingEndRecord(local + central, |recs|, |central|, |local|);
    MiddlePart(local, central, EndRecord(|recs|, |central|, |local|));
  }

  lemma SerializedArchiveHasRecords(local: Bytes, recs: seq<Record>)
    requires Admissible(recs)
    requires |local| < U32_MAX && |SerializeAll(recs)| <= MAX_CENTRAL_DIRECTORY_BYTES
    ensures |recs| <= MAX_ENTRIES < U16_MAX
    ensures HasRecords(local + SerializeAll(recs) + EndRecord(|recs|, |SerializeAll(recs)|, |local|), |recs|)
  {
    var size := |SerializeAll(recs)|;
    SerializedArchiveIsDescribed(local, recs);
    DescribedHasRecords(local + SerializeAll(recs) + EndRecord(|recs|, size, |local|),
                        |local| + size, recs, Bounds(|recs|, |local|, size));
  }

  lemma DescribedHasRecords(file: Bytes, k: nat, recs: seq<Record>, b: Bounds)
    requires Describes(file, k, recs, b)
    ensures HasRecords(file, |recs|)
  {}

  lemma AdmissibleCount(recs: seq<Record>)
    requires Admissible(recs)
    ensures |recs| <= MAX_ENTRIES < U16_MAX
  {}

  lemma MiddlePart(a: Bytes, b: Bytes, c: Bytes)
    ensures (a + b + c)[|a|..|a| + |b|] == b
  {}

  /** A described directory has room for its records, so the loop runs at most
      a 47th of the directory's length. */
  lemma DescribedHasRoom(file: Bytes, k: nat, recs: seq<Record>, b: Bounds)
    requires Describes(file, k, recs, b)
    ensures 47 * b.entryCount <= b.size && b.offset + b.size + EOCD_LEN <= |file|
  {
    RecordsTakeSpace(recs);
  }

  // ---- what a described archive is, byte by byte ----

  /** The end record of a described archive: one disk, the same count twice, and
      where the directory is, all little-endian. */
  lemma DescribedEndRecord(file: Bytes, k: nat, recs: seq<Record>, b: Bounds)
    requires Describes(file, k, recs, b)
    ensures k + 22 <= |file|
    ensures file[k..k + 8] == [0x50, 0x4B, 5, 6, 0, 0, 0, 0]
    ensures |recs| == file[k + 8] as int + 256 * (file[k + 9] as int) == file[k + 10] as int + 256 * (file[k + 11] as int)
    ensures k + 22 + file[k + 20] as int + 256 * (file[k + 21] as int) == |file|
    ensures |recs| <= 50_000 && b.size <= 33_554_432
    ensures b.size == file[k + 12] as int + 256 * (file[k + 13] as int + 256 * (file[k + 14] as int + 256 * (file[k + 15] as int)))
    ensures b.offset == file[k + 16] as int + 256 * (file[k + 17] as int + 256 * (file[k + 18] as int + 256 * (file[k + 19] as int)))
    ensures b.offset + b.size == k
  {
    EightBytes(file, k);
    FourBytes(file, k + 12);
    FourBytes(file, k + 16);
    AdmissibleCount(recs);
  }

  lemma EightBytes(file: Bytes, k: nat)
    requires k + 8 <= |file| && file[k..k + 4] == EOCD_SIGNATURE && U16(file, k + 4) == 0 && U16(file, k + 6) == 0
    ensures file[k..k + 8] == [0x50, 0x4B, 5, 6, 0, 0, 0, 0]
  {
    assert file[k..k + 8] == file[k..k + 4] + [file[k + 4], file[k + 5], file[k + 6], file[k + 7]];
  }

  lemma FourBytes(s: Bytes, i: nat)
    requires i + 4 <= |s|
    ensures U32(s, i) == s[i] as int + 256 * (s[i + 1] as int + 256 * (s[i + 2] as int + 256 * (s[i + 3] as int)))
  {}

  /** Every record of a described archive: its signature, the lengths of its
      fields, no ZIP64 value, the first disk, and a size and a name within bounds. */
  lemma DescribedRecord(file: Bytes, k: nat, recs: seq<Record>, b: Bounds, i: nat)
    requires Describes(file, k, recs, b) && i < |recs|
    ensures var r, h := recs[i], recs[i].header;
            && |h| == 46 && h[..4] == [0x50, 0x4B, 1, 2]
            && |r.name| == h[28] as int + 256 * (h[29] as int)
            && |r.extra| == h[30] as int + 256 * (h[31] as int)
            && |r.comment| == h[32] as int + 256 * (h[33] as int)
            && h[20..24] != [255, 255, 255, 255] && h[24..28] != [255, 255, 255, 255] && h[42..46] != [255, 255, 255, 255]
            && h[34..36] == [0, 0]
            && h[24] as int + 256 * (h[25] as int + 256 * (h[26] as int + 256 * (h[27] as int))) <= 67_108_864
    ensures var r := recs[i];
            && 0 < |r.name| <= 4096 && |r.name| + |r.extra| + |r.comment| <= 65_536
            && Utf8.Valid(r.name) && [46, 46] !in Split(r.name, 47)
  {
    assert recs[i].WellFormed() && RecordAllowed(recs[i]);
    assert DeclaredSizes(recs)[i] <= MAX_ENTRY_BYTES;
    RecordBytes(recs[i]);
    RecordName(recs[i]);
  }

  lemma RecordName(r: Record)
    requires r.WellFormed() && RecordAllowed(r)
    ensures 0 < |r.name| <= 4096 && |r.name| + |r.extra| + |r.comment| <= 65_536
    ensures Utf8.Valid(r.name) && [46, 46] !in Split(r.name, 47)
  {
    MemberPathExact(r.name, MemberPath(r.name).value);
  }

  lemma RecordBytes(r: Record)
    requires r.WellFormed() && RecordAllowed(r) && r.Uncompressed() <= MAX_ENTRY_BYTES
    ensures var h := r.header;
            && |h| == 46 && h[..4] == [0x50, 0x4B, 1, 2]
            && |r.name| == h[28] as int + 256 * (h[29] as int)
            && |r.extra| == h[30] as int + 256 * (h[31] as int)
            && |r.comment| == h[32] as int + 256 * (h[33] as int)
            && h[20..24] != [255, 255, 255, 255] && h[24..28] != [255, 255, 255, 255] && h[42..46] != [255, 255, 255, 255]
            && h[34..36] == [0, 0]
            && h[24] as int + 256 * (h[25] as int + 256 * (h[26] as int + 256 * (h[27] as int))) <= 67_108_864
  {
    var h := r.header;
    LargestValue(h, 20);
    LargestValue(h, 24);
    LargestValue(h, 42);
    FourBytes(h, 24);
    ZeroField(h, 34);
  }

  lemma ZeroField(h: Bytes, i: nat)
    requires i + 2 <= |h| && U16(h, i) == 0
    ensures h[i..i + 2] == [0, 0]
  {
    assert h[i..i + 2] == [h[i], h[i + 1]];
  }

  lemma LargestValue(h: Bytes, i: nat)
    requires i + 4 <= |h|
    ensures U32(h, i) == U32_MAX <==> h[i..i + 4] == [255, 255, 255, 255]
  {
    assert h[i..i + 4] == [h[i], h[i + 1], h[i + 2], h[i + 3]];
  }
}
