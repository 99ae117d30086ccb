# Release tooling of depgraph-cli, modelled and proved

`xtask` is the release and verification tool of depgraph-cli. It packs a directory tree into a release
archive, extracts archives under strict bounds, scans ZIP directories, computes the runtime package
inventory, digests trees and graphs, talks to the packaged server over stdio, and checks ledgers of
evidence. This project models that logic in Dafny and proves what it is for.

| file | what it holds |
|---|---|
| `Bytes.dfy`, `Sorting.dfy`, `Totals.dfy`, `Division.dfy`, `Utf8.dfy` | byte strings and their order, the stable sort and when it forgets the input order, sums over maps, division, well-formed UTF-8 and the scalar values it encodes |
| `Paths.dfy`, `FileTree.dfy`, `ModeBits.dfy`, `Budget.dfy` | member names and paths, the extraction destination, what the file modes mean bit by bit, the byte and entry budget |
| `ArchiveWriter.dfy`, `TarExtract.dfy`, `RoundTrip.dfy` | listing a tree, writing it, one-pass TAR extraction, the round trips |
| `ZipScan.dfy`, `ZipExtract.dfy`, `ZipWriter.dfy`, `PackExtract.dfy` | the central-directory scan, ZIP extraction, the bytes of a written ZIP, compiler-pack extraction |
| `RuntimeClosure.dfy` | the runtime dependency inventory |
| `Digests.dfy`, `WalkOrder.dfy` | the framings of the tree digest and the asset-set digest, and which directory walks the tree digest can tell apart |
| `Json.dfy`, `JsonText.dfy`, `Provenance.dfy` | JSON values with member order, their text, provenance stripping |
| `CanonicalGraph.dfy`, `GraphFields.dfy`, `GraphValues.dfy`, `AbsentFields.dfy` | the canonical graph compared as text, its fields by name, compared as value, and a dropped field against an absent one |
| `Session.dfy` | the stdio session as interleaved steps |
| `PackageUrl.dfy`, `FullCi.dfy`, `Boundaries.dfy`, `Escapes.dfy`, `ShellCommand.dfy` | package URLs, CI admission, the boundary ledger, DOT and Mermaid escapes, the documented command |

How the program's form is kept: the budget is a class whose method updates its fields; every loop is a
method with a loop, proved against a specification that speaks about the whole input (a list of members
is well ordered and fits the budget, a set is exactly what is reachable, bytes are tiled by records),
not about the loop. The reader thread and its client are a state machine over which runs are quantified.
What a method and its specification share (which names are refused, which edges count, which fields are
dropped, which bytes are written) is stated a second time without those functions, with the names, bytes and
limits written out.

Where a promise does not hold of the code, the code is kept and the exact condition is proved:

- The tree digest sorts by a relative path in which backslashes became slashes. Two names can then
  collide, the stable sort keeps their walk order, and the digest depends on it. For every directory tree,
  it is the same in all orders in which the directories can be read if and only if no two different entries
  share a relative path (`WalkOrder.WalkIndependence`, counterexample `WalkOrder.BackslashCollision`).
- `serde_json` is built with `preserve_order` (Cargo.toml:58), so an object remembers member order, `remove`
  is a swap-remove, equality ignores the order and the text does not. What is compared between checkouts is
  a digest of the canonical text (xtask/src/compiler_pack_release.rs:1062, 1662), so exactness is proved for
  text. Two things follow.
  - Equal values with another member order get different texts (`CanonicalGraph.MemberOrderShows`), and since
    edges are ordered by text they can even move (`CanonicalGraph.MemberOrderMovesEdges`). Comparing values is
    exact for profiles and nodes in whatever order they list their members, exactly when IDs determine values
    (`GraphValues.ValueIdConditionIsExact`), and for edges when equal edges are printed alike
    (`GraphValues.CanonicalValueExact`).
  - A dropped field is not always like an absent one: the swap-remove moves the last member. For every field
    dropped it is stated exactly when the two agree, by how many members follow the field
    (`AbsentFields.LocatorExact`, `AbsentFields.PropertyExact`, `AbsentFields.EdgeFieldExact`, counterexample
    `AbsentFields.MissingFieldShows`).
- Mermaid escaping merges newlines with spaces and nothing else (`Escapes.MermaidExact`).

Shipping through ZIP has more limits than the entry budget: the scan also bounds the central directory to
32 MiB, the local part and each entry's metadata, and `RoundTrip.ShipThroughZip` states exactly all of them.

Package URLs can be read back exactly when the ecosystem has no slash (`PackageUrl.UrlRoundTrip`); the three
ecosystems in use have none, so in the inventories URLs identify packages without any condition
(`PackageUrl.UrlsIdentifyPackages`).

## Model

| member | source | states |
|---|---|---|
| Paths.NormalizeMemberName | xtask/src/main.rs:2424-2456 | the component loop returns the normalized path or refuses; an accepted path is clean and is a fixed point of normalization |
| Paths.MemberPathExact | xtask/src/main.rs:2424-2456 | exactly which names are accepted and as what, over the parts between slashes: 1 to 4096 bytes, no NUL, no backslash, not absolute, no `..` part, no leading `.`, and then the nonempty list of parts other than the empty one and `.` |
| Paths.MemberPathIsClean | xtask/src/main.rs:2424-2456 | an accepted name gives a path with no empty, `.`, `..`, NUL or backslash component, never longer than the name |
| Paths.MemberPathOfText | xtask/src/main.rs:2424-2456 | the text of a clean path names that path exactly when it has at most 4096 bytes |
| Paths.ParentSortsFirst | xtask/src/main.rs:2290 | byte order puts a directory strictly before everything below it |
| Budget.ReleaseArchiveBudget.Account | xtask/src/main.rs:2392-2421 | accepts exactly when the extended history fits the three limits; the two overflow branches are never taken; the new counters on every outcome |
| Budget.FitsAnyOrder | xtask/src/main.rs:2392-2421 | whether a sequence of sizes is within budget does not depend on its order |
| FileTree.CopyExact | xtask/src/main.rs:2497-2520 | succeeds exactly when the data has the declared size, and says what was written either way |
| FileTree.AncestorsAreDirs | xtask/src/main.rs:2458-2472 | in the tree every extractor builds, every proper ancestor of a path is a directory |
| FileTree.WellOrderedBuildsTree | xtask/src/main.rs:2458-2472 | creating a well-ordered list yields a tree holding exactly the listed paths and directories |
| FileTree.HoldsStep | xtask/src/main.rs:2458-2472 | the duplicate and parent checks pass exactly when the list stays well ordered, and then the creation cannot be refused |
| FileTree.HoldsIsTree | xtask/src/main.rs:2752-2901 | during every extraction the written paths are exactly `seen`, the written directories exactly `directories`, and the destination is a tree |
| ModeBits.ModeBits | xtask/src/main.rs:2474-2495 | a file keeps its nine permission bits, a directory the six lower ones and all of the owner's; executable means one of the three execute bits |
| ModeBits.RegularTypeBits | xtask/src/main.rs:2784-2789 | which type bits a ZIP file member may have |
| ModeBits.KnownTypeBits | xtask/src/compiler_pack_release.rs:1884-1889 | which type bits a pack entry may have |
| Utf8.ValidExactly | xtask/src/main.rs:2712-2713 | the accepted byte strings are exactly the encodings of lists of Unicode scalar values |
| TarExtract.ReadLongName | xtask/src/main.rs:2819-2843 | a long-name record yields a path exactly when it is well formed and within budget |
| TarExtract.Place | xtask/src/main.rs:2860-2901 | one entry is written exactly when the members so far stay well ordered and sound and the budget holds; the destination stays a tree on every outcome |
| TarExtract.ExtractTar | xtask/src/main.rs:2808-2908 | the one-pass loop accepts exactly the streams the two-phase specification accepts; then the tree holds every member as the directory or file it said it was, with its bytes and mode, and nothing else; on failure too the destination is a tree and no create was refused |
| TarExtract.AcceptedRecord | xtask/src/main.rs:2815-2907 | every record of an accepted stream is a well-formed long name, a directory without payload or a file of its declared size, and whatever names an entry has no `..` part |
| TarExtract.LongNamesAreAttached | xtask/src/main.rs:2815-2907 | in an accepted stream every long name is directly followed by the plain entry it names: none is doubled, orphaned or misplaced |
| TarExtract.RecordsAreAccountedFor | xtask/src/main.rs:2815-2907 | members plus long names are all the records |
| ArchiveWriter.EntryPath | xtask/src/main.rs:2258-2281 | the path built component by component is the slash-joined text of root and relative path |
| ArchiveWriter.ArchiveEntries | xtask/src/main.rs:2229-2301 | the listing is the sorted permutation of the walk's entries with the root directory first, or refused |
| ArchiveWriter.SortedIsWellOrdered | xtask/src/main.rs:2290 | a sorted list of a tree's nodes has every directory before what it contains |
| ArchiveWriter.NormalNodeKeeps | xtask/src/main.rs:2278-2283 | normalizing a node keeps its content and its executable bit; directories and executables get 0o755, other files 0o644 |
| ArchiveWriter.ListingIsExact | xtask/src/main.rs:2229-2301 | a walk of a tree on disk is listed if and only if the tree has files and directories only, clean UTF-8 names, and a directory at its root |
| RoundTrip.CreateTarArchive | xtask/src/main.rs:2324-2354 | the writer loop emits every entry's records in order, with a long-name record for paths over 100 bytes |
| RoundTrip.TarRoundTrip | xtask/src/main.rs:2229-2908 | for every release tree, walk order and header shortening: the written stream is accepted if and only if the paths of the tree fit 4096 bytes and the tree fits the budget, a node with a path over 100 bytes counting as two records; then it gives the tree with normalized modes |
| RoundTrip.StreamFits | xtask/src/main.rs:2324-2354 | whether the records fit the budget depends on the tree only, neither on the walk nor on how header names are shortened |
| RoundTrip.ShipThroughTar | xtask/src/main.rs:2212-2922 | listing, writing and extracting composed, with the 1 GiB bound on the archive file: succeeds under exactly those limits and returns the normalized tree |
| ZipWriter.CreateZipArchive | xtask/src/main.rs:2356-2376 | the writer loop emits the chunks, one central record per entry with its offset, and the end record, fields clamped where a number does not fit |
| ZipWriter.DescribedAsWritten | xtask/src/main.rs:2555-2738 | whatever describes a written file to the scan is the list of records written, and neither directory nor local part is oversized |
| ZipWriter.ScanAcceptsWritten | xtask/src/main.rs:2555-2738 | for entries the extractor would accept, the scan accepts the written file if and only if directory, local part and metadata are within bounds |
| ZipWriter.CentralSize | xtask/src/main.rs:2642-2727 | the central directory has 46 bytes per entry plus its names and extra fields |
| RoundTrip.ZipRoundTrip | xtask/src/main.rs:2356-2806 | through the written bytes and their scan, for every release tree, walk order and packing: scanned and accepted if and only if names (a directory's one byte longer), contents, node count, central directory (32 MiB), local part (2^32 - 1) and metadata are within bounds; then the entries are the tree with normalized modes |
| RoundTrip.ShipThroughZip | xtask/src/main.rs:2212-2922 | listing, writing and extracting composed, with the 1 GiB bound on the archive file: succeeds under exactly the limits read off the tree and the packing, and returns the normalized tree |
| RoundTrip.ListingIsCanonical | xtask/src/main.rs:2229-2301 | the listing depends neither on walk order nor on mode bits other than the executable ones |
| RoundTrip.RepackagingFixedPoint | xtask/src/main.rs:2229-2301 | listing what was extracted gives the list the archive was made from |
| ZipScan.FindEocd | xtask/src/main.rs:2565-2586 | searching only the comment-sized tail finds the last end record of the whole file |
| ZipScan.CheckRecord | xtask/src/main.rs:2652-2727 | one record passes exactly when the list extended by it is admissible |
| ZipScan.ScanRecord | xtask/src/main.rs:2642-2727 | one pass consumes at least 47 bytes and takes the next record of the grammar, or no continuation is admissible |
| ZipScan.ScanRecords | xtask/src/main.rs:2642-2732 | the loop accepts exactly the byte strings that parse into an admissible record list, and counts it |
| ZipScan.InspectCentralDirectory | xtask/src/main.rs:2555-2738 | sound and complete: accepted with bounds b if and only if b and some admissible record list describe the file |
| ZipScan.SerializedArchiveIsDescribed | xtask/src/main.rs:2555-2738 | any local part, any admissible records and a comment-less end record form a described file with exactly those numbers |
| ZipScan.DescribedEndRecord | xtask/src/main.rs:2588-2632 | the end record of an accepted file, byte by byte: one disk, count, size and offset little-endian and within bounds |
| ZipScan.DescribedRecord | xtask/src/main.rs:2652-2713 | every record of an accepted file, byte by byte: signature, field lengths, no ZIP64 value, first disk, sizes and name within bounds, no `..` part |
| ZipScan.DescribedHasRoom | xtask/src/main.rs:2642-2650 | a described directory has at least 47 bytes per entry and lies before the end record |
| ZipExtract.ExtractEntries | xtask/src/main.rs:2751-2802 | accepts exactly the sound, well-ordered entry lists within budget; then the tree holds every entry as what it said it was and nothing else; always leaves a tree |
| ZipExtract.AcceptedEntry | xtask/src/main.rs:2751-2802 | every accepted entry is enclosed, no link, of its declared size and type, and its name has no `..` part |
| ZipExtract.ExtractZip | xtask/src/main.rs:2740-2806 | succeeds if and only if the scan describes the file with as many records as entries and the entries are accepted; no budget refusal when the reported sizes are those the scan admitted |
| PackExtract.PackPathExact | xtask/src/compiler_pack_release.rs:1943-1961 | exactly which paths are accepted and as what: not absolute, no `..` part, no leading `.`, and the nonempty list of parts other than the empty one and `.`, all UTF-8 without backslashes |
| PackExtract.Raise | xtask/src/compiler_pack_release.rs:1836-1848 | the three counters pass exactly when the whole list so far is within the pack bounds |
| PackExtract.ExtractTar | xtask/src/compiler_pack_release.rs:1817-1861 | accepts exactly the sound, well-ordered, bounded packs; then the tree holds for every entry what the library unpacked, and nothing else; always leaves a tree |
| PackExtract.AcceptedTarEntry | xtask/src/compiler_pack_release.rs:1828-1847 | accepted entries are files and directories without payload, and no path has a `..` part |
| PackExtract.TarBoundsExact | xtask/src/compiler_pack_release.rs:1834-1848 | the bounds are on the number of files, the number of directories and the sum of the file sizes |
| PackExtract.ExtractZip | xtask/src/compiler_pack_release.rs:1863-1931 | the same for ZIP packs, where the tree holds a directory or a file with all the entry's bytes and the nine permission bits reported; the up-front entry-count bound refuses nothing more |
| PackExtract.AcceptedZipEntry | xtask/src/compiler_pack_release.rs:1876-1928 | accepted entries have a mode and a known type, their declared size, no backslash in the name and no `..` part in the path |
| PackExtract.ZipBoundsExact | xtask/src/compiler_pack_release.rs:1893-1913 | the bounds of a ZIP pack, over its entries |
| RuntimeClosure.PushDependencies | xtask/src/sbom.rs:1136-1147 | the inner loop appends exactly the targets of the runtime dependencies, or meets one without a package ID |
| RuntimeClosure.Traverse | xtask/src/sbom.rs:1117-1149 | terminates with exactly the IDs reachable along runtime edges, and fails if and only if a reachable ID cannot be expanded |
| RuntimeClosure.CargoRuntimePackages | xtask/src/sbom.rs:1077-1170 | the inventory is the non-local packages among the reachable IDs, ascending by ID, and fails exactly when the metadata or a reachable node is incomplete |
| RuntimeClosure.RuntimeEdgeIsFollowed | xtask/src/sbom.rs:1136-1146 | a dependency of a reachable node other than the hack crate is reachable when its kind list is absent, empty or has a null kind |
| RuntimeClosure.ReachableExactly | xtask/src/sbom.rs:1117-1149 | what is reachable is a root or such a dependency of something reachable |
| RuntimeClosure.ReachableIsLeast | xtask/src/sbom.rs:1117-1149 | and any set with the roots that follows such dependencies contains all of it |
| RuntimeClosure.ResolvedExactly | xtask/src/sbom.rs:1127-1146 | when a node can be expanded: it is the hack crate, or it is in the graph and all its runtime dependencies have a package ID |
| RuntimeClosure.HackIsExactly | xtask/src/sbom.rs:1201-1210 | which package is the hack crate |
| RuntimeClosure.GraphIsRead | xtask/src/sbom.rs:1077-1116 | the graph is read exactly when the lists are there and each of the four shipped executables has exactly one local package; these are the roots |
| RuntimeClosure.LastPackageCounts | xtask/src/sbom.rs:1084-1087 | for a repeated ID the last package counts |
| RuntimeClosure.InventoryLists | xtask/src/sbom.rs:1151-1169 | a package is listed exactly when it stands for a reachable package that is not local, with its name, version and license or what stands in for them |
| RuntimeClosure.Noninterference | xtask/src/sbom.rs:1117-1149 | changes to the hack crate's dependencies and to non-runtime edges leave the result unchanged, failures included |
| RuntimeClosure.NonRuntimeEdgeIsInvisible | xtask/src/sbom.rs:1136-1141 | inserting a dependency whose kind list is nonempty and has no null kind changes nothing, wherever it is inserted |
| RuntimeClosure.HackDependenciesAreInvisible | xtask/src/sbom.rs:1122-1133 | replacing the hack crate's dependency list changes nothing |
| RuntimeClosure.ImpostorIsTraversed | xtask/src/sbom.rs:1201-1210 | a reachable package that shares the hack crate's name, but is not local, not a member or has another manifest path, is expanded |
| Digests.HashFile | xtask/src/util.rs:205-230 | the read loop feeds the concatenation of the chunks, whatever their sizes, and succeeds exactly when it has the declared length |
| Digests.HashTree | xtask/src/util.rs:159-235 | succeeds exactly on walks of readable files and directories with at least one file, and hashes the header and the sorted frames |
| Digests.PreimageInjective | xtask/src/util.rs:190-233 | equal hashed bytes if and only if the same sorted list of kind, path and content |
| Digests.FrameBytes | xtask/src/util.rs:194-226 | where every byte of a frame comes from: `f` or `d`, both lengths as eight big-endian bytes, path and content |
| Digests.PreimageBytes | xtask/src/util.rs:190-233 | the hashed bytes are the version line, a zero byte and the frames, ascending by relative path |
| Digests.RelativeBytes | xtask/src/util.rs:108-113 | the relative path is the slash-joined text with backslashes turned into slashes |
| Digests.OrderIndependence | xtask/src/util.rs:108-113 | the hashed bytes are independent of the order of the entries if and only if no two different ones share a relative path |
| Digests.CleanPathsAreOrderIndependent | xtask/src/util.rs:159-190 | a tree without backslashes in its names hashes the same in every walk order |
| WalkOrder.WalkIndependence | xtask/src/util.rs:159-190 | for every directory tree, all depth-first walks hash the same bytes if and only if no two different entries share a relative path |
| WalkOrder.BackslashCollision | xtask/src/util.rs:108-113 | a directory `a` with a file `b` beside a file `a\b`: its two walks hash differently |
| Digests.HashAssets | xtask/src/main.rs:3855-3866 | the loop hashes the concatenated asset frames |
| Digests.AssetFramesInjective | xtask/src/main.rs:3855-3866 | the asset list is determined by the hashed bytes, for NUL-free names and newline-free digests |
| Json.SameValueIffAgree | xtask/src/compiler_pack_release.rs:1384 | value equality holds if and only if both values show the same at every path |
| Provenance.RemoveExecutionProvenance | xtask/src/compiler_pack_release.rs:1387-1413 | the recursion computes the value without the dropped keys at every depth |
| Provenance.StripShapes | xtask/src/compiler_pack_release.rs:1387-1413 | stripping hides exactly the paths through a dropped key and changes nothing else |
| Provenance.VisibleExactly | xtask/src/compiler_pack_release.rs:1387-1400 | the dropped keys are exactly `build_run_id`, `run_id`, `source_attempt_id`, `build_attempt_id`, `created_at`, `started_at`, `finished_at` and `duration_millis` |
| Provenance.StripIdempotent | xtask/src/compiler_pack_release.rs:1387-1413 | stripping twice is stripping once, member order included |
| Provenance.ExecutionProvenanceEquivalent | xtask/src/compiler_pack_release.rs:1379-1385 | true if and only if the values agree at every path through none of the eight keys |
| Provenance.EquivalenceRelation | xtask/src/compiler_pack_release.rs:1379-1385 | the comparison is reflexive, symmetric and transitive |
| JsonText.RenderInjective | xtask/src/compiler_pack_release.rs:1719 | the compact text determines the value, member order included |
| JsonText.TextOf | xtask/src/compiler_pack_release.rs:1719 | the compact text of every kind of value, as joined items and members in their brackets |
| JsonText.EscapeReadsBack | xtask/src/compiler_pack_release.rs:1719 | reading a string body by the grammar of JSON undoes its escaping |
| CanonicalGraph.CanonicalCheckoutGraph | xtask/src/compiler_pack_release.rs:1676-1725 | the strip loops and sorts compute the canonical graph, or stop where an item has the wrong shape |
| GraphFields.NodeKeeps | xtask/src/compiler_pack_release.rs:1692-1705 | a stripped node lacks `locator` and, among its properties, `build_provenance` and `mir_unit_digest`; every other key keeps its value |
| GraphFields.ProfileKeeps | xtask/src/compiler_pack_release.rs:1681-1687 | a stripped profile lacks, among its properties, `invocation_ledger_digest` and `mir_ledger_digest`; every other key keeps its value |
| GraphFields.EdgeKeeps | xtask/src/compiler_pack_release.rs:1712-1718 | a stripped edge lacks `id` and `site_id`; every other key keeps its value |
| GraphFields.StripFails | xtask/src/compiler_pack_release.rs:1681-1718 | which items stop the canonicalization |
| GraphFields.SectionsAreRead | xtask/src/compiler_pack_release.rs:1677-1711 | the three parts are read from `profiles`, `nodes` and `edges` |
| GraphFields.CanonicalIsSorted | xtask/src/compiler_pack_release.rs:1688-1724 | the canonical graph holds the stripped profiles and nodes ascending by ID, those without one first, and the stripped edges ascending by text, under their names |
| GraphFields.LocatorIsInvisible | xtask/src/compiler_pack_release.rs:1697 | another locator in a node changes nothing |
| GraphFields.NodePropertyIsInvisible | xtask/src/compiler_pack_release.rs:1703-1704 | neither does another build provenance or MIR unit digest |
| GraphFields.ProfilePropertyIsInvisible | xtask/src/compiler_pack_release.rs:1685-1686 | nor another ledger digest in a profile |
| GraphFields.EdgeIdIsInvisible | xtask/src/compiler_pack_release.rs:1716-1717 | nor another ID or site ID in an edge |
| CanonicalGraph.CanonicalTextExact | xtask/src/compiler_pack_release.rs:1658-1725 | when IDs determine profiles and nodes, canonical texts are equal if and only if the stripped profiles, nodes and edges are the same multisets |
| CanonicalGraph.UniqueIdsTextExact | xtask/src/compiler_pack_release.rs:1658-1725 | in particular when the IDs of profiles and nodes are unique |
| CanonicalGraph.StripKeepsTheRest | xtask/src/compiler_pack_release.rs:1681-1706 | a stripped profile or node lacks exactly the named fields and keeps the value of every other field |
| CanonicalGraph.IdConditionIsExact | xtask/src/compiler_pack_release.rs:1688 | sorting by ID forgets the input order if and only if equal IDs mean equal items |
| GraphValues.CanonicalValueSound | xtask/src/compiler_pack_release.rs:1676-1725 | graphs with equal canonical values have the same profiles, nodes and edges, up to the order of items and of their members; without any condition |
| GraphValues.CanonicalValueExact | xtask/src/compiler_pack_release.rs:1676-1725 | and conversely, when IDs determine the values of profiles and nodes and equal edges list their members alike |
| GraphValues.ValueIdConditionIsExact | xtask/src/compiler_pack_release.rs:1688 | sorting by ID forgets the order of items and of members, up to value equality, if and only if equal IDs mean equal values |
| CanonicalGraph.RewriteIsInvisible | xtask/src/compiler_pack_release.rs:1681-1706 | other values in the provenance fields of a profile or node change nothing |
| CanonicalGraph.EdgeRewriteIsInvisible | xtask/src/compiler_pack_release.rs:1712-1718 | other values in an edge's ID fields change nothing |
| CanonicalGraph.MemberOrderShows | xtask/src/compiler_pack_release.rs:1662-1664 | equal edges with another member order have different texts |
| CanonicalGraph.MemberOrderMovesEdges | xtask/src/compiler_pack_release.rs:1719 | and can be sorted to another place, so even the values differ |
| AbsentFields.LocatorExact | xtask/src/compiler_pack_release.rs:1697 | a node strips like the same node without its locator if and only if at most one member follows the locator |
| AbsentFields.PropertyExact | xtask/src/compiler_pack_release.rs:1681-1706 | the exact condition for each of the two properties dropped from profiles and from nodes, by how many members follow and where the other one is |
| AbsentFields.EdgeFieldExact | xtask/src/compiler_pack_release.rs:1712-1718 | the same for the two fields dropped from edges |
| AbsentFields.StrippedTextsDiffer | xtask/src/compiler_pack_release.rs:1662-1664 | the texts of two stripped items are equal if and only if the items are, so these conditions hold of texts |
| AbsentFields.MissingFieldShows | xtask/src/compiler_pack_release.rs:1697 | a node whose locator two members follow and the same node without one have different texts |
| Session.InvAlways | xtask/src/mcp_package_smoke.rs:1536-1551 | the conservation, line, answer and end invariants hold in every state of every run |
| Session.SafeAlways | xtask/src/mcp_package_smoke.rs:1536-1650 | captured is always consumed, then channel, then the unsent line; while no request failed the replies are the first lines of the output, each newline-terminated and parsing as a JSON-RPC 2.0 message with the ID of its request |
| Session.ReceivingDecides | xtask/src/mcp_package_smoke.rs:1623-1650 | a received line becomes a reply exactly when it answers the pending request; any other, as one with another ID, fails the session from then on |
| Session.ChannelCheckIsImplied | xtask/src/mcp_package_smoke.rs:1690-1692 | once the buffers are equal the channel is empty |
| Session.FinishMeansExactTranscript | xtask/src/mcp_package_smoke.rs:1652-1695 | if every request and `finish` succeeded, the whole output was one newline-terminated matching reply per request, in order |
| Session.FinishCheckIsExact | xtask/src/mcp_package_smoke.rs:1690-1692 | with all requests answered and the reader done, the buffer comparison holds if and only if the output was that transcript |
| Session.HonestServerIsAccepted | xtask/src/mcp_package_smoke.rs:1623-1695 | for every request list, a server that answers each with one matching line and exits can be finished successfully |
| Session.TranscriptUnique | xtask/src/mcp_package_smoke.rs:1539-1548 | a transcript can be cut into its lines in one way only |
| PackageUrl.EncodeSegment | xtask/src/sbom.rs:711-724 | the output has unreserved bytes and uppercase percent triplets only, and decodes to the input |
| PackageUrl.EncodedByte | xtask/src/sbom.rs:711-724 | which bytes stay and which two digits the others become |
| PackageUrl.CargoUrl | xtask/src/sbom.rs:679-709 | the URL of a crate |
| PackageUrl.GoUrl | xtask/src/sbom.rs:693-699 | the URL of a Go module, path element by path element |
| PackageUrl.NpmUrl | xtask/src/sbom.rs:680-692 | the URL of an npm package without a scope |
| PackageUrl.ScopedNpmUrl | xtask/src/sbom.rs:680-692 | the URL of a scoped npm package: scope and name encoded apart |
| PackageUrl.UrlRoundTrip | xtask/src/sbom.rs:679-709 | the URL parses back to ecosystem, name and version if and only if the ecosystem has no slash |
| PackageUrl.UrlsIdentifyPackages | xtask/src/sbom.rs:679-709 | for `cargo`, `npm` and `golang` two packages share a URL only if they are the same |
| PackageUrl.SlashInEcosystemCollides | xtask/src/sbom.rs:703-708 | why the condition is there: a slash in the ecosystem, which no caller passes, could be the separator of a Go path, so no parser could do better |
| Boundaries.EnterNext | xtask/src/go_semantic_e2e.rs:916-1002 | entering one more record is refused exactly when the longer list has no books, and otherwise yields them |
| Boundaries.EnterRecords | xtask/src/go_semantic_e2e.rs:916-1002 | succeeds if and only if every record is complete, of a known profile and correlated, and no stage reports an occurrence twice; then the books hold how many records each profile owns and which stages report each occurrence |
| Boundaries.BooksHoldEveryRecord | xtask/src/go_semantic_e2e.rs:916-1002 | both books hold exactly as many entries as there are records |
| Boundaries.BooksAnyOrder | xtask/src/go_semantic_e2e.rs:916-1002 | neither whether records can be entered nor the books depend on their order |
| Boundaries.CountPhysical | xtask/src/go_semantic_e2e.rs:1003-1018 | accepts exactly when every occurrence has its expected stages, and then tallies the occurrences of every kind |
| Boundaries.StagesExactly | xtask/src/go_semantic_e2e.rs:890-896 | semantic and typed are expected for the five reflection kinds, syntax for every other |
| Boundaries.LastStageCounts | xtask/src/go_semantic_e2e.rs:900-915 | the stage of a profile ID is that of the last profile with it |
| Boundaries.CloseProfiles | xtask/src/go_semantic_e2e.rs:1023-1044 | accepts if and only if every count belongs to a Go profile and every profile declares the count of its ID where the ID comes first, and zero where it comes again |
| Boundaries.ClosesExactly | xtask/src/go_semantic_e2e.rs:1023-1044 | what a profile must declare: `none` and zero, or `observed` and the count |
| Boundaries.VerifyBoundaries | xtask/src/go_semantic_e2e.rs:897-1045 | accepts if and only if the records can be entered, every reported occurrence has its expected stages, every kind occurs as often as expected, and every profile declares the records it owns |
| Boundaries.AcceptsAnyOrder | xtask/src/go_semantic_e2e.rs:897-1045 | acceptance does not depend on the order of the records |
| Boundaries.BooksBalance | xtask/src/go_semantic_e2e.rs:897-1045 | in an accepted ledger the records equal the declared site counts, the stage counts, and plain plus twice reflection occurrences |
| FullCi.ValidateFullCi | xtask/src/main.rs:3889-3917 | admits a run if and only if its fields match and its jobs are a permutation of the expected names, all successful |
| FullCi.AdmissibleExactly | xtask/src/main.rs:3899-3910 | what an admissible run is, with branch, event, conclusions and URL written out |
| FullCi.EvidenceIgnoresJobOrder | xtask/src/main.rs:3893-3894 | the recorded job list is the same for every input order |
| FullCi.SelectFullCi | xtask/src/main.rs:3868-3878 | succeeds if and only if some candidate is admissible and returns the last admissible one of maximal ID |
| FullCi.JobNamesAscend | xtask/src/main.rs:134-147 | the pinned job names are strictly ascending, without which no run could be admitted |
| Escapes.DotRoundTrip | xtask/src/go_semantic_e2e.rs:1833-1838 | escaping is undone by reading the string body, and leaves no raw newline or unescaped quote |
| Escapes.DotIsSubstitution | xtask/src/go_semantic_e2e.rs:1833-1838 | the three chained replacements are one simultaneous substitution |
| Escapes.MermaidIsSubstitution | xtask/src/go_semantic_e2e.rs:1840-1849 | so are the seven |
| Escapes.MermaidInjective | xtask/src/go_semantic_e2e.rs:1840-1849 | injective on newline-free text, and none of the special characters remains |
| Escapes.MermaidExact | xtask/src/go_semantic_e2e.rs:1840-1849 | two texts escape alike if and only if they are equal with newlines read as spaces |
| Escapes.MermaidReadsBack | xtask/src/go_semantic_e2e.rs:1840-1849 | reading the entities back gives the text with newlines as spaces |
| ShellCommand.DocumentedShellCommand | xtask/src/mcp_package_smoke.rs:325-353 | the parser loop computes executable and arguments, or refuses |
| ShellCommand.ParsedExactly | xtask/src/mcp_package_smoke.rs:325-353 | exactly which texts parse and as what, by their trimmed lines |
| ShellCommand.ExecutableIsSafe | xtask/src/mcp_package_smoke.rs:334-340 | a parsed executable is nonempty and has letters, digits, `.`, `_`, `-` and `/` only |
| ShellCommand.WordsAreRuns | xtask/src/mcp_package_smoke.rs:350 | the arguments of a line are its maximal runs without ASCII white space |
| ShellCommand.TrimExactly | xtask/src/mcp_package_smoke.rs:343 | trimming takes all white space off both ends and nothing else |
| ShellCommand.LinesExactly | xtask/src/mcp_package_smoke.rs:326 | lines end in a line feed, with or without a carriage return; the last need not |
| ShellCommand.RenderCommand | xtask/src/mcp_package_smoke.rs:248-257 | the printer loop emits the executable and two arguments a line, with continuations |
| ShellCommand.PrintedLine | xtask/src/mcp_package_smoke.rs:248-257 | every argument line, byte by byte |
| ShellCommand.CommandRoundTrip | xtask/src/mcp_package_smoke.rs:248-353 | parsing the printed form of a shell-safe executable and a nonempty even list of ASCII words gives them back |

## Left out

- SHA-256, gzip, deflate and the TAR, ZIP and JSON libraries: digests are stated on the hashed bytes, raw entries and decoded values are inputs. The TAR writer is taken to put a path of more than 100 bytes into a GNU long-name record ending in NUL; the ZIP library is taken to report the written names, sizes, modes and data, to clamp numbers that do not fit their fields and to refuse a name of more than 65,535 bytes; how it packs an entry, with which extra fields, is a parameter.
- RoundTrip.ShipThroughTar: the length of the compressed file is a parameter.
- Operating-system failures other than an existing path or a missing parent, time-of-check races between two opens of a file, umask (the mode of a freshly created file is a parameter) and case-insensitive file systems.
- Windows path prefixes: paths follow Unix rules.
- Digests.HashTree: relative paths are those of UTF-8 names; the lossy conversion of other names, a further source of collisions, is not modelled.
- Digests.HashAssets: the digest field is any byte string; that it is hexadecimal matters only as being newline-free.
- JSON numbers are their printed text, so that 0.0 and -0.0 count as different.
- PackExtract.ExtractTar: what the library unpacks is an input, assumed to be a directory exactly for directory entries.
- RuntimeClosure.CargoRuntimePackages: starts from decoded package, node and dependency fields; a missing or non-string field is `None`.
- Boundaries.VerifyBoundaries: the per-record checks on diagnostics and on unresolved sites are one input bit of the record, and the later query and the completeness list are not modelled; the table of expected counts is a parameter.
- FullCi.ValidateFullCi: the expected names are a parameter, required ascending; `FullCi.JobNamesAscend` shows that the pinned names qualify.
- Session: process start, deadlines and exit codes are nondeterministic steps; parsing a reply is an arbitrary function.
- ShellCommand.DocumentedShellCommand: ASCII text only, so Unicode white space outside ASCII is not trimmed.
- Long conjunctions of pinned constants (release gates, SBOM verification, workflow and documentation markers) and the small data-transfer types of the agent contract would only add easy members.
