/** Bounded extraction of a release TAR: the one-pass loop with a pending GNU
    long name, proved against a two-phase specification that first attaches
    each long-name record to the entry after it and then judges the whole list. */
module TarExtract {
  import opened Bytes
  import opened Paths
  import opened FileTree
  import opened Budget
  import Utf8

  datatype Kind = LongName | LongLink | PaxLocal | PaxGlobal | Directory | Regular | OtherKind

  /** One raw header with its payload: `path` and `mode` are the header fields
      (the mode may fail to parse), `data` is all that reading the entry yields. */
  datatype RawEntry = RawEntry(kind: Kind, size: nat, path: Bytes, mode: Option<nat>, data: Bytes)

  datatype Failure =
    | BadLongName | UnsupportedKind | UnsafeName | Duplicate | OverBudget | MissingParent
    | DirectoryPayload | BadMode | SizeMismatch | CreateFailed | OrphanLongName

  datatype Outcome = Done | Failed(failure: Failure)

  const MAX_MEMBER_METADATA_BYTES: nat := 64 * 1024

  // ---- phase one: attach long names ----

  datatype Member = Member(path: Path, entry: RawEntry)

  predicate Plain(e: RawEntry) {
    e.kind.Directory? || e.kind.Regular?
  }

  /** The path a long-name payload gives: NUL-terminated, otherwise NUL-free UTF-8. */
  function LongNamePath(e: RawEntry): (r: Option<Path>) {
    if e.size == 0 || e.size > MAX_MEMBER_METADATA_BYTES || |e.data| != e.size then None
    else if e.data[e.size - 1] != NUL then None
    else
      var name := e.data[..e.size - 1];
      if name == [] || NUL in name || !Utf8.Valid(name) then None else MemberPath(name)
  }

  function HeaderPath(e: RawEntry): (r: Option<Path>) {
    if Utf8.Valid(e.path) then MemberPath(e.path) else None
  }

  /** Every long-name record names the plain entry right after it; a doubled or
      orphaned record, or any other kind of entry, has no meaning. */
  function Attach(raw: seq<RawEntry>): (r: Option<seq<Member>>)
    decreases |raw|
  {
    if raw == [] then Some([])
    else if raw[0].kind.LongName? then
      if |raw| < 2 || !Plain(raw[1]) then None
      else match LongNamePath(raw[0])
        case None => None
        case Some(p) => Prefixed([Member(p, raw[1])], Attach(raw[2..]))
    else if !Plain(raw[0]) then None
    else match HeaderPath(raw[0])
      case None => None
      case Some(p) => Prefixed([Member(p, raw[0])], Attach(raw[1..]))
  }

  // ---- phase two: judge the members as a whole ----

  predicate Sound(m: Member) {
    && m.entry.mode.Some?
    && (if m.entry.kind.Directory? then m.entry.size == 0 else |m.entry.data| == m.entry.size)
  }

  function ItemOf(m: Member): (item: Item) {
    var mode := if m.entry.mode.Some? then m.entry.mode.value else 0;
    Item(m.path, if m.entry.kind.Directory? then Dir(DirMode(mode)) else File(m.entry.data, FileMode(mode)))
  }

  function Items(ms: seq<Member>): (items: seq<Item>)
    ensures |items| == |ms|
  {
    Map(ItemOf, ms)
  }

  function Sizes(raw: seq<RawEntry>): (sizes: seq<nat>)
    ensures |sizes| == |raw|
  {
    Map((e: RawEntry) => e.size, raw)
  }

  ghost predicate GoodMembers(ms: seq<Member>) {
    (forall i :: 0 <= i < |ms| ==> Sound(ms[i])) && WellOrdered(Items(ms))
  }

  /** The archives extraction accepts. Long-name records count against the budget. */
  ghost predicate Accepts(raw: seq<RawEntry>) {
    Attach(raw).Some? && GoodMembers(Attach(raw).value) && Fits(Sizes(raw))
  }

  // ---- the one-pass loop ----

  /** What remains to attach when `pending` is waiting for its entry. */
  ghost function AttachPending(pending: Option<Path>, raw: seq<RawEntry>): Option<seq<Member>> {
    match pending
    case None => Attach(raw)
    case Some(p) =>
      if raw == [] || !Plain(raw[0]) then None
      else Prefixed([Member(p, raw[0])], Attach(raw[1..]))
  }

  lemma GoodSnoc(done: seq<Member>, m: Member)
    requires GoodMembers(done) && CleanPath(m.path)
    ensures GoodMembers(done + [m]) <==>
            Sound(m) && m.path !in PathsOf(Items(done))
            && (|m.path| > 1 ==> Parent(m.path) in DirsOf(Items(done)))
    ensures Items(done + [m]) == Items(done) + [ItemOf(m)]
  {
    MapAppend(ItemOf, done, [m]);
    assert Items(done + [m]) == Items(done) + [ItemOf(m)];
    WellOrderedSnoc(Items(done), ItemOf(m));
    assert (done + [m])[|done|] == m;
    assert forall i :: 0 <= i < |done| ==> (done + [m])[i] == done[i];
  }

  /** A member that spoils a prefix spoils the archive. */
  lemma BadPrefix(raw: seq<RawEntry>, done: seq<Member>, rest: Option<seq<Member>>)
    requires Attach(raw) == Prefixed(done, rest)
    requires !GoodMembers(done)
    ensures !Accepts(raw)
  {
    if Accepts(raw) {
      var all := done + rest.value;
      assert forall i :: 0 <= i < |done| ==> all[i] == done[i];
      MapAppend(ItemOf, done, rest.value);
      WellOrderedPrefix(Items(done), Items(rest.value));
    }
  }

  lemma OverBudgetPrefix(raw: seq<RawEntry>, n: nat)
    requires n < |raw|
    ensures Sizes(raw[..n + 1]) == Sizes(raw[..n]) + [raw[n].size]
    ensures Accepts(raw) ==> Fits(Sizes(raw[..n + 1]))
  {
    assert raw[..n + 1] == raw[..n] + [raw[n]];
    if Accepts(raw) {
      FitsPrefix(Sizes(raw), n + 1);
      assert Sizes(raw)[..n + 1] == Sizes(raw[..n + 1]);
    }
  }

  lemma PathsAreClean(e: RawEntry)
    ensures LongNamePath(e).Some? ==> CleanPath(LongNamePath(e).value)
    ensures HeaderPath(e).Some? ==> CleanPath(HeaderPath(e).value)
  {
    if LongNamePath(e).Some? {
      MemberPathIsClean(e.data[..e.size - 1]);
    }
    if HeaderPath(e).Some? {
      MemberPathIsClean(e.path);
    }
  }

  /** Reading one long-name record: its path, or the reason to stop. */
  method ReadLongName(e: RawEntry, budget: ReleaseArchiveBudget) returns (r: Option<Path>, failure: Failure)
    requires e.kind.LongName? && budget.Valid()
    modifies budget
    ensures r.Some? <==> LongNamePath(e).Some? && Fits(old(budget.history) + [e.size])
    ensures r.Some? ==> r == LongNamePath(e) && budget.Valid() && budget.history == old(budget.history) + [e.size]
    ensures !failure.CreateFailed?
  {
    r, failure := None, BadLongName;
    if e.size == 0 || e.size > MAX_MEMBER_METADATA_BYTES {
      return;
    }
    var verdict := budget.Account(e.size);
    if !verdict.Accepted? {
      return None, OverBudget;
    }
    var bytes := e.data;
    if |bytes| != e.size || bytes[|bytes| - 1] != NUL {
      return;
    }
    bytes := bytes[..|bytes| - 1];
    if bytes == [] || NUL in bytes || !Utf8.Valid(bytes) {
      return;
    }
    r := NormalizeMemberName(bytes);
  }

  /** Creating the node of one checked member. A failed copy leaves the created file behind. */
  method Write(m: Member, createdMode: nat, tree: Tree) returns (failure: Option<Failure>, tree': Tree)
    requires IsTree(tree) && CleanPath(m.path) && m.path !in tree && ParentIsDir(tree, m.path)
    requires m.entry.mode.Some?
    ensures failure.None? <==> m.entry.kind.Directory? || |m.entry.data| == m.entry.size
    ensures failure.None? ==> tree' == tree[m.path := ItemOf(m).node]
    ensures IsTree(tree')
    ensures failure != Some(CreateFailed)
  {
    var mode := m.entry.mode.value;
    if m.entry.kind.Directory? {
      var created := Create(tree, m.path, Dir(DirMode(mode)));
      if created.None? {
        return Some(CreateFailed), tree;
      }
      return None, created.value;
    }
    var written, exact := CopyExact(m.entry.data, m.entry.size);
    var created := Create(tree, m.path, File(written, createdMode));
    if created.None? {
      return Some(CreateFailed), tree;
    }
    if !exact {
      return Some(SizeMismatch), created.value;
    }
    assert written == m.entry.data;
    tree' := created.value[m.path := File(written, FileMode(mode))];
    assert tree' == tree[m.path := File(written, FileMode(mode))];
    return None, tree';
  }

  /** One plain entry: duplicate, budget, parent, payload and mode checks, then the write. */
  method Place(m: Member, createdMode: nat, budget: ReleaseArchiveBudget,
               seen: set<Path>, directories: set<Path>, tree: Tree, ghost done: seq<Member>)
    returns (failure: Option<Failure>, seen': set<Path>, directories': set<Path>, tree': Tree)
    requires Plain(m.entry) && CleanPath(m.path)
    requires budget.Valid() && GoodMembers(done) && Holds(Items(done), seen, directories, tree)
    modifies budget
    ensures failure.None? <==> GoodMembers(done + [m]) && Fits(old(budget.history) + [m.entry.size])
    ensures failure.None? ==> Holds(Items(done + [m]), seen', directories', tree')
    ensures failure.None? ==> budget.Valid() && budget.history == old(budget.history) + [m.entry.size]
    ensures IsTree(tree')
    ensures failure != Some(CreateFailed)
  {
    var entry, relative := m.entry, m.path;
    GoodSnoc(done, m);
    HoldsIsTree(Items(done), seen, directories, tree);
    if GoodMembers(done + [m]) {
      HoldsSnoc(Items(done), ItemOf(m), seen, directories, tree);
    }
    failure, seen', directories', tree' := None, seen, directories, tree;
    if relative in seen {
      failure := Some(Duplicate);
      return;
    }
    seen' := seen + {relative};
    var verdict := budget.Account(entry.size);
    if !verdict.Accepted? {
      failure := Some(OverBudget);
      return;
    }
    if |relative| > 1 && Parent(relative) !in directories {
      failure := Some(MissingParent);
      return;
    }
    if entry.kind.Directory? && entry.size != 0 {
      failure := Some(DirectoryPayload);
      return;
    }
    if entry.mode.None? {
      failure := Some(BadMode);
      return;
    }
    if entry.kind.Directory? {
      directories' := directories + {relative};
    }
    failure, tree' := Write(m, createdMode, tree);
  }

  lemma AttachLongName(raw: seq<RawEntry>)
    requires raw != [] && raw[0].kind.LongName?
    ensures Attach(raw) == match LongNamePath(raw[0])
                           case None => None
                           case Some(p) => AttachPending(Some(p), raw[1..])
  {
    assert |raw| >= 2 ==> raw[1..][0] == raw[1] && raw[1..][1..] == raw[2..];
  }

  /** Record `i` is a plain entry or a long name with its plain entry right after it. */
  ghost predicate InPlace(raw: seq<RawEntry>, i: nat)
    requires i < |raw|
  {
    if raw[i].kind.LongName? then i + 1 < |raw| && Plain(raw[i + 1]) else Plain(raw[i])
  }

  lemma InPlaceShift(raw: seq<RawEntry>, k: nat, i: nat)
    requires k <= i < |raw| && InPlace(raw[k..], i - k)
    ensures InPlace(raw, i)
  {}

  lemma AttachRest(raw: seq<RawEntry>) returns (k: nat)
    requires raw != [] && Attach(raw).Some?
    ensures 1 <= k <= 2 && k <= |raw| && Attach(raw[k..]).Some?
    ensures InPlace(raw, 0) && (k == 2 ==> InPlace(raw, 1))
  {
    k := if raw[0].kind.LongName? then 2 else 1;
  }

  /** No accepted archive has a doubled, orphaned or misplaced long name. */
  lemma {:induction false} LongNamesAreAttached(raw: seq<RawEntry>, i: nat)
    requires Attach(raw).Some? && i < |raw|
    ensures InPlace(raw, i)
    decreases |raw|
  {
    var k := AttachRest(raw);
    if i >= k {
      LongNamesAreAttached(raw[k..], i - k);
      InPlaceShift(raw, k, i);
    }
  }

  /** Every record is a member or the name of the member after it. */
  lemma {:induction false} RecordsAreAccountedFor(raw: seq<RawEntry>)
    requires Attach(raw).Some?
    ensures |Attach(raw).value| + LongNameCount(raw) == |raw|
    decreases |raw|
  {
    if raw != [] {
      if raw[0].kind.LongName? {
        assert raw[1..][1..] == raw[2..] && raw[1..][0] == raw[1];
        RecordsAreAccountedFor(raw[2..]);
      } else {
        RecordsAreAccountedFor(raw[1..]);
      }
    }
  }

  function LongNameCount(raw: seq<RawEntry>): (n: nat) {
    if raw == [] then 0 else (if raw[0].kind.LongName? then 1 else 0) + LongNameCount(raw[1..])
  }

  /** What record `i` is for: a name for the plain entry after it, or a member
      under the name before it or, without one, its own. */
  ghost predicate Accounted(raw: seq<RawEntry>, ms: seq<Member>, i: nat)
    requires i < |raw|
  {
    if raw[i].kind.LongName? then
      LongNamePath(raw[i]).Some? && i + 1 < |raw| && (raw[i + 1].kind.Directory? || raw[i + 1].kind.Regular?)
    else
      && (raw[i].kind.Directory? || raw[i].kind.Regular?)
      && var name := if i > 0 && raw[i - 1].kind.LongName? then LongNamePath(raw[i - 1]) else HeaderPath(raw[i]);
         name.Some? && Member(name.value, raw[i]) in ms
  }

  lemma AttachFirst(raw: seq<RawEntry>) returns (k: nat, m: Member)
    requires raw != [] && Attach(raw).Some?
    ensures 1 <= k <= 2 && k <= |raw| && Attach(raw[k..]).Some? && !raw[k - 1].kind.LongName?
    ensures Attach(raw).value == [m] + Attach(raw[k..]).value
    ensures forall i :: 0 <= i < k ==> Accounted(raw, [m], i)
  {
    if raw[0].kind.LongName? {
      k, m := 2, Member(LongNamePath(raw[0]).value, raw[1]);
    } else {
      k, m := 1, Member(HeaderPath(raw[0]).value, raw[0]);
    }
  }

  lemma {:induction false} RecordIsAccounted(raw: seq<RawEntry>, i: nat)
    requires Attach(raw).Some? && i < |raw|
    ensures Accounted(raw, Attach(raw).value, i)
    decreases |raw|
  {
    var k, m := AttachFirst(raw);
    if i >= k {
      RecordIsAccounted(raw[k..], i - k);
      AccountedShift(raw, k, i, Attach(raw).value, Attach(raw[k..]).value);
    } else {
      assert Accounted(raw, [m], i);
    }
  }

  lemma AccountedShift(raw: seq<RawEntry>, k: nat, i: nat, ms: seq<Member>, rest: seq<Member>)
    requires 0 < k <= i < |raw| && !raw[k - 1].kind.LongName?
    requires Accounted(raw[k..], rest, i - k) && forall m :: m in rest ==> m in ms
    ensures Accounted(raw, ms, i)
  {
    assert raw[k..][i - k] == raw[i];
    assert i > k ==> raw[k..][i - k - 1] == raw[i - 1];
    assert i + 1 < |raw| ==> raw[k..][i - k + 1] == raw[i + 1];
  }

  /** What every record of an accepted archive meets. Whatever names an entry has
      no `..` part. */
  lemma AcceptedRecord(raw: seq<RawEntry>, i: nat)
    requires Accepts(raw) && i < |raw|
    ensures var e := raw[i];
            match e.kind
            case LongName =>
              && 0 < e.size <= 65536 && |e.data| == e.size && e.data[e.size - 1] == 0
              && 0 !in e.data[..e.size - 1] && Utf8.Valid(e.data[..e.size - 1])
              && [46, 46] !in Split(e.data[..e.size - 1], 47)
            case Directory => e.size == 0 && e.mode.Some?
            case Regular => e.size == |e.data| <= 67_108_864 && e.mode.Some?
            case _ => false
    ensures !raw[i].kind.LongName? && (i == 0 || !raw[i - 1].kind.LongName?) ==>
              Utf8.Valid(raw[i].path) && [46, 46] !in Split(raw[i].path, 47)
  {
    RecordIsAccounted(raw, i);
    assert Sizes(raw)[i] <= MAX_ENTRY_BYTES;
    var e := raw[i];
    if e.kind.LongName? {
      MemberPathExact(e.data[..e.size - 1], LongNamePath(e).value);
    } else {
      var name := if i > 0 && raw[i - 1].kind.LongName? then LongNamePath(raw[i - 1]) else HeaderPath(raw[i]);
      assert Sound(Member(name.value, e));
      if i == 0 || !raw[i - 1].kind.LongName? {
        MemberPathExact(e.path, HeaderPath(e).value);
      }
    }
  }

  /** Finished members and pending name account for the first `i` records. */
  ghost predicate Progress(raw: seq<RawEntry>, i: nat, done: seq<Member>, pending: Option<Path>)
    requires i <= |raw|
  {
    && Attach(raw) == Prefixed(done, AttachPending(pending, raw[i..]))
    && (pending.Some? ==> CleanPath(pending.value))
  }

  /** The path of a plain entry: the pending name, or the header's own. */
  function NameFor(entry: RawEntry, pending: Option<Path>): (r: Option<Path>) {
    if pending.Some? then pending else HeaderPath(entry)
  }

  lemma ProgressStart(raw: seq<RawEntry>)
    ensures Progress(raw, 0, [], None)
  {
    assert raw[0..] == raw;
    PrefixedNothing(Attach(raw));
  }

  lemma ProgressName(raw: seq<RawEntry>, i: nat, done: seq<Member>)
    requires i < |raw| && raw[i].kind.LongName? && Progress(raw, i, done, None)
    ensures LongNamePath(raw[i]).Some? ==> Progress(raw, i + 1, done, LongNamePath(raw[i]))
    ensures LongNamePath(raw[i]).None? ==> Attach(raw).None?
  {
    assert raw[i..][0] == raw[i] && raw[i..][1..] == raw[i + 1..];
    AttachLongName(raw[i..]);
    PathsAreClean(raw[i]);
  }

  lemma ProgressMember(raw: seq<RawEntry>, i: nat, done: seq<Member>, pending: Option<Path>)
    requires i < |raw| && Plain(raw[i]) && Progress(raw, i, done, pending)
    ensures NameFor(raw[i], pending).None? ==> Attach(raw).None?
    ensures NameFor(raw[i], pending).Some? ==>
              Progress(raw, i + 1, done + [Member(NameFor(raw[i], pending).value, raw[i])], None)
  {
    assert raw[i..][0] == raw[i] && raw[i..][1..] == raw[i + 1..];
    var name := NameFor(raw[i], pending);
    if name.Some? {
      PrefixedTwice(done, [Member(name.value, raw[i])], Attach(raw[i + 1..]));
    }
  }

  lemma ProgressStuck(raw: seq<RawEntry>, i: nat, done: seq<Member>, pending: Option<Path>)
    requires i < |raw| && Progress(raw, i, done, pending)
    requires !Plain(raw[i]) && (raw[i].kind.LongName? ==> pending.Some?)
    ensures Attach(raw).None?
  {
    assert raw[i..][0] == raw[i];
  }

  lemma ProgressEnd(raw: seq<RawEntry>, done: seq<Member>, pending: Option<Path>)
    requires Progress(raw, |raw|, done, pending)
    ensures Attach(raw) == if pending.Some? then None else Some(done)
  {
    assert raw[|raw|..] == [] && done + [] == done;
  }

  method MemberName(entry: RawEntry, pending: Option<Path>) returns (r: Option<Path>)
    requires pending.Some? ==> CleanPath(pending.value)
    ensures r == NameFor(entry, pending)
    ensures r.Some? ==> CleanPath(r.value)
  {
    if pending.Some? {
      return pending;
    }
    if !Utf8.Valid(entry.path) {
      return None;
    }
    r := NormalizeMemberName(entry.path);
  }

  /** A plain entry whose placing failed: the archive is not acceptable. */
  lemma PlaceFailed(raw: seq<RawEntry>, i: nat, done: seq<Member>)
    requires i < |raw| && Progress(raw, i + 1, done, None)
    requires !GoodMembers(done) || !Fits(Sizes(raw[..i]) + [raw[i].size])
    ensures !Accepts(raw)
  {
    OverBudgetPrefix(raw, i);
    if !GoodMembers(done) {
      BadPrefix(raw, done, Attach(raw[i + 1..]));
    }
  }

  /** One pass over a long-name record: it becomes the pending name. */
  method TakeLongName(raw: seq<RawEntry>, i: nat, pending: Option<Path>, budget: ReleaseArchiveBudget,
                      ghost done: seq<Member>)
    returns (failure: Option<Failure>, pending': Option<Path>)
    requires i < |raw| && raw[i].kind.LongName? && Progress(raw, i, done, pending)
    requires budget.Valid() && budget.history == Sizes(raw[..i])
    modifies budget
    ensures failure.None? ==> Progress(raw, i + 1, done, pending')
    ensures failure.None? ==> budget.Valid() && budget.history == Sizes(raw[..i + 1])
    ensures failure.Some? ==> !Accepts(raw) && !failure.value.CreateFailed?
  {
    failure, pending' := None, None;
    if pending.Some? {
      ProgressStuck(raw, i, done, pending);
      failure := Some(BadLongName);
      return;
    }
    ProgressName(raw, i, done);
    OverBudgetPrefix(raw, i);
    var reason;
    pending', reason := ReadLongName(raw[i], budget);
    if pending'.None? {
      failure := Some(reason);
    }
  }

  /** One pass over any other record: it is placed under its name. */
  method TakeMember(raw: seq<RawEntry>, i: nat, pending: Option<Path>, createdMode: nat, budget: ReleaseArchiveBudget,
                    seen: set<Path>, directories: set<Path>, tree: Tree, ghost done: seq<Member>)
    returns (failure: Option<Failure>, seen': set<Path>, directories': set<Path>, tree': Tree, ghost done': seq<Member>)
    requires i < |raw| && !raw[i].kind.LongName? && Progress(raw, i, done, pending)
    requires budget.Valid() && budget.history == Sizes(raw[..i])
    requires GoodMembers(done) && Holds(Items(done), seen, directories, tree) && IsTree(tree)
    modifies budget
    ensures failure.None? ==> Progress(raw, i + 1, done', None)
    ensures failure.None? ==> GoodMembers(done') && Holds(Items(done'), seen', directories', tree')
    ensures failure.None? ==> budget.Valid() && budget.history == Sizes(raw[..i + 1])
    ensures failure.Some? ==> !Accepts(raw) && !failure.value.CreateFailed?
    ensures IsTree(tree')
  {
    failure, seen', directories', tree', done' := None, seen, directories, tree, done;
    if !Plain(raw[i]) {
      ProgressStuck(raw, i, done, pending);
      failure := Some(UnsupportedKind);
      return;
    }
    ProgressMember(raw, i, done, pending);
    var relative := MemberName(raw[i], pending);
    if relative.None? {
      failure := Some(UnsafeName);
      return;
    }
    var m := Member(relative.value, raw[i]);
    OverBudgetPrefix(raw, i);
    failure, seen', directories', tree' := Place(m, createdMode, budget, seen, directories, tree, done);
    done' := done + [m];
    if failure.Some? {
      PlaceFailed(raw, i, done');
    }
  }

  /** What the tree of good members holds. */
  lemma MembersStand(ms: seq<Member>)
    requires GoodMembers(ms)
    ensures |TreeOf(Items(ms))| == |ms|
    ensures forall m :: m in ms ==>
              && m.path in TreeOf(Items(ms)) && m.entry.mode.Some?
              && TreeOf(Items(ms))[m.path] == if m.entry.kind.Directory? then Dir(448 + m.entry.mode.value % 64)
                                              else File(m.entry.data, m.entry.mode.value % 512)
  {
    TreeOfSize(Items(ms));
    forall m | m in ms
      ensures m.path in TreeOf(Items(ms)) && m.entry.mode.Some? && TreeOf(Items(ms))[m.path] == ItemOf(m).node
    {
      var i :| 0 <= i < |ms| && ms[i] == m;
      TreeOfLookup(Items(ms), i);
      assert Sound(m);
    }
  }

  method ExtractTar(raw: seq<RawEntry>, createdMode: nat) returns (r: Outcome, tree: Tree)
    ensures r.Done? <==> Accepts(raw)
    ensures r.Done? ==> tree == TreeOf(Items(Attach(raw).value))
    // every member is there as what it said it was, and nothing else is
    ensures r.Done? ==> |tree| == |Attach(raw).value|
    ensures r.Done? ==> forall m :: m in Attach(raw).value ==>
              && m.path in tree && m.entry.mode.Some?
              && tree[m.path] == if m.entry.kind.Directory? then Dir(448 + m.entry.mode.value % 64)
                                 else File(m.entry.data, m.entry.mode.value % 512)
    // whatever happens, the destination is a tree and no create was refused
    ensures IsTree(tree)
    ensures r != Failed(CreateFailed)
  {
    var budget := new ReleaseArchiveBudget();
    var seen: set<Path>, directories: set<Path> := {}, {};
    var pending: Option<Path> := None;
    tree := map[];
    ghost var done: seq<Member> := [];
    var i := 0;
    ProgressStart(raw);
    var failure: Option<Failure> := None;
    while i < |raw| && failure.None?
      invariant 0 <= i <= |raw| && fresh(budget) && IsTree(tree)
      invariant failure.None? ==> Progress(raw, i, done, pending)
      invariant failure.None? ==> GoodMembers(done) && Holds(Items(done), seen, directories, tree)
      invariant failure.None? ==> budget.Valid() && budget.history == Sizes(raw[..i])
      invariant failure.Some? ==> !Accepts(raw) && !failure.value.CreateFailed?
      decreases |raw| - i
    {
      if raw[i].kind.LongName? {
        failure, pending := TakeLongName(raw, i, pending, budget, done);
      } else {
        failure, seen, directories, tree, done :=
          TakeMember(raw, i, pending, createdMode, budget, seen, directories, tree, done);
        pending := None;
      }
      i := i + 1;
    }
    if failure.Some? {
      return Failed(failure.value), tree;
    }
    assert raw[..i] == raw;
    ProgressEnd(raw, done, pending);
    HoldsIsTree(Items(done), seen, directories, tree);
    if pending.Some? {
      return Failed(OrphanLongName), tree;
    }
    MembersStand(done);
    return Done, tree;
  }
}
