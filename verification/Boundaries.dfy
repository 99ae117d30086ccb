/** The call-graph boundary ledger: every boundary evidence record is entered
    once per profile and once per occurrence and stage; accepting the ledger
    means the books balance. */
module Boundaries {
  import opened Bytes
  import opened Sorting
  import opened Totals

  /** What a boundary occurrence is keyed by. */
  datatype Occurrence = Occurrence(boundary: Bytes, path: Bytes, startLine: nat, startColumn: nat,
                                   endLine: nat, endColumn: nat, reason: Bytes)

  /** A boundary evidence record with the site that owns it. `None` where a
      required field is missing; `correlated` says that its diagnostic and its
      site's resolution pass the checks on that single record. */
  datatype Record = Record(occurrence: Option<Occurrence>, siteProfile: Option<Bytes>, correlated: bool)

  /** A Go profile: its ID, its analysis stage, and whether and what it declares. */
  datatype Profile = Profile(id: Bytes, stage: Bytes, status: Bytes, declared: Option<nat>, policyOk: bool)

  function Typed(): (s: Bytes) { Ascii("typed") }
  function Semantic(): (s: Bytes) { Ascii("semantic") }
  function Syntax(): (s: Bytes) { Ascii("syntax") }

  function TypedBoundaries(): (s: set<Bytes>) {
    {Ascii("reflection_call"), Ascii("reflection_call_slice"), Ascii("reflection_field_lookup"),
     Ascii("reflection_make_func"), Ascii("reflection_method_lookup")}
  }

  function ExpectedStages(o: Occurrence): (s: set<Bytes>) {
    if o.boundary in TypedBoundaries() then {Semantic(), Typed()} else {Syntax()}
  }

  // ---- what is summed over a book ----

  function Count(id: Bytes, n: nat): (c: nat) { n }

  function Size(o: Occurrence, s: set<Bytes>): (c: nat) { |s| }

  function One(o: Occurrence, s: set<Bytes>): (c: nat) { 1 }

  // ---- the ledger ----

  datatype Ledger = Ledger(byProfile: map<Bytes, nat>, stages: map<Occurrence, set<Bytes>>)

  /** Both books hold `n` entries. */
  ghost predicate Balanced(l: Ledger, n: nat) {
    Total(l.byProfile, Count) == n && Total(l.stages, Size) == n
  }

  /** Stage of a profile ID; for a repeated ID the last profile wins. */
  function StageOf(profiles: seq<Profile>, id: Bytes): (r: Option<Bytes>) {
    if profiles == [] then None
    else if profiles[|profiles| - 1].id == id then Some(profiles[|profiles| - 1].stage)
    else StageOf(profiles[..|profiles| - 1], id)
  }

  /** Entering one record in both books; refused when a field is missing, the
      profile is unknown, or the stage already has that occurrence. */
  function Enter(l: Ledger, profiles: seq<Profile>, r: Record): (r': Option<Ledger>) {
    if r.occurrence.None? || r.siteProfile.None? || r.occurrence.value.reason == [] then None
    else
      var id, o := r.siteProfile.value, r.occurrence.value;
      match StageOf(profiles, id)
      case None => None
      case Some(stage) =>
        var count := if id in l.byProfile then l.byProfile[id] else 0;
        var stages := if o in l.stages then l.stages[o] else {};
        if stage in stages || !r.correlated then None
        else Some(Ledger(l.byProfile[id := count + 1], l.stages[o := stages + {stage}]))
  }

  // ---- what the books of a list of records are ----

  /** A record with all its fields, of a known profile, that its diagnostic and
      its site bear out. */
  predicate Enterable(profiles: seq<Profile>, r: Record) {
    && r.occurrence.Some? && r.siteProfile.Some? && r.occurrence.value.reason != []
    && StageOf(profiles, r.siteProfile.value).Some? && r.correlated
  }

  predicate AllEnterable(profiles: seq<Profile>, records: seq<Record>) {
    forall i :: 0 <= i < |records| ==> Enterable(profiles, records[i])
  }

  datatype Emission = Emission(occurrence: Option<Occurrence>, stage: Option<Bytes>)

  /** Which occurrence a record reports, and which stage reports it. */
  function EmissionOf(profiles: seq<Profile>, r: Record): (e: Emission) {
    Emission(r.occurrence, if r.siteProfile.Some? then StageOf(profiles, r.siteProfile.value) else None)
  }

  function Emissions(profiles: seq<Profile>, records: seq<Record>): (es: seq<Emission>)
    ensures |es| == |records|
  {
    Map((r: Record) => EmissionOf(profiles, r), records)
  }

  function OwnerOf(r: Record): (id: Option<Bytes>) { r.siteProfile }

  /** Every record can be entered, and no stage reports an occurrence twice. */
  ghost predicate Enters(profiles: seq<Profile>, records: seq<Record>) {
    AllEnterable(profiles, records) && Distinct(Emissions(profiles, records))
  }

  /** How many records a profile owns. */
  function Owned(records: seq<Record>, id: Bytes): (n: nat) {
    multiset(Map(OwnerOf, records))[Some(id)]
  }

  function Owners(records: seq<Record>): (ids: set<Bytes>) {
    set i | 0 <= i < |records| && records[i].siteProfile.Some? :: records[i].siteProfile.value
  }

  function Reported(records: seq<Record>): (os: set<Occurrence>) {
    set i | 0 <= i < |records| && records[i].occurrence.Some? :: records[i].occurrence.value
  }

  /** The stages that report an occurrence. */
  function StagesOf(profiles: seq<Profile>, records: seq<Record>, o: Occurrence): (stages: set<Bytes>) {
    set e | e in Emissions(profiles, records) && e.occurrence == Some(o) && e.stage.Some? :: e.stage.value
  }

  /** Both books, from the records as a whole. */
  function BooksOf(profiles: seq<Profile>, records: seq<Record>): (l: Ledger) {
    Ledger(Tabulate(Owners(records), id => Owned(records, id)),
           Tabulate(Reported(records), o => StagesOf(profiles, records, o)))
  }

  function Tabulate<K, V>(keys: set<K>, f: K -> V): (m: map<K, V>) {
    map k | k in keys :: f(k)
  }

  lemma EmissionsSnoc(profiles: seq<Profile>, records: seq<Record>, r: Record)
    ensures Emissions(profiles, records + [r]) == Emissions(profiles, records) + [EmissionOf(profiles, r)]
  {}

  lemma EntersSnoc(profiles: seq<Profile>, records: seq<Record>, r: Record)
    ensures Enters(profiles, records + [r]) <==>
            Enters(profiles, records) && Enterable(profiles, r) && EmissionOf(profiles, r) !in Emissions(profiles, records)
  {
    EmissionsSnoc(profiles, records, r);
    DistinctSnoc(Emissions(profiles, records), EmissionOf(profiles, r));
    AllEnterableSnoc(profiles, records, r);
  }

  lemma AllEnterableSnoc(profiles: seq<Profile>, records: seq<Record>, r: Record)
    ensures AllEnterable(profiles, records + [r]) <==> AllEnterable(profiles, records) && Enterable(profiles, r)
  {
    assert (records + [r])[|records|] == r;
    assert forall i :: 0 <= i < |records| ==> (records + [r])[i] == records[i];
  }

  lemma DistinctSnoc<T(!new)>(s: seq<T>, x: T)
    ensures Distinct(s + [x]) <==> Distinct(s) && x !in s
  {
    assert (s + [x])[|s|] == x;
    assert forall i :: 0 <= i < |s| ==> (s + [x])[i] == s[i];
  }

  lemma OwnersSnoc(records: seq<Record>, r: Record, id: Bytes)
    requires r.siteProfile == Some(id)
    ensures Owners(records + [r]) == Owners(records) + {id}
    ensures forall k :: Owned(records + [r], k) == Owned(records, k) + (if k == id then 1 else 0)
  {
    var all := records + [r];
    assert all[|records|] == r;
    assert forall i :: 0 <= i < |records| ==> all[i] == records[i];
    MapAppend(OwnerOf, records, [r]);
    assert Map(OwnerOf, [r]) == [Some(id)];
  }

  lemma ReportedSnoc(profiles: seq<Profile>, records: seq<Record>, r: Record, o: Occurrence, stage: Bytes)
    requires EmissionOf(profiles, r) == Emission(Some(o), Some(stage))
    ensures Reported(records + [r]) == Reported(records) + {o}
    ensures StagesOf(profiles, records + [r], o) == StagesOf(profiles, records, o) + {stage}
    ensures forall p :: p != o ==> StagesOf(profiles, records + [r], p) == StagesOf(profiles, records, p)
  {
    var all := records + [r];
    assert all[|records|] == r;
    assert forall i :: 0 <= i < |records| ==> all[i] == records[i];
    EmissionsSnoc(profiles, records, r);
  }

  lemma NotReported(profiles: seq<Profile>, records: seq<Record>, o: Occurrence)
    requires o !in Reported(records)
    ensures StagesOf(profiles, records, o) == {}
  {
    forall e | e in Emissions(profiles, records)
      ensures e.occurrence != Some(o)
    {
      var i :| 0 <= i < |records| && Emissions(profiles, records)[i] == e;
      assert records[i].occurrence == e.occurrence;
    }
  }

  function StagesIn(l: Ledger, o: Occurrence): (stages: set<Bytes>) {
    if o in l.stages then l.stages[o] else {}
  }

  /** What entering does to the books, for a record with all it needs. */
  lemma EnterEnterable(l: Ledger, profiles: seq<Profile>, r: Record, id: Bytes, o: Occurrence, stage: Bytes, l': Ledger)
    requires Enterable(profiles, r) && r.siteProfile == Some(id) && EmissionOf(profiles, r) == Emission(Some(o), Some(stage))
    requires l'.byProfile == l.byProfile[id := CountFor(l.byProfile, id) + 1]
    requires l'.stages == l.stages[o := StagesIn(l, o) + {stage}]
    ensures Enter(l, profiles, r) == if stage in StagesIn(l, o) then None else Some(l')
  {}

  lemma EnterRefuses(l: Ledger, profiles: seq<Profile>, r: Record)
    requires !Enterable(profiles, r)
    ensures Enter(l, profiles, r).None?
  {}

  /** What the books say of a profile and of an occurrence. */
  lemma BooksSay(profiles: seq<Profile>, records: seq<Record>, id: Bytes, o: Occurrence)
    ensures CountFor(BooksOf(profiles, records).byProfile, id) == Owned(records, id)
    ensures StagesIn(BooksOf(profiles, records), o) == StagesOf(profiles, records, o)
  {
    if id !in Owners(records) {
      assert Some(id) !in Map(OwnerOf, records);
    }
    if o !in Reported(records) {
      NotReported(profiles, records, o);
    }
  }

  /** Entering the next record in the books of the records before it: refused
      exactly when the longer list has no books, and otherwise giving those. */
  lemma EnterNext(profiles: seq<Profile>, records: seq<Record>, r: Record)
    requires Enters(profiles, records)
    ensures Enter(BooksOf(profiles, records), profiles, r)
         == if Enters(profiles, records + [r]) then Some(BooksOf(profiles, records + [r])) else None
  {
    var l, l' := BooksOf(profiles, records), BooksOf(profiles, records + [r]);
    EntersSnoc(profiles, records, r);
    if Enterable(profiles, r) {
      var id, o := r.siteProfile.value, r.occurrence.value;
      var stage := StageOf(profiles, id).value;
      BooksSay(profiles, records, id, o);
      StageIsEmitted(profiles, records, o, stage);
      BooksUpdate(profiles, records, r, id, o, stage);
      EnterEnterable(l, profiles, r, id, o, stage, l');
    } else {
      EnterRefuses(l, profiles, r);
    }
  }

  lemma StageIsEmitted(profiles: seq<Profile>, records: seq<Record>, o: Occurrence, stage: Bytes)
    ensures stage in StagesOf(profiles, records, o) <==> Emission(Some(o), Some(stage)) in Emissions(profiles, records)
  {}

  lemma BooksUpdate(profiles: seq<Profile>, records: seq<Record>, r: Record, id: Bytes, o: Occurrence, stage: Bytes)
    requires r.siteProfile == Some(id) && EmissionOf(profiles, r) == Emission(Some(o), Some(stage))
    ensures var l, l' := BooksOf(profiles, records), BooksOf(profiles, records + [r]);
            && l'.byProfile == l.byProfile[id := Owned(records, id) + 1]
            && l'.stages == l.stages[o := StagesOf(profiles, records, o) + {stage}]
  {
    OwnersSnoc(records, r, id);
    ReportedSnoc(profiles, records, r, o, stage);
    var all := records + [r];
    Tabulated(Owners(records), Owners(all), k => Owned(records, k), k => Owned(all, k), id);
    Tabulated(Reported(records), Reported(all), p => StagesOf(profiles, records, p), p => StagesOf(profiles, all, p), o);
  }

  lemma Tabulated<K, V>(keys: set<K>, keys': set<K>, f: K -> V, f': K -> V, k: K)
    requires keys' == keys + {k} && forall x :: x in keys && x != k ==> f'(x) == f(x)
    ensures Tabulate(keys', f') == Tabulate(keys, f)[k := f'(k)]
  {}

  lemma NoBooks(profiles: seq<Profile>)
    ensures Enters(profiles, []) && BooksOf(profiles, []) == EMPTY
  {}

  lemma EntersPrefix(profiles: seq<Profile>, records: seq<Record>, n: nat)
    requires n <= |records| && Enters(profiles, records)
    ensures Enters(profiles, records[..n])
  {
    assert Emissions(profiles, records[..n]) == Emissions(profiles, records)[..n];
  }

  // ---- double entry ----

  lemma EnterBalances(l: Ledger, profiles: seq<Profile>, r: Record, n: nat)
    requires Balanced(l, n) && Enter(l, profiles, r).Some?
    ensures Balanced(Enter(l, profiles, r).value, n + 1)
  {
    var id, o := r.siteProfile.value, r.occurrence.value;
    var l' := Enter(l, profiles, r).value;
    TotalUpdate(l.byProfile, Count, id, l'.byProfile[id]);
    TotalUpdate(l.stages, Size, o, l'.stages[o]);
  }

  /** Double entry: both books hold as many entries as there are records. */
  lemma {:induction false} BooksHoldEveryRecord(profiles: seq<Profile>, records: seq<Record>)
    requires Enters(profiles, records)
    ensures Balanced(BooksOf(profiles, records), |records|)
    decreases |records|
  {
    if records == [] {
      NoBooks(profiles);
    } else {
      var n := |records| - 1;
      assert records[..n] + [records[n]] == records;
      EntersPrefix(profiles, records, n);
      BooksHoldEveryRecord(profiles, records[..n]);
      EnterNext(profiles, records[..n], records[n]);
      EnterBalances(BooksOf(profiles, records[..n]), profiles, records[n], n);
    }
  }

  /** Neither whether records can be entered nor their books depend on their order. */
  lemma BooksAnyOrder(profiles: seq<Profile>, records: seq<Record>, other: seq<Record>)
    requires multiset(records) == multiset(other)
    ensures Enters(profiles, records) <==> Enters(profiles, other)
    ensures BooksOf(profiles, records) == BooksOf(profiles, other)
  {
    var emission := (r: Record) => EmissionOf(profiles, r);
    MapPermutes(emission, records, other);
    MapPermutes(OwnerOf, records, other);
    if Enters(profiles, records) {
      EntersPermuted(profiles, records, other);
    }
    if Enters(profiles, other) {
      EntersPermuted(profiles, other, records);
    }
    BooksPermuted(profiles, records, other);
  }

  lemma EntersPermuted(profiles: seq<Profile>, records: seq<Record>, other: seq<Record>)
    requires multiset(records) == multiset(other)
    requires multiset(Emissions(profiles, records)) == multiset(Emissions(profiles, other))
    requires Enters(profiles, records)
    ensures Enters(profiles, other)
  {
    MultisetMembers(records, other);
    assert forall i :: 0 <= i < |other| ==> other[i] in records;
    PermutedIsDistinct(Emissions(profiles, records), Emissions(profiles, other));
  }

  lemma BooksPermuted(profiles: seq<Profile>, records: seq<Record>, other: seq<Record>)
    requires multiset(records) == multiset(other)
    requires multiset(Emissions(profiles, records)) == multiset(Emissions(profiles, other))
    requires multiset(Map(OwnerOf, records)) == multiset(Map(OwnerOf, other))
    ensures BooksOf(profiles, records) == BooksOf(profiles, other)
  {
    MultisetMembers(records, other);
    MultisetMembers(Emissions(profiles, records), Emissions(profiles, other));
    SubsetBooks(records, other);
    SubsetBooks(other, records);
    assert forall o :: StagesOf(profiles, records, o) == StagesOf(profiles, other, o);
  }

  lemma SubsetBooks(records: seq<Record>, other: seq<Record>)
    requires forall r :: r in records ==> r in other
    ensures Owners(records) <= Owners(other) && Reported(records) <= Reported(other)
  {
    forall id | id in Owners(records)
      ensures id in Owners(other)
    {
      var i :| 0 <= i < |records| && records[i].siteProfile == Some(id);
      assert records[i] in other;
    }
    forall o | o in Reported(records)
      ensures o in Reported(other)
    {
      var i :| 0 <= i < |records| && records[i].occurrence == Some(o);
      assert records[i] in other;
    }
  }

  // ---- reading the occurrence book ----

  predicate AsExpected(stages: map<Occurrence, set<Bytes>>) {
    forall o :: o in stages ==> stages[o] == ExpectedStages(o)
  }

  lemma StagesDiffer()
    ensures Typed() != Semantic()
  {
    assert |Typed()| == 5 && |Semantic()| == 8;
  }

  lemma ExpectedSize(o: Occurrence)
    ensures |ExpectedStages(o)| == if IsTyped(o) then 2 else 1
  {
    StagesDiffer();
  }

  predicate IsTyped(o: Occurrence) { o.boundary in TypedBoundaries() }

  /** Occurrences of a kind. */
  ghost function OfKind(stages: map<Occurrence, set<Bytes>>, typed: bool): map<Occurrence, set<Bytes>> {
    map o | o in stages && IsTyped(o) == typed :: stages[o]
  }

  lemma OfKindSplit(stages: map<Occurrence, set<Bytes>>, o: Occurrence, typed: bool)
    requires o in stages
    ensures Total(OfKind(stages, typed), One)
         == Total(OfKind(stages - {o}, typed), One) + (if IsTyped(o) == typed then 1 else 0)
  {
    if IsTyped(o) == typed {
      TotalSplit(OfKind(stages, typed), One, o);
      assert OfKind(stages, typed) - {o} == OfKind(stages - {o}, typed);
    } else {
      assert OfKind(stages, typed) == OfKind(stages - {o}, typed);
    }
  }

  lemma {:induction false} ExpectedTotals(stages: map<Occurrence, set<Bytes>>)
    requires AsExpected(stages)
    ensures Total(stages, Size) == Total(OfKind(stages, false), One) + 2 * Total(OfKind(stages, true), One)
    decreases |stages|
  {
    if stages == map[] {
      assert OfKind(stages, false) == map[] && OfKind(stages, true) == map[];
    } else {
      var o :| o in stages;
      ExpectedTotals(stages - {o});
      TotalSplit(stages, Size, o);
      ExpectedSize(o);
      OfKindSplit(stages, o, false);
      OfKindSplit(stages, o, true);
    }
  }

  // ---- physical counts ----

  ghost function OfBoundary(stages: map<Occurrence, set<Bytes>>, boundary: Bytes): map<Occurrence, set<Bytes>> {
    map o | o in stages && o.boundary == boundary :: stages[o]
  }

  ghost function Occurrences(stages: map<Occurrence, set<Bytes>>, boundary: Bytes): nat {
    Total(OfBoundary(stages, boundary), One)
  }

  function CountFor(counts: map<Bytes, nat>, boundary: Bytes): (n: nat) {
    if boundary in counts then counts[boundary] else 0
  }

  /** `counts` says how many occurrences every boundary kind has, and lists no
      kind that has none. */
  ghost predicate Tallies(counts: map<Bytes, nat>, stages: map<Occurrence, set<Bytes>>) {
    && (forall b :: CountFor(counts, b) == Occurrences(stages, b))
    && (forall b :: b in counts ==> counts[b] > 0)
  }

  lemma TalliesUnique(a: map<Bytes, nat>, b: map<Bytes, nat>, stages: map<Occurrence, set<Bytes>>)
    requires Tallies(a, stages) && Tallies(b, stages)
    ensures a == b
  {
    forall k
      ensures k in a <==> k in b
      ensures k in a ==> a[k] == b[k]
    {
      assert CountFor(a, k) == CountFor(b, k);
    }
  }

  lemma OccurrencesStep(done: map<Occurrence, set<Bytes>>, o: Occurrence, s: set<Bytes>, b: Bytes)
    requires o !in done
    ensures Occurrences(done[o := s], b) == Occurrences(done, b) + (if b == o.boundary then 1 else 0)
  {
    if b == o.boundary {
      assert OfBoundary(done[o := s], b) == OfBoundary(done, b)[o := s];
      TotalUpdate(OfBoundary(done, b), One, o, s);
    } else {
      assert OfBoundary(done[o := s], b) == OfBoundary(done, b);
    }
  }

  lemma TalliesStep(counts: map<Bytes, nat>, done: map<Occurrence, set<Bytes>>, o: Occurrence, s: set<Bytes>)
    requires Tallies(counts, done) && o !in done
    ensures Tallies(counts[o.boundary := CountFor(counts, o.boundary) + 1], done[o := s])
  {
    var more := counts[o.boundary := CountFor(counts, o.boundary) + 1];
    forall b
      ensures CountFor(more, b) == Occurrences(done[o := s], b)
    {
      OccurrencesStep(done, o, s, b);
      assert CountFor(counts, b) == Occurrences(done, b);
    }
  }

  /** The physical counts add up to the number of occurrences. */
  lemma {:induction false} TalliesTotal(stages: map<Occurrence, set<Bytes>>) returns (counts: map<Bytes, nat>)
    ensures Tallies(counts, stages) && Total(counts, Count) == Total(stages, One)
    decreases |stages|
  {
    if stages == map[] {
      counts := map[];
      assert forall b :: OfBoundary(stages, b) == map[];
    } else {
      var o :| o in stages;
      var rest := stages - {o};
      var before := TalliesTotal(rest);
      TalliesStep(before, rest, o, stages[o]);
      counts := before[o.boundary := CountFor(before, o.boundary) + 1];
      TotalUpdate<Bytes, nat>(before, Count, o.boundary, CountFor(before, o.boundary) + 1);
      TotalSplit(stages, One, o);
      assert rest[o := stages[o]] == stages;
    }
  }

  /** The loop over occurrences, in whatever order. */
  method CountPhysical(stages: map<Occurrence, set<Bytes>>) returns (ok: bool, counts: map<Bytes, nat>)
    ensures ok <==> AsExpected(stages)
    ensures ok ==> Tallies(counts, stages)
  {
    counts := map[];
    var rest := stages.Keys;
    ghost var done: map<Occurrence, set<Bytes>> := map[];
    assert forall b :: OfBoundary(done, b) == map[];
    while rest != {}
      invariant rest <= stages.Keys && done == stages - rest
      invariant AsExpected(done) && Tallies(counts, done)
      decreases |rest|
    {
      var o :| o in rest;
      if stages[o] != ExpectedStages(o) {
        return false, counts;
      }
      TalliesStep(counts, done, o, stages[o]);
      counts := counts[o.boundary := CountFor(counts, o.boundary) + 1];
      rest := rest - {o};
      done := done[o := stages[o]];
    }
    assert done == stages;
    ok := true;
  }

  // ---- closing the profile book ----

  predicate ProfileAgrees(p: Profile, count: nat) {
    && p.status == (if count == 0 then Ascii("none") else Ascii("observed"))
    && p.declared == Some(count) && p.policyOk
  }

  /** What a profile has to declare: the count of its ID where the ID is listed
      first, and nothing where it is listed again. */
  function Due(byProfile: map<Bytes, nat>, profiles: seq<Profile>, i: nat): (n: nat)
    requires i < |profiles|
  {
    if IsFirst(profiles, i) then CountFor(byProfile, profiles[i].id) else 0
  }

  predicate IsFirst(profiles: seq<Profile>, i: nat)
    requires i < |profiles|
  {
    forall j :: 0 <= j < i ==> profiles[j].id != profiles[i].id
  }

  function Ids(profiles: seq<Profile>): (ids: set<Bytes>) {
    set i | 0 <= i < |profiles| :: profiles[i].id
  }

  /** Every profile declares what is due, and every count belongs to a profile. */
  ghost predicate Closes(byProfile: map<Bytes, nat>, profiles: seq<Profile>) {
    && byProfile.Keys <= Ids(profiles)
    && forall i :: 0 <= i < |profiles| ==> ProfileAgrees(profiles[i], Due(byProfile, profiles, i))
  }

  function DeclaredSum(profiles: seq<Profile>): (n: nat) {
    if profiles == [] then 0
    else (if profiles[0].declared.Some? then profiles[0].declared.value else 0) + DeclaredSum(profiles[1..])
  }

  lemma DueInTail(byProfile: map<Bytes, nat>, profiles: seq<Profile>, i: nat)
    requires 0 < i < |profiles|
    ensures Due(byProfile - {profiles[0].id}, profiles[1..], i - 1) == Due(byProfile, profiles, i)
  {
    assert forall j :: 1 <= j < |profiles| ==> profiles[j] == profiles[1..][j - 1];
    if profiles[i].id != profiles[0].id {
      assert IsFirst(profiles, i) <==> IsFirst(profiles[1..], i - 1);
    }
  }

  lemma TailIds(byProfile: map<Bytes, nat>, profiles: seq<Profile>)
    requires profiles != [] && byProfile.Keys <= Ids(profiles)
    ensures (byProfile - {profiles[0].id}).Keys <= Ids(profiles[1..])
  {
    var tail := profiles[1..];
    forall id | id in byProfile && id != profiles[0].id
      ensures id in Ids(tail)
    {
      assert id in Ids(profiles);
      var i :| 0 <= i < |profiles| && profiles[i].id == id;
      assert tail[i - 1] == profiles[i];
    }
  }

  lemma ClosesTail(byProfile: map<Bytes, nat>, profiles: seq<Profile>)
    requires profiles != [] && Closes(byProfile, profiles)
    ensures Closes(byProfile - {profiles[0].id}, profiles[1..])
    ensures profiles[0].declared == Some(CountFor(byProfile, profiles[0].id))
  {
    var rest, tail := byProfile - {profiles[0].id}, profiles[1..];
    assert ProfileAgrees(profiles[0], Due(byProfile, profiles, 0));
    TailIds(byProfile, profiles);
    forall i | 0 <= i < |tail|
      ensures ProfileAgrees(tail[i], Due(rest, tail, i))
    {
      DueInTail(byProfile, profiles, i + 1);
      assert tail[i] == profiles[i + 1] && ProfileAgrees(profiles[i + 1], Due(byProfile, profiles, i + 1));
    }
  }

  lemma {:induction false} ClosedBookBalances(byProfile: map<Bytes, nat>, profiles: seq<Profile>)
    requires Closes(byProfile, profiles)
    ensures DeclaredSum(profiles) == Total(byProfile, Count)
    decreases |profiles|
  {
    if profiles == [] {
      assert byProfile == map[];
    } else {
      var p := profiles[0];
      ClosesTail(byProfile, profiles);
      ClosedBookBalances(byProfile - {p.id}, profiles[1..]);
      if p.id in byProfile {
        TotalSplit(byProfile, Count, p.id);
      } else {
        assert byProfile - {p.id} == byProfile;
      }
    }
  }

  /** What is left of the book once the first `n` profiles have taken theirs. */
  ghost predicate Remaining(rest: map<Bytes, nat>, byProfile: map<Bytes, nat>, profiles: seq<Profile>, n: nat)
    requires n <= |profiles|
  {
    && rest == byProfile - Ids(profiles[..n])
    && forall i :: 0 <= i < n ==> ProfileAgrees(profiles[i], Due(byProfile, profiles, i))
  }

  lemma IdsSnoc(profiles: seq<Profile>, n: nat)
    requires n < |profiles|
    ensures Ids(profiles[..n + 1]) == Ids(profiles[..n]) + {profiles[n].id}
  {
    var before, after := profiles[..n], profiles[..n + 1];
    assert forall j :: 0 <= j < n ==> before[j] == profiles[j];
    assert forall j :: 0 <= j < n + 1 ==> after[j] == profiles[j];
  }

  lemma FirstIsNew(profiles: seq<Profile>, n: nat)
    requires n < |profiles|
    ensures IsFirst(profiles, n) <==> profiles[n].id !in Ids(profiles[..n])
  {
    assert forall j :: 0 <= j < n ==> profiles[..n][j] == profiles[j];
  }

  lemma RemainingIsDue(rest: map<Bytes, nat>, byProfile: map<Bytes, nat>, profiles: seq<Profile>, n: nat)
    requires n < |profiles| && rest == byProfile - Ids(profiles[..n])
    ensures CountFor(rest, profiles[n].id) == Due(byProfile, profiles, n)
  {
    FirstIsNew(profiles, n);
  }

  lemma RemainingStep(rest: map<Bytes, nat>, byProfile: map<Bytes, nat>, profiles: seq<Profile>, n: nat)
    requires n < |profiles| && Remaining(rest, byProfile, profiles, n)
    ensures ProfileAgrees(profiles[n], CountFor(rest, profiles[n].id)) ==>
              Remaining(rest - {profiles[n].id}, byProfile, profiles, n + 1)
    ensures !ProfileAgrees(profiles[n], CountFor(rest, profiles[n].id)) ==> !Closes(byProfile, profiles)
  {
    RemainingIsDue(rest, byProfile, profiles, n);
    IdsSnoc(profiles, n);
    assert rest - {profiles[n].id} == byProfile - Ids(profiles[..n + 1]);
  }

  lemma RemainingEnd(rest: map<Bytes, nat>, byProfile: map<Bytes, nat>, profiles: seq<Profile>)
    requires Remaining(rest, byProfile, profiles, |profiles|)
    ensures rest == map[] <==> Closes(byProfile, profiles)
  {
    assert profiles[..|profiles|] == profiles;
    assert rest.Keys == byProfile.Keys - Ids(profiles);
    if rest == map[] {
      forall id | id in byProfile
        ensures id in Ids(profiles)
      {
        assert id !in rest.Keys;
      }
    } else {
      var id :| id in rest;
    }
  }

  method CloseProfiles(byProfile: map<Bytes, nat>, profiles: seq<Profile>) returns (ok: bool)
    ensures ok <==> Closes(byProfile, profiles)
  {
    var rest := byProfile;
    var i := 0;
    while i < |profiles|
      invariant 0 <= i <= |profiles|
      invariant Remaining(rest, byProfile, profiles, i)
    {
      var p := profiles[i];
      RemainingStep(rest, byProfile, profiles, i);
      if !ProfileAgrees(p, CountFor(rest, p.id)) {
        return false;
      }
      rest := rest - {p.id};
      i := i + 1;
    }
    RemainingEnd(rest, byProfile, profiles);
    ok := rest == map[];
  }

  // ---- the whole check ----

  const EMPTY: Ledger := Ledger(map[], map[])

  /** Every record can be entered; every reported occurrence has its expected
      stages; the occurrences of every kind are as many as expected; and every
      profile declares exactly the records it owns. */
  ghost predicate Accepts(records: seq<Record>, profiles: seq<Profile>, expected: map<Bytes, nat>) {
    var books := BooksOf(profiles, records);
    && Enters(profiles, records)
    && AsExpected(books.stages) && Tallies(expected, books.stages)
    && Closes(books.byProfile, profiles)
  }

  /** The entry loop. */
  method EnterRecords(records: seq<Record>, profiles: seq<Profile>) returns (r: Option<Ledger>)
    ensures r == if Enters(profiles, records) then Some(BooksOf(profiles, records)) else None
  {
    var l := EMPTY;
    var i := 0;
    NoBooks(profiles);
    assert records[..0] == [];
    while i < |records|
      invariant 0 <= i <= |records|
      invariant Enters(profiles, records[..i]) && l == BooksOf(profiles, records[..i])
    {
      EnterNext(profiles, records[..i], records[i]);
      assert records[..i] + [records[i]] == records[..i + 1];
      var entered := Enter(l, profiles, records[i]);
      if entered.None? {
        StaysRefused(profiles, records, i + 1);
        return None;
      }
      l := entered.value;
      i := i + 1;
    }
    assert records[..i] == records;
    return Some(l);
  }

  lemma StaysRefused(profiles: seq<Profile>, records: seq<Record>, n: nat)
    requires n <= |records| && !Enters(profiles, records[..n])
    ensures !Enters(profiles, records)
  {
    if Enters(profiles, records) {
      EntersPrefix(profiles, records, n);
    }
  }

  method VerifyBoundaries(records: seq<Record>, profiles: seq<Profile>, expected: map<Bytes, nat>) returns (ok: bool)
    ensures ok <==> Accepts(records, profiles, expected)
  {
    var entered := EnterRecords(records, profiles);
    if entered.None? {
      return false;
    }
    var l := entered.value;
    var counts;
    ok, counts := CountPhysical(l.stages);
    if ok && Tallies(expected, l.stages) {
      TalliesUnique(counts, expected, l.stages);
    }
    if !ok || counts != expected {
      return false;
    }
    ok := CloseProfiles(l.byProfile, profiles);
  }

  /** Acceptance does not depend on the order of the records. */
  lemma AcceptsAnyOrder(records: seq<Record>, other: seq<Record>, profiles: seq<Profile>, expected: map<Bytes, nat>)
    requires multiset(records) == multiset(other)
    ensures Accepts(records, profiles, expected) <==> Accepts(other, profiles, expected)
  {
    BooksAnyOrder(profiles, records, other);
  }

  /** The books balance: in an accepted ledger the number of records is the sum of
      the profiles' declared site counts, is the sum over occurrences of their
      stage counts, and is the plain occurrences plus twice the typed ones; and
      the expected counts add up to the occurrences. */
  lemma BooksBalance(records: seq<Record>, profiles: seq<Profile>, expected: map<Bytes, nat>)
    requires Accepts(records, profiles, expected)
    ensures var stages := BooksOf(profiles, records).stages;
            && |records| == DeclaredSum(profiles)
            && |records| == Total(stages, Size)
            && |records| == Total(OfKind(stages, false), One) + 2 * Total(OfKind(stages, true), One)
            && Total(expected, Count) == Total(stages, One)
  {
    var l := BooksOf(profiles, records);
    BooksHoldEveryRecord(profiles, records);
    ExpectedTotals(l.stages);
    ClosedBookBalances(l.byProfile, profiles);
    var counts := TalliesTotal(l.stages);
    TalliesUnique(counts, expected, l.stages);
  }

  // ---- the names and numbers, written out ----

  /** What the profiles must declare. */
  lemma ClosesExactly(byProfile: map<Bytes, nat>, profiles: seq<Profile>)
    ensures Closes(byProfile, profiles) <==>
            && byProfile.Keys <= Ids(profiles)
            && forall i :: 0 <= i < |profiles| ==>
                 var due := Due(byProfile, profiles, i);
                 && profiles[i].declared == Some(due) && profiles[i].policyOk
                 && profiles[i].status == if due == 0 then Ascii("none") else Ascii("observed")
  {
    forall i | 0 <= i < |profiles|
      ensures var due := Due(byProfile, profiles, i);
              ProfileAgrees(profiles[i], due) <==>
              && profiles[i].declared == Some(due) && profiles[i].policyOk
              && profiles[i].status == if due == 0 then Ascii("none") else Ascii("observed")
    {
      AgreesExactly(profiles[i], Due(byProfile, profiles, i));
    }
  }

  lemma AgreesExactly(p: Profile, due: nat)
    ensures ProfileAgrees(p, due) <==>
            p.declared == Some(due) && p.policyOk && p.status == if due == 0 then Ascii("none") else Ascii("observed")
  {}

  /** Which stages must report an occurrence: semantic and typed for the five
      reflection kinds, syntax for every other. */
  lemma StagesExactly(o: Occurrence)
    ensures ExpectedStages(o) ==
            if || o.boundary == Ascii("reflection_call") || o.boundary == Ascii("reflection_call_slice")
               || o.boundary == Ascii("reflection_field_lookup") || o.boundary == Ascii("reflection_make_func")
               || o.boundary == Ascii("reflection_method_lookup")
            then {Ascii("semantic"), Ascii("typed")} else {Ascii("syntax")}
  {}

  /** The stage of a profile ID is that of the last profile with it. */
  lemma {:induction false} LastStageCounts(profiles: seq<Profile>, id: Bytes)
    ensures StageOf(profiles, id).None? <==> id !in Ids(profiles)
    ensures StageOf(profiles, id).Some? ==>
              exists i :: 0 <= i < |profiles| && profiles[i].id == id && StageOf(profiles, id) == Some(profiles[i].stage)
                          && forall j :: i < j < |profiles| ==> profiles[j].id != id
  {
    if profiles != [] {
      var n := |profiles| - 1;
      LastStageCounts(profiles[..n], id);
      assert profiles[..n + 1] == profiles;
      IdsSnoc(profiles, n);
    }
  }
}
