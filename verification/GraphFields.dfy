/** The canonical graph field by field: which fields are dropped, read and sorted
    by, with their names. */
module GraphFields {
  import opened Bytes
  import opened Sorting
  import opened Json
  import opened JsonText
  import opened CanonicalGraph
  import opened AbsentFields

  // ---- what is dropped ----

  lemma DroppedFromNodes(k: Bytes)
    ensures k in ItemKeys(Nodes) <==> k == Ascii("locator")
    ensures k in PropertyKeys(Nodes) <==> k == Ascii("build_provenance") || k == Ascii("mir_unit_digest")
  {}

  lemma DroppedFromProfiles(k: Bytes)
    ensures k !in ItemKeys(Profiles)
    ensures k in PropertyKeys(Profiles) <==> k == Ascii("invocation_ledger_digest") || k == Ascii("mir_ledger_digest")
  {}

  lemma DroppedFromEdges(k: Bytes)
    ensures k in ItemKeys(Edges) <==> k == Ascii("id") || k == Ascii("site_id")
  {}

  /** The properties of an item. */
  ghost predicate HasProperties(v: Json, ps: seq<Member>) {
    v.Obj? && DistinctKeys(v.members) && DistinctKeys(ps) && Get(v.members, Ascii("properties")) == Some(Obj(ps))
  }

  /** A stripped node lacks its locator and, among its properties, the build
      provenance and the MIR unit digest; everything else keeps its value. */
  lemma NodeKeeps(v: Json, ps: seq<Member>, k: Bytes)
    requires HasProperties(v, ps)
    ensures StripOf(Nodes, v).Some? && StripOf(Nodes, v).value.Obj?
    ensures var w := StripOf(Nodes, v).value.members;
            && Get(w, Ascii("properties")).Some? && Get(w, Ascii("properties")).value.Obj?
            && (k != Ascii("properties") ==> Get(w, k) == if k == Ascii("locator") then None else Get(v.members, k))
            && Get(Get(w, Ascii("properties")).value.members, k)
               == if k == Ascii("build_provenance") || k == Ascii("mir_unit_digest") then None else Get(ps, k)
  {
    assert PropertiesKey() == Ascii("properties");
    StripSucceeds(Nodes, v, ps);
    StripKeepsTheRest(Nodes, v.members, k);
    DroppedFromNodes(k);
  }

  /** A stripped profile lacks, among its properties, the two ledger digests;
      everything else keeps its value. */
  lemma ProfileKeeps(v: Json, ps: seq<Member>, k: Bytes)
    requires HasProperties(v, ps)
    ensures StripOf(Profiles, v).Some? && StripOf(Profiles, v).value.Obj?
    ensures var w := StripOf(Profiles, v).value.members;
            && Get(w, Ascii("properties")).Some? && Get(w, Ascii("properties")).value.Obj?
            && (k != Ascii("properties") ==> Get(w, k) == Get(v.members, k))
            && Get(Get(w, Ascii("properties")).value.members, k)
               == if k == Ascii("invocation_ledger_digest") || k == Ascii("mir_ledger_digest") then None else Get(ps, k)
  {
    assert PropertiesKey() == Ascii("properties");
    StripSucceeds(Profiles, v, ps);
    StripKeepsTheRest(Profiles, v.members, k);
    DroppedFromProfiles(k);
  }

  /** A stripped edge lacks its ID and its site ID; everything else keeps its value. */
  lemma EdgeKeeps(v: Json, k: Bytes)
    requires v.Obj? && DistinctKeys(v.members)
    ensures StripOf(Edges, v).Some? && StripOf(Edges, v).value.Obj?
    ensures Get(StripOf(Edges, v).value.members, k)
         == if k == Ascii("id") || k == Ascii("site_id") then None else Get(v.members, k)
  {
    RemoveAllGet(v.members, ItemKeys(Edges), k);
    DroppedFromEdges(k);
  }

  lemma StripSucceeds(part: Part, v: Json, ps: seq<Member>)
    requires !part.Edges? && HasProperties(v, ps) && PropertiesKey() == Ascii("properties")
    ensures StripOf(part, v).Some? && StripOf(part, v).value.Obj?
  {
    PropertiesAreKept(part);
    RemoveAllGet(v.members, ItemKeys(part), PropertiesKey());
  }

  /** Which items stop the original: a profile or node without a properties
      object, an edge that is no object. */
  lemma StripFails(v: Json)
    requires v.Obj? ==> DistinctKeys(v.members)
    ensures StripOf(Edges, v).None? <==> !v.Obj?
    ensures StripOf(Nodes, v).None? <==>
            !(v.Obj? && Get(v.members, Ascii("properties")).Some? && Get(v.members, Ascii("properties")).value.Obj?)
    ensures StripOf(Profiles, v).None? <==>
            !(v.Obj? && Get(v.members, Ascii("properties")).Some? && Get(v.members, Ascii("properties")).value.Obj?)
  {
    if v.Obj? {
      StripFailsFor(Nodes, v);
      StripFailsFor(Profiles, v);
      assert PropertiesKey() == Ascii("properties");
    }
  }

  lemma StripFailsFor(part: Part, v: Json)
    requires !part.Edges? && v.Obj? && DistinctKeys(v.members)
    ensures StripOf(part, v).None? <==>
            !(Get(v.members, PropertiesKey()).Some? && Get(v.members, PropertiesKey()).value.Obj?)
  {
    PropertiesAreKept(part);
    RemoveAllGet(v.members, ItemKeys(part), PropertiesKey());
  }

  // ---- other values in the dropped fields ----

  /** Another locator in a node. */
  lemma LocatorIsInvisible(ms: seq<Member>, i: nat, value: Json)
    requires DistinctKeys(ms) && i < |ms| && ms[i].key == Ascii("locator")
    ensures StripOf(Nodes, Obj(ms[i := Member(ms[i].key, value)])) == StripOf(Nodes, Obj(ms))
  {
    DroppedFromNodes(ms[i].key);
    RemovedAlike(ms, ItemKeys(Nodes), i, value);
  }

  /** Another build provenance or MIR unit digest in a node. */
  lemma NodePropertyIsInvisible(ms: seq<Member>, ps: seq<Member>, i: nat, value: Json)
    requires DistinctKeys(ms) && HasKey(ms, PropertiesKey()) && DistinctKeys(ps) && i < |ps|
    requires ps[i].key == Ascii("build_provenance") || ps[i].key == Ascii("mir_unit_digest")
    ensures StripOf(Nodes, WithProperties(ms, ps[i := Member(ps[i].key, value)])) == StripOf(Nodes, WithProperties(ms, ps))
  {
    DroppedFromNodes(ps[i].key);
    PropertyIsInvisible(Nodes, ms, ps, i, value);
  }

  /** Another ledger digest in a profile. */
  lemma ProfilePropertyIsInvisible(ms: seq<Member>, ps: seq<Member>, i: nat, value: Json)
    requires DistinctKeys(ms) && HasKey(ms, PropertiesKey()) && DistinctKeys(ps) && i < |ps|
    requires ps[i].key == Ascii("invocation_ledger_digest") || ps[i].key == Ascii("mir_ledger_digest")
    ensures StripOf(Profiles, WithProperties(ms, ps[i := Member(ps[i].key, value)]))
         == StripOf(Profiles, WithProperties(ms, ps))
  {
    DroppedFromProfiles(ps[i].key);
    PropertyIsInvisible(Profiles, ms, ps, i, value);
  }

  lemma PropertyIsInvisible(part: Part, ms: seq<Member>, ps: seq<Member>, i: nat, value: Json)
    requires !part.Edges? && DistinctKeys(ms) && HasKey(ms, PropertiesKey()) && DistinctKeys(ps) && i < |ps|
    requires ps[i].key in PropertyKeys(part)
    ensures StripOf(part, WithProperties(ms, ps[i := Member(ps[i].key, value)])) == StripOf(part, WithProperties(ms, ps))
  {
    var qs, keys := ps[i := Member(ps[i].key, value)], PropertyKeys(part);
    StripProperties(part, ms, ps);
    StripProperties(part, ms, qs);
    RemovedAlike(ps, keys, i, value);
  }

  lemma RemovedAlike(ms: seq<Member>, keys: seq<Bytes>, i: nat, value: Json)
    requires DistinctKeys(ms) && i < |ms| && ms[i].key in keys
    ensures RemoveAll(ms[i := Member(ms[i].key, value)], keys) == RemoveAll(ms, keys)
  {
    var w := ms[i := Member(ms[i].key, value)];
    assert keys + [] == keys;
    RemoveAllSame(ms, w, keys, []);
    SameExceptNothing(RemoveAll(ms, keys), RemoveAll(w, keys));
  }

  /** Another ID or site ID in an edge. */
  lemma EdgeIdIsInvisible(ms: seq<Member>, i: nat, value: Json)
    requires DistinctKeys(ms) && i < |ms| && (ms[i].key == Ascii("id") || ms[i].key == Ascii("site_id"))
    ensures StripOf(Edges, Obj(ms[i := Member(ms[i].key, value)])) == StripOf(Edges, Obj(ms))
  {
    DroppedFromEdges(ms[i].key);
    EdgeRewriteIsInvisible(ms, ms[i := Member(ms[i].key, value)]);
  }

  // ---- what is read, and in which order it is written ----

  lemma {:induction false} StripAllExact(part: Part, items: seq<Json>)
    ensures StripAll(part, items).Some? <==> forall i :: 0 <= i < |items| ==> StripOf(part, items[i]).Some?
    ensures StripAll(part, items).Some? ==>
              && |StripAll(part, items).value| == |items|
              && forall i :: 0 <= i < |items| ==> StripOf(part, items[i]) == Some(StripAll(part, items).value[i])
  {
    if items != [] {
      StripAllExact(part, items[1..]);
      assert forall i :: 1 <= i < |items| ==> items[i] == items[1..][i - 1];
    }
  }

  /** The array a part of the graph is read from. */
  ghost predicate ReadsFrom(g: Json, name: Bytes, items: seq<Json>) {
    g.Obj? && Get(g.members, name) == Some(Arr(items))
  }

  lemma SectionsAreRead(g: Json, items: seq<Json>)
    ensures ReadsFrom(g, Ascii("profiles"), items) ==> Section(g, Profiles) == StripAll(Profiles, items)
    ensures ReadsFrom(g, Ascii("nodes"), items) ==> Section(g, Nodes) == StripAll(Nodes, items)
    ensures ReadsFrom(g, Ascii("edges"), items) ==> Section(g, Edges) == StripAll(Edges, items)
  {}

  /** The ID of an item, if it is a string. */
  function IdOf(v: Json): (id: Option<Bytes>) {
    if !v.Obj? then None
    else match Get(v.members, Ascii("id"))
      case Some(Str(s)) => Some(s)
      case _ => None
  }

  /** Items without an ID first, then by ID. */
  ghost predicate IdsAscend(vs: seq<Json>) {
    forall i, j :: 0 <= i < j < |vs| && IdOf(vs[i]).Some? ==>
      IdOf(vs[j]).Some? && Leq(IdOf(vs[i]).value, IdOf(vs[j]).value)
  }

  lemma SortedIdsAscend(vs: seq<Json>)
    ensures IdsAscend(Sort(IdKey, vs))
  {
    var sorted := Sort(IdKey, vs);
    SortSorts(IdKey, vs);
    forall i, j | 0 <= i < j < |sorted| && IdOf(sorted[i]).Some?
      ensures IdOf(sorted[j]).Some? && Leq(IdOf(sorted[i]).value, IdOf(sorted[j]).value)
    {
      assert Leq(IdKey(sorted[i]), IdKey(sorted[j]));
      KeyOfId(sorted[i]);
      KeyOfId(sorted[j]);
    }
  }

  lemma KeyOfId(v: Json)
    ensures IdKey(v) == if IdOf(v).Some? then [1] + IdOf(v).value else []
    ensures IdOf(v).Some? ==> IdKey(v)[0] == 1 && IdKey(v)[1..] == IdOf(v).value
  {}

  ghost predicate TextsAscend(vs: seq<Json>) {
    forall i, j :: 0 <= i < j < |vs| ==> Leq(Render(vs[i]), Render(vs[j]))
  }

  /** The canonical graph: the stripped profiles and nodes, ascending by ID, and
      the stripped edges, ascending by text, under their names and in this order. */
  lemma CanonicalIsSorted(g: Json)
    requires Canonical(g).Some?
    ensures var ps, ns, es := Sort(IdKey, Section(g, Profiles).value), Sort(IdKey, Section(g, Nodes).value),
                              Sort(Render, Section(g, Edges).value);
            && Canonical(g).value ==
               Obj([Member(Ascii("profiles"), Arr(ps)), Member(Ascii("nodes"), Arr(ns)), Member(Ascii("edges"), Arr(es))])
            && multiset(ps) == multiset(Section(g, Profiles).value) && IdsAscend(ps)
            && multiset(ns) == multiset(Section(g, Nodes).value) && IdsAscend(ns)
            && multiset(es) == multiset(Section(g, Edges).value) && TextsAscend(es)
  {
    SortPermutes(IdKey, Section(g, Profiles).value);
    SortPermutes(IdKey, Section(g, Nodes).value);
    SortPermutes(Render, Section(g, Edges).value);
    SortedIdsAscend(Section(g, Profiles).value);
    SortedIdsAscend(Section(g, Nodes).value);
    SortSorts(Render, Section(g, Edges).value);
  }
}
