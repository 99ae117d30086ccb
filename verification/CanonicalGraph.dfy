/** The cross-checkout canonical graph: provenance fields removed, profiles and
    nodes sorted by ID, edges sorted by their text. What is compared is the
    digest of the canonical text, so equality here is equality of text: member
    order counts. */
module CanonicalGraph {
  import opened Bytes
  import opened Sorting
  import opened Json
  import opened JsonText

  datatype Part = Profiles | Nodes | Edges

  function PartName(part: Part): (name: Bytes) {
    match part
    case Profiles => Ascii("profiles")
    case Nodes => Ascii("nodes")
    case Edges => Ascii("edges")
  }

  // ---- stripping one item ----

  /** Keys removed from the item itself. */
  function ItemKeys(part: Part): (keys: seq<Bytes>) {
    match part
    case Profiles => []
    case Nodes => [Ascii("locator")]
    case Edges => [Ascii("id"), Ascii("site_id")]
  }

  /** Keys removed from the item's `properties` object, which edges need not have. */
  function PropertyKeys(part: Part): (keys: seq<Bytes>) {
    match part
    case Profiles => [Ascii("invocation_ledger_digest"), Ascii("mir_ledger_digest")]
    case Nodes => [Ascii("build_provenance"), Ascii("mir_unit_digest")]
    case Edges => []
  }

  function PropertiesKey(): (key: Bytes) { Ascii("properties") }

  /** Replace the value of an existing key in place. */
  function SetValue(ms: seq<Member>, key: Bytes, v: Json): (r: seq<Member>)
    requires HasKey(ms, key)
    ensures |r| == |ms|
  {
    ms[KeyIndex(ms, key) := Member(key, v)]
  }

  /** The item without its provenance fields, or `None` where the original stops. */
  function StripItem(v: Json, itemKeys: seq<Bytes>, propertyKeys: seq<Bytes>, needProperties: bool): (r: Option<Json>) {
    if !v.Obj? then None
    else
      var ms := RemoveAll(v.members, itemKeys);
      if !needProperties then Some(Obj(ms))
      else match Get(ms, PropertiesKey())
        case Some(Obj(ps)) => Some(Obj(SetValue(ms, PropertiesKey(), Obj(RemoveAll(ps, propertyKeys)))))
        case _ => None
  }

  function StripOf(part: Part, v: Json): (r: Option<Json>) {
    StripItem(v, ItemKeys(part), PropertyKeys(part), !part.Edges?)
  }

  function StripAll(part: Part, items: seq<Json>): (r: Option<seq<Json>>) {
    if items == [] then Some([])
    else match StripOf(part, items[0])
      case None => None
      case Some(v) => Prefixed([v], StripAll(part, items[1..]))
  }

  // ---- sorting and assembling ----

  /** Order of `left["id"].as_str()`: a missing or non-string ID comes first. */
  function IdKey(v: Json): (k: Bytes) {
    if v.Obj? then match Get(v.members, Ascii("id"))
      case Some(Str(s)) => [1] + s
      case _ => []
    else []
  }

  /** The stripped items of one part of the graph, in the original order. */
  function Section(g: Json, part: Part): (r: Option<seq<Json>>) {
    if !g.Obj? then None
    else match Get(g.members, PartName(part))
      case Some(Arr(items)) => StripAll(part, items)
      case _ => None
  }

  function Assemble(profiles: seq<Json>, nodes: seq<Json>, edges: seq<Json>): (v: Json) {
    Obj([Member(PartName(Profiles), Arr(profiles)), Member(PartName(Nodes), Arr(nodes)), Member(PartName(Edges), Arr(edges))])
  }

  function Canonical(g: Json): (r: Option<Json>) {
    match (Section(g, Profiles), Section(g, Nodes), Section(g, Edges))
    case (Some(ps), Some(ns), Some(es)) => Some(Assemble(Sort(IdKey, ps), Sort(IdKey, ns), Sort(Render, es)))
    case _ => None
  }

  /** The strip loop over one part. */
  method StripSection(g: Json, part: Part) returns (r: Option<seq<Json>>)
    ensures r == Section(g, part)
  {
    if !g.Obj? {
      return None;
    }
    var field := Get(g.members, PartName(part));
    if field.None? || !field.value.Arr? {
      return None;
    }
    r := StripEach(field.value.items, part);
  }

  method StripEach(items: seq<Json>, part: Part) returns (r: Option<seq<Json>>)
    ensures r == StripAll(part, items)
  {
    var out: seq<Json> := [];
    var i := 0;
    assert items[0..] == items;
    PrefixedNothing(StripAll(part, items));
    while i < |items|
      invariant 0 <= i <= |items|
      invariant StripAll(part, items) == Prefixed(out, StripAll(part, items[i..]))
    {
      StripAllStep(part, items, i, out);
      var stripped := StripOf(part, items[i]);
      if stripped.None? {
        return None;
      }
      out := out + [stripped.value];
      i := i + 1;
    }
    assert items[i..] == [] && out + [] == out;
    return Some(out);
  }

  lemma StripAllStep(part: Part, items: seq<Json>, i: nat, out: seq<Json>)
    requires i < |items|
    ensures Prefixed(out, StripAll(part, items[i..])) ==
            if StripOf(part, items[i]).None? then None
            else Prefixed(out + [StripOf(part, items[i]).value], StripAll(part, items[i + 1..]))
  {
    assert items[i..][1..] == items[i + 1..];
    if StripOf(part, items[i]).Some? {
      PrefixedTwice(out, [StripOf(part, items[i]).value], StripAll(part, items[i + 1..]));
    }
  }

  method CanonicalCheckoutGraph(g: Json) returns (r: Option<Json>)
    ensures r == Canonical(g)
  {
    var profiles := StripSection(g, Profiles);
    if profiles.None? {
      return None;
    }
    var nodes := StripSection(g, Nodes);
    if nodes.None? {
      return None;
    }
    var edges := StripSection(g, Edges);
    if edges.None? {
      return None;
    }
    return Some(Assemble(Sort(IdKey, profiles.value), Sort(IdKey, nodes.value), Sort(Render, edges.value)));
  }

  // ---- exactness ----

  ghost predicate AllPrintable(vs: seq<Json>) {
    forall i :: 0 <= i < |vs| ==> Printable(vs[i])
  }

  lemma EdgeTextsDetermine(es: seq<Json>)
    requires AllPrintable(es)
    ensures KeyDetermines(Render, es)
  {
    forall x, y | x in es && y in es && Render(x) == Render(y)
      ensures x == y
    {
      RenderInjective(x, y);
    }
  }

  ghost predicate DistinctIds(vs: seq<Json>) {
    forall i, j :: 0 <= i < j < |vs| ==> IdKey(vs[i]) != IdKey(vs[j])
  }

  /** Distinct IDs are more than enough for IDs to determine items. */
  lemma DistinctIdsDetermine(vs: seq<Json>)
    requires DistinctIds(vs)
    ensures KeyDetermines(IdKey, vs)
  {
    forall x, y | x in vs && y in vs && IdKey(x) == IdKey(y)
      ensures x == y
    {
      var i :| 0 <= i < |vs| && vs[i] == x;
      var j :| 0 <= j < |vs| && vs[j] == y;
    }
  }

  lemma AssembleInjective(a: seq<Json>, b: seq<Json>, c: seq<Json>, a': seq<Json>, b': seq<Json>, c': seq<Json>)
    ensures Assemble(a, b, c) == Assemble(a', b', c') <==> a == a' && b == b' && c == c'
  {
    var v, v' := Assemble(a, b, c), Assemble(a', b', c');
    assert v.members[0].value == Arr(a) && v'.members[0].value == Arr(a');
    assert v.members[1].value == Arr(b) && v'.members[1].value == Arr(b');
    assert v.members[2].value == Arr(c) && v'.members[2].value == Arr(c');
  }

  /** Two graphs have the same stripped profiles, nodes and edges, as multisets. */
  ghost predicate SameContents(g: Json, g': Json)
    requires Canonical(g).Some? && Canonical(g').Some?
  {
    && multiset(Section(g, Profiles).value) == multiset(Section(g', Profiles).value)
    && multiset(Section(g, Nodes).value) == multiset(Section(g', Nodes).value)
    && multiset(Section(g, Edges).value) == multiset(Section(g', Edges).value)
  }

  lemma SortedExact(ps: seq<Json>, ns: seq<Json>, es: seq<Json>, ps': seq<Json>, ns': seq<Json>, es': seq<Json>)
    requires KeyDetermines(IdKey, ps) && KeyDetermines(IdKey, ns) && KeyDetermines(Render, es)
    ensures (Assemble(Sort(IdKey, ps), Sort(IdKey, ns), Sort(Render, es))
             == Assemble(Sort(IdKey, ps'), Sort(IdKey, ns'), Sort(Render, es')))
            <==> (multiset(ps) == multiset(ps') && multiset(ns) == multiset(ns') && multiset(es) == multiset(es'))
  {
    SortCanonical(IdKey, ps, ps');
    SortCanonical(IdKey, ns, ns');
    SortCanonical(Render, es, es');
    AssembleInjective(Sort(IdKey, ps), Sort(IdKey, ns), Sort(Render, es), Sort(IdKey, ps'), Sort(IdKey, ns'), Sort(Render, es'));
  }

  lemma CanonicalExact(g: Json, g': Json)
    requires Canonical(g).Some? && Canonical(g').Some?
    requires KeyDetermines(IdKey, Section(g, Profiles).value) && KeyDetermines(IdKey, Section(g, Nodes).value)
    requires AllPrintable(Section(g, Edges).value)
    ensures Canonical(g) == Canonical(g') <==> SameContents(g, g')
  {
    var ps, ns, es := Section(g, Profiles).value, Section(g, Nodes).value, Section(g, Edges).value;
    var ps', ns', es' := Section(g', Profiles).value, Section(g', Nodes).value, Section(g', Edges).value;
    EdgeTextsDetermine(es);
    SortedExact(ps, ns, es, ps', ns', es');
  }

  // ---- printable in, printable out ----

  lemma RemoveAllPrintable(ms: seq<Member>, keys: seq<Bytes>)
    requires Printable(Obj(ms))
    ensures Printable(Obj(RemoveAll(ms, keys)))
  {
    var r := RemoveAll(ms, keys);
    forall i | 0 <= i < |r|
      ensures Printable(r[i].value)
    {
      assert r[i] in ms;
    }
  }

  lemma StripPrintable(part: Part, v: Json)
    requires Printable(v) && StripOf(part, v).Some?
    ensures Printable(StripOf(part, v).value)
  {
    var ms := RemoveAll(v.members, ItemKeys(part));
    RemoveAllPrintable(v.members, ItemKeys(part));
    if !part.Edges? {
      var ps := Get(ms, PropertiesKey()).value.members;
      assert Printable(Obj(ms));
      assert Printable(ms[KeyIndex(ms, PropertiesKey())].value);
      RemoveAllPrintable(ps, PropertyKeys(part));
    }
  }

  lemma {:induction false} StripAllPrintable(part: Part, items: seq<Json>)
    requires AllPrintable(items) && StripAll(part, items).Some?
    ensures AllPrintable(StripAll(part, items).value)
  {
    if items != [] {
      StripPrintable(part, items[0]);
      StripAllPrintable(part, items[1..]);
    }
  }

  lemma SectionPrintable(g: Json, part: Part)
    requires Printable(g) && Section(g, part).Some?
    ensures AllPrintable(Section(g, part).value)
  {
    var items := Get(g.members, PartName(part)).value.items;
    assert Printable(g.members[KeyIndex(g.members, PartName(part))].value);
    StripAllPrintable(part, items);
  }

  lemma SortPrintable(key: Json -> Bytes, vs: seq<Json>)
    requires AllPrintable(vs)
    ensures AllPrintable(Sort(key, vs))
  {
    SortPermutes(key, vs);
    MultisetMembers(Sort(key, vs), vs);
    assert forall i :: 0 <= i < |vs| ==> Sort(key, vs)[i] in vs;
  }

  lemma AssemblePrintable(a: seq<Json>, b: seq<Json>, c: seq<Json>)
    requires AllPrintable(a) && AllPrintable(b) && AllPrintable(c)
    ensures Printable(Assemble(a, b, c))
  {
    assert Printable(Arr(a)) && Printable(Arr(b)) && Printable(Arr(c));
  }

  lemma CanonicalPrintable(g: Json)
    requires Printable(g) && Canonical(g).Some?
    ensures Printable(Canonical(g).value)
  {
    SectionPrintable(g, Profiles);
    SectionPrintable(g, Nodes);
    SectionPrintable(g, Edges);
    SortPrintable(IdKey, Section(g, Profiles).value);
    SortPrintable(IdKey, Section(g, Nodes).value);
    SortPrintable(Render, Section(g, Edges).value);
    AssemblePrintable(Sort(IdKey, Section(g, Profiles).value), Sort(IdKey, Section(g, Nodes).value),
                      Sort(Render, Section(g, Edges).value));
  }

  /** The compared digest is exact: for graphs whose IDs determine their profiles
      and nodes, the canonical texts are equal iff the stripped profiles, nodes
      and edges are the same multisets. */
  lemma CanonicalTextExact(g: Json, g': Json)
    requires Printable(g) && Printable(g') && Canonical(g).Some? && Canonical(g').Some?
    requires KeyDetermines(IdKey, Section(g, Profiles).value) && KeyDetermines(IdKey, Section(g, Nodes).value)
    ensures Render(Canonical(g).value) == Render(Canonical(g').value) <==> SameContents(g, g')
  {
    SectionPrintable(g, Edges);
    CanonicalPrintable(g);
    CanonicalPrintable(g');
    RenderInjective(Canonical(g).value, Canonical(g').value);
    CanonicalExact(g, g');
  }

  /** In particular for the graphs the tool exports, whose IDs are unique. */
  lemma UniqueIdsTextExact(g: Json, g': Json)
    requires Printable(g) && Printable(g') && Canonical(g).Some? && Canonical(g').Some?
    requires DistinctIds(Section(g, Profiles).value) && DistinctIds(Section(g, Nodes).value)
    ensures Render(Canonical(g).value) == Render(Canonical(g').value) <==> SameContents(g, g')
  {
    DistinctIdsDetermine(Section(g, Profiles).value);
    DistinctIdsDetermine(Section(g, Nodes).value);
    CanonicalTextExact(g, g');
  }

  /** The condition on IDs is exact: the sorted section forgets the order of the
      input iff IDs determine items. */
  lemma IdConditionIsExact(items: seq<Json>)
    ensures OrderIrrelevant(IdKey, items) <==> KeyDetermines(IdKey, items)
  {
    SortOrderIndependent(IdKey, items);
  }

  // ---- rewriting provenance ----

  /** The same members in the same places, up to the values of `keys`. */
  ghost predicate SameExcept(a: seq<Member>, b: seq<Member>, keys: seq<Bytes>) {
    |a| == |b| && forall i :: 0 <= i < |a| ==> a[i].key == b[i].key && (a[i].key in keys || a[i] == b[i])
  }

  lemma {:induction false} SameKeyIndex(a: seq<Member>, b: seq<Member>, key: Bytes)
    requires |a| == |b| && forall i :: 0 <= i < |a| ==> a[i].key == b[i].key
    ensures KeyIndex(a, key) == KeyIndex(b, key)
  {
    if a != [] && a[0].key != key {
      SameKeyIndex(a[1..], b[1..], key);
    }
  }

  lemma SwapRemoveSame(a: seq<Member>, b: seq<Member>, key: Bytes, keys: seq<Bytes>)
    requires DistinctKeys(a) && SameExcept(a, b, [key] + keys)
    ensures SameExcept(SwapRemove(a, key), SwapRemove(b, key), keys)
  {
    SameKeyIndex(a, b, key);
    SwapRemoveSize(a, key);
    SwapRemoveSize(b, key);
    var n := KeyIndex(a, key);
    var ra, rb := SwapRemove(a, key), SwapRemove(b, key);
    forall i | 0 <= i < |ra|
      ensures ra[i].key == rb[i].key && (ra[i].key in keys || ra[i] == rb[i])
    {
      var j := if i == n then |a| - 1 else i;
      SwapRemoveAt(a, key, i);
      SwapRemoveAt(b, key, i);
      assert a[j].key != key;
      assert a[j].key in [key] + keys ==> a[j].key in keys;
    }
  }

  lemma {:induction false} RemoveAllSame(a: seq<Member>, b: seq<Member>, keys: seq<Bytes>, others: seq<Bytes>)
    requires DistinctKeys(a) && SameExcept(a, b, keys + others)
    ensures SameExcept(RemoveAll(a, keys), RemoveAll(b, keys), others)
    decreases |keys|
  {
    if keys == [] {
      assert keys + others == others;
    } else {
      assert keys + others == [keys[0]] + (keys[1..] + others);
      SwapRemoveSame(a, b, keys[0], keys[1..] + others);
      SwapRemoveDistinct(a, keys[0]);
      RemoveAllSame(SwapRemove(a, keys[0]), SwapRemove(b, keys[0]), keys[1..], others);
    }
  }

  /** `w` is `v` with other values in its provenance fields. */
  ghost predicate Rewritten(part: Part, v: Json, w: Json) {
    && v.Obj? && w.Obj? && DistinctKeys(v.members)
    && SameExcept(v.members, w.members, ItemKeys(part) + [PropertiesKey()])
    && match (Get(v.members, PropertiesKey()), Get(w.members, PropertiesKey()))
       case (Some(Obj(a)), Some(Obj(b))) => DistinctKeys(a) && SameExcept(a, b, PropertyKeys(part))
       case (a, b) => a == b
  }

  lemma SameExceptNothing(a: seq<Member>, b: seq<Member>)
    requires SameExcept(a, b, [])
    ensures a == b
  {}

  lemma PropertiesAreKept(part: Part)
    ensures PropertiesKey() !in ItemKeys(part)
  {
    assert |Ascii("properties")| == 10 && |Ascii("locator")| == 7;
  }

  lemma RewrittenProperties(part: Part, v: Json, w: Json)
    requires Rewritten(part, v, w)
    ensures var ms, ms' := RemoveAll(v.members, ItemKeys(part)), RemoveAll(w.members, ItemKeys(part));
            && SameExcept(ms, ms', [PropertiesKey()])
            && Get(ms, PropertiesKey()) == Get(v.members, PropertiesKey())
            && Get(ms', PropertiesKey()) == Get(w.members, PropertiesKey())
  {
    PropertiesAreKept(part);
    RemoveAllSame(v.members, w.members, ItemKeys(part), [PropertiesKey()]);
    RemoveAllGet(v.members, ItemKeys(part), PropertiesKey());
    RemoveAllGet(w.members, ItemKeys(part), PropertiesKey());
  }

  lemma SetValueSame(a: seq<Member>, b: seq<Member>, key: Bytes, v: Json)
    requires HasKey(a, key) && HasKey(b, key) && DistinctKeys(a) && SameExcept(a, b, [key])
    ensures SetValue(a, key, v) == SetValue(b, key, v)
  {
    SameKeyIndex(a, b, key);
    var n := KeyIndex(a, key);
    assert forall i :: 0 <= i < |a| && i != n ==> a[i].key != key && a[i] == b[i];
  }

  /** Rewriting the provenance of a profile or node, values only, changes nothing. */
  lemma RewriteIsInvisible(part: Part, v: Json, w: Json)
    requires !part.Edges? && Rewritten(part, v, w)
    ensures StripOf(part, v) == StripOf(part, w)
  {
    var ms, ms' := RemoveAll(v.members, ItemKeys(part)), RemoveAll(w.members, ItemKeys(part));
    RewrittenProperties(part, v, w);
    var a, b := Get(ms, PropertiesKey()), Get(ms', PropertiesKey());
    if a.Some? && a.value.Obj? && b.Some? && b.value.Obj? {
      assert PropertyKeys(part) + [] == PropertyKeys(part);
      RemoveAllSame(a.value.members, b.value.members, PropertyKeys(part), []);
      SameExceptNothing(RemoveAll(a.value.members, PropertyKeys(part)), RemoveAll(b.value.members, PropertyKeys(part)));
      RemoveAllMember(v.members, ItemKeys(part), Member([], Null));
      SetValueSame(ms, ms', PropertiesKey(), Obj(RemoveAll(a.value.members, PropertyKeys(part))));
    }
  }

  /** The same for an edge's ID and site ID. */
  lemma EdgeRewriteIsInvisible(a: seq<Member>, b: seq<Member>)
    requires DistinctKeys(a) && SameExcept(a, b, ItemKeys(Edges))
    ensures StripOf(Edges, Obj(a)) == StripOf(Edges, Obj(b))
  {
    assert ItemKeys(Edges) + [] == ItemKeys(Edges);
    RemoveAllSame(a, b, ItemKeys(Edges), []);
    SameExceptNothing(RemoveAll(a, ItemKeys(Edges)), RemoveAll(b, ItemKeys(Edges)));
  }

  // ---- only the named fields are removed ----

  lemma SetValueGet(ms: seq<Member>, key: Bytes, v: Json, k: Bytes)
    requires DistinctKeys(ms) && HasKey(ms, key)
    ensures Get(SetValue(ms, key, v), k) == if k == key then Some(v) else Get(ms, k)
  {
    var r := SetValue(ms, key, v);
    assert forall i :: 0 <= i < |ms| ==> r[i].key == ms[i].key;
    SameKeyIndex(r, ms, k);
  }

  /** Stripping a profile or node removes exactly its named keys and, inside
      `properties`, exactly the named ones; every other field keeps its value. */
  lemma StripKeepsTheRest(part: Part, ms: seq<Member>, k: Bytes)
    requires !part.Edges? && DistinctKeys(ms) && StripOf(part, Obj(ms)).Some?
    requires Get(ms, PropertiesKey()).Some? && Get(ms, PropertiesKey()).value.Obj?
    requires DistinctKeys(Get(ms, PropertiesKey()).value.members)
    ensures var ps, w := Get(ms, PropertiesKey()).value.members, StripOf(part, Obj(ms)).value.members;
            && (k in ItemKeys(part) ==> Get(w, k) == None)
            && (k !in ItemKeys(part) && k != PropertiesKey() ==> Get(w, k) == Get(ms, k))
            && Get(w, PropertiesKey()) == Some(Obj(RemoveAll(ps, PropertyKeys(part))))
            && Get(RemoveAll(ps, PropertyKeys(part)), k) == (if k in PropertyKeys(part) then None else Get(ps, k))
  {
    var kept, ps := RemoveAll(ms, ItemKeys(part)), Get(ms, PropertiesKey()).value.members;
    PropertiesAreKept(part);
    RemoveAllMember(ms, ItemKeys(part), Member([], Null));
    RemoveAllGet(ms, ItemKeys(part), PropertiesKey());
    RemoveAllGet(ms, ItemKeys(part), k);
    RemoveAllGet(ps, PropertyKeys(part), k);
    SetValueGet(kept, PropertiesKey(), Obj(RemoveAll(ps, PropertyKeys(part))), k);
    SetValueGet(kept, PropertiesKey(), Obj(RemoveAll(ps, PropertyKeys(part))), PropertiesKey());
  }

  // ---- where member order shows ----

  /** Equal values with their members in another order canonicalize to different
      texts: here a graph with the single edge {"a":1,"b":1} or {"b":1,"a":1}. */
  lemma MemberOrderShows()
    ensures var one := Num([49]);
            var e, e' := Obj([Member([97], one), Member([98], one)]), Obj([Member([98], one), Member([97], one)]);
            && SameValue(e, e')
            && StripOf(Edges, e) == Some(e) && StripOf(Edges, e') == Some(e')
            && Render(e) != Render(e')
  {
    var one := Num([49]);
    var ms, ms' := [Member([97], one), Member([98], one)], [Member([98], one), Member([97], one)];
    GetAt(ms', 0);
    GetAt(ms', 1);
    assert SameValue(Obj(ms), Obj(ms'));
    assert |Ascii("id")| == 2 && |Ascii("site_id")| == 7;
    RemoveAllAbsent(ms, ItemKeys(Edges));
    RemoveAllAbsent(ms', ItemKeys(Edges));
    assert ms[0] != ms'[0];
    RenderInjective(Obj(ms), Obj(ms'));
  }

  /** It even shows in the value: edges are ordered by text, so equal edges with
      another member order can land in another place of the array. */
  lemma MemberOrderMovesEdges()
    ensures var one, two := Num([49]), Num([50]);
            var x, x' := Obj([Member([97], one), Member([98], one)]), Obj([Member([98], one), Member([97], one)]);
            var y := Obj([Member([97], two)]);
            && SameValue(x, x')
            && Sort(Render, [x, y]) == [x, y] && Sort(Render, [x', y]) == [y, x']
            && !SameValue(Arr([x, y]), Arr([y, x']))
  {
    var one, two := Num([49]), Num([50]);
    var x, x' := Obj([Member([97], one), Member([98], one)]), Obj([Member([98], one), Member([97], one)]);
    var y := Obj([Member([97], two)]);
    MemberOrderShows();
    TextsCompare(97, [49], 97, [50], [Member([98], one)], [], 5);
    TextsCompare(97, [50], 98, [49], [], [Member([97], one)], 2);
    assert [Member([97], one)] + [Member([98], one)] == x.members && [Member([97], two)] + [] == y.members;
    assert [Member([98], one)] + [Member([97], one)] == x'.members;
    SortPair(Render, x, y);
    SortPair(Render, x', y);
    ArraysDiffer(x, y, x');
  }

  lemma ArraysDiffer(x: Json, y: Json, z: Json)
    requires x.Obj? && y.Obj? && |x.members| != |y.members|
    ensures !SameValue(Arr([x, y]), Arr([y, z]))
  {
    assert !SameValue(x, y);
    assert Arr([x, y]).items[0] == x && Arr([y, z]).items[0] == y;
  }

  /** Comparing two object texts by their first differing byte. */
  lemma TextsCompare(k: byte, n: Bytes, k': byte, n': Bytes, rest: seq<Member>, rest': seq<Member>, at: nat)
    requires 48 <= k && 48 <= k' && k != BACKSLASH && k' != BACKSLASH && n != [] && n' != []
    requires (at == 2 && k < k') || (at == 5 && k == k' && n[0] < n'[0])
    ensures var v, w := Obj([Member([k], Num(n))] + rest), Obj([Member([k'], Num(n'))] + rest');
            Leq(Render(v), Render(w)) && !Leq(Render(w), Render(v))
  {
    var v, w := Obj([Member([k], Num(n))] + rest), Obj([Member([k'], Num(n'))] + rest');
    TextOfFirstMember(k, Num(n), rest);
    TextOfFirstMember(k', Num(n'), rest');
    var a, b := Render(v), Render(w);
    assert a[0] == b[0] && a[1] == b[1] && a[2] == k && b[2] == k' && a[3] == b[3] && a[4] == b[4];
    assert a[5] == n[0] && b[5] == n'[0];
    assert a[..at] == b[..at];
    LeqAt(a, b, at);
  }

  lemma SortPair<T>(key: T -> Bytes, x: T, y: T)
    ensures Sort(key, [x, y]) == if Leq(key(x), key(y)) then [x, y] else [y, x]
  {
    assert [x, y][1..] == [y] && [y][1..] == [];
    assert Sort(key, [y]) == Insert(key, y, Sort(key, [y][1..])) == [y];
    assert Sort(key, [x, y]) == Insert(key, x, [y]);
    assert Insert(key, x, [y][1..]) == [x];
  }

  /** The text of an object up to the end of its first member. */
  lemma TextOfFirstMember(k: byte, v: Json, rest: seq<Member>)
    requires v.Num? && 48 <= k && k != BACKSLASH
    ensures Render(Obj([Member([k], v)] + rest)) == [123, QUOTE, k, QUOTE, COLON] + v.text + RenderMembers(rest, false)
  {
    var ms := [Member([k], v)] + rest;
    assert ms[0] == Member([k], v) && ms[1..] == rest;
    QuotedByte(k);
    MembersSplit(ms, true, []);
    var m := RenderMembers(rest, false);
    assert m + [] == m && RenderMembers(ms, true) + [] == RenderMembers(ms, true);
    assert RenderMembers(ms, true) == [QUOTE, k, QUOTE] + ([COLON] + (v.text + m));
  }

  lemma QuotedByte(k: byte)
    requires 48 <= k && k != BACKSLASH
    ensures Quoted([k]) == [QUOTE, k, QUOTE]
  {
    assert [k][1..] == [] && Escape([k]) == EscapeByte(k) + Escape([k][1..]) == [k];
  }
}
