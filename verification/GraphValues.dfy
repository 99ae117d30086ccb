/** Comparing canonical graphs as values, where member order does not count. */
module GraphValues {
  import opened Bytes
  import opened Sorting
  import opened Json
  import opened JsonText
  import opened CanonicalGraph

  // ---- well-formed in, well-formed out ----

  ghost predicate AllWellFormed(vs: seq<Json>) {
    forall i :: 0 <= i < |vs| ==> WellFormed(vs[i])
  }

  lemma RemoveAllWellFormed(ms: seq<Member>, keys: seq<Bytes>)
    requires WellFormed(Obj(ms))
    ensures WellFormed(Obj(RemoveAll(ms, keys)))
  {
    RemoveAllMember(ms, keys, Member([], Null));
    var r := RemoveAll(ms, keys);
    forall i | 0 <= i < |r|
      ensures WellFormed(r[i].value)
    {
      assert r[i] in ms;
    }
  }

  lemma SetValueWellFormed(ms: seq<Member>, key: Bytes, v: Json)
    requires WellFormed(Obj(ms)) && HasKey(ms, key) && WellFormed(v)
    ensures WellFormed(Obj(SetValue(ms, key, v)))
  {}

  lemma StripOfWellFormed(part: Part, v: Json)
    requires WellFormed(v) && StripOf(part, v).Some?
    ensures WellFormed(StripOf(part, v).value)
  {
    var ms := RemoveAll(v.members, ItemKeys(part));
    RemoveAllWellFormed(v.members, ItemKeys(part));
    if !part.Edges? {
      var ps := Get(ms, PropertiesKey()).value.members;
      assert WellFormed(ms[KeyIndex(ms, PropertiesKey())].value);
      RemoveAllWellFormed(ps, PropertyKeys(part));
      SetValueWellFormed(ms, PropertiesKey(), Obj(RemoveAll(ps, PropertyKeys(part))));
    }
  }

  lemma {:induction false} StripAllWellFormed(part: Part, items: seq<Json>)
    requires AllWellFormed(items) && StripAll(part, items).Some?
    ensures AllWellFormed(StripAll(part, items).value)
  {
    if items != [] {
      StripOfWellFormed(part, items[0]);
      StripAllWellFormed(part, items[1..]);
    }
  }

  lemma SectionWellFormed(g: Json, part: Part)
    requires WellFormed(g) && Section(g, part).Some?
    ensures AllWellFormed(Section(g, part).value)
  {
    assert WellFormed(g.members[KeyIndex(g.members, PartName(part))].value);
    StripAllWellFormed(part, Get(g.members, PartName(part)).value.items);
  }

  lemma PermutedWellFormed(vs: seq<Json>, other: seq<Json>)
    requires AllWellFormed(vs) && multiset(other) == multiset(vs)
    ensures AllWellFormed(other)
  {
    MultisetMembers(other, vs);
    assert forall i :: 0 <= i < |other| ==> other[i] in vs;
  }

  // ---- value equality ----

  lemma SameValueEquivalence(u: Json, v: Json, w: Json)
    requires WellFormed(u) && WellFormed(v) && WellFormed(w)
    ensures SameValue(u, u)
    ensures SameValue(u, v) ==> SameValue(v, u)
    ensures SameValue(u, v) && SameValue(v, w) ==> SameValue(u, w)
  {
    SameValueIffAgree(u, u);
    SameValueIffAgree(u, v);
    SameValueIffAgree(v, u);
    SameValueIffAgree(v, w);
    SameValueIffAgree(u, w);
  }

  lemma SameValueSameId(v: Json, w: Json)
    requires WellFormed(v) && WellFormed(w) && SameValue(v, w)
    ensures IdKey(v) == IdKey(w)
  {
    SameChild(v, w, Key(Ascii("id")));
  }

  /** Equal as values, place by place. */
  ghost predicate SameItems(a: seq<Json>, b: seq<Json>) {
    |a| == |b| && forall i :: 0 <= i < |a| ==> SameValue(a[i], b[i])
  }

  lemma SameItemsSameIds(a: seq<Json>, b: seq<Json>)
    requires AllWellFormed(a) && AllWellFormed(b) && SameItems(a, b)
    ensures Map(IdKey, a) == Map(IdKey, b)
  {
    forall i | 0 <= i < |a|
      ensures IdKey(a[i]) == IdKey(b[i])
    {
      SameValueSameId(a[i], b[i]);
    }
  }

  /** The same items, whatever their order and the order of their members: both
      lists can be arranged so that they are equal as values place by place. */
  ghost predicate SameUpToOrder(a: seq<Json>, b: seq<Json>) {
    exists c, d :: multiset(c) == multiset(a) && multiset(d) == multiset(b) && SameItems(c, d)
  }

  /** Items with the same ID are the same value. */
  ghost predicate IdsDetermineValues(vs: seq<Json>) {
    forall x, y :: x in vs && y in vs && IdKey(x) == IdKey(y) ==> SameValue(x, y)
  }

  // ---- sections sorted by ID ----

  /** Sorting by ID lines up two lists that can be lined up at all. */
  lemma LinedUpIds(a: seq<Json>, b: seq<Json>, c: seq<Json>, d: seq<Json>)
    requires AllWellFormed(a) && AllWellFormed(b)
    requires multiset(c) == multiset(a) && multiset(d) == multiset(b) && SameItems(c, d)
    ensures Map(IdKey, Sort(IdKey, a)) == Map(IdKey, Sort(IdKey, b))
  {
    PermutedWellFormed(a, c);
    PermutedWellFormed(b, d);
    SameItemsSameIds(c, d);
    SortedIds(a, c);
    SortedIds(b, d);
  }

  lemma SortedIds(a: seq<Json>, c: seq<Json>)
    requires multiset(c) == multiset(a)
    ensures Map(IdKey, Sort(IdKey, a)) == Sort((k: Bytes) => k, Map(IdKey, c))
  {
    var same := (k: Bytes) => k;
    SortMaps(IdKey, IdKey, same, a);
    SortMaps(IdKey, IdKey, same, c);
    SortPermutes(same, Map(IdKey, a));
    SortPermutes(same, Map(IdKey, c));
    MapPermutes(IdKey, a, c);
    SortCanonical(same, Map(IdKey, a), Map(IdKey, c));
  }

  /** What matches `x` in one arrangement matches everything with the ID of `x`. */
  lemma SameIdSameValue(a: seq<Json>, b: seq<Json>, c: seq<Json>, d: seq<Json>, x: Json, y: Json)
    requires AllWellFormed(a) && AllWellFormed(b) && IdsDetermineValues(a)
    requires multiset(c) == multiset(a) && multiset(d) == multiset(b) && SameItems(c, d)
    requires x in a && y in b && IdKey(x) == IdKey(y)
    ensures SameValue(x, y)
  {
    PermutedWellFormed(a, c);
    PermutedWellFormed(b, d);
    MultisetMembers(c, a);
    MultisetMembers(d, b);
    var j :| 0 <= j < |d| && d[j] == y;
    SameValueSameId(c[j], d[j]);
    assert c[j] in a;
    SameValueEquivalence(x, c[j], y);
  }

  /** Sections sorted by ID: equal as values exactly when the same up to order. */
  lemma SortedByIdExact(a: seq<Json>, b: seq<Json>)
    requires AllWellFormed(a) && AllWellFormed(b) && IdsDetermineValues(a)
    ensures SameItems(Sort(IdKey, a), Sort(IdKey, b)) <==> SameUpToOrder(a, b)
  {
    var sa, sb := Sort(IdKey, a), Sort(IdKey, b);
    SortPermutes(IdKey, a);
    SortPermutes(IdKey, b);
    if SameUpToOrder(a, b) {
      var c, d :| multiset(c) == multiset(a) && multiset(d) == multiset(b) && SameItems(c, d);
      LinedUpIds(a, b, c, d);
      MultisetMembers(sa, a);
      MultisetMembers(sb, b);
      assert |sa| == |Map(IdKey, sa)| == |Map(IdKey, sb)| == |sb|;
      forall i | 0 <= i < |sa|
        ensures SameValue(sa[i], sb[i])
      {
        assert Map(IdKey, sa)[i] == Map(IdKey, sb)[i];
        SameIdSameValue(a, b, c, d, sa[i], sb[i]);
      }
    }
  }

  // ---- the condition on IDs is exact ----

  /** Every rearrangement, of the items or within them, canonicalizes to equal values. */
  ghost predicate ForgetsOrder(a: seq<Json>) {
    forall b :: AllWellFormed(b) && SameUpToOrder(a, b) ==> SameItems(Sort(IdKey, a), Sort(IdKey, b))
  }

  lemma {:induction false} SameItemsWithKey(a: seq<Json>, b: seq<Json>, k: Bytes)
    requires AllWellFormed(a) && AllWellFormed(b) && SameItems(a, b)
    ensures SameItems(WithKey(IdKey, k, a), WithKey(IdKey, k, b))
  {
    if a != [] {
      SameValueSameId(a[0], b[0]);
      SameItemsWithKey(a[1..], b[1..], k);
    }
  }

  /** Two items that share an ID, in the two orders. */
  lemma SwappedItems(a: seq<Json>, x: Json, y: Json, rest: seq<Json>)
    requires AllWellFormed(a) && IdKey(x) == IdKey(y)
    requires multiset([x, y] + rest) == multiset(a) && multiset([y, x] + rest) == multiset(a)
    requires ForgetsOrder(a)
    ensures SameValue(x, y)
  {
    var s, t, k := [x, y] + rest, [y, x] + rest, IdKey(x);
    FirstWithKey(a, s, k, x);
    FirstWithKey(a, t, k, y);
    var first := WithKey(IdKey, k, Sort(IdKey, a))[0];
    PermutedWellFormed(a, s);
    assert WellFormed(s[0]) && WellFormed(s[1]);
    SortPermutes(IdKey, a);
    PermutedWellFormed(a, Sort(IdKey, a));
    WithKeyMembers(Sort(IdKey, a), k);
    SameValueEquivalence(first, x, x);
    SameValueEquivalence(x, first, y);
  }

  lemma {:induction false} WithKeyMembers(a: seq<Json>, k: Bytes)
    requires AllWellFormed(a)
    ensures AllWellFormed(WithKey(IdKey, k, a))
  {
    if a != [] {
      WithKeyMembers(a[1..], k);
    }
  }

  lemma FirstWithKey(a: seq<Json>, s: seq<Json>, k: Bytes, x: Json)
    requires AllWellFormed(a) && multiset(s) == multiset(a) && ForgetsOrder(a)
    requires s != [] && s[0] == x && IdKey(x) == k
    ensures WithKey(IdKey, k, Sort(IdKey, a)) != [] && SameValue(WithKey(IdKey, k, Sort(IdKey, a))[0], x)
  {
    PermutedWellFormed(a, s);
    SameItemsReflexive(a);
    assert SameUpToOrder(a, s);
    SortPermutes(IdKey, a);
    SortPermutes(IdKey, s);
    PermutedWellFormed(a, Sort(IdKey, a));
    PermutedWellFormed(s, Sort(IdKey, s));
    SameItemsWithKey(Sort(IdKey, a), Sort(IdKey, s), k);
    SortStable(IdKey, k, s);
  }

  lemma SameItemsReflexive(a: seq<Json>)
    requires AllWellFormed(a)
    ensures SameItems(a, a)
  {
    forall i | 0 <= i < |a|
      ensures SameValue(a[i], a[i])
    {
      SameValueEquivalence(a[i], a[i], a[i]);
    }
  }

  /** Sorting by ID forgets every order, up to value equality, exactly when IDs
      determine values. */
  lemma ValueIdConditionIsExact(a: seq<Json>)
    requires AllWellFormed(a)
    ensures ForgetsOrder(a) <==> IdsDetermineValues(a)
  {
    if IdsDetermineValues(a) {
      forall b | AllWellFormed(b) && SameUpToOrder(a, b)
        ensures SameItems(Sort(IdKey, a), Sort(IdKey, b))
      {
        SortedByIdExact(a, b);
      }
    }
    if ForgetsOrder(a) {
      forall x, y | x in a && y in a && IdKey(x) == IdKey(y)
        ensures SameValue(x, y)
      {
        if x == y {
          var i :| 0 <= i < |a| && a[i] == x;
          SameValueEquivalence(x, x, x);
        } else {
          var one := TakeOut(a, x);
          var rest := TakeOut(one, y);
          PairMultiset(x, y, rest);
          PairMultiset(y, x, rest);
          SwappedItems(a, x, y, rest);
        }
      }
    }
  }

  // ---- edges ----

  /** Edges that are equal as values list their members in the same order. */
  ghost predicate UniformEdges(a: seq<Json>, b: seq<Json>) {
    forall x, y :: x in a && y in b && SameValue(x, y) ==> x == y
  }

  /** Edges are sorted by text, so equal values must have equal texts. */
  lemma SortedEdgesExact(a: seq<Json>, b: seq<Json>)
    requires AllWellFormed(a) && AllPrintable(a) && UniformEdges(a, b)
    ensures SameItems(Sort(Render, a), Sort(Render, b)) <==> SameUpToOrder(a, b)
  {
    SortPermutes(Render, a);
    SortPermutes(Render, b);
    if SameUpToOrder(a, b) {
      var c, d :| multiset(c) == multiset(a) && multiset(d) == multiset(b) && SameItems(c, d);
      MultisetMembers(c, a);
      MultisetMembers(d, b);
      assert forall i :: 0 <= i < |c| ==> c[i] in a && d[i] in b && c[i] == d[i];
      assert c == d;
      EdgeTextsDetermine(a);
      SortCanonical(Render, a, b);
      PermutedWellFormed(a, Sort(Render, a));
      SameItemsReflexive(Sort(Render, a));
    }
  }

  // ---- whole graphs ----

  lemma AssembledValues(a: seq<Json>, b: seq<Json>, c: seq<Json>, a': seq<Json>, b': seq<Json>, c': seq<Json>)
    ensures SameValue(Assemble(a, b, c), Assemble(a', b', c')) <==>
            SameValue(Arr(a), Arr(a')) && SameValue(Arr(b), Arr(b')) && SameValue(Arr(c), Arr(c'))
  {
    PartNamesDiffer();
    ThreeMembers(Assemble(a, b, c).members, Assemble(a', b', c').members);
  }

  lemma ThreeMembers(ms: seq<Member>, ms': seq<Member>)
    requires |ms| == 3 && |ms'| == 3 && DistinctKeys(ms')
    requires ms[0].key == ms'[0].key && ms[1].key == ms'[1].key && ms[2].key == ms'[2].key
    ensures SameValue(Obj(ms), Obj(ms')) <==>
            && SameValue(ms[0].value, ms'[0].value)
            && SameValue(ms[1].value, ms'[1].value)
            && SameValue(ms[2].value, ms'[2].value)
  {
    SameObjects(ms, ms');
    MatchAt(ms[0], ms', 0);
    MatchAt(ms[1], ms', 1);
    MatchAt(ms[2], ms', 2);
    assert AllMatch(ms, ms') <==> Matches(ms[0], ms') && Matches(ms[1], ms') && Matches(ms[2], ms');
  }

  /** The member has a value-equal counterpart under its key. */
  predicate Matches(m: Member, ms: seq<Member>) {
    var other := Get(ms, m.key);
    other.Some? && SameValue(m.value, other.value)
  }

  predicate AllMatch(a: seq<Member>, b: seq<Member>) {
    |a| == |b| && forall i :: 0 <= i < |a| ==> Matches(a[i], b)
  }

  lemma SameObjects(a: seq<Member>, b: seq<Member>)
    ensures SameValue(Obj(a), Obj(b)) <==> AllMatch(a, b)
  {}

  lemma MatchAt(m: Member, ms: seq<Member>, i: nat)
    requires DistinctKeys(ms) && i < |ms| && ms[i].key == m.key
    ensures Matches(m, ms) <==> SameValue(m.value, ms[i].value)
  {
    GetAt(ms, i);
  }

  lemma PartNamesDiffer()
    ensures PartName(Profiles) != PartName(Nodes) && PartName(Profiles) != PartName(Edges)
    ensures PartName(Nodes) != PartName(Edges)
  {
    assert |Ascii("profiles")| == 8 && |Ascii("nodes")| == 5 && |Ascii("edges")| == 5;
    assert Ascii("nodes")[0] == 110 && Ascii("edges")[0] == 101;
  }

  lemma SameArrays(a: seq<Json>, b: seq<Json>)
    ensures SameValue(Arr(a), Arr(b)) <==> SameItems(a, b)
  {}

  lemma AssembledItems(a: seq<Json>, b: seq<Json>, c: seq<Json>, a': seq<Json>, b': seq<Json>, c': seq<Json>,
                       v: Json, v': Json)
    requires v == Assemble(a, b, c) && v' == Assemble(a', b', c')
    ensures SameValue(v, v') <==> SameItems(a, a') && SameItems(b, b') && SameItems(c, c')
  {
    AssembledValues(a, b, c, a', b', c');
    SameArrays(a, a');
    SameArrays(b, b');
    SameArrays(c, c');
  }

  /** The two graphs are the same up to every order and to provenance. */
  ghost predicate SameGraph(g: Json, g': Json)
    requires Canonical(g).Some? && Canonical(g').Some?
  {
    && SameUpToOrder(Section(g, Profiles).value, Section(g', Profiles).value)
    && SameUpToOrder(Section(g, Nodes).value, Section(g', Nodes).value)
    && SameUpToOrder(Section(g, Edges).value, Section(g', Edges).value)
  }

  ghost predicate SameSorted(g: Json, g': Json, part: Part, key: Json -> Bytes)
    requires Section(g, part).Some? && Section(g', part).Some?
  {
    SameItems(Sort(key, Section(g, part).value), Sort(key, Section(g', part).value))
  }

  lemma CanonicalParts(g: Json, g': Json)
    requires Canonical(g).Some? && Canonical(g').Some?
    ensures SameValue(Canonical(g).value, Canonical(g').value) <==>
            SameSorted(g, g', Profiles, IdKey) && SameSorted(g, g', Nodes, IdKey) && SameSorted(g, g', Edges, Render)
  {
    AssembledItems(Sort(IdKey, Section(g, Profiles).value), Sort(IdKey, Section(g, Nodes).value),
                   Sort(Render, Section(g, Edges).value),
                   Sort(IdKey, Section(g', Profiles).value), Sort(IdKey, Section(g', Nodes).value),
                   Sort(Render, Section(g', Edges).value), Canonical(g).value, Canonical(g').value);
  }

  lemma SortedAreTheSame(a: seq<Json>, b: seq<Json>, key: Json -> Bytes)
    requires SameItems(Sort(key, a), Sort(key, b))
    ensures SameUpToOrder(a, b)
  {
    SortPermutes(key, a);
    SortPermutes(key, b);
  }

  /** Equal canonical values always come from the same graph. */
  lemma CanonicalValueSound(g: Json, g': Json)
    requires Canonical(g).Some? && Canonical(g').Some?
    requires SameValue(Canonical(g).value, Canonical(g').value)
    ensures SameGraph(g, g')
  {
    CanonicalParts(g, g');
    SortedAreTheSame(Section(g, Profiles).value, Section(g', Profiles).value, IdKey);
    SortedAreTheSame(Section(g, Nodes).value, Section(g', Nodes).value, IdKey);
    SortedAreTheSame(Section(g, Edges).value, Section(g', Edges).value, Render);
  }

  /** And when IDs determine profiles and nodes, and equal edges are printed
      alike, the same graph always has equal canonical values, in whatever order
      profiles and nodes list their members. */
  lemma CanonicalValueExact(g: Json, g': Json)
    requires WellFormed(g) && WellFormed(g') && Canonical(g).Some? && Canonical(g').Some?
    requires IdsDetermineValues(Section(g, Profiles).value) && IdsDetermineValues(Section(g, Nodes).value)
    requires AllPrintable(Section(g, Edges).value) && UniformEdges(Section(g, Edges).value, Section(g', Edges).value)
    ensures SameValue(Canonical(g).value, Canonical(g').value) <==> SameGraph(g, g')
  {
    if SameValue(Canonical(g).value, Canonical(g').value) {
      CanonicalValueSound(g, g');
    }
    CanonicalParts(g, g');
    SectionWellFormed(g, Profiles);
    SectionWellFormed(g', Profiles);
    SectionWellFormed(g, Nodes);
    SectionWellFormed(g', Nodes);
    SectionWellFormed(g, Edges);
    SortedByIdExact(Section(g, Profiles).value, Section(g', Profiles).value);
    SortedByIdExact(Section(g, Nodes).value, Section(g', Nodes).value);
    SortedEdgesExact(Section(g, Edges).value, Section(g', Edges).value);
  }
}
