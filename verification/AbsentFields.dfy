/** Dropping a provenance field against never having had it. A swap-remove moves
    the last member into the freed place, so the two agree only for fields near
    the end of their object: exactly when is stated for every field dropped. */
module AbsentFields {
  import opened Bytes
  import opened Json
  import opened JsonText
  import opened CanonicalGraph

  // ---- one key ----

  lemma MembersDiffer(ms: seq<Member>, i: nat, j: nat)
    requires DistinctKeys(ms) && i < |ms| && j < |ms|
    ensures ms[i] == ms[j] <==> i == j
  {}

  lemma KeyIndexAt(ms: seq<Member>, n: nat)
    requires DistinctKeys(ms) && n < |ms|
    ensures KeyIndex(ms, ms[n].key) == n
  {}

  /** Removing a member is not having had it exactly when at most one follows. */
  lemma OneKeyExact(ms: seq<Member>, n: nat)
    requires DistinctKeys(ms) && n < |ms|
    ensures SwapRemove(ms, ms[n].key) == Without(ms, n) <==> n + 2 >= |ms|
  {
    KeyIndexAt(ms, n);
    var a, b := SwapRemove(ms, ms[n].key), Without(ms, n);
    if n + 2 < |ms| {
      assert a[n] == ms[|ms| - 1] && b[n] == ms[n + 1];
      MembersDiffer(ms, n + 1, |ms| - 1);
    }
  }

  lemma OneKey(ms: seq<Member>, key: Bytes)
    ensures RemoveAll(ms, [key]) == SwapRemove(ms, key)
  {
    assert [key][1..] == [];
  }

  // ---- two keys ----

  /** Where element `t` of a list of length `l` comes from: after a swap-remove
      at `i`, and after cutting `i` out. */
  function Swapped(l: nat, i: nat, t: nat): (n: nat)
    requires l > 0
  {
    if t == i then l - 1 else t
  }

  function Shifted(i: nat, t: nat): (n: nat) {
    if t < i then t else t + 1
  }

  /** Where the member from place `j` is, once `i` was swap-removed or cut out. */
  function PlaceSwapped(l: nat, i: nat, j: nat): (n: nat) {
    if j + 1 == l then i else j
  }

  function PlaceShifted(i: nat, j: nat): (n: nat)
    requires i != j
  {
    if j < i then j else j - 1
  }

  /** Element `t` after swap-removing the members at `i` and then at `j`. */
  function BothSwapped(l: nat, i: nat, j: nat, t: nat): (n: nat)
    requires l > 1
  {
    Swapped(l, i, Swapped(l - 1, PlaceSwapped(l, i, j), t))
  }

  /** Element `t` after cutting out `i` and then swap-removing the member from `j`. */
  function CutSwapped(l: nat, i: nat, j: nat, t: nat): (n: nat)
    requires l > 1 && i != j
  {
    Shifted(i, Swapped(l - 1, PlaceShifted(i, j), t))
  }

  lemma SwapAt(ms: seq<Member>, n: nat, t: nat)
    requires DistinctKeys(ms) && n < |ms| && t < |ms| - 1
    ensures var r := SwapRemove(ms, ms[n].key);
            |r| == |ms| - 1 && Swapped(|ms|, n, t) < |ms| && r[t] == ms[Swapped(|ms|, n, t)]
  {
    KeyIndexAt(ms, n);
    SwapRemoveSize(ms, ms[n].key);
    SwapRemoveAt(ms, ms[n].key, t);
  }

  /** The list after the first removal, and where the second member then is. */
  lemma FirstRemoval(ms: seq<Member>, i: nat, j: nat)
    requires DistinctKeys(ms) && i < |ms| && j < |ms| && i != j
    ensures var a, p := SwapRemove(ms, ms[i].key), PlaceSwapped(|ms|, i, j);
            && DistinctKeys(a) && |a| == |ms| - 1 && p < |a| && a[p] == ms[j] && KeyIndex(a, ms[j].key) == p
  {
    var a, p := SwapRemove(ms, ms[i].key), PlaceSwapped(|ms|, i, j);
    KeyIndexAt(ms, i);
    SwapRemoveSize(ms, ms[i].key);
    SwapRemoveDistinct(ms, ms[i].key);
    SwapRemoveAt(ms, ms[i].key, p);
    KeyIndexAt(a, p);
  }

  lemma RemoveTwoAt(ms: seq<Member>, i: nat, j: nat, t: nat)
    requires DistinctKeys(ms) && i < |ms| && j < |ms| && i != j && t < |ms| - 2
    ensures var r := SwapRemove(SwapRemove(ms, ms[i].key), ms[j].key);
            |r| == |ms| - 2 && BothSwapped(|ms|, i, j, t) < |ms| && r[t] == ms[BothSwapped(|ms|, i, j, t)]
  {
    var a, p := SwapRemove(ms, ms[i].key), PlaceSwapped(|ms|, i, j);
    FirstRemoval(ms, i, j);
    SwapAt(a, p, t);
    SwapAt(ms, i, Swapped(|ms| - 1, p, t));
  }

  lemma RemoveTwo(ms: seq<Member>, i: nat, j: nat)
    requires DistinctKeys(ms) && i < |ms| && j < |ms| && i != j
    ensures var r := RemoveAll(ms, [ms[i].key, ms[j].key]);
            |r| == |ms| - 2 && forall t :: 0 <= t < |ms| - 2 ==>
              BothSwapped(|ms|, i, j, t) < |ms| && r[t] == ms[BothSwapped(|ms|, i, j, t)]
  {
    TwoKeys(ms, ms[i].key, ms[j].key);
    FirstRemoval(ms, i, j);
    SwapRemoveSize(SwapRemove(ms, ms[i].key), ms[j].key);
    forall t | 0 <= t < |ms| - 2
      ensures BothSwapped(|ms|, i, j, t) < |ms|
              && SwapRemove(SwapRemove(ms, ms[i].key), ms[j].key)[t] == ms[BothSwapped(|ms|, i, j, t)]
    {
      RemoveTwoAt(ms, i, j, t);
    }
  }

  lemma CutAt(ms: seq<Member>, i: nat)
    requires DistinctKeys(ms) && i < |ms|
    ensures var b := Without(ms, i);
            && |b| == |ms| - 1 && (forall t :: 0 <= t < |b| ==> b[t] == ms[Shifted(i, t)])
            && DistinctKeys(b)
  {
    var b := Without(ms, i);
    assert forall t :: 0 <= t < |b| ==> b[t] == ms[Shifted(i, t)];
  }

  lemma CutThenRemove(ms: seq<Member>, i: nat, j: nat)
    requires DistinctKeys(ms) && i < |ms| && j < |ms| && i != j
    ensures var r := SwapRemove(Without(ms, i), ms[j].key);
            |r| == |ms| - 2 && forall t :: 0 <= t < |ms| - 2 ==>
              CutSwapped(|ms|, i, j, t) < |ms| && r[t] == ms[CutSwapped(|ms|, i, j, t)]
  {
    var b, p := Without(ms, i), PlaceShifted(i, j);
    CutAt(ms, i);
    assert b[p] == ms[j];
    KeyIndexAt(b, p);
    SwapRemoveSize(b, ms[j].key);
    forall t | 0 <= t < |ms| - 2
      ensures CutSwapped(|ms|, i, j, t) < |ms| && SwapRemove(b, ms[j].key)[t] == ms[CutSwapped(|ms|, i, j, t)]
    {
      SwapAt(b, p, t);
    }
  }

  lemma CutAbsent(ms: seq<Member>, i: nat, j: nat)
    requires DistinctKeys(ms) && i < |ms| && j < |ms| && i != j
    ensures RemoveAll(Without(ms, i), [ms[i].key, ms[j].key]) == SwapRemove(Without(ms, i), ms[j].key)
    ensures RemoveAll(Without(ms, i), [ms[j].key, ms[i].key]) == SwapRemove(Without(ms, i), ms[j].key)
  {
    var b, k, k' := Without(ms, i), ms[i].key, ms[j].key;
    CutHasNotKey(ms, i, k);
    TwoKeys(b, k, k');
    TwoKeys(b, k', k);
    SwapRemoveAbsent(b, k);
    StillAbsent(b, k', k);
    SwapRemoveAbsent(SwapRemove(b, k'), k);
  }

  /** Lists taken from `ms` by places are equal when the places are. */
  lemma SamePlaces(ms: seq<Member>, a: seq<Member>, b: seq<Member>, l: nat, i: nat, j: nat, first: bool)
    requires DistinctKeys(ms) && l == |ms| && i < l && j < l && i != j && |a| == |b| == l - 2
    requires forall t :: 0 <= t < l - 2 ==> BothSwapped(l, i, j, t) < l && a[t] == ms[BothSwapped(l, i, j, t)]
    requires forall t :: 0 <= t < l - 2 ==> Other(l, i, j, t, first) < l && b[t] == ms[Other(l, i, j, t, first)]
    ensures a == b <==> forall t :: 0 <= t < l - 2 ==> BothSwapped(l, i, j, t) == Other(l, i, j, t, first)
  {
    if a == b {
      forall t | 0 <= t < l - 2
        ensures BothSwapped(l, i, j, t) == Other(l, i, j, t, first)
      {
        MembersDiffer(ms, BothSwapped(l, i, j, t), Other(l, i, j, t, first));
      }
    }
  }

  /** The list that never had the first, or the second, of the two members. */
  function Other(l: nat, i: nat, j: nat, t: nat, first: bool): (n: nat)
    requires l > 1 && i != j
  {
    if first then CutSwapped(l, i, j, t) else CutSwapped(l, j, i, t)
  }

  /** For the key removed first. */
  lemma FirstPlaces(l: nat, i: nat, j: nat)
    requires i < l && j < l && i != j
    ensures (forall t :: 0 <= t < l - 2 ==> BothSwapped(l, i, j, t) == Other(l, i, j, t, true))
       <==> i + 2 >= l || (i + 3 == l && j > i) || (i + 4 == l && j == i + 1)
  {
    if i + 2 < l && !(i + 3 == l && j > i) && !(i + 4 == l && j == i + 1) {
      var t := if j < i then j else if j == i + 1 && i + 4 < l then i + 1 else i;
      assert BothSwapped(l, i, j, t) != Other(l, i, j, t, true);
    }
  }

  /** For the key removed second. */
  lemma SecondPlaces(l: nat, i: nat, j: nat)
    requires i < l && j < l && i != j
    ensures (forall t :: 0 <= t < l - 2 ==> BothSwapped(l, i, j, t) == Other(l, i, j, t, false)) <==> j + 3 >= l
  {
    if j + 3 < l {
      assert BothSwapped(l, i, j, j) != Other(l, i, j, j, false);
    }
  }

  /** Of two keys removed one after the other, exactly when dropping the member at
      `n` is like not having had it. */
  predicate DropIsInvisible(ms: seq<Member>, first: Bytes, second: Bytes, n: nat)
    requires n < |ms|
  {
    var l := |ms|;
    if ms[n].key == first then
      || n + 2 >= l
      || (n + 3 == l && KeyIndex(ms, second) in {n + 1, n + 2})
      || (n + 4 == l && KeyIndex(ms, second) == n + 1)
    else n + (if HasKey(ms, first) then 3 else 2) >= l
  }

  lemma TwoKeysExact(ms: seq<Member>, first: Bytes, second: Bytes, n: nat)
    requires DistinctKeys(ms) && n < |ms| && first != second && ms[n].key in [first, second]
    ensures RemoveAll(ms, [first, second]) == RemoveAll(Without(ms, n), [first, second])
       <==> DropIsInvisible(ms, first, second, n)
  {
    var other := if ms[n].key == first then second else first;
    var m := KeyIndex(ms, other);
    if m == |ms| {
      OnlyOneKey(ms, first, second, n);
      OneKeyExact(ms, n);
    } else if ms[n].key == first {
      FirstOfTwo(ms, n, m);
    } else {
      SecondOfTwo(ms, m, n);
    }
  }

  lemma FirstOfTwo(ms: seq<Member>, i: nat, j: nat)
    requires DistinctKeys(ms) && i < |ms| && j < |ms| && i != j
    ensures var keys := [ms[i].key, ms[j].key];
            RemoveAll(ms, keys) == RemoveAll(Without(ms, i), keys) <==>
            i + 2 >= |ms| || (i + 3 == |ms| && j > i) || (i + 4 == |ms| && j == i + 1)
  {
    RemoveTwo(ms, i, j);
    CutThenRemove(ms, i, j);
    CutAbsent(ms, i, j);
    SamePlaces(ms, RemoveAll(ms, [ms[i].key, ms[j].key]), SwapRemove(Without(ms, i), ms[j].key), |ms|, i, j, true);
    FirstPlaces(|ms|, i, j);
  }

  lemma SecondOfTwo(ms: seq<Member>, i: nat, j: nat)
    requires DistinctKeys(ms) && i < |ms| && j < |ms| && i != j
    ensures var keys := [ms[i].key, ms[j].key];
            RemoveAll(ms, keys) == RemoveAll(Without(ms, j), keys) <==> j + 3 >= |ms|
  {
    RemoveTwo(ms, i, j);
    CutThenRemove(ms, j, i);
    CutAbsent(ms, j, i);
    SamePlaces(ms, RemoveAll(ms, [ms[i].key, ms[j].key]), SwapRemove(Without(ms, j), ms[i].key), |ms|, i, j, false);
    SecondPlaces(|ms|, i, j);
  }

  lemma CutHasNotKey(ms: seq<Member>, n: nat, key: Bytes)
    requires DistinctKeys(ms) && n < |ms| && (key == ms[n].key || !HasKey(ms, key))
    ensures !HasKey(Without(ms, n), key)
  {
    CutAt(ms, n);
  }

  lemma TwoKeys(ms: seq<Member>, first: Bytes, second: Bytes)
    ensures RemoveAll(ms, [first, second]) == SwapRemove(SwapRemove(ms, first), second)
  {
    assert [first, second][1..] == [second];
    OneKey(SwapRemove(ms, first), second);
  }

  lemma SwapRemoveAbsent(ms: seq<Member>, key: Bytes)
    requires !HasKey(ms, key)
    ensures SwapRemove(ms, key) == ms
  {}

  lemma StillAbsent(ms: seq<Member>, removed: Bytes, key: Bytes)
    requires !HasKey(ms, key)
    ensures !HasKey(SwapRemove(ms, removed), key)
  {
    var r := SwapRemove(ms, removed);
    assert forall t :: 0 <= t < |r| ==> r[t] in ms;
  }

  /** With only one of the two keys present, that is the only removal. */
  lemma OnlyOneKey(ms: seq<Member>, first: Bytes, second: Bytes, n: nat)
    requires DistinctKeys(ms) && n < |ms| && first != second && ms[n].key in [first, second]
    requires !HasKey(ms, if ms[n].key == first then second else first)
    ensures RemoveAll(ms, [first, second]) == SwapRemove(ms, ms[n].key)
    ensures RemoveAll(Without(ms, n), [first, second]) == Without(ms, n)
  {
    TwoKeys(ms, first, second);
    if ms[n].key == first {
      StillAbsent(ms, first, second);
      SwapRemoveAbsent(SwapRemove(ms, first), second);
    } else {
      SwapRemoveAbsent(ms, first);
    }
    CutHasNotKey(ms, n, first);
    CutHasNotKey(ms, n, second);
    RemoveAllAbsent(Without(ms, n), [first, second]);
  }

  // ---- whole items ----

  lemma CutGet(ms: seq<Member>, n: nat, key: Bytes)
    requires DistinctKeys(ms) && n < |ms| && key != ms[n].key
    ensures Get(Without(ms, n), key) == Get(ms, key)
  {
    var b, j := Without(ms, n), KeyIndex(ms, key);
    CutAt(ms, n);
    if j < |ms| {
      var t := if j < n then j else j - 1;
      assert b[t] == ms[j];
      KeyIndexAt(b, t);
    } else {
      CutHasNotKey(ms, n, key);
    }
  }

  lemma SetValueInjective(a: seq<Member>, b: seq<Member>, key: Bytes, v: Json)
    requires HasKey(a, key) && HasKey(b, key) && Get(a, key) == Get(b, key)
    ensures SetValue(a, key, v) == SetValue(b, key, v) <==> a == b
  {
    var x, y := SetValue(a, key, v), SetValue(b, key, v);
    if x == y {
      assert forall i :: 0 <= i < |a| ==> x[i].key == a[i].key && y[i].key == b[i].key;
      SameKeyIndex(a, b, key);
      var n := KeyIndex(a, key);
      assert forall i :: 0 <= i < |a| && i != n ==> a[i] == x[i] == b[i];
      assert a[n] == Member(key, Get(a, key).value) == b[n];
    }
  }

  /** A node with a locator against the same node without. */
  lemma LocatorExact(ms: seq<Member>, n: nat)
    requires DistinctKeys(ms) && n < |ms| && ms[n].key == Ascii("locator")
    ensures StripOf(Nodes, Obj(ms)).Some? <==> StripOf(Nodes, Obj(Without(ms, n))).Some?
    ensures StripOf(Nodes, Obj(ms)).Some? ==>
            (StripOf(Nodes, Obj(ms)) == StripOf(Nodes, Obj(Without(ms, n))) <==> n + 2 >= |ms|)
  {
    PropertiesAreKept(Nodes);
    ItemKeyExact(ms, n, PropertiesKey(), PropertyKeys(Nodes));
  }

  lemma ItemKeyExact(ms: seq<Member>, n: nat, properties: Bytes, propertyKeys: seq<Bytes>)
    requires DistinctKeys(ms) && n < |ms| && properties == PropertiesKey() != ms[n].key
    ensures var r := StripItem(Obj(ms), [ms[n].key], propertyKeys, true);
            var r' := StripItem(Obj(Without(ms, n)), [ms[n].key], propertyKeys, true);
            && (r.Some? <==> r'.Some?) && (r.Some? ==> (r == r' <==> n + 2 >= |ms|))
  {
    var key := ms[n].key;
    var a, b := RemoveAll(ms, [key]), RemoveAll(Without(ms, n), [key]);
    OneKey(ms, key);
    OneKey(Without(ms, n), key);
    CutHasNotKey(ms, n, key);
    SwapRemoveAbsent(Without(ms, n), key);
    OneKeyExact(ms, n);
    RemoveAllGet(ms, [key], properties);
    CutGet(ms, n, properties);
    if Get(a, properties).Some? && Get(a, properties).value.Obj? {
      SetValueInjective(a, b, properties, Obj(RemoveAll(Get(a, properties).value.members, propertyKeys)));
    }
  }

  /** The same item with `properties` replaced. */
  function WithProperties(ms: seq<Member>, ps: seq<Member>): (v: Json)
    requires HasKey(ms, PropertiesKey())
  {
    Obj(SetValue(ms, PropertiesKey(), Obj(ps)))
  }

  lemma StripProperties(part: Part, ms: seq<Member>, ps: seq<Member>)
    requires !part.Edges? && DistinctKeys(ms) && HasKey(ms, PropertiesKey())
    ensures HasKey(RemoveAll(ms, ItemKeys(part)), PropertiesKey())
    ensures StripOf(part, WithProperties(ms, ps))
         == Some(WithProperties(RemoveAll(ms, ItemKeys(part)), RemoveAll(ps, PropertyKeys(part))))
  {
    var w, keys, p := WithProperties(ms, ps), ItemKeys(part), PropertiesKey();
    PropertiesAreKept(part);
    SetValueGet(ms, p, Obj(ps), p);
    SetValueDistinct(ms, p, Obj(ps));
    RemoveAllGet(w.members, keys, p);
    RemoveAllGet(ms, keys, p);
    assert SameExcept(ms, w.members, keys + [p]);
    RemoveAllSame(ms, w.members, keys, [p]);
    RemoveAllMember(ms, keys, Member([], Null));
    SetValueSame(RemoveAll(ms, keys), RemoveAll(w.members, keys), p, Obj(RemoveAll(ps, PropertyKeys(part))));
  }

  lemma SetValueDistinct(ms: seq<Member>, key: Bytes, v: Json)
    requires DistinctKeys(ms) && HasKey(ms, key)
    ensures DistinctKeys(SetValue(ms, key, v))
  {}

  lemma FieldsDiffer(part: Part)
    ensures part.Edges? ==> |ItemKeys(part)| == 2 && ItemKeys(part)[0] != ItemKeys(part)[1]
    ensures !part.Edges? ==> |PropertyKeys(part)| == 2 && PropertyKeys(part)[0] != PropertyKeys(part)[1]
  {
    assert |Ascii("id")| == 2 && |Ascii("site_id")| == 7;
    assert |Ascii("invocation_ledger_digest")| == 24 && |Ascii("mir_ledger_digest")| == 17;
    assert |Ascii("build_provenance")| == 16 && |Ascii("mir_unit_digest")| == 15;
  }

  lemma PairOf(keys: seq<Bytes>)
    requires |keys| == 2
    ensures keys == [keys[0], keys[1]]
  {}

  /** A profile or node with a provenance property against the same one without. */
  lemma PropertyExact(part: Part, ms: seq<Member>, ps: seq<Member>, n: nat)
    requires !part.Edges? && DistinctKeys(ms) && HasKey(ms, PropertiesKey())
    requires DistinctKeys(ps) && n < |ps| && ps[n].key in PropertyKeys(part)
    ensures var keys := PropertyKeys(part);
            && |keys| == 2
            && StripOf(part, WithProperties(ms, ps)).Some? && StripOf(part, WithProperties(ms, Without(ps, n))).Some?
            && (StripOf(part, WithProperties(ms, ps)) == StripOf(part, WithProperties(ms, Without(ps, n)))
                <==> DropIsInvisible(ps, keys[0], keys[1], n))
  {
    var keys := PropertyKeys(part);
    FieldsDiffer(part);
    PairOf(keys);
    StripProperties(part, ms, ps);
    StripProperties(part, ms, Without(ps, n));
    TwoKeysExact(ps, keys[0], keys[1], n);
    SetDifferent(RemoveAll(ms, ItemKeys(part)), RemoveAll(ps, keys), RemoveAll(Without(ps, n), keys));
  }

  lemma SetDifferent(ms: seq<Member>, a: seq<Member>, b: seq<Member>)
    requires HasKey(ms, PropertiesKey())
    ensures WithProperties(ms, a) == WithProperties(ms, b) <==> a == b
  {
    var n := KeyIndex(ms, PropertiesKey());
    assert WithProperties(ms, a).members[n].value == Obj(a) && WithProperties(ms, b).members[n].value == Obj(b);
  }

  /** An edge with an ID or a site ID against the same edge without. */
  lemma EdgeFieldExact(ms: seq<Member>, n: nat)
    requires DistinctKeys(ms) && n < |ms| && ms[n].key in ItemKeys(Edges)
    ensures var keys := ItemKeys(Edges);
            && |keys| == 2
            && (StripOf(Edges, Obj(ms)) == StripOf(Edges, Obj(Without(ms, n)))
                <==> DropIsInvisible(ms, keys[0], keys[1], n))
  {
    var keys := ItemKeys(Edges);
    FieldsDiffer(Edges);
    PairOf(keys);
    TwoKeysExact(ms, keys[0], keys[1], n);
  }

  /** What holds of stripped items holds of their texts. */
  lemma StrippedTextsDiffer(part: Part, v: Json, w: Json)
    requires Printable(v) && Printable(w) && StripOf(part, v).Some? && StripOf(part, w).Some?
    ensures Render(StripOf(part, v).value) == Render(StripOf(part, w).value) <==> StripOf(part, v) == StripOf(part, w)
  {
    StripPrintable(part, v);
    StripPrintable(part, w);
    RenderInjective(StripOf(part, v).value, StripOf(part, w).value);
  }

  /** So dropping a field can show: a node with a locator and the same node without
      one strip to equal values with different texts. */
  lemma MissingFieldShows(id: Json, locator: Json)
    requires Printable(id)
    ensures var m, p := Member(Ascii("id"), id), Member(PropertiesKey(), Obj([]));
            var v, w := Obj([Member(Ascii("locator"), locator), m, p]), Obj([m, p]);
            && StripOf(Nodes, v) == Some(Obj([p, m])) && StripOf(Nodes, w) == Some(Obj([m, p]))
            && Render(Obj([p, m])) != Render(Obj([m, p]))
  {
    var m, p := Member(Ascii("id"), id), Member(PropertiesKey(), Obj([]));
    var l := Member(Ascii("locator"), locator);
    assert |Ascii("id")| == 2 && |Ascii("locator")| == 7 && |PropertiesKey()| == 10;
    ThreeMembersShow(l, m, p);
  }

  lemma ThreeMembersShow(l: Member, m: Member, p: Member)
    requires l.key == Ascii("locator") && p == Member(PropertiesKey(), Obj([])) && Printable(m.value)
    requires m.key != l.key && m.key != p.key && l.key != p.key
    ensures StripOf(Nodes, Obj([l, m, p])) == Some(Obj([p, m])) && StripOf(Nodes, Obj([m, p])) == Some(Obj([m, p]))
    ensures Render(Obj([p, m])) != Render(Obj([m, p]))
  {
    StripThree(l, m, p);
    ThreeStripsDiffer(l, m, p);
    TwoPrintable(m, p);
    TwoPrintable(p, m);
    RenderInjective(Obj([p, m]), Obj([m, p]));
  }

  lemma TwoPrintable(m: Member, p: Member)
    requires Printable(m.value) && Printable(p.value)
    ensures Printable(Obj([m, p]))
  {}

  lemma ThreeStripsDiffer(l: Member, m: Member, p: Member)
    requires l.key == Ascii("locator") && m.key != l.key && m.key != p.key && l.key != p.key
    requires StripOf(Nodes, Obj([l, m, p])).Some?
    ensures StripOf(Nodes, Obj([l, m, p])) != StripOf(Nodes, Obj([m, p]))
  {
    CutFirst(l, m, p);
    LocatorExact([l, m, p], 0);
  }

  lemma CutFirst(l: Member, m: Member, p: Member)
    ensures Without([l, m, p], 0) == [m, p]
  {}

  lemma StripThree(l: Member, m: Member, p: Member)
    requires l.key == Ascii("locator") && p == Member(PropertiesKey(), Obj([]))
    requires m.key != l.key && m.key != p.key && l.key != p.key
    ensures StripOf(Nodes, Obj([l, m, p])) == Some(Obj([p, m])) && StripOf(Nodes, Obj([m, p])) == Some(Obj([m, p]))
  {
    RemoveFirstOfThree(l, m, p);
    RemoveAbsentOfTwo(m, p, l.key);
    StripBare([p, m], 0);
    StripBare([m, p], 1);
  }

  lemma RemoveFirstOfThree(l: Member, m: Member, p: Member)
    ensures RemoveAll([l, m, p], [l.key]) == [p, m]
  {
    OneKey([l, m, p], l.key);
    assert KeyIndex([l, m, p], l.key) == 0;
  }

  lemma RemoveAbsentOfTwo(m: Member, p: Member, key: Bytes)
    requires m.key != key && p.key != key
    ensures RemoveAll([m, p], [key]) == [m, p]
  {
    OneKey([m, p], key);
    assert !HasKey([m, p], key);
  }

  /** Setting the empty properties object to the empty properties object. */
  lemma StripBare(ms: seq<Member>, n: nat)
    requires DistinctKeys(ms) && n < |ms| && ms[n] == Member(PropertiesKey(), Obj([]))
    ensures Get(ms, PropertiesKey()) == Some(Obj([]))
    ensures RemoveAll([], PropertyKeys(Nodes)) == []
    ensures SetValue(ms, PropertiesKey(), Obj([])) == ms
  {
    GetAt(ms, n);
    RemoveAllAbsent([], PropertyKeys(Nodes));
  }
}
