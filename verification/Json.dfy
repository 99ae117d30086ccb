/** JSON values as `serde_json` keeps them with `preserve_order`: an object is a
    list of members in insertion order, `remove` is a swap-remove, and equality
    does not look at the order. */
module Json {
  import opened Bytes

  /** A number is its printed text. */
  datatype Json =
    | Null | Bool(b: bool) | Num(text: Bytes) | Str(s: Bytes) | Arr(items: seq<Json>) | Obj(members: seq<Member>)

  datatype Member = Member(key: Bytes, value: Json)

  // ---- objects ----

  predicate DistinctKeys(ms: seq<Member>) {
    forall i, j :: 0 <= i < j < |ms| ==> ms[i].key != ms[j].key
  }

  predicate HasKey(ms: seq<Member>, key: Bytes) {
    exists i :: 0 <= i < |ms| && ms[i].key == key
  }

  function KeyIndex(ms: seq<Member>, key: Bytes): (n: nat)
    ensures n <= |ms|
    ensures n < |ms| ==> ms[n].key == key
    ensures forall i :: 0 <= i < n ==> ms[i].key != key
    ensures n < |ms| <==> HasKey(ms, key)
  {
    if ms == [] then 0
    else if ms[0].key == key then 0
    else
      var n := KeyIndex(ms[1..], key);
      assert forall i :: 1 <= i < |ms| ==> ms[i] == ms[1..][i - 1];
      n + 1
  }

  function Get(ms: seq<Member>, key: Bytes): (r: Option<Json>)
    ensures r.Some? <==> HasKey(ms, key)
  {
    var n := KeyIndex(ms, key);
    if n < |ms| then Some(ms[n].value) else None
  }

  lemma GetAt(ms: seq<Member>, i: nat)
    requires DistinctKeys(ms) && i < |ms|
    ensures Get(ms, ms[i].key) == Some(ms[i].value)
  {}

  /** `Map::remove` with `preserve_order`: the last member takes the freed place. */
  function SwapRemove(ms: seq<Member>, key: Bytes): (r: seq<Member>)
    ensures forall m :: m in r ==> m in ms
  {
    var n := KeyIndex(ms, key);
    if n == |ms| then ms else ms[n := ms[|ms| - 1]][..|ms| - 1]
  }

  lemma SwapRemoveSize(ms: seq<Member>, key: Bytes)
    ensures |SwapRemove(ms, key)| == |ms| - (if HasKey(ms, key) then 1 else 0)
  {}

  lemma SwapRemoveAt(ms: seq<Member>, key: Bytes, i: nat)
    requires i < |SwapRemove(ms, key)|
    ensures i < |ms| && SwapRemove(ms, key)[i] == ms[if i == KeyIndex(ms, key) then |ms| - 1 else i]
  {}

  lemma SwapRemoveMember(ms: seq<Member>, key: Bytes, m: Member)
    requires DistinctKeys(ms)
    ensures m in SwapRemove(ms, key) <==> m in ms && m.key != key
  {
    var n, r := KeyIndex(ms, key), SwapRemove(ms, key);
    if m in ms && m.key != key {
      var i :| 0 <= i < |ms| && ms[i] == m;
      if n < |ms| {
        assert i == |ms| - 1 ==> r[n] == m;
        assert i < |ms| - 1 ==> r[i] == m;
      }
    }
    if m in r && n < |ms| {
      var j :| 0 <= j < |r| && r[j] == m;
      assert r[j] == (if j == n then ms[|ms| - 1] else ms[j]);
    }
  }

  lemma SwapRemoveDistinct(ms: seq<Member>, key: Bytes)
    requires DistinctKeys(ms)
    ensures DistinctKeys(SwapRemove(ms, key))
  {
    var n, r := KeyIndex(ms, key), SwapRemove(ms, key);
    if n < |ms| {
      assert forall j :: 0 <= j < |r| ==> r[j] == (if j == n then ms[|ms| - 1] else ms[j]);
    }
  }

  function RemoveAll(ms: seq<Member>, keys: seq<Bytes>): (r: seq<Member>)
    ensures forall m :: m in r ==> m in ms
    decreases |keys|
  {
    if keys == [] then ms else RemoveAll(SwapRemove(ms, keys[0]), keys[1..])
  }

  /** Removing keys one after another keeps exactly the other members. */
  lemma {:induction false} RemoveAllMember(ms: seq<Member>, keys: seq<Bytes>, m: Member)
    requires DistinctKeys(ms)
    ensures DistinctKeys(RemoveAll(ms, keys))
    ensures m in RemoveAll(ms, keys) <==> m in ms && m.key !in keys
    decreases |keys|
  {
    if keys != [] {
      SwapRemoveDistinct(ms, keys[0]);
      SwapRemoveMember(ms, keys[0], m);
      RemoveAllMember(SwapRemove(ms, keys[0]), keys[1..], m);
    }
  }

  lemma {:induction false} RemoveAllAbsent(ms: seq<Member>, keys: seq<Bytes>)
    requires forall k :: k in keys ==> !HasKey(ms, k)
    ensures RemoveAll(ms, keys) == ms
    decreases |keys|
  {
    if keys != [] {
      RemoveAllAbsent(ms, keys[1..]);
    }
  }

  /** Looking a key up in a list with distinct keys is membership. */
  lemma GetIsMember(ms: seq<Member>, key: Bytes, v: Json)
    requires DistinctKeys(ms)
    ensures Get(ms, key) == Some(v) <==> Member(key, v) in ms
  {
    if Member(key, v) in ms {
      var i :| 0 <= i < |ms| && ms[i] == Member(key, v);
      GetAt(ms, i);
    }
  }

  lemma RemoveAllGet(ms: seq<Member>, keys: seq<Bytes>, key: Bytes)
    requires DistinctKeys(ms)
    ensures Get(RemoveAll(ms, keys), key) == if key in keys then None else Get(ms, key)
  {
    var r := RemoveAll(ms, keys);
    RemoveAllMember(ms, keys, Member(key, Null));
    if Get(r, key).Some? {
      var v := Get(r, key).value;
      RemoveAllMember(ms, keys, Member(key, v));
      GetIsMember(r, key, v);
      GetIsMember(ms, key, v);
    }
    if key !in keys && Get(ms, key).Some? {
      var v := Get(ms, key).value;
      RemoveAllMember(ms, keys, Member(key, v));
      GetIsMember(r, key, v);
      GetIsMember(ms, key, v);
    }
  }

  // ---- values ----

  /** Every object in the value has distinct keys, as a map guarantees. */
  ghost predicate WellFormed(v: Json) {
    match v
    case Arr(items) => forall i :: 0 <= i < |items| ==> WellFormed(items[i])
    case Obj(ms) => DistinctKeys(ms) && forall i :: 0 <= i < |ms| ==> WellFormed(ms[i].value)
    case _ => true
  }

  /** `Value` equality: member order is irrelevant. */
  predicate SameValue(v: Json, w: Json) {
    match v
    case Arr(a) =>
      w.Arr? && |a| == |w.items| && forall i :: 0 <= i < |a| ==> SameValue(a[i], w.items[i])
    case Obj(a) =>
      w.Obj? && |a| == |w.members|
      && forall i :: 0 <= i < |a| ==>
           var other := Get(w.members, a[i].key);
           other.Some? && SameValue(a[i].value, other.value)
    case _ => v == w
  }

  // ---- paths into values ----

  datatype Step = Key(key: Bytes) | Index(index: nat)

  type JsonPath = seq<Step>

  function Child(v: Json, step: Step): (r: Option<Json>) {
    match step
    case Key(k) => if v.Obj? then Get(v.members, k) else None
    case Index(i) => if v.Arr? && i < |v.items| then Some(v.items[i]) else None
  }

  function At(v: Json, path: JsonPath): (r: Option<Json>)
    decreases |path|
  {
    if path == [] then Some(v)
    else match Child(v, path[0])
      case None => None
      case Some(c) => At(c, path[1..])
  }

  /** What is seen at the end of a path: the scalar, or which kind of container. */
  datatype Shape = Scalar(value: Json) | ArrayShape | ObjectShape

  function ShapeOf(v: Json): (s: Shape) {
    if v.Arr? then ArrayShape else if v.Obj? then ObjectShape else Scalar(v)
  }

  function ShapeAt(v: Json, path: JsonPath): (r: Option<Shape>) {
    var at := At(v, path);
    if at.Some? then Some(ShapeOf(at.value)) else None
  }

  ghost predicate AgreeEverywhere(v: Json, w: Json) {
    forall path :: ShapeAt(v, path) == ShapeAt(w, path)
  }

  lemma SameChild(v: Json, w: Json, step: Step)
    requires WellFormed(v) && WellFormed(w) && SameValue(v, w)
    ensures Child(v, step).Some? <==> Child(w, step).Some?
    ensures Child(v, step).Some? ==> SameValue(Child(v, step).value, Child(w, step).value)
    ensures Child(v, step).Some? ==> WellFormed(Child(v, step).value) && WellFormed(Child(w, step).value)
  {
    if step.Key? && v.Obj? {
      SameKeys(v.members, w.members);
    }
  }

  function KeySet(ms: seq<Member>): (s: set<Bytes>) {
    set i | 0 <= i < |ms| :: ms[i].key
  }

  lemma {:induction false} KeySetSize(ms: seq<Member>)
    requires DistinctKeys(ms)
    ensures |KeySet(ms)| == |ms|
  {
    if ms != [] {
      KeySetSize(ms[1..]);
      assert KeySet(ms) == {ms[0].key} + KeySet(ms[1..]) by {
        assert forall i :: 1 <= i < |ms| ==> ms[i] == ms[1..][i - 1];
      }
      assert ms[0].key !in KeySet(ms[1..]);
    }
  }

  lemma SubsetSameSize<T>(a: set<T>, b: set<T>)
    requires a <= b && |a| == |b|
    ensures a == b
  {
    assert b == a + (b - a);
    assert |b| == |a| + |b - a|;
  }

  /** Equally many keys, all of one among the other: the same keys. */
  lemma SameKeys(a: seq<Member>, b: seq<Member>)
    requires DistinctKeys(a) && DistinctKeys(b) && |a| == |b|
    requires forall i :: 0 <= i < |a| ==> HasKey(b, a[i].key)
    ensures forall k :: HasKey(a, k) <==> HasKey(b, k)
  {
    KeySetSize(a);
    KeySetSize(b);
    assert KeySet(a) <= KeySet(b);
    SubsetSameSize(KeySet(a), KeySet(b));
    assert forall k :: HasKey(a, k) <==> k in KeySet(a);
    assert forall k :: HasKey(b, k) <==> k in KeySet(b);
  }

  lemma {:induction false} SameValueAgrees(v: Json, w: Json, path: JsonPath)
    requires WellFormed(v) && WellFormed(w) && SameValue(v, w)
    ensures ShapeAt(v, path) == ShapeAt(w, path)
    decreases |path|
  {
    if path != [] {
      SameChild(v, w, path[0]);
      if Child(v, path[0]).Some? {
        SameValueAgrees(Child(v, path[0]).value, Child(w, path[0]).value, path[1..]);
      }
    }
  }

  lemma ShapeAtStep(v: Json, step: Step, path: JsonPath)
    ensures ShapeAt(v, [step] + path) == if Child(v, step).Some? then ShapeAt(Child(v, step).value, path) else None
  {
    assert ([step] + path)[1..] == path;
  }

  lemma AgreeChild(v: Json, w: Json, step: Step)
    requires AgreeEverywhere(v, w)
    ensures Child(v, step).Some? <==> Child(w, step).Some?
    ensures Child(v, step).Some? ==> AgreeEverywhere(Child(v, step).value, Child(w, step).value)
  {
    ShapeAtStep(v, step, []);
    ShapeAtStep(w, step, []);
    assert ShapeAt(v, [step] + []) == ShapeAt(w, [step] + []);
    if Child(v, step).Some? {
      forall path
        ensures ShapeAt(Child(v, step).value, path) == ShapeAt(Child(w, step).value, path)
      {
        ShapeAtStep(v, step, path);
        ShapeAtStep(w, step, path);
        assert ShapeAt(v, [step] + path) == ShapeAt(w, [step] + path);
      }
    }
  }

  lemma {:induction false} AgreeIsSameValue(v: Json, w: Json)
    requires WellFormed(v) && WellFormed(w) && AgreeEverywhere(v, w)
    ensures SameValue(v, w)
  {
    assert ShapeAt(v, []) == ShapeAt(w, []);
    match v
    case Arr(a) =>
      AgreeLength(v, w);
      forall i | 0 <= i < |a|
        ensures SameValue(a[i], w.items[i])
      {
        AgreeChild(v, w, Index(i));
        AgreeIsSameValue(a[i], w.items[i]);
      }
    case Obj(a) =>
      AgreeSize(v, w);
      forall i | 0 <= i < |a|
        ensures Get(w.members, a[i].key).Some? && SameValue(a[i].value, Get(w.members, a[i].key).value)
      {
        GetAt(a, i);
        AgreeChild(v, w, Key(a[i].key));
        ChildWellFormed(w, Key(a[i].key));
        AgreeIsSameValue(a[i].value, Get(w.members, a[i].key).value);
      }
    case _ =>
  }

  lemma ChildWellFormed(v: Json, step: Step)
    requires WellFormed(v) && Child(v, step).Some?
    ensures WellFormed(Child(v, step).value)
  {}

  lemma AgreeLength(v: Json, w: Json)
    requires v.Arr? && w.Arr? && AgreeEverywhere(v, w)
    ensures |v.items| == |w.items|
  {
    AgreeChild(v, w, Index(|v.items|));
    AgreeChild(v, w, Index(|w.items|));
  }

  lemma AgreeSize(v: Json, w: Json)
    requires v.Obj? && w.Obj? && WellFormed(v) && WellFormed(w) && AgreeEverywhere(v, w)
    ensures |v.members| == |w.members|
  {
    forall k
      ensures HasKey(v.members, k) <==> HasKey(w.members, k)
    {
      AgreeChild(v, w, Key(k));
    }
    KeySetSize(v.members);
    KeySetSize(w.members);
    assert forall k :: HasKey(v.members, k) <==> k in KeySet(v.members);
    assert forall k :: HasKey(w.members, k) <==> k in KeySet(w.members);
    assert KeySet(v.members) == KeySet(w.members);
  }

  /** Value equality is agreement at every path. */
  lemma SameValueIffAgree(v: Json, w: Json)
    requires WellFormed(v) && WellFormed(w)
    ensures SameValue(v, w) <==> AgreeEverywhere(v, w)
  {
    if SameValue(v, w) {
      forall path
        ensures ShapeAt(v, path) == ShapeAt(w, path)
      {
        SameValueAgrees(v, w, path);
      }
    }
    if AgreeEverywhere(v, w) {
      AgreeIsSameValue(v, w);
    }
  }
}
