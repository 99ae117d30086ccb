/** Stripping execution provenance from JSON and comparing what is left. */
module Provenance {
  import opened Bytes
  import opened Json

  /** The dropped keys, at every depth. */
  function DroppedKeys(): (keys: seq<Bytes>) {
    [Ascii("build_run_id"), Ascii("run_id"), Ascii("source_attempt_id"), Ascii("build_attempt_id"),
     Ascii("created_at"), Ascii("started_at"), Ascii("finished_at"), Ascii("duration_millis")]
  }

  /** The value without the members named by `keys`, at every depth. */
  function Strip(v: Json, keys: seq<Bytes>): (r: Json) {
    match v
    case Arr(items) => Arr(seq(|items|, i requires 0 <= i < |items| => Strip(items[i], keys)))
    case Obj(ms) =>
      var kept := RemoveAll(ms, keys);
      Obj(seq(|kept|, i requires 0 <= i < |kept| => assert kept[i] in ms; Member(kept[i].key, Strip(kept[i].value, keys))))
    case _ => v
  }

  /** The original's in-place recursion: drop the keys, then visit the children. */
  method RemoveExecutionProvenance(v: Json, keys: seq<Bytes>) returns (r: Json)
    ensures r == Strip(v, keys)
    decreases v
  {
    match v {
      case Arr(items) =>
        var out := VisitItems(items, keys);
        r := Arr(out);
      case Obj(ms) =>
        var kept := DropKeys(ms, keys);
        var out := VisitMembers(kept, ms, keys);
        r := Obj(out);
      case _ => r := v;
    }
  }

  method VisitItems(items: seq<Json>, keys: seq<Bytes>) returns (out: seq<Json>)
    ensures |out| == |items| && forall i :: 0 <= i < |items| ==> out[i] == Strip(items[i], keys)
    decreases items
  {
    out := [];
    var i := 0;
    while i < |items|
      invariant 0 <= i <= |items| && |out| == i
      invariant forall j :: 0 <= j < i ==> out[j] == Strip(items[j], keys)
    {
      var child := RemoveExecutionProvenance(items[i], keys);
      out := out + [child];
      i := i + 1;
    }
  }

  method VisitMembers(kept: seq<Member>, ghost ms: seq<Member>, keys: seq<Bytes>) returns (out: seq<Member>)
    requires forall m :: m in kept ==> m in ms
    ensures |out| == |kept| && forall i :: 0 <= i < |kept| ==> out[i] == Member(kept[i].key, Strip(kept[i].value, keys))
    decreases ms
  {
    out := [];
    var i := 0;
    while i < |kept|
      invariant 0 <= i <= |kept| && |out| == i
      invariant forall j :: 0 <= j < i ==> out[j] == Member(kept[j].key, Strip(kept[j].value, keys))
    {
      assert kept[i] in ms;
      var child := RemoveExecutionProvenance(kept[i].value, keys);
      out := out + [Member(kept[i].key, child)];
      i := i + 1;
    }
  }

  method DropKeys(ms: seq<Member>, keys: seq<Bytes>) returns (kept: seq<Member>)
    ensures kept == RemoveAll(ms, keys)
  {
    kept := ms;
    var i := 0;
    assert keys[0..] == keys;
    while i < |keys|
      invariant 0 <= i <= |keys|
      invariant RemoveAll(kept, keys[i..]) == RemoveAll(ms, keys)
    {
      assert keys[i..][1..] == keys[i + 1..];
      kept := SwapRemove(kept, keys[i]);
      i := i + 1;
    }
    assert keys[i..] == [];
  }

  predicate Equivalent(v: Json, w: Json, keys: seq<Bytes>) {
    SameValue(Strip(v, keys), Strip(w, keys))
  }

  // ---- what stripping keeps ----

  /** The path passes through none of the dropped keys. */
  predicate Visible(path: JsonPath, keys: seq<Bytes>) {
    forall i :: 0 <= i < |path| && path[i].Key? ==> path[i].key !in keys
  }

  lemma StripMembers(ms: seq<Member>, keys: seq<Bytes>)
    requires DistinctKeys(ms)
    ensures var s, kept := Strip(Obj(ms), keys).members, RemoveAll(ms, keys);
            && |s| == |kept| && DistinctKeys(s) && DistinctKeys(kept)
            && (forall i :: 0 <= i < |s| ==> s[i] == Member(kept[i].key, Strip(kept[i].value, keys)))
  {
    RemoveAllMember(ms, keys, Member([], Null));
  }

  lemma StripGet(ms: seq<Member>, key: Bytes, keys: seq<Bytes>)
    requires DistinctKeys(ms)
    ensures Get(Strip(Obj(ms), keys).members, key) ==
            if key in keys || Get(ms, key).None? then None else Some(Strip(Get(ms, key).value, keys))
  {
    var s, kept := Strip(Obj(ms), keys).members, RemoveAll(ms, keys);
    StripMembers(ms, keys);
    RemoveAllGet(ms, keys, key);
    assert KeyIndex(s, key) == KeyIndex(kept, key);
  }

  lemma {:induction false} StripWellFormed(v: Json, keys: seq<Bytes>)
    requires WellFormed(v)
    ensures WellFormed(Strip(v, keys))
  {
    match v
    case Arr(items) =>
      forall i | 0 <= i < |items|
        ensures WellFormed(Strip(items[i], keys))
      {
        StripWellFormed(items[i], keys);
      }
    case Obj(ms) =>
      StripMembers(ms, keys);
      var kept := RemoveAll(ms, keys);
      forall i | 0 <= i < |kept|
        ensures WellFormed(Strip(kept[i].value, keys))
      {
        assert kept[i] in ms;
        StripWellFormed(kept[i].value, keys);
      }
    case _ =>
  }

  lemma StripChild(v: Json, step: Step, keys: seq<Bytes>)
    requires WellFormed(v)
    ensures Child(Strip(v, keys), step) ==
            if Visible([step], keys) && Child(v, step).Some? then Some(Strip(Child(v, step).value, keys)) else None
  {
    assert step.Key? ==> (Visible([step], keys) <==> step.key !in keys) by {
      assert [step][0] == step;
    }
    if v.Obj? && step.Key? {
      StripGet(v.members, step.key, keys);
    }
  }

  /** Stripping hides exactly the invisible paths and changes nothing else. */
  lemma {:induction false} StripShapes(v: Json, path: JsonPath, keys: seq<Bytes>)
    requires WellFormed(v)
    ensures ShapeAt(Strip(v, keys), path) == if Visible(path, keys) then ShapeAt(v, path) else None
    decreases |path|
  {
    if path != [] {
      StripChild(v, path[0], keys);
      VisibleCons(path, keys);
      if Child(v, path[0]).Some? {
        ChildWellFormed(v, path[0]);
        StripShapes(Child(v, path[0]).value, path[1..], keys);
      }
    }
  }

  lemma VisibleCons(path: JsonPath, keys: seq<Bytes>)
    requires path != []
    ensures Visible(path, keys) <==> Visible([path[0]], keys) && Visible(path[1..], keys)
  {
    assert path == [path[0]] + path[1..];
    if Visible([path[0]], keys) && Visible(path[1..], keys) {
      forall i | 0 <= i < |path| && path[i].Key?
        ensures path[i].key !in keys
      {
        if i == 0 {
          assert [path[0]][0] == path[0];
        } else {
          assert path[1..][i - 1] == path[i];
        }
      }
    }
    if Visible(path, keys) {
      assert forall i :: 0 <= i < |path[1..]| ==> path[1..][i] == path[i + 1];
    }
  }

  /** Equivalence is agreement at every visible path, at any depth. */
  lemma EquivalentIffAgree(v: Json, w: Json, keys: seq<Bytes>)
    requires WellFormed(v) && WellFormed(w)
    ensures Equivalent(v, w, keys) <==> forall path :: Visible(path, keys) ==> ShapeAt(v, path) == ShapeAt(w, path)
  {
    StripWellFormed(v, keys);
    StripWellFormed(w, keys);
    SameValueIffAgree(Strip(v, keys), Strip(w, keys));
    forall path
      ensures ShapeAt(Strip(v, keys), path) == ShapeAt(Strip(w, keys), path) <==>
              (Visible(path, keys) ==> ShapeAt(v, path) == ShapeAt(w, path))
    {
      StripShapes(v, path, keys);
      StripShapes(w, path, keys);
    }
  }

  lemma EquivalenceRelation(u: Json, v: Json, w: Json, keys: seq<Bytes>)
    requires WellFormed(u) && WellFormed(v) && WellFormed(w)
    ensures Equivalent(u, u, keys)
    ensures Equivalent(u, v, keys) ==> Equivalent(v, u, keys)
    ensures Equivalent(u, v, keys) && Equivalent(v, w, keys) ==> Equivalent(u, w, keys)
  {
    EquivalentIffAgree(u, u, keys);
    EquivalentIffAgree(u, v, keys);
    EquivalentIffAgree(v, u, keys);
    EquivalentIffAgree(v, w, keys);
    EquivalentIffAgree(u, w, keys);
  }

  /** Stripping twice is stripping once, member order included. */
  lemma {:induction false} StripIdempotent(v: Json, keys: seq<Bytes>)
    requires WellFormed(v)
    ensures Strip(Strip(v, keys), keys) == Strip(v, keys)
  {
    match v
    case Arr(items) =>
      forall i | 0 <= i < |items|
        ensures Strip(Strip(items[i], keys), keys) == Strip(items[i], keys)
      {
        StripIdempotent(items[i], keys);
      }
    case Obj(ms) =>
      var s, kept := Strip(v, keys).members, RemoveAll(ms, keys);
      StripMembers(ms, keys);
      NoDroppedKeys(ms, keys);
      RemoveAllAbsent(s, keys);
      forall i | 0 <= i < |s|
        ensures Strip(s[i].value, keys) == s[i].value
      {
        assert kept[i] in ms;
        StripIdempotent(kept[i].value, keys);
      }
      StripFixed(s, keys);
    case _ =>
  }

  lemma StripFixed(ms: seq<Member>, keys: seq<Bytes>)
    requires DistinctKeys(ms) && RemoveAll(ms, keys) == ms
    requires forall i :: 0 <= i < |ms| ==> Strip(ms[i].value, keys) == ms[i].value
    ensures Strip(Obj(ms), keys) == Obj(ms)
  {
    StripMembers(ms, keys);
  }

  lemma NoDroppedKeys(ms: seq<Member>, keys: seq<Bytes>)
    requires DistinctKeys(ms)
    ensures forall k :: k in keys ==> !HasKey(Strip(Obj(ms), keys).members, k)
  {
    forall k | k in keys
      ensures !HasKey(Strip(Obj(ms), keys).members, k)
    {
      StripGet(ms, k, keys);
    }
  }

  /** A path shows when it passes through none of the eight provenance keys. */
  lemma VisibleExactly(path: JsonPath)
    ensures Visible(path, DroppedKeys()) <==> forall i :: 0 <= i < |path| ==>
              path[i] !in {Key(Ascii("build_run_id")), Key(Ascii("run_id")), Key(Ascii("source_attempt_id")),
                           Key(Ascii("build_attempt_id")), Key(Ascii("created_at")), Key(Ascii("started_at")),
                           Key(Ascii("finished_at")), Key(Ascii("duration_millis"))}
  {
    forall i | 0 <= i < |path|
      ensures (path[i].Key? && path[i].key in DroppedKeys()) <==>
              path[i] in {Key(Ascii("build_run_id")), Key(Ascii("run_id")), Key(Ascii("source_attempt_id")),
                          Key(Ascii("build_attempt_id")), Key(Ascii("created_at")), Key(Ascii("started_at")),
                          Key(Ascii("finished_at")), Key(Ascii("duration_millis"))}
    {
      DroppedExactly(path[i]);
    }
  }

  lemma DroppedExactly(step: Step)
    ensures (step.Key? && step.key in DroppedKeys()) <==>
            step in {Key(Ascii("build_run_id")), Key(Ascii("run_id")), Key(Ascii("source_attempt_id")),
                     Key(Ascii("build_attempt_id")), Key(Ascii("created_at")), Key(Ascii("started_at")),
                     Key(Ascii("finished_at")), Key(Ascii("duration_millis"))}
  {}

  /** `execution_provenance_equivalent`, on clones of both values: true exactly
      when they agree at every path through none of the eight keys. */
  method ExecutionProvenanceEquivalent(left: Json, right: Json) returns (r: bool)
    requires WellFormed(left) && WellFormed(right)
    ensures r <==> forall path :: Visible(path, DroppedKeys()) ==> ShapeAt(left, path) == ShapeAt(right, path)
  {
    var keys := DroppedKeys();
    var strippedLeft := RemoveExecutionProvenance(left, keys);
    var strippedRight := RemoveExecutionProvenance(right, keys);
    r := SameValue(strippedLeft, strippedRight);
    EquivalentIffAgree(left, right, keys);
  }
}
