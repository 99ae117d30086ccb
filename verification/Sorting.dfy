/** Rust's stable `sort_by`/`sort_by_key` on byte-string keys, specified by
    insertion sort, with the facts that make a sorted list a canonical form. */
module Sorting {
  import opened Bytes

  ghost predicate SortedBy<T>(key: T -> Bytes, s: seq<T>) {
    forall i, j :: 0 <= i < j < |s| ==> Leq(key(s[i]), key(s[j]))
  }

  /** Equal keys come only from equal elements. */
  ghost predicate KeyDetermines<T(!new)>(key: T -> Bytes, s: seq<T>) {
    forall x, y :: x in s && y in s && key(x) == key(y) ==> x == y
  }

  function Insert<T>(key: T -> Bytes, x: T, s: seq<T>): (r: seq<T>)
    ensures |r| == |s| + 1
  {
    if s == [] || Leq(key(x), key(s[0])) then [x] + s
    else [s[0]] + Insert(key, x, s[1..])
  }

  function Sort<T>(key: T -> Bytes, s: seq<T>): (r: seq<T>)
    ensures |r| == |s|
  {
    if s == [] then [] else Insert(key, s[0], Sort(key, s[1..]))
  }

  lemma {:induction false} InsertPermutes<T>(key: T -> Bytes, x: T, s: seq<T>)
    ensures multiset(Insert(key, x, s)) == multiset([x] + s)
  {
    if s != [] && !Leq(key(x), key(s[0])) {
      InsertPermutes(key, x, s[1..]);
      assert s == [s[0]] + s[1..];
    }
  }

  lemma {:induction false} SortPermutes<T>(key: T -> Bytes, s: seq<T>)
    ensures multiset(Sort(key, s)) == multiset(s)
  {
    if s != [] {
      SortPermutes(key, s[1..]);
      InsertPermutes(key, s[0], Sort(key, s[1..]));
      assert s == [s[0]] + s[1..];
    }
  }

  lemma {:induction false} InsertSorts<T>(key: T -> Bytes, x: T, s: seq<T>)
    requires SortedBy(key, s)
    ensures SortedBy(key, Insert(key, x, s))
  {
    if s == [] {
    } else if Leq(key(x), key(s[0])) {
      forall j | 1 <= j < |s|
        ensures Leq(key(x), key(s[j]))
      {
        LeqTransitive(key(x), key(s[0]), key(s[j]));
      }
    } else {
      LeqTotal(key(x), key(s[0]));
      InsertSorts(key, x, s[1..]);
      InsertPermutes(key, x, s[1..]);
      var r := Insert(key, x, s[1..]);
      forall j | 0 <= j < |r|
        ensures Leq(key(s[0]), key(r[j]))
      {
        assert r[j] in multiset(r);
        assert r[j] in multiset([x] + s[1..]);
        assert r[j] == x || r[j] in s[1..];
      }
    }
  }

  lemma {:induction false} SortSorts<T>(key: T -> Bytes, s: seq<T>)
    ensures SortedBy(key, Sort(key, s))
  {
    if s != [] {
      SortSorts(key, s[1..]);
      InsertSorts(key, s[0], Sort(key, s[1..]));
    }
  }

  lemma MultisetMembers<T>(s: seq<T>, t: seq<T>)
    requires multiset(s) == multiset(t)
    ensures |s| == |t|
    ensures forall x :: x in s <==> x in t
  {
    assert |s| == |multiset(s)| && |t| == |multiset(t)|;
    forall x
      ensures x in s <==> x in t
    {
      assert x in s <==> x in multiset(s);
      assert x in t <==> x in multiset(t);
    }
  }

  lemma SortedHead<T(!new)>(key: T -> Bytes, s: seq<T>, t: seq<T>)
    requires SortedBy(key, s) && SortedBy(key, t)
    requires multiset(s) == multiset(t)
    requires KeyDetermines(key, s)
    requires s != []
    ensures t != [] && s[0] == t[0]
  {
    MultisetMembers(s, t);
    assert s[0] in t && t[0] in s;
    var i :| 0 <= i < |t| && t[i] == s[0];
    var j :| 0 <= j < |s| && s[j] == t[0];
    if i > 0 && j > 0 {
      LeqAntisymmetric(key(s[0]), key(t[0]));
    }
  }

  lemma MultisetTail<T>(s: seq<T>)
    requires s != []
    ensures multiset(s[1..]) == multiset(s) - multiset{s[0]}
  {
    assert s == [s[0]] + s[1..];
  }

  lemma SortedTail<T>(key: T -> Bytes, s: seq<T>)
    requires s != [] && SortedBy(key, s)
    ensures SortedBy(key, s[1..])
  {}

  lemma KeyDeterminesTail<T(!new)>(key: T -> Bytes, s: seq<T>)
    requires s != [] && KeyDetermines(key, s)
    ensures KeyDetermines(key, s[1..])
  {
    assert forall x :: x in s[1..] ==> x in s;
  }

  /** Two sorted lists of the same elements are the same list, when equal keys
      mean equal elements. */
  lemma {:induction false} SortedUnique<T(!new)>(key: T -> Bytes, s: seq<T>, t: seq<T>)
    requires SortedBy(key, s) && SortedBy(key, t)
    requires multiset(s) == multiset(t)
    requires KeyDetermines(key, s)
    ensures s == t
  {
    if s == [] {
      MultisetMembers(s, t);
    } else {
      SortedTails(key, s, t);
      SortedUnique(key, s[1..], t[1..]);
      SameHeadAndTail(s, t);
    }
  }

  /** What makes two lists one makes their tails one. */
  lemma SortedTails<T(!new)>(key: T -> Bytes, s: seq<T>, t: seq<T>)
    requires SortedBy(key, s) && SortedBy(key, t)
    requires multiset(s) == multiset(t) && KeyDetermines(key, s) && s != []
    ensures t != [] && s[0] == t[0]
    ensures SortedBy(key, s[1..]) && SortedBy(key, t[1..])
    ensures multiset(s[1..]) == multiset(t[1..]) && KeyDetermines(key, s[1..])
  {
    SortedHead(key, s, t);
    MultisetTail(s);
    MultisetTail(t);
    SortedTail(key, s);
    SortedTail(key, t);
    KeyDeterminesTail(key, s);
  }

  lemma SameHeadAndTail<T>(s: seq<T>, t: seq<T>)
    requires s != [] && t != [] && s[0] == t[0] && s[1..] == t[1..]
    ensures s == t
  {
    assert s == [s[0]] + s[1..] && t == [t[0]] + t[1..];
  }

  /** Sorting is a canonical form of a multiset whose keys determine its elements. */
  lemma SortCanonical<T(!new)>(key: T -> Bytes, s: seq<T>, t: seq<T>)
    requires KeyDetermines(key, s)
    ensures Sort(key, s) == Sort(key, t) <==> multiset(s) == multiset(t)
  {
    SortPermutes(key, s);
    SortPermutes(key, t);
    if multiset(s) == multiset(t) {
      SortSorts(key, s);
      SortSorts(key, t);
      MultisetMembers(Sort(key, s), s);
      SortedUnique(key, Sort(key, s), Sort(key, t));
    }
  }

  lemma {:induction false} SortFixesSorted<T>(key: T -> Bytes, s: seq<T>)
    requires SortedBy(key, s)
    ensures Sort(key, s) == s
  {
    if s != [] {
      SortFixesSorted(key, s[1..]);
      assert s == [s[0]] + s[1..];
    }
  }

  // ---- sorting the images of a function ----

  lemma {:induction false} InsertMaps<T(!new), U>(f: T -> U, key: T -> Bytes, image: U -> Bytes, x: T, s: seq<T>)
    requires forall y :: image(f(y)) == key(y)
    ensures Insert(image, f(x), Map(f, s)) == Map(f, Insert(key, x, s))
  {
    if s == [] || Leq(key(x), key(s[0])) {
      assert Map(f, [x] + s) == [f(x)] + Map(f, s);
    } else {
      MapHead(f, s);
      InsertMaps(f, key, image, x, s[1..]);
      MapHead(f, [s[0]] + Insert(key, x, s[1..]));
      assert ([s[0]] + Insert(key, x, s[1..]))[1..] == Insert(key, x, s[1..]);
    }
  }

  /** Mapping and sorting commute when the keys do. */
  lemma {:induction false} SortMaps<T(!new), U>(f: T -> U, key: T -> Bytes, image: U -> Bytes, s: seq<T>)
    requires forall y :: image(f(y)) == key(y)
    ensures Sort(image, Map(f, s)) == Map(f, Sort(key, s))
  {
    if s != [] {
      MapHead(f, s);
      SortMaps(f, key, image, s[1..]);
      InsertMaps(f, key, image, s[0], Sort(key, s[1..]));
    }
  }

  // ---- stability ----

  function WithKey<T>(key: T -> Bytes, k: Bytes, s: seq<T>): (r: seq<T>) {
    if s == [] then []
    else (if key(s[0]) == k then [s[0]] else []) + WithKey(key, k, s[1..])
  }

  lemma WithKeyCons<T>(key: T -> Bytes, k: Bytes, x: T, s: seq<T>)
    ensures WithKey(key, k, [x] + s) == (if key(x) == k then [x] else []) + WithKey(key, k, s)
  {
    assert ([x] + s)[1..] == s;
  }

  lemma {:induction false} InsertStable<T>(key: T -> Bytes, k: Bytes, x: T, s: seq<T>)
    ensures WithKey(key, k, Insert(key, x, s)) == (if key(x) == k then [x] else []) + WithKey(key, k, s)
  {
    if s == [] || Leq(key(x), key(s[0])) {
      WithKeyCons(key, k, x, s);
    } else {
      InsertStable(key, k, x, s[1..]);
      WithKeyCons(key, k, s[0], Insert(key, x, s[1..]));
      WithKeyCons(key, k, s[0], s[1..]);
      assert s == [s[0]] + s[1..];
      LeqReflexive(key(x));
      assert !(key(x) == k && key(s[0]) == k);
    }
  }

  /** Stability: elements with the same key keep their relative order. */
  lemma {:induction false} SortStable<T>(key: T -> Bytes, k: Bytes, s: seq<T>)
    ensures WithKey(key, k, Sort(key, s)) == WithKey(key, k, s)
  {
    if s != [] {
      SortStable(key, k, s[1..]);
      InsertStable(key, k, s[0], Sort(key, s[1..]));
    }
  }

  // ---- when the order of the input matters ----

  lemma SwappedPairDiffers<T(!new)>(key: T -> Bytes, x: T, y: T, rest: seq<T>)
    requires x != y && key(x) == key(y)
    ensures Sort(key, [x, y] + rest) != Sort(key, [y, x] + rest)
  {
    var k := key(x);
    SortStable(key, k, [x, y] + rest);
    SortStable(key, k, [y, x] + rest);
    assert [x, y] + rest == [x] + ([y] + rest) && [y, x] + rest == [y] + ([x] + rest);
    WithKeyCons(key, k, x, [y] + rest);
    WithKeyCons(key, k, y, [x] + rest);
    assert WithKey(key, k, [x, y] + rest)[0] == x;
    assert WithKey(key, k, [y, x] + rest)[0] == y;
  }

  lemma PairMultiset<T>(x: T, y: T, rest: seq<T>)
    ensures multiset([x, y] + rest) == multiset{x} + multiset{y} + multiset(rest)
  {}

  lemma TakeOut<T>(s: seq<T>, x: T) returns (rest: seq<T>)
    requires x in s
    ensures multiset(s) == multiset{x} + multiset(rest)
    ensures forall y :: y in s && y != x ==> y in rest
  {
    var i :| 0 <= i < |s| && s[i] == x;
    rest := Without(s, i);
    assert s == s[..i] + [x] + s[i + 1..];
  }

  ghost predicate OrderIrrelevant<T(!new)>(key: T -> Bytes, s: seq<T>) {
    forall t :: multiset(t) == multiset(s) ==> Sort(key, t) == Sort(key, s)
  }

  /** A stable sort forgets the input order exactly when equal keys mean equal elements. */
  lemma SortOrderIndependent<T(!new)>(key: T -> Bytes, s: seq<T>)
    ensures OrderIrrelevant(key, s) <==> KeyDetermines(key, s)
  {
    if KeyDetermines(key, s) {
      forall t | multiset(t) == multiset(s)
        ensures Sort(key, t) == Sort(key, s)
      {
        SortCanonical(key, s, t);
      }
    }
    if OrderIrrelevant(key, s) {
      forall x, y | x in s && y in s && key(x) == key(y)
        ensures x == y
      {
        if x != y {
          TwoOrders(key, s, x, y);
        }
      }
    }
  }

  lemma TwoOrders<T(!new)>(key: T -> Bytes, s: seq<T>, x: T, y: T)
    requires x in s && y in s && x != y && key(x) == key(y)
    ensures !OrderIrrelevant(key, s)
  {
    var one := TakeOut(s, x);
    var rest := TakeOut(one, y);
    PairMultiset(x, y, rest);
    PairMultiset(y, x, rest);
    assert multiset([x, y] + rest) == multiset(s) && multiset([y, x] + rest) == multiset(s);
    SwappedPairDiffers(key, x, y, rest);
  }

  // ---- what permutations keep ----

  lemma {:induction false} DistinctMultiset<T(!new)>(s: seq<T>)
    requires Distinct(s)
    ensures forall x :: multiset(s)[x] == if x in s then 1 else 0
  {
    if s != [] {
      DistinctMultiset(s[1..]);
      assert s == [s[0]] + s[1..];
      assert s[0] !in s[1..];
    }
  }

  lemma DistinctSameMultiset<T(!new)>(s: seq<T>, t: seq<T>)
    requires Distinct(s) && Distinct(t)
    requires forall x :: x in s <==> x in t
    ensures multiset(s) == multiset(t)
  {
    DistinctMultiset(s);
    DistinctMultiset(t);
  }

  lemma TwiceInMultiset<T>(s: seq<T>, i: nat, j: nat)
    requires i < j < |s| && s[i] == s[j]
    ensures multiset(s)[s[i]] >= 2
  {
    assert s == s[..j] + s[j..];
    assert s[i] in s[..j] && s[i] in s[j..];
    assert s[..j][i] == s[i] && s[j..][0] == s[j];
  }

  lemma PermutedIsDistinct<T(!new)>(s: seq<T>, t: seq<T>)
    requires multiset(s) == multiset(t) && Distinct(s)
    ensures Distinct(t)
  {
    DistinctMultiset(s);
    forall i, j | 0 <= i < j < |t|
      ensures t[i] != t[j]
    {
      if t[i] == t[j] {
        TwiceInMultiset(t, i, j);
      }
    }
  }

  lemma {:induction false} MapPermutes<T, U>(f: T -> U, s: seq<T>, t: seq<T>)
    requires multiset(s) == multiset(t)
    ensures multiset(Map(f, s)) == multiset(Map(f, t))
    decreases |s|
  {
    if s == [] {
      assert |multiset(t)| == 0;
    } else {
      assert s[0] in multiset(t);
      var i :| 0 <= i < |t| && t[i] == s[0];
      WithoutMultiset(t, i);
      MultisetTail(s);
      MapPermutes(f, s[1..], Without(t, i));
      MapHead(f, s);
      MapWithout(f, t, i);
    }
  }

  lemma MapWithout<T, U>(f: T -> U, t: seq<T>, i: nat)
    requires i < |t|
    ensures multiset(Map(f, t)) == multiset{f(t[i])} + multiset(Map(f, Without(t, i)))
  {
    assert Map(f, t) == Map(f, t[..i]) + [f(t[i])] + Map(f, t[i + 1..]);
    assert Map(f, Without(t, i)) == Map(f, t[..i]) + Map(f, t[i + 1..]);
  }

  // ---- the ascending order of a set, as a `BTreeSet` iterates ----

  ghost predicate IsLeast(m: Bytes, s: set<Bytes>) {
    m in s && forall x :: x in s ==> Leq(m, x)
  }

  lemma {:induction false} LeastExists(s: set<Bytes>)
    requires s != {}
    ensures exists m :: IsLeast(m, s)
    decreases |s|
  {
    var a :| a in s;
    if s == {a} {
      LeqReflexive(a);
      assert IsLeast(a, s);
    } else {
      var rest := s - {a};
      assert rest + {a} == s;
      LeastExists(rest);
      var b :| IsLeast(b, rest);
      LeqTotal(a, b);
      LeqReflexive(a);
      var m := if Leq(a, b) then a else b;
      forall x | x in s
        ensures Leq(m, x)
      {
        if x != a && m == a {
          LeqTransitive(a, b, x);
        }
      }
      assert IsLeast(m, s);
    }
  }

  lemma LeastUnique(m: Bytes, n: Bytes, s: set<Bytes>)
    requires IsLeast(m, s) && IsLeast(n, s)
    ensures m == n
  {
    LeqAntisymmetric(m, n);
  }

  ghost function Ascending(s: set<Bytes>): (r: seq<Bytes>)
    ensures forall x :: x in r <==> x in s
    ensures forall i, j :: 0 <= i < j < |r| ==> Leq(r[i], r[j]) && r[i] != r[j]
    decreases |s|
  {
    if s == {} then []
    else
      LeastExists(s);
      var m :| IsLeast(m, s);
      [m] + Ascending(s - {m})
  }

  lemma AscendingStep(s: set<Bytes>, m: Bytes)
    requires IsLeast(m, s)
    ensures Ascending(s) == [m] + Ascending(s - {m})
  {
    LeastExists(s);
    var n :| IsLeast(n, s) && Ascending(s) == [n] + Ascending(s - {n});
    LeastUnique(m, n, s);
  }
}
