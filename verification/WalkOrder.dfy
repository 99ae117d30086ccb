/** Which walks of a directory tree the tree digest can see: a walk visits every
    directory before what it contains and finishes it before going on, and only
    the order inside a directory is open. */
module WalkOrder {
  import opened Bytes
  import opened Sorting
  import opened Paths
  import opened Digests

  /** A visited node and, in the order the directory is read, what it contains. */
  datatype Branch = Branch(visit: Visit, children: seq<Branch>)

  /** The walk: depth first, directories before their contents. */
  function Walk(forest: seq<Branch>): (walk: seq<Visit>) {
    if forest == [] then []
    else [forest[0].visit] + Walk(forest[0].children) + Walk(forest[1..])
  }

  /** The same tree, every directory possibly read in another order. */
  ghost predicate Reread(f: seq<Branch>, g: seq<Branch>) {
    if f == [] then g == []
    else exists k :: 0 <= k < |g| && SameBranch(f[0], g[k]) && Reread(f[1..], Without(g, k))
  }

  ghost predicate SameBranch(b: Branch, c: Branch) {
    b.visit == c.visit && Reread(b.children, c.children)
  }

  /** Every node lies directly below the one that contains it. */
  ghost predicate Placed(f: seq<Branch>, base: Path) {
    forall i :: 0 <= i < |f| ==>
      && (exists n :: f[i].visit.path == base + [n])
      && Placed(f[i].children, f[i].visit.path)
  }

  // ---- rereading ----

  lemma {:induction false} WalkAppend(f: seq<Branch>, g: seq<Branch>)
    ensures Walk(f + g) == Walk(f) + Walk(g)
  {
    if f == [] {
      assert f + g == g;
    } else {
      assert (f + g)[1..] == f[1..] + g;
      WalkAppend(f[1..], g);
    }
  }

  lemma WalkSplit(g: seq<Branch>, k: nat)
    requires k < |g|
    ensures Walk(g) == Walk(g[..k]) + ([g[k].visit] + Walk(g[k].children)) + Walk(g[k + 1..])
    ensures Walk(Without(g, k)) == Walk(g[..k]) + Walk(g[k + 1..])
  {
    WalkFrom(g, k);
    assert g == g[..k] + g[k..];
    WalkAppend(g[..k], g[k..]);
    WalkAppend(g[..k], g[k + 1..]);
    Reassociate(Walk(g[..k]), [g[k].visit] + Walk(g[k].children), Walk(g[k + 1..]));
  }

  lemma WalkFrom(g: seq<Branch>, k: nat)
    requires k < |g|
    ensures Walk(g[k..]) == [g[k].visit] + Walk(g[k].children) + Walk(g[k + 1..])
  {
    assert g[k..][1..] == g[k + 1..];
  }

  lemma Reassociate<T>(a: seq<T>, b: seq<T>, c: seq<T>)
    ensures a + (b + c) == a + b + c
  {}

  /** Rereading visits the same nodes. */
  lemma {:induction false} RereadPermutes(f: seq<Branch>, g: seq<Branch>)
    requires Reread(f, g)
    ensures multiset(Walk(f)) == multiset(Walk(g))
    decreases f
  {
    if f != [] {
      var k :| 0 <= k < |g| && SameBranch(f[0], g[k]) && Reread(f[1..], Without(g, k));
      RereadPermutes(f[0].children, g[k].children);
      RereadPermutes(f[1..], Without(g, k));
      WalkSplit(g, k);
      SameVisits(f[0].visit, Walk(f[0].children), Walk(f[1..]), Walk(g[k].children), Walk(g[..k]), Walk(g[k + 1..]));
    }
  }

  lemma SameVisits(v: Visit, a: seq<Visit>, b: seq<Visit>, c: seq<Visit>, d: seq<Visit>, e: seq<Visit>)
    requires multiset(a) == multiset(c) && multiset(b) == multiset(d + e)
    ensures multiset([v] + a + b) == multiset(d + ([v] + c) + e)
  {}

  lemma RereadCons(f: seq<Branch>, g: seq<Branch>, k: nat, rest: seq<Branch>)
    requires f != [] && k < |g| && f[0].visit == g[k].visit && Reread(f[0].children, g[k].children)
    requires Without(g, k) == rest && Reread(f[1..], rest)
    ensures Reread(f, g)
  {
    assert SameBranch(f[0], g[k]);
  }

  lemma {:induction false} RereadReflexive(f: seq<Branch>)
    ensures Reread(f, f)
    decreases f
  {
    if f != [] {
      RereadReflexive(f[0].children);
      RereadReflexive(f[1..]);
      RereadCons(f, f, 0, f[1..]);
    }
  }

  /** One directory read in another order. */
  lemma {:induction false} RereadBelow(f: seq<Branch>, i: nat, children: seq<Branch>)
    requires i < |f| && Reread(f[i].children, children)
    ensures Reread(f, f[i := Branch(f[i].visit, children)])
    decreases |f|
  {
    var b := Branch(f[i].visit, children);
    var g := f[i := b];
    if i == 0 {
      RereadReflexive(f[1..]);
      RereadCons(f, g, 0, f[1..]);
    } else {
      RereadReflexive(f[0].children);
      RereadBelow(f[1..], i - 1, children);
      RereadCons(f, g, 0, f[1..][i - 1 := b]);
    }
  }

  /** One entry of the directory read first. */
  lemma {:induction false} RereadFirst(f: seq<Branch>, i: nat)
    requires i < |f|
    ensures Reread(f, [f[i]] + Without(f, i))
    decreases |f|
  {
    var g := [f[i]] + Without(f, i);
    RereadReflexive(f[0].children);
    if i == 0 {
      RereadReflexive(f[1..]);
      RereadCons(f, g, 0, f[1..]);
    } else {
      RereadFirst(f[1..], i - 1);
      assert g[1] == f[0];
      RereadCons(f, g, 1, [f[1..][i - 1]] + Without(f[1..], i - 1));
    }
  }

  // ---- the entries with one relative path, in walk order ----

  function Picked(k: Bytes, f: seq<Branch>): (es: seq<Entry>) {
    WithKey(RelativeKey, k, Entries(Walk(f)))
  }

  lemma {:induction false} WithKeyAppend(k: Bytes, s: seq<Entry>, t: seq<Entry>)
    ensures WithKey(RelativeKey, k, s + t) == WithKey(RelativeKey, k, s) + WithKey(RelativeKey, k, t)
  {
    if s == [] {
      assert s + t == t;
    } else {
      assert s + t == [s[0]] + (s[1..] + t) && s == [s[0]] + s[1..];
      WithKeyAppend(k, s[1..], t);
      WithKeyCons(RelativeKey, k, s[0], s[1..] + t);
      WithKeyCons(RelativeKey, k, s[0], s[1..]);
    }
  }

  lemma {:induction false} WithKeyMember(k: Bytes, s: seq<Entry>, x: Entry)
    ensures x in WithKey(RelativeKey, k, s) <==> x in s && RelativeKey(x) == k
  {
    if s != [] {
      WithKeyMember(k, s[1..], x);
      assert s == [s[0]] + s[1..];
    }
  }

  lemma PickedAppend(k: Bytes, f: seq<Branch>, g: seq<Branch>)
    ensures Picked(k, f + g) == Picked(k, f) + Picked(k, g)
  {
    WalkAppend(f, g);
    MapAppend(EntryOf, Walk(f), Walk(g));
    WithKeyAppend(k, Entries(Walk(f)), Entries(Walk(g)));
  }

  lemma PickedOne(k: Bytes, b: Branch)
    ensures Picked(k, [b]) == (if VisitKey(b.visit) == k then [EntryOf(b.visit)] else []) + Picked(k, b.children)
  {
    assert [b][1..] == [];
    assert Walk([b]) == [b.visit] + Walk(b.children);
    MapAppend(EntryOf, [b.visit], Walk(b.children));
    assert Map(EntryOf, [b.visit]) == [EntryOf(b.visit)];
    WithKeyCons(RelativeKey, k, EntryOf(b.visit), Entries(Walk(b.children)));
  }

  lemma PickedAt(k: Bytes, f: seq<Branch>, i: nat)
    requires i < |f|
    ensures Picked(k, f) == Picked(k, f[..i]) + Picked(k, [f[i]]) + Picked(k, f[i + 1..])
  {
    assert f == f[..i] + ([f[i]] + f[i + 1..]);
    PickedAppend(k, f[..i], [f[i]] + f[i + 1..]);
    PickedAppend(k, [f[i]], f[i + 1..]);
  }

  /** Which branch a picked entry comes from. */
  lemma {:induction false} PickedFrom(k: Bytes, f: seq<Branch>, x: Entry) returns (i: nat)
    requires x in Picked(k, f)
    ensures i < |f| && x in Picked(k, [f[i]])
    decreases |f|
  {
    assert f != [] && f[..0] == [];
    PickedAt(k, f, 0);
    if x in Picked(k, [f[0]]) {
      i := 0;
    } else {
      i := PickedFrom(k, f[1..], x);
      assert f[1..][i] == f[i + 1];
      i := i + 1;
    }
  }

  // ---- a node never shares its relative path with what it contains ----

  lemma LongerBelow(base: Path, n: Bytes)
    requires base != []
    ensures |RelativeSlash(base + [n])| > |RelativeSlash(base)|
  {
    JoinSnoc(base, n, SLASH);
  }

  lemma {:induction false} BelowIsLonger(f: seq<Branch>, base: Path, v: Visit)
    requires base != [] && Placed(f, base) && v in Walk(f)
    ensures |VisitKey(v)| > |RelativeSlash(base)|
    decreases f
  {
    var b := f[0];
    var n :| b.visit.path == base + [n];
    LongerBelow(base, n);
    if v in Walk(b.children) {
      BelowIsLonger(b.children, b.visit.path, v);
    } else if v != b.visit {
      assert forall i :: 0 <= i < |f[1..]| ==> f[1..][i] == f[i + 1];
      BelowIsLonger(f[1..], base, v);
    }
  }

  /** So a branch whose root is picked has nothing else picked. */
  lemma RootOrBelow(k: Bytes, b: Branch)
    requires b.visit.path != [] && Placed(b.children, b.visit.path) && VisitKey(b.visit) == k
    ensures Picked(k, b.children) == []
  {
    if Picked(k, b.children) != [] {
      var x := Picked(k, b.children)[0];
      WithKeyMember(k, Entries(Walk(b.children)), x);
      var i :| 0 <= i < |Walk(b.children)| && EntryOf(Walk(b.children)[i]) == x;
      BelowIsLonger(b.children, b.visit.path, Walk(b.children)[i]);
    }
  }

  // ---- two readings that differ ----

  /** Some two readings of the tree pick different entries, or the same in another order. */
  ghost predicate Diverges(k: Bytes, f: seq<Branch>) {
    exists g, h :: Reread(f, g) && Reread(f, h) && Picked(k, g) != Picked(k, h)
  }

  lemma DivergesBelow(k: Bytes, f: seq<Branch>, i: nat)
    requires i < |f| && Diverges(k, f[i].children)
    ensures Diverges(k, f)
  {
    var c, d :| Reread(f[i].children, c) && Reread(f[i].children, d) && Picked(k, c) != Picked(k, d);
    var g, h := f[i := Branch(f[i].visit, c)], f[i := Branch(f[i].visit, d)];
    RereadBelow(f, i, c);
    RereadBelow(f, i, d);
    PickedBelow(k, f, i, c);
    PickedBelow(k, f, i, d);
    var before := Picked(k, f[..i]) + (if VisitKey(f[i].visit) == k then [EntryOf(f[i].visit)] else []);
    SameEnds(before, Picked(k, c), Picked(k, d), Picked(k, f[i + 1..]));
    assert Picked(k, g) != Picked(k, h);
  }

  lemma PickedBelow(k: Bytes, f: seq<Branch>, i: nat, c: seq<Branch>)
    requires i < |f|
    ensures Picked(k, f[i := Branch(f[i].visit, c)])
         == Picked(k, f[..i]) + (if VisitKey(f[i].visit) == k then [EntryOf(f[i].visit)] else [])
            + Picked(k, c) + Picked(k, f[i + 1..])
  {
    var g := f[i := Branch(f[i].visit, c)];
    PickedAt(k, g, i);
    PickedOne(k, g[i]);
    assert g[..i] == f[..i] && g[i + 1..] == f[i + 1..];
  }

  lemma SameEnds(a: seq<Entry>, b: seq<Entry>, c: seq<Entry>, d: seq<Entry>)
    ensures a + b + d == a + c + d <==> b == c
  {
    if a + b + d == a + c + d {
      assert |b| == |c|;
      assert (a + b + d)[|a|..|a| + |b|] == b && (a + c + d)[|a|..|a| + |c|] == c;
    }
  }

  /** Two branches that pick different first entries: read either one first. */
  lemma DivergesHere(k: Bytes, f: seq<Branch>, i: nat, j: nat)
    requires i < |f| && j < |f| && Picked(k, [f[i]]) != [] && Picked(k, [f[j]]) != []
    requires Picked(k, [f[i]])[0] != Picked(k, [f[j]])[0]
    ensures Diverges(k, f)
  {
    var g, h := [f[i]] + Without(f, i), [f[j]] + Without(f, j);
    RereadFirst(f, i);
    RereadFirst(f, j);
    PickedAppend(k, [f[i]], Without(f, i));
    PickedAppend(k, [f[j]], Without(f, j));
    assert Picked(k, g)[0] != Picked(k, h)[0];
  }

  /** Different entries that share a relative path can always be read in another order. */
  lemma {:induction false} CollisionDiverges(k: Bytes, f: seq<Branch>, base: Path, x: Entry, y: Entry)
    requires Placed(f, base) && x in Picked(k, f) && y in Picked(k, f) && x != y
    ensures Diverges(k, f)
    decreases f
  {
    var i := PickedFrom(k, f, x);
    var j := PickedFrom(k, f, y);
    var first, second := Picked(k, [f[i]])[0], Picked(k, [f[j]])[0];
    if first != second {
      DivergesHere(k, f, i, j);
    } else if first != x {
      CollisionInside(k, f, base, i, first, x);
    } else {
      CollisionInside(k, f, base, j, second, y);
    }
  }

  lemma CollisionInside(k: Bytes, f: seq<Branch>, base: Path, i: nat, x: Entry, y: Entry)
    requires Placed(f, base) && i < |f| && x in Picked(k, [f[i]]) && y in Picked(k, [f[i]]) && x != y
    ensures Diverges(k, f)
    decreases f, 0
  {
    var b := f[i];
    PickedOne(k, b);
    if VisitKey(b.visit) == k {
      RootOrBelow(k, b);
      assert false;
    } else {
      CollisionDiverges(k, b.children, b.visit.path, x, y);
      DivergesBelow(k, f, i);
    }
  }

  // ---- the digest ----

  /** Every reading of the tree hashes the same bytes. */
  ghost predicate WalkIndependent(f: seq<Branch>) {
    forall g :: Reread(f, g) ==> Preimage(Entries(Walk(g))) == Preimage(Entries(Walk(f)))
  }

  lemma RereadEntries(f: seq<Branch>, g: seq<Branch>)
    requires Reread(f, g)
    ensures multiset(Entries(Walk(g))) == multiset(Entries(Walk(f)))
  {
    RereadPermutes(f, g);
    MapPermutes(EntryOf, Walk(g), Walk(f));
  }

  /** Readings that pick different entries hash differently. */
  lemma DivergentPreimages(k: Bytes, f: seq<Branch>, g: seq<Branch>, h: seq<Branch>)
    requires AllRepresentable(Entries(Walk(f))) && Reread(f, g) && Reread(f, h) && Picked(k, g) != Picked(k, h)
    ensures Preimage(Entries(Walk(g))) != Preimage(Entries(Walk(h)))
  {
    var es, es' := Entries(Walk(g)), Entries(Walk(h));
    RereadEntries(f, g);
    RereadEntries(f, h);
    PermutedRepresentable(Entries(Walk(f)), es);
    PermutedRepresentable(Entries(Walk(f)), es');
    PreimageInjective(es, es');
    SortStable(RelativeKey, k, es);
    SortStable(RelativeKey, k, es');
  }

  /** For every directory tree: the digest is the same in all orders in which its
      directories can be read if and only if no two different entries share a
      relative path. */
  lemma WalkIndependence(f: seq<Branch>)
    requires Placed(f, []) && AllRepresentable(Entries(Walk(f)))
    ensures WalkIndependent(f) <==> KeyDetermines(RelativeKey, Entries(Walk(f)))
  {
    var es := Entries(Walk(f));
    if KeyDetermines(RelativeKey, es) {
      OrderIndependence(es);
      forall g | Reread(f, g)
        ensures Preimage(Entries(Walk(g))) == Preimage(es)
      {
        RereadEntries(f, g);
      }
    } else {
      var x, y :| x in es && y in es && RelativeKey(x) == RelativeKey(y) && x != y;
      var k := RelativeKey(x);
      WithKeyMember(k, es, x);
      WithKeyMember(k, es, y);
      CollisionDiverges(k, f, [], x, y);
      var g, h :| Reread(f, g) && Reread(f, h) && Picked(k, g) != Picked(k, h);
      DivergentPreimages(k, f, g, h);
    }
  }

  /** A tree that fails it: a directory `a` holding `b`, beside a file `a\b`. Its
      two walks hash differently. */
  function Colliding(): (f: seq<Branch>) {
    [Branch(Visit([[97]], DirKind, 0, []), [Branch(Visit([[97], [98]], FileKind, 1, [[1]]), [])]),
     Branch(Visit([[97, BACKSLASH, 98]], FileKind, 1, [[2]]), [])]
  }

  lemma BackslashCollision()
    ensures var f := Colliding();
            var dir, inner, other := f[0].visit, f[0].children[0].visit, f[1].visit;
            && Placed(f, []) && Reread(f, [f[1], f[0]])
            && Walk(f) == [dir, inner, other] && Walk([f[1], f[0]]) == [other, dir, inner]
            && Preimage(Entries([dir, inner, other])) != Preimage(Entries([other, dir, inner]))
  {
    var f := Colliding();
    RereadFirst(f, 1);
    assert [f[1]] + Without(f, 1) == [f[1], f[0]];
    CollidingIsPlaced();
    CollidingWalks(f[0].visit, f[0].children[0].visit, f[1].visit);
    CollidingKeys();
    CollidingEntries(f[0].visit, f[0].children[0].visit, f[1].visit, [97, SLASH, 98]);
  }

  lemma CollidingIsPlaced()
    ensures Placed(Colliding(), [])
  {
    var f := Colliding();
    var below := f[0].children;
    assert f[0].visit.path == [] + [[97]] && f[1].visit.path == [] + [[97, BACKSLASH, 98]];
    assert below[0].visit.path == [[97]] + [[98]] && Placed(below[0].children, below[0].visit.path);
    assert Placed(below, f[0].visit.path);
  }

  lemma CollidingWalks(dir: Visit, inner: Visit, other: Visit)
    ensures var a, b := Branch(dir, [Branch(inner, [])]), Branch(other, []);
            Walk([a, b]) == [dir, inner, other] && Walk([b, a]) == [other, dir, inner]
  {
    var a, b := Branch(dir, [Branch(inner, [])]), Branch(other, []);
    WalkOne(Branch(inner, []));
    WalkOne(a);
    WalkOne(b);
    WalkAppend([a], [b]);
    WalkAppend([b], [a]);
    assert [a] + [b] == [a, b] && [b] + [a] == [b, a];
  }

  lemma WalkOne(b: Branch)
    ensures Walk([b]) == [b.visit] + Walk(b.children)
  {
    assert [b][1..] == [];
  }

  lemma CollidingKeys()
    ensures var f := Colliding();
            && VisitKey(f[0].visit) == [97]
            && VisitKey(f[0].children[0].visit) == [97, SLASH, 98] == VisitKey(f[1].visit)
            && EntryOf(f[0].children[0].visit).content == [1] && EntryOf(f[1].visit).content == [2]
  {
    assert Text([[97], [98]]) == [97] + [SLASH] + Join([[97], [98]][1..], SLASH);
    assert Content([[1]][1..]) == [] && Content([[2]][1..]) == [];
  }

  /** Whatever precedes it, the collision stays in walk order. */
  lemma CollidingEntries(dir: Visit, inner: Visit, other: Visit, k: Bytes)
    requires VisitKey(dir) != k && VisitKey(inner) == k == VisitKey(other) && EntryOf(inner) != EntryOf(other)
    requires AllRepresentable(Entries([dir, inner, other]))
    ensures Preimage(Entries([dir, inner, other])) != Preimage(Entries([other, dir, inner]))
  {
    var d, x, y := EntryOf(dir), EntryOf(inner), EntryOf(other);
    assert Entries([dir, inner, other]) == [d, x, y] && Entries([other, dir, inner]) == [y, d, x];
    FirstOfThree(k, d, x, y);
    PermutedRepresentable([d, x, y], [y, d, x]);
    PreimageInjective([d, x, y], [y, d, x]);
    SortStable(RelativeKey, k, [d, x, y]);
    SortStable(RelativeKey, k, [y, d, x]);
  }

  lemma FirstOfThree(k: Bytes, d: Entry, x: Entry, y: Entry)
    requires d.relative != k && x.relative == k == y.relative && x != y
    ensures multiset([y, d, x]) == multiset([d, x, y])
    ensures WithKey(RelativeKey, k, [d, x, y]) != WithKey(RelativeKey, k, [y, d, x])
  {
    assert [d, x, y] == [d] + ([x] + [y]) && [y, d, x] == [y] + [d, x];
    WithKeyCons(RelativeKey, k, d, [x] + [y]);
    WithKeyCons(RelativeKey, k, x, [y]);
    WithKeyCons(RelativeKey, k, y, [d, x]);
    assert WithKey(RelativeKey, k, [d, x, y])[0] == x && WithKey(RelativeKey, k, [y, d, x])[0] == y;
  }
}
