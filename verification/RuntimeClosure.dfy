/** The runtime package inventory: a worklist over Cargo's resolve graph, proved
    equal to reachability along runtime edges, and blind to everything else. */
module RuntimeClosure {
  import opened Bytes
  import opened Paths
  import opened Sorting

  type Id = Bytes

  // ---- cargo metadata, as far as it is read ----

  /** `local` says that `source` is null or absent. */
  datatype Package = Package(id: Option<Id>, name: Option<Bytes>, version: Option<Bytes>, license: Option<Bytes>,
                             local: bool, manifestPath: Option<Bytes>)

  /** `kinds` lists for each dependency kind whether it is null, that is, normal. */
  datatype Dependency = Dependency(pkg: Option<Id>, kinds: Option<seq<bool>>)

  datatype ResolveNode = ResolveNode(id: Option<Id>, deps: seq<Dependency>)

  datatype Metadata = Metadata(packages: Option<seq<Package>>, nodes: Option<seq<ResolveNode>>,
                               workspaceRoot: Option<Bytes>, workspaceMembers: Option<seq<Option<Id>>>)

  datatype DependencyPackage = DependencyPackage(ecosystem: Bytes, name: Bytes, version: Bytes, license: Bytes)

  // ---- lookup tables: for a repeated ID the last entry wins ----

  function PackagesById(ps: seq<Package>): (m: map<Id, Package>) {
    if ps == [] then map[]
    else
      var last := ps[|ps| - 1];
      var m := PackagesById(ps[..|ps| - 1]);
      if last.id.Some? then m[last.id.value := last] else m
  }

  function NodesById(ns: seq<ResolveNode>): (m: map<Id, ResolveNode>) {
    if ns == [] then map[]
    else
      var last := ns[|ns| - 1];
      var m := NodesById(ns[..|ns| - 1]);
      if last.id.Some? then m[last.id.value := last] else m
  }

  // ---- the roots and the workspace-hack crate ----

  function RootNames(): (names: seq<Bytes>) {
    [Ascii("depgraph-cli"), Ascii("depgraph-rust-worker"), Ascii("depgraph-mcp"), Ascii("depgraph-operation")]
  }

  function LocalIds(ps: seq<Package>, name: Bytes): (ids: seq<Id>) {
    if ps == [] then []
    else (if ps[0].name == Some(name) && ps[0].local && ps[0].id.Some? then [ps[0].id.value] else [])
         + LocalIds(ps[1..], name)
  }

  /** Exactly one local package for every root name. */
  function RootIds(ps: seq<Package>, names: seq<Bytes>): (r: Option<seq<Id>>) {
    if names == [] then Some([])
    else
      var ids := LocalIds(ps, names[0]);
      if |ids| != 1 then None else Prefixed(ids, RootIds(ps, names[1..]))
  }

  function HackName(): (n: Bytes) { Ascii("workspace-hack") }

  /** `WorkspaceHackIdentity`: the manifest path and the workspace members. */
  datatype HackIdentity = HackIdentity(manifestPath: Bytes, members: seq<Option<Id>>) {
    predicate Matches(p: Package) {
      && p.name == Some(HackName())
      && p.local
      && p.id.Some? && p.id in members
      && p.manifestPath.Some? && Components(p.manifestPath.value) == Components(manifestPath)
    }
  }

  datatype Graph = Graph(packages: map<Id, Package>, nodes: map<Id, ResolveNode>, roots: seq<Id>, hack: HackIdentity)

  function GraphOf(m: Metadata): (r: Option<Graph>) {
    if m.packages.None? || m.nodes.None? then None
    else match RootIds(m.packages.value, RootNames())
      case None => None
      case Some(roots) =>
        if m.workspaceRoot.None? || m.workspaceMembers.None? then None
        else
          var manifest := JoinPath(JoinPath(m.workspaceRoot.value, HackName()), Ascii("Cargo.toml"));
          Some(Graph(PackagesById(m.packages.value), NodesById(m.nodes.value), roots,
                     HackIdentity(manifest, m.workspaceMembers.value)))
  }

  // ---- reachability ----

  predicate Included(d: Dependency) {
    d.kinds.None? || d.kinds.value == [] || true in d.kinds.value
  }

  predicate IsHack(g: Graph, id: Id) {
    id in g.packages && g.hack.Matches(g.packages[id])
  }

  /** The targets of a node's runtime edges; `None` is a dependency without ID. */
  function Targets(n: ResolveNode): (ts: set<Option<Id>>) {
    set i | 0 <= i < |n.deps| && Included(n.deps[i]) :: n.deps[i].pkg
  }

  ghost predicate Edge(g: Graph, a: Id, b: Id) {
    !IsHack(g, a) && a in g.nodes && Some(b) in Targets(g.nodes[a])
  }

  ghost predicate IsPath(g: Graph, path: seq<Id>) {
    && path != [] && path[0] in g.roots
    && forall i :: 0 <= i < |path| - 1 ==> Edge(g, path[i], path[i + 1])
  }

  ghost predicate Reachable(g: Graph, id: Id) {
    exists path :: IsPath(g, path) && path[|path| - 1] == id
  }

  /** The search can expand `id`: the hack crate, or a node all of whose runtime
      edges name a package. */
  ghost predicate Resolved(g: Graph, id: Id) {
    IsHack(g, id) || (id in g.nodes && None !in Targets(g.nodes[id]))
  }

  lemma RootReachable(g: Graph, id: Id)
    requires id in g.roots
    ensures Reachable(g, id)
  {
    assert IsPath(g, [id]) && [id][|[id]| - 1] == id;
  }

  lemma EdgeReachable(g: Graph, a: Id, b: Id)
    requires Reachable(g, a) && Edge(g, a, b)
    ensures Reachable(g, b)
  {
    var path :| IsPath(g, path) && path[|path| - 1] == a;
    var longer := path + [b];
    forall i | 0 <= i < |longer| - 1
      ensures Edge(g, longer[i], longer[i + 1])
    {
      if i < |path| - 1 {
        assert longer[i] == path[i] && longer[i + 1] == path[i + 1];
      }
    }
    assert IsPath(g, longer) && longer[|longer| - 1] == b;
  }

  ghost predicate Closed(g: Graph, s: set<Id>) {
    (forall id :: id in g.roots ==> id in s) && (forall a, b :: a in s && Edge(g, a, b) ==> b in s)
  }

  /** A closed set contains everything reachable. */
  lemma {:induction false} ClosedContainsPath(g: Graph, s: set<Id>, path: seq<Id>)
    requires Closed(g, s) && IsPath(g, path)
    ensures path[|path| - 1] in s
    decreases |path|
  {
    if |path| > 1 {
      var shorter := path[..|path| - 1];
      assert IsPath(g, shorter);
      ClosedContainsPath(g, s, shorter);
      assert Edge(g, path[|path| - 2], path[|path| - 1]);
    }
  }

  // ---- the finite universe of IDs ----

  ghost function Universe(g: Graph): set<Id> {
    (set id | id in g.roots) + (set a, t | a in g.nodes && t in Targets(g.nodes[a]) && t.Some? :: t.value)
  }

  lemma UniverseClosed(g: Graph)
    ensures Closed(g, Universe(g))
  {
    forall a, b | a in Universe(g) && Edge(g, a, b)
      ensures b in Universe(g)
    {
      assert Some(b) in Targets(g.nodes[a]) && Some(b).Some?;
    }
  }

  ghost function ReachableSet(g: Graph): (s: set<Id>)
    ensures forall id :: id in s <==> Reachable(g, id)
  {
    UniverseContainsReachable(g);
    set id | id in Universe(g) && Reachable(g, id)
  }

  lemma UniverseContainsReachable(g: Graph)
    ensures forall id :: Reachable(g, id) ==> id in Universe(g)
  {
    UniverseClosed(g);
    forall id | Reachable(g, id)
      ensures id in Universe(g)
    {
      var path :| IsPath(g, path) && path[|path| - 1] == id;
      ClosedContainsPath(g, Universe(g), path);
    }
  }

  // ---- the worklist ----

  /** The inner loop: append the targets of the included dependencies. */
  method PushDependencies(n: ResolveNode, pending: seq<Id>) returns (ok: bool, pending': seq<Id>)
    ensures ok <==> None !in Targets(n)
    ensures ok ==> forall id :: id in pending' <==> id in pending || Some(id) in Targets(n)
  {
    pending' := pending;
    var i := 0;
    while i < |n.deps|
      invariant 0 <= i <= |n.deps|
      invariant forall j :: 0 <= j < i && Included(n.deps[j]) ==> n.deps[j].pkg.Some? && n.deps[j].pkg.value in pending'
      invariant forall id :: id in pending ==> id in pending'
      invariant forall id :: id in pending' ==> id in pending || Some(id) in Targets(n)
    {
      var d := n.deps[i];
      if Included(d) {
        assert d.pkg in Targets(n);
        if d.pkg.None? {
          return false, pending';
        }
        pending' := pending' + [d.pkg.value];
      }
      i := i + 1;
    }
    ok := true;
  }

  /** What the worklist has established when `pending` remains. */
  ghost predicate Progress(g: Graph, reachable: set<Id>, pending: seq<Id>) {
    && (forall id :: id in reachable ==> Reachable(g, id) && Resolved(g, id))
    && (forall id :: id in pending ==> Reachable(g, id))
    && (forall id :: id in g.roots ==> id in reachable || id in pending)
    && (forall a, b :: a in reachable && Edge(g, a, b) ==> b in reachable || b in pending)
  }

  lemma ProgressSkip(g: Graph, reachable: set<Id>, pending: seq<Id>)
    requires Progress(g, reachable, pending) && pending != [] && pending[0] in reachable
    ensures Progress(g, reachable, pending[1..])
  {
    assert forall id :: id in pending ==> id == pending[0] || id in pending[1..];
  }

  lemma ProgressExpand(g: Graph, reachable: set<Id>, pending: seq<Id>, id: Id, pending': seq<Id>)
    requires Progress(g, reachable, pending) && pending != [] && pending[0] == id
    requires Resolved(g, id)
    requires forall x :: x in pending' <==> x in pending[1..] || Edge(g, id, x)
    ensures Progress(g, reachable + {id}, pending')
  {
    assert forall x :: x in pending ==> x == id || x in pending[1..];
    forall x | x in pending'
      ensures Reachable(g, x)
    {
      if Edge(g, id, x) {
        EdgeReachable(g, id, x);
      }
    }
  }

  lemma ProgressDone(g: Graph, reachable: set<Id>)
    requires Progress(g, reachable, [])
    ensures reachable == ReachableSet(g)
    ensures forall id :: Reachable(g, id) ==> Resolved(g, id)
  {
    assert Closed(g, reachable);
    forall id | Reachable(g, id)
      ensures id in reachable
    {
      var path :| IsPath(g, path) && path[|path| - 1] == id;
      ClosedContainsPath(g, reachable, path);
    }
  }

  method Traverse(g: Graph) returns (r: Option<set<Id>>)
    ensures r.Some? <==> forall id :: Reachable(g, id) ==> Resolved(g, id)
    ensures r.Some? ==> r.value == ReachableSet(g)
  {
    var pending := g.roots;
    var reachable: set<Id> := {};
    forall id | id in g.roots
      ensures Reachable(g, id)
    {
      RootReachable(g, id);
    }
    UniverseContainsReachable(g);
    while pending != []
      invariant Progress(g, reachable, pending)
      decreases Universe(g) - reachable, |pending|
    {
      var id := pending[0];
      var rest := pending[1..];
      assert Reachable(g, id) && id in Universe(g);
      if id in reachable {
        ProgressSkip(g, reachable, pending);
        pending := rest;
        continue;
      }
      ghost var before := reachable;
      if IsHack(g, id) {
        ProgressExpand(g, reachable, pending, id, rest);
        pending := rest;
      } else {
        if id !in g.nodes {
          return None;
        }
        var ok, more := PushDependencies(g.nodes[id], rest);
        if !ok {
          return None;
        }
        ProgressExpand(g, reachable, pending, id, more);
        pending := more;
      }
      reachable := reachable + {id};
      assert id in Universe(g) - before && id !in Universe(g) - reachable;
    }
    ProgressDone(g, reachable);
    r := Some(reachable);
  }

  // ---- the inventory ----

  function Or(o: Option<Bytes>, default: Bytes): (b: Bytes) { if o.Some? then o.value else default }

  /** The inventory entries of one ID: none for unknown and local packages. */
  function Describe(g: Graph, id: Id): (r: seq<DependencyPackage>) {
    if id !in g.packages || g.packages[id].local then []
    else
      var p := g.packages[id];
      [DependencyPackage(Ascii("cargo"), Or(p.name, []), Or(p.version, []),
                         Or(p.license, Ascii("license metadata unavailable")))]
  }

  function DescribeAll(g: Graph, ids: seq<Id>): (r: seq<DependencyPackage>) {
    if ids == [] then [] else Describe(g, ids[0]) + DescribeAll(g, ids[1..])
  }

  method ListPackages(g: Graph, ids: set<Id>) returns (out: seq<DependencyPackage>)
    ensures out == DescribeAll(g, Ascending(ids))
  {
    out := [];
    var rest := ids;
    while rest != {}
      invariant out + DescribeAll(g, Ascending(rest)) == DescribeAll(g, Ascending(ids))
      decreases |rest|
    {
      LeastExists(rest);
      var id :| id in rest && forall x :: x in rest ==> Leq(id, x);
      ListStep(g, out, rest, id);
      out := out + Describe(g, id);
      rest := rest - {id};
    }
  }

  lemma ListStep(g: Graph, out: seq<DependencyPackage>, rest: set<Id>, id: Id)
    requires id in rest && forall x :: x in rest ==> Leq(id, x)
    ensures out + DescribeAll(g, Ascending(rest)) == out + Describe(g, id) + DescribeAll(g, Ascending(rest - {id}))
  {
    AscendingStep(rest, id);
    DescribeStep(g, out, id, Ascending(rest - {id}));
  }

  lemma DescribeStep(g: Graph, out: seq<DependencyPackage>, id: Id, rest: seq<Id>)
    ensures out + DescribeAll(g, [id] + rest) == out + Describe(g, id) + DescribeAll(g, rest)
  {
    assert ([id] + rest)[1..] == rest;
  }

  ghost predicate AllResolved(g: Graph) {
    forall id :: Reachable(g, id) ==> Resolved(g, id)
  }

  /** The inventory as a property of the metadata: the non-local packages among
      the reachable IDs, ascending by ID. */
  ghost function Inventory(m: Metadata): Option<seq<DependencyPackage>> {
    match GraphOf(m)
    case None => None
    case Some(g) => if AllResolved(g) then Some(DescribeAll(g, Ascending(ReachableSet(g)))) else None
  }

  /** One pass of the root loop: the single local package of that name. */
  method FindRoots(ps: seq<Package>) returns (r: Option<seq<Id>>)
    ensures r == RootIds(ps, RootNames())
  {
    var names := RootNames();
    var pending: seq<Id> := [];
    var i := 0;
    assert names[0..] == names;
    PrefixedNothing(RootIds(ps, names));
    while i < |names|
      invariant 0 <= i <= |names|
      invariant RootIds(ps, names) == Prefixed(pending, RootIds(ps, names[i..]))
    {
      var roots := LocalIds(ps, names[i]);
      assert names[i..][1..] == names[i + 1..];
      if |roots| != 1 {
        return None;
      }
      PrefixedTwice(pending, roots, RootIds(ps, names[i + 1..]));
      pending := pending + [roots[0]];
      assert roots == [roots[0]];
      i := i + 1;
    }
    assert names[i..] == [] && pending + [] == pending;
    return Some(pending);
  }

  method CargoRuntimePackages(m: Metadata) returns (r: Option<seq<DependencyPackage>>)
    ensures r == Inventory(m)
  {
    if m.packages.None? || m.nodes.None? {
      return None;
    }
    var roots := FindRoots(m.packages.value);
    if roots.None? || m.workspaceRoot.None? || m.workspaceMembers.None? {
      return None;
    }
    var manifest := JoinPath(JoinPath(m.workspaceRoot.value, HackName()), Ascii("Cargo.toml"));
    var g := Graph(PackagesById(m.packages.value), NodesById(m.nodes.value), roots.value,
                   HackIdentity(manifest, m.workspaceMembers.value));
    var reachable := Traverse(g);
    if reachable.None? {
      return None;
    }
    var out := ListPackages(g, reachable.value);
    return Some(out);
  }

  // ---- noninterference ----

  /** Two graphs that differ only in what a hack node or a non-runtime edge says. */
  ghost predicate SameRuntime(g: Graph, g': Graph) {
    && g.packages == g'.packages && g.roots == g'.roots && g.hack == g'.hack
    && g.nodes.Keys == g'.nodes.Keys
    && forall id :: id in g.nodes && !IsHack(g, id) ==> Targets(g.nodes[id]) == Targets(g'.nodes[id])
  }

  lemma SamePaths(g: Graph, g': Graph, id: Id)
    requires SameRuntime(g, g') && Reachable(g, id)
    ensures Reachable(g', id)
  {
    var path :| IsPath(g, path) && path[|path| - 1] == id;
    forall i | 0 <= i < |path| - 1
      ensures Edge(g', path[i], path[i + 1])
    {
      assert Edge(g, path[i], path[i + 1]);
    }
    assert IsPath(g', path);
  }

  lemma SameRuntimeSymmetric(g: Graph, g': Graph)
    requires SameRuntime(g, g')
    ensures SameRuntime(g', g)
  {}

  lemma SameReachable(g: Graph, g': Graph)
    requires SameRuntime(g, g')
    ensures ReachableSet(g) == ReachableSet(g')
    ensures AllResolved(g) <==> AllResolved(g')
  {
    SameRuntimeSymmetric(g, g');
    forall id
      ensures Reachable(g, id) <==> Reachable(g', id)
    {
      if Reachable(g, id) { SamePaths(g, g', id); }
      if Reachable(g', id) { SamePaths(g', g, id); }
    }
  }

  lemma {:induction false} SameDescriptions(g: Graph, g': Graph, ids: seq<Id>)
    requires g.packages == g'.packages
    ensures DescribeAll(g, ids) == DescribeAll(g', ids)
  {
    if ids != [] {
      SameDescriptions(g, g', ids[1..]);
    }
  }

  /** The two node lists agree up to invisible edges, entry by entry. */
  ghost predicate InvisibleChange(m: Metadata, ns: seq<ResolveNode>) {
    && GraphOf(m).Some?
    && |ns| == |m.nodes.value|
    && forall i :: 0 <= i < |ns| ==>
         && ns[i].id == m.nodes.value[i].id
         && (ns[i].id.Some? ==> IsHack(GraphOf(m).value, ns[i].id.value)
                                || Targets(ns[i]) == Targets(m.nodes.value[i]))
  }

  lemma {:induction false} NodesByIdAgree(a: seq<ResolveNode>, b: seq<ResolveNode>, g: Graph)
    requires |a| == |b|
    requires forall i :: 0 <= i < |a| ==>
               a[i].id == b[i].id && (a[i].id.Some? ==> IsHack(g, a[i].id.value) || Targets(a[i]) == Targets(b[i]))
    ensures NodesById(a).Keys == NodesById(b).Keys
    ensures forall id :: id in NodesById(a) && !IsHack(g, id) ==> Targets(NodesById(a)[id]) == Targets(NodesById(b)[id])
  {
    if a != [] {
      NodesByIdAgree(a[..|a| - 1], b[..|b| - 1], g);
    }
  }

  /** Noninterference: rewriting the dependency list of the hack crate, or adding
      and dropping development and build edges anywhere, changes neither whether
      the inventory succeeds nor what it lists. */
  lemma Noninterference(m: Metadata, ns: seq<ResolveNode>)
    requires InvisibleChange(m, ns)
    ensures Inventory(m.(nodes := Some(ns))) == Inventory(m)
  {
    var m' := m.(nodes := Some(ns));
    var g, g' := GraphOf(m).value, GraphOf(m').value;
    NodesByIdAgree(m.nodes.value, ns, g);
    assert SameRuntime(g, g');
    SameReachable(g, g');
    SameDescriptions(g, g', Ascending(ReachableSet(g)));
  }

  /** Node `i` with dependency `d` inserted at position `k`. */
  function WithDependency(m: Metadata, i: nat, k: nat, d: Dependency): (ns: seq<ResolveNode>)
    requires m.nodes.Some? && i < |m.nodes.value| && k <= |m.nodes.value[i].deps|
  {
    var n := m.nodes.value[i];
    m.nodes.value[i := n.(deps := n.deps[..k] + [d] + n.deps[k..])]
  }

  lemma InsertedTargets(n: ResolveNode, k: nat, d: Dependency)
    requires k <= |n.deps|
    ensures Targets(n.(deps := n.deps[..k] + [d] + n.deps[k..]))
         == Targets(n) + (if Included(d) then {d.pkg} else {})
  {
    var deps := n.deps[..k] + [d] + n.deps[k..];
    var n' := n.(deps := deps);
    forall t | t in Targets(n)
      ensures t in Targets(n')
    {
      var i :| 0 <= i < |n.deps| && Included(n.deps[i]) && n.deps[i].pkg == t;
      var j := if i < k then i else i + 1;
      assert deps[j] == n.deps[i];
    }
    forall t | t in Targets(n')
      ensures t in Targets(n) || (Included(d) && t == d.pkg)
    {
      var j :| 0 <= j < |deps| && Included(deps[j]) && deps[j].pkg == t;
      if j != k {
        var i := if j < k then j else j - 1;
        assert deps[j] == n.deps[i];
      }
    }
    assert deps[k] == d;
  }

  /** A development-only or build-only edge is invisible, wherever it is added. */
  lemma NonRuntimeEdgeIsInvisible(m: Metadata, i: nat, k: nat, d: Dependency)
    requires GraphOf(m).Some? && i < |m.nodes.value| && k <= |m.nodes.value[i].deps|
    requires d.kinds.Some? && d.kinds.value != [] && true !in d.kinds.value
    ensures Inventory(m.(nodes := Some(WithDependency(m, i, k, d)))) == Inventory(m)
  {
    InsertedTargets(m.nodes.value[i], k, d);
    Noninterference(m, WithDependency(m, i, k, d));
  }

  /** Whatever the hack crate claims to depend on is invisible. */
  lemma HackDependenciesAreInvisible(m: Metadata, i: nat, deps: seq<Dependency>)
    requires GraphOf(m).Some? && i < |m.nodes.value| && m.nodes.value[i].id.Some?
    requires IsHack(GraphOf(m).value, m.nodes.value[i].id.value)
    ensures Inventory(m.(nodes := Some(m.nodes.value[i := m.nodes.value[i].(deps := deps)]))) == Inventory(m)
  {
    Noninterference(m, m.nodes.value[i := m.nodes.value[i].(deps := deps)]);
  }

  /** A reachable package that merely shares the hack crate's name, but is not
      local, not a member or has another manifest, is expanded like any other, so
      its runtime targets are reachable. */
  lemma ImpostorIsTraversed(g: Graph, id: Id, d: Dependency)
    requires Reachable(g, id) && id in g.packages && g.packages[id].name == Some(Ascii("workspace-hack"))
    requires var p := g.packages[id];
             || !p.local || p.id.None? || p.id !in g.hack.members
             || p.manifestPath.None? || Components(p.manifestPath.value) != Components(g.hack.manifestPath)
    requires id in g.nodes && d in g.nodes[id].deps && d.pkg.Some?
    requires d.kinds.None? || d.kinds.value == [] || true in d.kinds.value
    ensures Reachable(g, d.pkg.value)
  {
    RuntimeEdgeIsFollowed(g, id, d);
  }

  // ---- what is followed, in terms of the metadata ----

  /** A runtime dependency of a reachable node, unless that is the hack crate, is reachable. */
  lemma RuntimeEdgeIsFollowed(g: Graph, id: Id, d: Dependency)
    requires Reachable(g, id) && !IsHack(g, id)
    requires id in g.nodes && d in g.nodes[id].deps && d.pkg.Some?
    requires d.kinds.None? || d.kinds.value == [] || true in d.kinds.value
    ensures Reachable(g, d.pkg.value)
  {
    var i :| 0 <= i < |g.nodes[id].deps| && g.nodes[id].deps[i] == d;
    assert Edge(g, id, d.pkg.value);
    EdgeReachable(g, id, d.pkg.value);
  }

  /** The same from the other side: what is reachable is a root or a runtime
      dependency of something reachable that is not the hack crate. */
  lemma ReachableExactly(g: Graph, id: Id)
    ensures Reachable(g, id) <==>
            id in g.roots || exists a, d ::
              && Reachable(g, a) && !IsHack(g, a) && a in g.nodes && d in g.nodes[a].deps && d.pkg == Some(id)
              && (d.kinds.None? || d.kinds.value == [] || true in d.kinds.value)
  {
    if id in g.roots {
      RootReachable(g, id);
    }
    if Reachable(g, id) && id !in g.roots {
      var path :| IsPath(g, path) && path[|path| - 1] == id;
      var before := path[..|path| - 1];
      var a := path[|path| - 2];
      assert IsPath(g, before) && before[|before| - 1] == a;
      assert Reachable(g, a) && Edge(g, a, id);
      var k :| 0 <= k < |g.nodes[a].deps| && Included(g.nodes[a].deps[k]) && g.nodes[a].deps[k].pkg == Some(id);
      assert g.nodes[a].deps[k] in g.nodes[a].deps;
    }
    if exists a, d ::
         && Reachable(g, a) && !IsHack(g, a) && a in g.nodes && d in g.nodes[a].deps && d.pkg == Some(id)
         && (d.kinds.None? || d.kinds.value == [] || true in d.kinds.value) {
      var a, d :|
        && Reachable(g, a) && !IsHack(g, a) && a in g.nodes && d in g.nodes[a].deps && d.pkg == Some(id)
        && (d.kinds.None? || d.kinds.value == [] || true in d.kinds.value);
      RuntimeEdgeIsFollowed(g, a, d);
    }
  }

  /** And nothing else is: any set with the roots that follows those dependencies
      contains everything reachable. */
  lemma ReachableIsLeast(g: Graph, s: set<Id>, id: Id)
    requires forall r :: r in g.roots ==> r in s
    requires forall a, d ::
               (&& a in s && !IsHack(g, a) && a in g.nodes && d in g.nodes[a].deps && d.pkg.Some?
                && (d.kinds.None? || d.kinds.value == [] || true in d.kinds.value)) ==> d.pkg.value in s
    requires Reachable(g, id)
    ensures id in s
  {
    forall a, b | a in s && Edge(g, a, b)
      ensures b in s
    {
      var k :| 0 <= k < |g.nodes[a].deps| && Included(g.nodes[a].deps[k]) && g.nodes[a].deps[k].pkg == Some(b);
      assert g.nodes[a].deps[k] in g.nodes[a].deps;
    }
    var path :| IsPath(g, path) && path[|path| - 1] == id;
    ClosedContainsPath(g, s, path);
  }

  /** When the search can expand a node: the hack crate is not expanded, any other
      must be in the graph and name a package in all its runtime dependencies. */
  lemma ResolvedExactly(g: Graph, id: Id)
    ensures Resolved(g, id) <==>
            || IsHack(g, id)
            || (id in g.nodes
                && forall d :: d in g.nodes[id].deps ==>
                     d.pkg.Some? || (d.kinds.Some? && d.kinds.value != [] && true !in d.kinds.value))
  {
    if id in g.nodes && None in Targets(g.nodes[id]) {
      var k :| 0 <= k < |g.nodes[id].deps| && Included(g.nodes[id].deps[k]) && g.nodes[id].deps[k].pkg == None;
      assert g.nodes[id].deps[k] in g.nodes[id].deps;
    }
  }

  /** Which package is the hack crate. */
  lemma HackIsExactly(g: Graph, id: Id)
    ensures IsHack(g, id) <==>
            && id in g.packages && g.packages[id].name == Some(Ascii("workspace-hack")) && g.packages[id].local
            && g.packages[id].id.Some? && g.packages[id].id in g.hack.members
            && g.packages[id].manifestPath.Some?
            && Components(g.packages[id].manifestPath.value) == Components(g.hack.manifestPath)
  {}

  // ---- what the graph is read from ----

  /** For a repeated ID the last package counts. */
  lemma {:induction false} LastPackageCounts(ps: seq<Package>, id: Id)
    ensures id !in PackagesById(ps) <==> forall i :: 0 <= i < |ps| ==> ps[i].id != Some(id)
    ensures id in PackagesById(ps) ==>
              exists i :: 0 <= i < |ps| && ps[i].id == Some(id) && PackagesById(ps)[id] == ps[i]
                          && forall j :: i < j < |ps| ==> ps[j].id != Some(id)
  {
    if ps != [] {
      var init, n := ps[..|ps| - 1], |ps| - 1;
      LastPackageCounts(init, id);
      if ps[n].id != Some(id) && id in PackagesById(ps) {
        var i :| 0 <= i < n && init[i].id == Some(id) && PackagesById(init)[id] == init[i]
                 && forall j :: i < j < n ==> init[j].id != Some(id);
        assert ps[i] == init[i];
      }
    }
  }

  /** For a repeated ID the last node counts. */
  lemma {:induction false} LastNodeCounts(ns: seq<ResolveNode>, id: Id)
    ensures id !in NodesById(ns) <==> forall i :: 0 <= i < |ns| ==> ns[i].id != Some(id)
    ensures id in NodesById(ns) ==>
              exists i :: 0 <= i < |ns| && ns[i].id == Some(id) && NodesById(ns)[id] == ns[i]
                          && forall j :: i < j < |ns| ==> ns[j].id != Some(id)
  {
    if ns != [] {
      var init, n := ns[..|ns| - 1], |ns| - 1;
      LastNodeCounts(init, id);
      if ns[n].id != Some(id) && id in NodesById(ns) {
        var i :| 0 <= i < n && init[i].id == Some(id) && NodesById(init)[id] == init[i]
                 && forall j :: i < j < n ==> init[j].id != Some(id);
        assert ns[i] == init[i];
      }
    }
  }

  /** The only local package of that name with an ID is at `i`. */
  ghost predicate OnlyLocal(ps: seq<Package>, name: Bytes, i: int) {
    && 0 <= i < |ps| && ps[i].name == Some(name) && ps[i].local && ps[i].id.Some?
    && forall j :: 0 <= j < |ps| && ps[j].name == Some(name) && ps[j].local && ps[j].id.Some? ==> j == i
  }

  ghost predicate HasOnlyLocal(ps: seq<Package>, name: Bytes) {
    exists i :: OnlyLocal(ps, name, i)
  }

  predicate NoLocal(ps: seq<Package>, name: Bytes) {
    forall j :: 0 <= j < |ps| ==> !(ps[j].name == Some(name) && ps[j].local && ps[j].id.Some?)
  }

  lemma {:induction false} LocalIdsCount(ps: seq<Package>, name: Bytes)
    ensures LocalIds(ps, name) == [] <==> NoLocal(ps, name)
    ensures |LocalIds(ps, name)| == 1 <==> HasOnlyLocal(ps, name)
    ensures forall i :: OnlyLocal(ps, name, i) ==> LocalIds(ps, name) == [ps[i].id.value]
  {
    if ps != [] {
      LocalIdsCount(ps[1..], name);
      if ps[0].name == Some(name) && ps[0].local && ps[0].id.Some? {
        FirstIsLocal(ps, name);
      } else {
        FirstIsNotLocal(ps, name);
      }
    }
  }

  lemma FirstIsLocal(ps: seq<Package>, name: Bytes)
    requires ps != [] && ps[0].name == Some(name) && ps[0].local && ps[0].id.Some?
    ensures !NoLocal(ps, name) && forall i :: OnlyLocal(ps, name, i) ==> i == 0
    ensures HasOnlyLocal(ps, name) <==> OnlyLocal(ps, name, 0)
    ensures OnlyLocal(ps, name, 0) <==> NoLocal(ps[1..], name)
  {
    assert forall j :: 1 <= j < |ps| ==> ps[j] == ps[1..][j - 1];
    assert forall j :: 0 <= j < |ps[1..]| ==> ps[1..][j] == ps[j + 1];
  }

  lemma FirstIsNotLocal(ps: seq<Package>, name: Bytes)
    requires ps != [] && !(ps[0].name == Some(name) && ps[0].local && ps[0].id.Some?)
    ensures NoLocal(ps, name) <==> NoLocal(ps[1..], name)
    ensures forall i :: OnlyLocal(ps, name, i) ==> i > 0 && OnlyLocal(ps[1..], name, i - 1)
    ensures HasOnlyLocal(ps, name) <==> HasOnlyLocal(ps[1..], name)
  {
    assert forall j :: 1 <= j < |ps| ==> ps[j] == ps[1..][j - 1];
    assert forall j :: 0 <= j < |ps[1..]| ==> ps[1..][j] == ps[j + 1];
    if HasOnlyLocal(ps[1..], name) {
      var i :| OnlyLocal(ps[1..], name, i);
      assert OnlyLocal(ps, name, i + 1);
    }
  }

  ghost predicate AllHaveLocals(ps: seq<Package>, names: seq<Bytes>) {
    forall k :: 0 <= k < |names| ==> HasOnlyLocal(ps, names[k])
  }

  /** `ids` are the IDs of the only local packages of those names. */
  ghost predicate AreTheLocals(ps: seq<Package>, names: seq<Bytes>, ids: seq<Id>) {
    && |ids| == |names|
    && forall k, i :: 0 <= k < |names| && OnlyLocal(ps, names[k], i) ==> ids[k] == ps[i].id.value
  }

  lemma {:induction false} RootsAreTheLocals(ps: seq<Package>, names: seq<Bytes>)
    ensures RootIds(ps, names).Some? <==> AllHaveLocals(ps, names)
    ensures RootIds(ps, names).Some? ==> AreTheLocals(ps, names, RootIds(ps, names).value)
  {
    if names != [] {
      LocalIdsCount(ps, names[0]);
      RootsAreTheLocals(ps, names[1..]);
      AllHaveLocalsCons(ps, names);
      if RootIds(ps, names).Some? {
        AreTheLocalsCons(ps, names, RootIds(ps, names).value);
      }
    }
  }

  lemma AllHaveLocalsCons(ps: seq<Package>, names: seq<Bytes>)
    requires names != []
    ensures AllHaveLocals(ps, names) <==> HasOnlyLocal(ps, names[0]) && AllHaveLocals(ps, names[1..])
  {
    assert forall k :: 1 <= k < |names| ==> names[k] == names[1..][k - 1];
  }

  lemma AreTheLocalsCons(ps: seq<Package>, names: seq<Bytes>, ids: seq<Id>)
    requires names != [] && ids != [] && AreTheLocals(ps, names[1..], ids[1..])
    requires forall i :: OnlyLocal(ps, names[0], i) ==> ids[0] == ps[i].id.value
    ensures AreTheLocals(ps, names, ids)
  {
    assert forall k :: 1 <= k < |names| ==> names[k] == names[1..][k - 1] && ids[k] == ids[1..][k - 1];
  }

  /** The graph is read exactly when the lists are there and each of the four
      shipped executables has exactly one local package; these are the roots. */
  lemma GraphIsRead(m: Metadata, names: seq<Bytes>)
    requires names == [Ascii("depgraph-cli"), Ascii("depgraph-rust-worker"), Ascii("depgraph-mcp"),
                       Ascii("depgraph-operation")]
    ensures GraphOf(m).Some? <==>
              && m.packages.Some? && m.nodes.Some? && m.workspaceRoot.Some? && m.workspaceMembers.Some?
              && AllHaveLocals(m.packages.value, names)
    ensures GraphOf(m).Some? ==>
              var g := GraphOf(m).value;
              && AreTheLocals(m.packages.value, names, g.roots)
              && g.packages == PackagesById(m.packages.value) && g.nodes == NodesById(m.nodes.value)
              && g.hack.members == m.workspaceMembers.value
              && g.hack.manifestPath ==
                 JoinPath(JoinPath(m.workspaceRoot.value, Ascii("workspace-hack")), Ascii("Cargo.toml"))
  {
    assert names == RootNames();
    if m.packages.Some? {
      RootsAreTheLocals(m.packages.value, names);
    }
  }

  /** Where the hack crate's manifest is. */
  lemma HackManifest(root: Bytes)
    requires root != [] && root[|root| - 1] != 47
    ensures JoinPath(JoinPath(root, Ascii("workspace-hack")), Ascii("Cargo.toml"))
         == root + [47] + Ascii("workspace-hack") + [47] + Ascii("Cargo.toml")
  {
    var inner := root + [47] + Ascii("workspace-hack");
    assert JoinPath(root, Ascii("workspace-hack")) == inner;
    assert inner[|inner| - 1] == Ascii("workspace-hack")[13] == 107;
  }

  lemma {:induction false} DescribedIds(g: Graph, ids: seq<Id>, p: DependencyPackage)
    ensures p in DescribeAll(g, ids) <==> exists i :: 0 <= i < |ids| && p in Describe(g, ids[i])
  {
    if ids != [] {
      DescribedIds(g, ids[1..], p);
      assert forall i :: 1 <= i < |ids| ==> ids[i] == ids[1..][i - 1];
      if p in DescribeAll(g, ids[1..]) {
        var i :| 0 <= i < |ids[1..]| && p in Describe(g, ids[1..][i]);
        assert ids[i + 1] == ids[1..][i];
      }
    }
  }

  /** What stands for a package in the inventory. */
  ghost predicate StandsFor(p: DependencyPackage, package: Package) {
    && p.ecosystem == Ascii("cargo")
    && p.name == (if package.name.Some? then package.name.value else [])
    && p.version == (if package.version.Some? then package.version.value else [])
    && p.license == if package.license.Some? then package.license.value else Ascii("license metadata unavailable")
  }

  lemma DescribedPackage(g: Graph, id: Id, p: DependencyPackage)
    ensures p in Describe(g, id) <==> id in g.packages && !g.packages[id].local && StandsFor(p, g.packages[id])
  {}

  /** What the inventory lists: every reachable package that is not local, with
      its name, version and license or what stands in for them. */
  lemma InventoryLists(m: Metadata, p: DependencyPackage)
    requires Inventory(m).Some?
    ensures var g := GraphOf(m).value;
            p in Inventory(m).value <==>
            exists id :: Reachable(g, id) && id in g.packages && !g.packages[id].local && StandsFor(p, g.packages[id])
  {
    ListsReachable(GraphOf(m).value, p);
  }

  lemma ListsReachable(g: Graph, p: DependencyPackage)
    ensures p in DescribeAll(g, Ascending(ReachableSet(g))) <==>
            exists id :: Reachable(g, id) && id in g.packages && !g.packages[id].local && StandsFor(p, g.packages[id])
  {
    var ids := Ascending(ReachableSet(g));
    DescribedIds(g, ids, p);
    if p in DescribeAll(g, ids) {
      var i :| 0 <= i < |ids| && p in Describe(g, ids[i]);
      assert ids[i] in ids;
      DescribedPackage(g, ids[i], p);
    }
    if exists id :: Reachable(g, id) && id in g.packages && !g.packages[id].local && StandsFor(p, g.packages[id]) {
      var id :| Reachable(g, id) && id in g.packages && !g.packages[id].local && StandsFor(p, g.packages[id]);
      assert id in ids;
      var i :| 0 <= i < |ids| && ids[i] == id;
      DescribedPackage(g, id, p);
    }
  }
}
