/** Member paths: `Path::components` as it works on Unix, and the normalization
    that every release extractor applies to a member name. */
module Paths {
  import opened Bytes

  type Path = seq<Bytes>

  datatype Component = RootDir | CurDir | ParentDir | Normal(name: Bytes)

  const DOT: Bytes := [46]
  const DOTDOT: Bytes := [46, 46]
  const MAX_MEMBER_NAME_BYTES := 4096

  // ---- Path::components ----

  /** The components of the parts after a possible leading `.`: empty parts and
      `.` disappear. */
  function PartComponents(parts: seq<Bytes>): (cs: seq<Component>) {
    if parts == [] then []
    else
      (if parts[0] == [] || parts[0] == DOT then []
       else if parts[0] == DOTDOT then [ParentDir]
       else [Normal(parts[0])])
      + PartComponents(parts[1..])
  }

  function Components(s: Bytes): (cs: seq<Component>) {
    var parts := Split(s, SLASH);
    (if s != [] && s[0] == SLASH then [RootDir] else if parts[0] == DOT then [CurDir] else [])
    + PartComponents(parts)
  }

  /** `Path::join` with a relative operand. */
  function JoinPath(base: Bytes, tail: Bytes): (r: Bytes) {
    if base == [] || base[|base| - 1] == SLASH then base + tail else base + [SLASH] + tail
  }

  /** The names of an all-normal component list. */
  function NormalNames(cs: seq<Component>): (p: Option<Path>) {
    if cs == [] then Some([])
    else if !cs[0].Normal? then None
    else Prefixed([cs[0].name], NormalNames(cs[1..]))
  }

  // ---- clean paths ----

  /** A name that stays inside its directory. */
  predicate SafeName(n: Bytes) {
    n != [] && n != DOT && n != DOTDOT && SLASH !in n
  }

  predicate SafePath(p: Path) {
    p != [] && forall i :: 0 <= i < |p| ==> SafeName(p[i])
  }

  predicate CleanName(n: Bytes) {
    SafeName(n) && NUL !in n && BACKSLASH !in n
  }

  predicate AllClean(p: Path) {
    forall i :: 0 <= i < |p| ==> CleanName(p[i])
  }

  predicate CleanPath(p: Path)
    ensures CleanPath(p) ==> SafePath(p)
  {
    p != [] && AllClean(p)
  }

  function Parent(p: Path): (q: Path)
    requires p != []
  {
    p[..|p| - 1]
  }

  function Text(p: Path): (s: Bytes) {
    Join(p, SLASH)
  }

  // ---- normalize_release_archive_member_name ----

  function TrimSlashes(s: Bytes): (t: Bytes)
    ensures t <= s && forall i :: |t| <= i < |s| ==> s[i] == SLASH
    ensures t == [] || t[|t| - 1] != SLASH
  {
    if s != [] && s[|s| - 1] == SLASH then TrimSlashes(s[..|s| - 1]) else s
  }

  /** The path a member name stands for, or `None` when the name is refused. */
  function MemberPath(name: Bytes): (r: Option<Path>) {
    if name == [] || |name| > MAX_MEMBER_NAME_BYTES || NUL in name || BACKSLASH in name then None
    else
      var trimmed := TrimSlashes(name);
      if trimmed == [] || trimmed[0] == SLASH then None
      else match NormalNames(Components(trimmed))
        case None => None
        case Some(p) => if p == [] then None else Some(p)
  }

  /** The loop of the original: push every normal component, stop at any other. */
  method NormalizeMemberName(name: Bytes) returns (r: Option<Path>)
    ensures r == MemberPath(name)
    ensures r.Some? ==> CleanPath(r.value)
    ensures r.Some? ==> MemberPath(Text(r.value)) == r
  {
    if name == [] || |name| > MAX_MEMBER_NAME_BYTES || NUL in name || BACKSLASH in name {
      return None;
    }
    var trimmed := TrimSlashes(name);
    if trimmed == [] || trimmed[0] == SLASH {
      return None;
    }
    var cs := Components(trimmed);
    var normalized: Path := [];
    var i := 0;
    assert cs[0..] == cs;
    PrefixedNothing(NormalNames(cs));
    while i < |cs|
      invariant 0 <= i <= |cs|
      invariant NormalNames(cs) == Prefixed(normalized, NormalNames(cs[i..]))
    {
      if !cs[i].Normal? {
        return None;
      }
      PrefixedTwice(normalized, [cs[i].name], NormalNames(cs[i + 1..]));
      normalized := normalized + [cs[i].name];
      assert cs[i..][1..] == cs[i + 1..];
      i := i + 1;
    }
    assert cs[i..] == [] && normalized + [] == normalized;
    if normalized == [] {
      return None;
    }
    r := Some(normalized);
    MemberPathIsClean(name);
    MemberPathIdempotent(name);
  }

  // ---- what normalization guarantees ----

  lemma {:induction false} PartNamesClean(parts: seq<Bytes>)
    requires forall q :: q in parts ==> SLASH !in q && NUL !in q && BACKSLASH !in q
    requires NormalNames(PartComponents(parts)).Some?
    ensures AllClean(NormalNames(PartComponents(parts)).value)
    ensures |Text(NormalNames(PartComponents(parts)).value)| <= |Join(parts, SLASH)|
  {
    if parts != [] {
      var rest := PartComponents(parts[1..]);
      if parts[0] == [] || parts[0] == DOT {
        assert PartComponents(parts) == rest;
      } else {
        assert PartComponents(parts)[1..] == rest;
      }
      PartNamesClean(parts[1..]);
    }
  }

  lemma {:induction false} SplitAvoids(s: Bytes, sep: byte, b: byte)
    requires b !in s
    ensures forall q :: q in Split(s, sep) ==> b !in q
    decreases |s|
  {
    var n := IndexOf(s, sep);
    if n < |s| {
      SplitAvoids(s[n + 1..], sep, b);
    }
  }

  /** An accepted name gives a clean path no longer than the name: it cannot be
      absolute, empty or climb out of the destination. */
  lemma MemberPathIsClean(name: Bytes)
    requires MemberPath(name).Some?
    ensures CleanPath(MemberPath(name).value)
    ensures |Text(MemberPath(name).value)| <= |name|
  {
    var t := TrimSlashes(name);
    var parts := Split(t, SLASH);
    SplitAvoids(t, SLASH, NUL);
    SplitAvoids(t, SLASH, BACKSLASH);
    assert Components(t) == PartComponents(parts);
    PartNamesClean(parts);
    JoinSplit(t, SLASH);
  }

  lemma {:induction false} CleanPartComponents(p: Path)
    requires AllClean(p)
    ensures NormalNames(PartComponents(p)) == Some(p)
  {
    if p != [] {
      assert CleanName(p[0]);
      assert PartComponents(p) == [Normal(p[0])] + PartComponents(p[1..]);
      CleanPartComponents(p[1..]);
      assert p == [p[0]] + p[1..];
    }
  }

  lemma {:induction false} CleanTextEnds(p: Path)
    requires CleanPath(p)
    ensures var s := Text(p);
            s != [] && s[0] != SLASH && s[|s| - 1] != SLASH && NUL !in s && BACKSLASH !in s
  {
    if |p| > 1 {
      CleanTextEnds(p[1..]);
    }
  }

  /** `Text` and `Components` undo each other on clean paths, so `Text` is injective there. */
  lemma CleanComponents(p: Path)
    requires CleanPath(p)
    ensures Split(Text(p), SLASH) == p
    ensures NormalNames(Components(Text(p))) == Some(p)
  {
    SplitJoin(p, SLASH);
    CleanTextEnds(p);
    CleanPartComponents(p);
    assert CleanName(p[0]);
    assert Components(Text(p)) == PartComponents(p);
  }

  lemma TextInjective(p: Path, q: Path)
    requires CleanPath(p) && CleanPath(q) && Text(p) == Text(q)
    ensures p == q
  {
    CleanComponents(p);
    CleanComponents(q);
  }

  /** A clean path's own text names it exactly when it fits the length limit. */
  lemma MemberPathOfText(p: Path)
    requires CleanPath(p)
    ensures MemberPath(Text(p)) == if |Text(p)| <= MAX_MEMBER_NAME_BYTES then Some(p) else None
  {
    CleanTextEnds(p);
    CleanComponents(p);
  }

  /** The same with the `/` that ZIP directory entries carry: it costs one byte. */
  lemma MemberPathOfDirectoryText(p: Path)
    requires CleanPath(p)
    ensures MemberPath(Text(p) + [SLASH])
         == if |Text(p)| + 1 <= MAX_MEMBER_NAME_BYTES then Some(p) else None
  {
    CleanTextEnds(p);
    CleanComponents(p);
    var s := Text(p) + [SLASH];
    assert s[..|s| - 1] == Text(p);
    assert TrimSlashes(Text(p)) == Text(p);
    assert TrimSlashes(s) == Text(p);
  }

  lemma MemberPathIdempotent(name: Bytes)
    requires MemberPath(name).Some?
    ensures MemberPath(Text(MemberPath(name).value)) == MemberPath(name)
  {
    MemberPathIsClean(name);
    MemberPathOfText(MemberPath(name).value);
  }

  /** Byte order puts a directory strictly before everything below it. */
  lemma ParentSortsFirst(p: Path)
    requires CleanPath(p) && |p| > 1
    ensures CleanPath(Parent(p))
    ensures Leq(Text(Parent(p)), Text(p)) && Text(Parent(p)) != Text(p)
    ensures |Text(Parent(p))| < |Text(p)|
  {
    var q := Parent(p);
    assert p == q + [p[|p| - 1]];
    JoinSnoc(q, p[|p| - 1], SLASH);
    assert Text(q) <= Text(p);
    PrefixLeq(Text(q), Text(p));
  }

  /** The root of a tree sorts before every other path of the tree. */
  lemma {:induction false} RootSortsFirst(p: Path)
    requires CleanPath(p)
    ensures Leq(p[0], Text(p))
    ensures |p| > 1 ==> |p[0]| < |Text(p)|
  {
    assert p[0] <= Text(p);
    PrefixLeq(p[0], Text(p));
  }

  // ---- which names are accepted ----

  /** The parts that name something: neither empty nor `.`. */
  function NamedParts(parts: seq<Bytes>): (p: Path) {
    if parts == [] then []
    else (if parts[0] == [] || parts[0] == [46] then [] else [parts[0]]) + NamedParts(parts[1..])
  }

  lemma {:induction false} NormalParts(parts: seq<Bytes>)
    ensures NormalNames(PartComponents(parts)) == if [46, 46] in parts then None else Some(NamedParts(parts))
  {
    if parts != [] {
      var cs, rest := PartComponents(parts), PartComponents(parts[1..]);
      NormalParts(parts[1..]);
      assert parts == [parts[0]] + parts[1..];
      if parts[0] == [] || parts[0] == DOT {
        assert cs == rest && NamedParts(parts) == NamedParts(parts[1..]);
      } else if parts[0] == DOTDOT {
        assert cs[0] == ParentDir;
      } else {
        assert cs[0] == Normal(parts[0]) && cs[1..] == rest;
      }
    }
  }

  /** When all components are normal names, and which: not absolute, no leading
      `.`, no `..` anywhere, and then the parts that name something. */
  lemma NormalComponents(s: Bytes)
    ensures NormalNames(Components(s)) ==
            if (s != [] && s[0] == 47) || Split(s, 47)[0] == [46] || [46, 46] in Split(s, 47) then None
            else Some(NamedParts(Split(s, 47)))
  {
    var parts := Split(s, SLASH);
    NormalParts(parts);
    if !(s != [] && s[0] == SLASH) && parts[0] != DOT {
      assert Components(s) == PartComponents(parts);
    }
  }

  lemma {:induction false} NamedPartsSnoc(parts: seq<Bytes>)
    ensures NamedParts(parts + [[]]) == NamedParts(parts)
  {
    var longer := parts + [[]];
    if parts != [] {
      assert longer[1..] == parts[1..] + [[]];
      NamedPartsSnoc(parts[1..]);
    }
  }

  /** Trailing slashes change nothing that counts. */
  lemma {:induction false} TrimmedParts(s: Bytes)
    ensures var parts, kept := Split(s, SLASH), Split(TrimSlashes(s), SLASH);
            && parts[0] == kept[0] && NamedParts(parts) == NamedParts(kept)
            && ([46, 46] in parts <==> [46, 46] in kept)
    decreases |s|
  {
    if s != [] && s[|s| - 1] == SLASH {
      var init := s[..|s| - 1];
      assert s == init + [SLASH];
      SplitSnoc(init, SLASH);
      NamedPartsSnoc(Split(init, SLASH));
      TrimmedParts(init);
    }
  }

  /** Exactly which member names are accepted, and as which path: at most 4096
      bytes, no NUL, no backslash, not absolute, no part `..`, no leading `.`, and
      at least one part that names something. */
  lemma MemberPathExact(name: Bytes, p: Path)
    ensures MemberPath(name) == Some(p) <==>
            && 0 < |name| <= 4096 && 0 !in name && 92 !in name && name[0] != 47
            && [46, 46] !in Split(name, 47) && Split(name, 47)[0] != [46]
            && p != [] && p == NamedParts(Split(name, 47))
  {
    var t := TrimSlashes(name);
    TrimmedParts(name);
    NormalComponents(t);
    if t == [] {
      AllSlashes(name);
    } else {
      assert t[0] == name[0];
    }
  }

  lemma AllSlashes(name: Bytes)
    requires TrimSlashes(name) == []
    ensures name != [] ==> name[0] == SLASH
  {}
}
