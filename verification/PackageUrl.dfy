/** Package URLs: percent-encoding (sections 2.1 and 2.3 of RFC 3986) of name and
    version, and the decoder that shows nothing is lost. */
module PackageUrl {
  import opened Bytes

  const PERCENT: byte := 37
  const AT: byte := 64

  function Prefix(): (s: Bytes) { [112, 107, 103, 58] }  // "pkg:"

  predicate Unreserved(b: byte) {
    48 <= b <= 57 || 65 <= b <= 90 || 97 <= b <= 122 || b == 45 || b == 46 || b == 95 || b == 126
  }

  function HexDigit(n: nat): (b: byte)
    requires n < 16
    ensures 48 <= b <= 57 || 65 <= b <= 70
  {
    if n < 10 then 48 + n else 55 + n
  }

  function EncodeByte(b: byte): (s: Bytes) {
    if Unreserved(b) then [b] else [PERCENT, HexDigit(b / 16), HexDigit(b % 16)]
  }

  function Encode(s: Bytes): (r: Bytes) {
    if s == [] then [] else EncodeByte(s[0]) + Encode(s[1..])
  }

  lemma EncodeStep(encoded: Bytes, value: Bytes, i: nat)
    requires i < |value|
    ensures encoded + Encode(value[i..]) == encoded + EncodeByte(value[i]) + Encode(value[i + 1..])
  {
    assert value[i..][1..] == value[i + 1..];
  }

  /** `purl_encode_segment`. */
  method EncodeSegment(value: Bytes) returns (encoded: Bytes)
    ensures encoded == Encode(value)
    ensures SegmentText(encoded)
    ensures Decode(encoded) == Some(value)
  {
    encoded := [];
    var i := 0;
    assert value[0..] == value;
    while i < |value|
      invariant 0 <= i <= |value|
      invariant encoded + Encode(value[i..]) == Encode(value)
    {
      EncodeStep(encoded, value, i);
      if Unreserved(value[i]) {
        encoded := encoded + [value[i]];
      } else {
        encoded := encoded + [PERCENT, HexDigit(value[i] / 16), HexDigit(value[i] % 16)];
      }
      i := i + 1;
    }
    assert value[i..] == [] && encoded + [] == encoded;
    EncodeDecodes(value);
  }

  // ---- decoding one segment ----

  function HexValue(b: byte): (r: Option<nat>)
    ensures r.Some? ==> r.value < 16
  {
    if 48 <= b <= 57 then Some(b - 48) else if 65 <= b <= 70 then Some(b - 55) else None
  }

  function Decode(s: Bytes): (r: Option<Bytes>)
    decreases |s|
  {
    if s == [] then Some([])
    else if Unreserved(s[0]) then Prefixed([s[0]], Decode(s[1..]))
    else if |s| >= 3 && s[0] == PERCENT && HexValue(s[1]).Some? && HexValue(s[2]).Some? then
      Prefixed([16 * HexValue(s[1]).value + HexValue(s[2]).value], Decode(s[3..]))
    else None
  }

  /** Only unreserved bytes and uppercase percent triplets. */
  predicate SegmentText(s: Bytes)
    decreases |s|
  {
    s == [] || (Unreserved(s[0]) && SegmentText(s[1..]))
    || (|s| >= 3 && s[0] == PERCENT && HexValue(s[1]).Some? && HexValue(s[2]).Some? && SegmentText(s[3..]))
  }

  lemma {:induction false} EncodeDecodes(s: Bytes)
    ensures SegmentText(Encode(s))
    ensures Decode(Encode(s)) == Some(s)
    ensures SLASH !in Encode(s) && AT !in Encode(s)
  {
    if s != [] {
      EncodeDecodes(s[1..]);
      DecodeByte(s[0], Encode(s[1..]));
      assert s == [s[0]] + s[1..];
    }
  }

  lemma DecodeByte(b: byte, rest: Bytes)
    ensures Decode(EncodeByte(b) + rest) == Prefixed([b], Decode(rest))
    ensures SegmentText(rest) ==> SegmentText(EncodeByte(b) + rest)
    ensures SLASH !in EncodeByte(b) && AT !in EncodeByte(b)
  {
    var e := EncodeByte(b);
    var s := e + rest;
    assert s[|e|..] == rest && s[0] == e[0];
    if |e| == 3 {
      assert s[1] == e[1] && s[2] == e[2];
    }
  }

  // ---- whole URLs ----

  function Cargo(): (s: Bytes) { [99, 97, 114, 103, 111] }
  function Npm(): (s: Bytes) { [110, 112, 109] }
  function Golang(): (s: Bytes) { [103, 111, 108, 97, 110, 103] }

  /** The segments of a name: a scoped npm name has two, a Go path one per
      slash-separated element, anything else one. */
  function Segments(ecosystem: Bytes, name: Bytes): (segments: seq<Bytes>)
    ensures |segments| >= 1
  {
    if ecosystem == Npm() then
      if name != [] && name[0] == AT && SLASH in name[1..] then
        var n := IndexOf(name, SLASH);
        [name[..n], if n < |name| then name[n + 1..] else []]
      else [name]
    else if ecosystem == Golang() then Split(name, SLASH)
    else [name]
  }

  /** Whatever the ecosystem, the segments rejoin to the name. */
  lemma SegmentsRejoin(ecosystem: Bytes, name: Bytes)
    ensures Join(Segments(ecosystem, name), SLASH) == name
  {
    if ecosystem == Npm() && name != [] && name[0] == AT && SLASH in name[1..] {
      var n := IndexOf(name, SLASH);
      assert name[..|name|] == name;
      var parts := [name[..n], name[n + 1..]];
      assert parts[1..] == [name[n + 1..]];
      assert name == name[..n] + [SLASH] + name[n + 1..];
    } else if ecosystem == Golang() {
      JoinSplit(name, SLASH);
    }
  }

  function PackageUrl(ecosystem: Bytes, name: Bytes, version: Bytes): (url: Bytes) {
    Prefix() + ecosystem + [SLASH] + Join(Map(Encode, Segments(ecosystem, name)), SLASH) + [AT] + Encode(version)
  }

  datatype Parts = Parts(ecosystem: Bytes, name: Bytes, version: Bytes)

  function DecodeAll(segments: seq<Bytes>): (r: Option<seq<Bytes>>) {
    if segments == [] then Some([])
    else match Decode(segments[0])
      case None => None
      case Some(s) => Prefixed([s], DecodeAll(segments[1..]))
  }

  /** Name and version: cut at the first `@`, decode every segment, rejoin. */
  function ParseNameAndVersion(tail: Bytes): (r: Option<(Bytes, Bytes)>) {
    var at := IndexOf(tail, AT);
    if at == |tail| then None
    else
      match (DecodeAll(Split(tail[..at], SLASH)), Decode(tail[at + 1..]))
      case (Some(segments), Some(version)) => Some((Join(segments, SLASH), version))
      case _ => None
  }

  /** The ecosystem ends at the first slash. */
  function ParseUrl(url: Bytes): (r: Option<Parts>) {
    if !(Prefix() <= url) then None
    else
      var rest := url[|Prefix()|..];
      var slash := IndexOf(rest, SLASH);
      if slash == |rest| then None
      else match ParseNameAndVersion(rest[slash + 1..])
        case None => None
        case Some((name, version)) => Some(Parts(rest[..slash], name, version))
  }

  lemma {:induction false} DecodeEncodedAll(segments: seq<Bytes>)
    ensures DecodeAll(Map(Encode, segments)) == Some(segments)
  {
    if segments != [] {
      MapHead(Encode, segments);
      EncodeDecodes(segments[0]);
      DecodeEncodedAll(segments[1..]);
      assert segments == [segments[0]] + segments[1..];
    }
  }

  lemma {:induction false} JoinAvoids(parts: seq<Bytes>, sep: byte, b: byte)
    requires b != sep && forall i :: 0 <= i < |parts| ==> b !in parts[i]
    ensures b !in Join(parts, sep)
  {
    if |parts| > 1 {
      JoinAvoids(parts[1..], sep, b);
    }
  }

  lemma EncodedNameFacts(segments: seq<Bytes>)
    requires |segments| >= 1
    ensures AT !in Join(Map(Encode, segments), SLASH)
    ensures Split(Join(Map(Encode, segments), SLASH), SLASH) == Map(Encode, segments)
  {
    var es := Map(Encode, segments);
    forall i | 0 <= i < |es|
      ensures AT !in es[i] && SLASH !in es[i]
    {
      EncodeDecodes(segments[i]);
    }
    JoinAvoids(es, SLASH, AT);
    SplitJoin(es, SLASH);
  }

  lemma CutOnce(a: Bytes, sep: byte, b: Bytes)
    requires sep !in a
    ensures var s := a + [sep] + b;
            IndexOf(s, sep) == |a| < |s| && s[..|a|] == a && s[|a| + 1..] == b
  {
    assert a + [sep] + b == a + ([sep] + b);
    IndexOfUnique(a, sep, [sep] + b);
  }

  function NameAndVersion(ecosystem: Bytes, name: Bytes, version: Bytes): (s: Bytes) {
    Join(Map(Encode, Segments(ecosystem, name)), SLASH) + [AT] + Encode(version)
  }

  lemma NameAndVersionRoundTrip(ecosystem: Bytes, name: Bytes, version: Bytes)
    ensures ParseNameAndVersion(NameAndVersion(ecosystem, name, version)) == Some((name, version))
  {
    var segments := Segments(ecosystem, name);
    EncodedNameFacts(segments);
    CutOnce(Join(Map(Encode, segments), SLASH), AT, Encode(version));
    DecodeEncodedAll(segments);
    EncodeDecodes(version);
    SegmentsRejoin(ecosystem, name);
  }

  lemma UrlShape(ecosystem: Bytes, name: Bytes, version: Bytes)
    ensures var url := PackageUrl(ecosystem, name, version);
            Prefix() <= url && url[|Prefix()|..] == ecosystem + [SLASH] + NameAndVersion(ecosystem, name, version)
  {
    Nest(Prefix(), ecosystem, [SLASH], Join(Map(Encode, Segments(ecosystem, name)), SLASH), [AT], Encode(version));
  }

  lemma Nest(a: Bytes, b: Bytes, c: Bytes, d: Bytes, e: Bytes, f: Bytes)
    ensures a + b + c + d + e + f == a + (b + c + (d + e + f))
    ensures (a + b + c + d + e + f)[|a|..] == b + c + (d + e + f)
  {
    assert a + b + c + d + e + f == (a + b + c) + (d + e + f);
    assert (a + b + c) + (d + e + f) == a + (b + c + (d + e + f));
  }

  /** Round trip: the URL gives back ecosystem, name and version exactly when the
      ecosystem has no slash. */
  lemma UrlRoundTrip(ecosystem: Bytes, name: Bytes, version: Bytes)
    ensures ParseUrl(PackageUrl(ecosystem, name, version)) == Some(Parts(ecosystem, name, version))
       <==> SLASH !in ecosystem
  {
    UrlShape(ecosystem, name, version);
    if SLASH !in ecosystem {
      CutOnce(ecosystem, SLASH, NameAndVersion(ecosystem, name, version));
      NameAndVersionRoundTrip(ecosystem, name, version);
    }
  }

  /** The ecosystems the inventories are made of. */
  predicate InUse(ecosystem: Bytes) {
    ecosystem == Cargo() || ecosystem == Npm() || ecosystem == Golang()
  }

  /** In the inventories different packages always have different URLs. */
  lemma UrlsIdentifyPackages(p: Parts, q: Parts)
    requires InUse(p.ecosystem) && InUse(q.ecosystem)
    ensures PackageUrl(p.ecosystem, p.name, p.version) == PackageUrl(q.ecosystem, q.name, q.version) <==> p == q
  {
    UrlRoundTrip(p.ecosystem, p.name, p.version);
    UrlRoundTrip(q.ecosystem, q.name, q.version);
  }

  /** No parser could do without the condition: with a slash in the ecosystem the
      URL may be that of a Go path too. */
  lemma SlashInEcosystemCollides(version: Bytes)
    ensures PackageUrl(Golang(), [98, SLASH, 99], version) == PackageUrl(Golang() + [SLASH, 98], [99], version)
  {
    GoSegments();
    PlainSegment();
    MoveSlash(Golang(), [98, SLASH, 99], [99], version);
  }

  lemma MoveSlash(g: Bytes, name: Bytes, name': Bytes, version: Bytes)
    requires Join(Map(Encode, Segments(g, name)), SLASH) == [98, SLASH, 99]
    requires Join(Map(Encode, Segments(g + [SLASH, 98], name')), SLASH) == [99]
    ensures PackageUrl(g, name, version) == PackageUrl(g + [SLASH, 98], name', version)
  {
    SameBytes(Prefix(), g);
  }

  lemma SameBytes(p: Bytes, g: Bytes)
    ensures p + g + [SLASH] + [98, SLASH, 99] == p + (g + [SLASH, 98]) + [SLASH] + [99]
  {}

  lemma PlainSegment()
    ensures Join(Map(Encode, Segments(Golang() + [SLASH, 98], [99])), SLASH) == [99]
  {
    assert |Golang() + [SLASH, 98]| == 8;
    EncodePlain(99);
    assert Map(Encode, [[99]]) == [[99]];
  }

  lemma GoSegments()
    ensures Join(Map(Encode, Segments(Golang(), [98, SLASH, 99])), SLASH) == [98, SLASH, 99]
  {
    assert [98] + [SLASH] + [99] == [98, SLASH, 99];
    SplitCons([98], SLASH, [99]);
    SplitSingle([99], SLASH);
    assert Segments(Golang(), [98, SLASH, 99]) == [[98], [99]];
    EncodePlain(98);
    EncodePlain(99);
    assert Map(Encode, [[98], [99]]) == [[98], [99]];
    JoinCons([98], [[99]], SLASH);
    assert [[98]] + [[99]] == [[98], [99]];
  }

  lemma EncodePlain(b: byte)
    requires Unreserved(b)
    ensures Encode([b]) == [b]
  {
    assert [b][1..] == [];
  }

  // ---- the URLs, written out ----

  /** Which bytes stay, and what becomes of the others: `%` and two upper-case digits. */
  lemma EncodedByte(b: byte)
    ensures var plain := 48 <= b <= 57 || 65 <= b <= 90 || 97 <= b <= 122 || b in {45, 46, 95, 126};
            Encode([b]) == if plain then [b] else [37, Ascii("0123456789ABCDEF")[b / 16], Ascii("0123456789ABCDEF")[b % 16]]
  {
    assert [b][1..] == [];
    assert Encode([b]) == EncodeByte(b);
    HexDigits(b / 16);
    HexDigits(b % 16);
  }

  lemma HexDigits(n: nat)
    requires n < 16
    ensures Ascii("0123456789ABCDEF")[n] == HexDigit(n)
  {}

  /** Segments are encoded byte by byte. */
  lemma {:induction false} EncodedBytes(s: Bytes)
    ensures Encode(s) == Concat(Map((b: byte) => Encode([b]), s))
  {
    if s != [] {
      var one := (b: byte) => Encode([b]);
      EncodedBytes(s[1..]);
      MapHead(one, s);
      assert [s[0]][1..] == [];
      assert Encode([s[0]]) == EncodeByte(s[0]);
    }
  }

  /** A crate. */
  lemma CargoUrl(name: Bytes, version: Bytes)
    ensures PackageUrl(Ascii("cargo"), name, version)
         == Ascii("pkg:") + Ascii("cargo") + [47] + Encode(name) + [64] + Encode(version)
  {
    assert Ascii("cargo") == Cargo() && |Cargo()| == 5 && |Npm()| == 3 && |Golang()| == 6;
    assert Ascii("pkg:") == Prefix();
    OneSegment(name);
  }

  lemma OneSegment(name: Bytes)
    ensures Join(Map(Encode, [name]), SLASH) == Encode(name)
  {
    assert Map(Encode, [name]) == [Encode(name)];
  }

  /** A Go module: every path element is encoded by itself. */
  lemma GoUrl(name: Bytes, version: Bytes)
    ensures PackageUrl(Ascii("golang"), name, version)
         == Ascii("pkg:") + Ascii("golang") + [47] + Join(Map(Encode, Split(name, 47)), 47) + [64] + Encode(version)
  {
    assert Ascii("golang") == Golang() && |Golang()| == 6 && |Npm()| == 3;
    assert Ascii("pkg:") == Prefix();
  }

  /** An npm package without a scope. */
  lemma NpmUrl(name: Bytes, version: Bytes)
    requires name == [] || name[0] != 64 || 47 !in name
    ensures PackageUrl(Ascii("npm"), name, version)
         == Ascii("pkg:") + Ascii("npm") + [47] + Encode(name) + [64] + Encode(version)
  {
    assert Ascii("npm") == Npm() && Ascii("pkg:") == Prefix();
    assert name != [] ==> forall b :: b in name[1..] ==> b in name;
    OneSegment(name);
  }

  /** A scoped npm package: scope and name are encoded apart, and a further slash
      in the name is encoded too. */
  lemma ScopedNpmUrl(scope: Bytes, name: Bytes, version: Bytes)
    requires 47 !in scope
    ensures PackageUrl(Ascii("npm"), [64] + scope + [47] + name, version)
         == Ascii("pkg:") + Ascii("npm") + [47] + (Encode([64] + scope) + [47] + Encode(name)) + [64] + Encode(version)
  {
    assert Ascii("npm") == Npm() && Ascii("pkg:") == Prefix();
    ScopedSegments(scope, name);
    var a, b := Encode([64] + scope), Encode(name);
    assert Map(Encode, [[64] + scope, name]) == [a, b];
    assert [a, b][1..] == [b];
    assert Join([a, b], SLASH) == a + [SLASH] + Join([a, b][1..], SLASH);
  }

  lemma ScopedSegments(scope: Bytes, name: Bytes)
    requires 47 !in scope
    ensures Segments(Npm(), [64] + scope + [47] + name) == [[64] + scope, name]
  {
    var s := [64] + scope + [47] + name;
    CutOnce([64] + scope, SLASH, name);
    assert s[1..] == scope + [47] + name && s[1..][|scope|] == 47;
  }
}
