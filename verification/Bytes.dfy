/** Byte strings, the byte-lexicographic order of Rust's `str` and `[u8]`, and
    the few sequence operations every other module shares. */
module Bytes {

  type byte = b: int | 0 <= b < 256

  type Bytes = seq<byte>

  datatype Option<+T> = None | Some(value: T)

  const SLASH: byte := 47
  const BACKSLASH: byte := 92
  const NUL: byte := 0
  const NEWLINE: byte := 10

  /** The bytes of an ASCII literal. */
  function Ascii(s: string): (b: Bytes)
    ensures |b| == |s|
  {
    seq(|s|, i requires 0 <= i < |s| => (s[i] as int) % 256)
  }

  // ---- the lexicographic order ----

  predicate Leq(a: Bytes, b: Bytes) {
    a == [] || (b != [] && (a[0] < b[0] || (a[0] == b[0] && Leq(a[1..], b[1..]))))
  }

  lemma LeqTotal(a: Bytes, b: Bytes)
    ensures Leq(a, b) || Leq(b, a)
  {}

  lemma {:induction false} LeqAntisymmetric(a: Bytes, b: Bytes)
    requires Leq(a, b) && Leq(b, a)
    ensures a == b
  {
    if a != [] && b != [] {
      LeqAntisymmetric(a[1..], b[1..]);
      assert a == [a[0]] + a[1..] && b == [b[0]] + b[1..];
    }
  }

  lemma {:induction false} LeqTransitive(a: Bytes, b: Bytes, c: Bytes)
    requires Leq(a, b) && Leq(b, c)
    ensures Leq(a, c)
  {
    if a != [] && a[0] == b[0] == c[0] {
      LeqTransitive(a[1..], b[1..], c[1..]);
    }
  }

  /** A prefix sorts no later than what it is a prefix of. */
  lemma {:induction false} PrefixLeq(a: Bytes, b: Bytes)
    requires a <= b
    ensures Leq(a, b)
  {
    if a != [] {
      PrefixLeq(a[1..], b[1..]);
    }
  }

  /** The first difference decides. */
  lemma {:induction false} LeqAt(a: Bytes, b: Bytes, n: nat)
    requires n < |a| && n < |b| && a[..n] == b[..n] && a[n] < b[n]
    ensures Leq(a, b) && !Leq(b, a)
  {
    if n > 0 {
      assert a[0] == a[..n][0] == b[0];
      assert a[1..][..n - 1] == a[..n][1..] && b[1..][..n - 1] == b[..n][1..];
      LeqAt(a[1..], b[1..], n - 1);
    }
  }

  lemma LeqReflexive(a: Bytes)
    ensures Leq(a, a)
  {
    PrefixLeq(a, a);
  }

  // ---- sums and concatenation ----

  function Sum(s: seq<nat>): (n: nat) {
    if s == [] then 0 else s[0] + Sum(s[1..])
  }

  lemma {:induction false} SumAppend(s: seq<nat>, t: seq<nat>)
    ensures Sum(s + t) == Sum(s) + Sum(t)
  {
    if s == [] {
      assert s + t == t;
    } else {
      assert (s + t)[1..] == s[1..] + t;
      SumAppend(s[1..], t);
    }
  }

  function Without<T>(t: seq<T>, i: nat): (r: seq<T>)
    requires i < |t|
    ensures |r| == |t| - 1
  {
    t[..i] + t[i + 1..]
  }

  lemma WithoutMultiset<T>(t: seq<T>, i: nat)
    requires i < |t|
    ensures multiset(Without(t, i)) == multiset(t) - multiset{t[i]}
  {
    assert t == t[..i] + [t[i]] + t[i + 1..];
  }

  lemma WithoutSum(t: seq<nat>, i: nat)
    requires i < |t|
    ensures Sum(t) == t[i] + Sum(Without(t, i))
  {
    assert t == t[..i] + t[i..];
    SumAppend(t[..i], t[i..]);
    SumAppend(t[..i], t[i + 1..]);
  }

  /** A sum does not depend on the order of its terms. */
  lemma {:induction false} SumOfPermutation(s: seq<nat>, t: seq<nat>)
    requires multiset(s) == multiset(t)
    ensures Sum(s) == Sum(t)
  {
    if s == [] {
      assert |t| == |multiset(t)| == 0;
    } else {
      assert s[0] in multiset(t);
      var i :| 0 <= i < |t| && t[i] == s[0];
      WithoutMultiset(t, i);
      WithoutMultiset(s, 0);
      WithoutSum(t, i);
      WithoutSum(s, 0);
      SumOfPermutation(Without(s, 0), Without(t, i));
    }
  }

  function Concat<T>(parts: seq<seq<T>>): (r: seq<T>) {
    if parts == [] then [] else parts[0] + Concat(parts[1..])
  }

  lemma {:induction false} ConcatAppend<T>(s: seq<seq<T>>, t: seq<seq<T>>)
    ensures Concat(s + t) == Concat(s) + Concat(t)
  {
    if s == [] {
      assert s + t == t;
    } else {
      assert (s + t)[1..] == s[1..] + t;
      ConcatAppend(s[1..], t);
    }
  }

  lemma ConcatSnoc<T>(s: seq<seq<T>>, x: seq<T>)
    ensures Concat(s + [x]) == Concat(s) + x
  {
    ConcatAppend(s, [x]);
    assert Concat([x]) == x + Concat<T>([]);
  }

  function Map<T, U>(f: T -> U, s: seq<T>): (r: seq<U>)
    ensures |r| == |s|
    ensures forall i :: 0 <= i < |s| ==> r[i] == f(s[i])
  {
    seq(|s|, i requires 0 <= i < |s| => f(s[i]))
  }

  lemma MapAppend<T, U>(f: T -> U, s: seq<T>, t: seq<T>)
    ensures Map(f, s + t) == Map(f, s) + Map(f, t)
  {}

  lemma MapHead<T, U>(f: T -> U, s: seq<T>)
    requires s != []
    ensures Map(f, s) == [f(s[0])] + Map(f, s[1..])
    ensures Map(f, s)[1..] == Map(f, s[1..])
  {}

  lemma MapLast<T, U>(f: T -> U, s: seq<T>)
    requires s != []
    ensures Map(f, s) == Map(f, s[..|s| - 1]) + [f(s[|s| - 1])]
  {}

  lemma MapPrefix<T, U>(f: T -> U, s: seq<T>, n: nat)
    requires n <= |s|
    ensures Map(f, s[..n]) == Map(f, s)[..n]
  {}

  /** `head` in front of an optional rest: how a one-pass loop relates what it
      has done to what remains. */
  function Prefixed<T>(head: seq<T>, rest: Option<seq<T>>): (r: Option<seq<T>>) {
    match rest
    case None => None
    case Some(tail) => Some(head + tail)
  }

  lemma PrefixedNothing<T>(rest: Option<seq<T>>)
    ensures Prefixed([], rest) == rest
  {
    if rest.Some? {
      assert [] + rest.value == rest.value;
    }
  }

  lemma PrefixedTwice<T>(a: seq<T>, b: seq<T>, rest: Option<seq<T>>)
    ensures Prefixed(a, Prefixed(b, rest)) == Prefixed(a + b, rest)
  {
    if rest.Some? {
      assert a + (b + rest.value) == (a + b) + rest.value;
    }
  }

  ghost predicate Distinct<T(!new)>(s: seq<T>) {
    forall i, j :: 0 <= i < j < |s| ==> s[i] != s[j]
  }

  // ---- splitting and joining at a separator ----

  function Join(parts: seq<Bytes>, sep: byte): (r: Bytes) {
    if parts == [] then []
    else if |parts| == 1 then parts[0]
    else parts[0] + [sep] + Join(parts[1..], sep)
  }

  /** Position of the first `sep`, or the length. */
  function IndexOf(s: Bytes, sep: byte): (n: nat)
    ensures n <= |s|
    ensures sep !in s[..n]
    ensures n < |s| ==> s[n] == sep
  {
    if s == [] || s[0] == sep then 0
    else
      var n := IndexOf(s[1..], sep);
      assert s[..n + 1] == [s[0]] + s[1..][..n];
      n + 1
  }

  lemma IndexOfUnique(a: Bytes, sep: byte, rest: Bytes)
    requires sep !in a
    requires rest == [] || rest[0] == sep
    ensures IndexOf(a + rest, sep) == |a|
  {
    var s := a + rest;
    var n := IndexOf(s, sep);
    assert rest != [] ==> s[|a|] == sep;
    assert s[..|a|] == a;
  }

  /** Rust's `split(sep)`: always at least one part. */
  function Split(s: Bytes, sep: byte): (parts: seq<Bytes>)
    ensures |parts| >= 1
    ensures forall p :: p in parts ==> sep !in p
    decreases |s|
  {
    var n := IndexOf(s, sep);
    if n == |s| then
      assert s[..n] == s;
      [s]
    else [s[..n]] + Split(s[n + 1..], sep)
  }

  lemma SplitCons(part: Bytes, sep: byte, rest: Bytes)
    requires sep !in part
    ensures Split(part + [sep] + rest, sep) == [part] + Split(rest, sep)
  {
    var s := part + [sep] + rest;
    assert s == part + ([sep] + rest);
    IndexOfUnique(part, sep, [sep] + rest);
    assert s[..|part|] == part && s[|part| + 1..] == rest;
  }

  lemma SplitSingle(part: Bytes, sep: byte)
    requires sep !in part
    ensures Split(part, sep) == [part]
  {
    IndexOfUnique(part, sep, []);
    assert part + [] == part;
  }

  lemma JoinCons(part: Bytes, rest: seq<Bytes>, sep: byte)
    requires rest != []
    ensures Join([part] + rest, sep) == part + [sep] + Join(rest, sep)
  {
    assert ([part] + rest)[1..] == rest;
  }

  lemma {:induction false} SplitJoin(parts: seq<Bytes>, sep: byte)
    requires |parts| >= 1
    requires forall p :: p in parts ==> sep !in p
    ensures Split(Join(parts, sep), sep) == parts
  {
    if |parts| == 1 {
      SplitSingle(parts[0], sep);
      assert parts == [parts[0]];
    } else {
      SplitCons(parts[0], sep, Join(parts[1..], sep));
      SplitJoin(parts[1..], sep);
      assert parts == [parts[0]] + parts[1..];
    }
  }

  lemma FirstPart(s: Bytes, sep: byte) returns (part: Bytes, rest: Bytes)
    requires sep in s
    ensures sep !in part && s == part + [sep] + rest
  {
    var n := IndexOf(s, sep);
    assert s[..|s|] == s;
    part, rest := s[..n], s[n + 1..];
  }

  lemma {:induction false} JoinSplit(s: Bytes, sep: byte)
    ensures Join(Split(s, sep), sep) == s
    decreases |s|
  {
    if sep !in s {
      SplitSingle(s, sep);
    } else {
      var part, rest := FirstPart(s, sep);
      SplitCons(part, sep, rest);
      JoinSplit(rest, sep);
      JoinCons(part, Split(rest, sep), sep);
    }
  }

  lemma {:induction false} JoinSnoc(parts: seq<Bytes>, last: Bytes, sep: byte)
    requires |parts| >= 1
    ensures Join(parts + [last], sep) == Join(parts, sep) + [sep] + last
  {
    assert (parts + [last])[1..] == parts[1..] + [last];
    if |parts| > 1 {
      JoinSnoc(parts[1..], last, sep);
    }
  }

  /** A trailing separator adds an empty part. */
  lemma SplitSnoc(s: Bytes, sep: byte)
    ensures Split(s + [sep], sep) == Split(s, sep) + [[]]
  {
    var parts := Split(s, sep);
    JoinSplit(s, sep);
    JoinSnoc(parts, [], sep);
    assert Join(parts, sep) + [sep] + [] == s + [sep];
    SplitJoin(parts + [[]], sep);
  }
}
