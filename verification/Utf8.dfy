/** Well-formed UTF-8, as `std::str::from_utf8` accepts it (Unicode Standard,
    table 3-7). */
module Utf8 {
  import opened Bytes

  predicate Tail(b: byte) { 0x80 <= b <= 0xBF }

  /** Length of the well-formed character at the front, 0 when there is none. */
  function CharLength(s: Bytes): (n: nat)
    ensures n <= |s| && n <= 4
  {
    if s == [] then 0
    else if s[0] < 0x80 then 1
    else if |s| >= 2 && 0xC2 <= s[0] <= 0xDF && Tail(s[1]) then 2
    else if |s| >= 3 && 0xE0 <= s[0] <= 0xEF && Tail(s[1]) && Tail(s[2])
            && (s[0] == 0xE0 ==> s[1] >= 0xA0) && (s[0] == 0xED ==> s[1] <= 0x9F) then 3
    else if |s| >= 4 && 0xF0 <= s[0] <= 0xF4 && Tail(s[1]) && Tail(s[2]) && Tail(s[3])
            && (s[0] == 0xF0 ==> s[1] >= 0x90) && (s[0] == 0xF4 ==> s[1] <= 0x8F) then 4
    else 0
  }

  predicate Valid(s: Bytes)
    decreases |s|
  {
    s == [] || (var n := CharLength(s); n > 0 && Valid(s[n..]))
  }

  lemma CharLengthStable(a: Bytes, b: Bytes)
    requires CharLength(a) > 0
    ensures CharLength(a + b) == CharLength(a)
  {}

  lemma {:induction false} ValidConcat(a: Bytes, b: Bytes)
    requires Valid(a) && Valid(b)
    ensures Valid(a + b)
    decreases |a|
  {
    if a == [] {
      assert a + b == b;
    } else {
      var n := CharLength(a);
      CharLengthStable(a, b);
      assert (a + b)[n..] == a[n..] + b;
      ValidConcat(a[n..], b);
    }
  }

  lemma {:induction false} ValidJoin(parts: seq<Bytes>, sep: byte)
    requires sep < 0x80
    requires forall p :: p in parts ==> Valid(p)
    ensures Valid(Join(parts, sep))
  {
    if |parts| > 1 {
      ValidJoin(parts[1..], sep);
      assert Valid([sep]) by {
        assert [sep][1..] == [];
      }
      ValidConcat(parts[0], [sep]);
      ValidConcat(parts[0] + [sep], Join(parts[1..], sep));
    }
  }

  // ---- what well-formed means ----

  /** A Unicode scalar value. */
  predicate Scalar(c: nat) { c <= 0xD7FF || 0xE000 <= c <= 0x10FFFF }

  /** The UTF-8 encoding of a scalar value (section 3 of RFC 3629). */
  function EncodeScalar(c: nat): (s: Bytes)
    requires Scalar(c)
  {
    if c <= 0x7F then [c]
    else if c <= 0x7FF then [0xC0 + c / 64, 0x80 + c % 64]
    else if c <= 0xFFFF then [0xE0 + c / 4096, 0x80 + c / 64 % 64, 0x80 + c % 64]
    else [0xF0 + c / 262144, 0x80 + c / 4096 % 64, 0x80 + c / 64 % 64, 0x80 + c % 64]
  }

  function EncodeAll(cs: seq<nat>): (s: Bytes)
    requires forall i :: 0 <= i < |cs| ==> Scalar(cs[i])
  {
    if cs == [] then [] else EncodeScalar(cs[0]) + EncodeAll(cs[1..])
  }

  /** The scalar value the first character encodes. */
  function FirstScalar(s: Bytes): (c: nat)
    requires CharLength(s) > 0
  {
    match CharLength(s)
    case 1 => s[0]
    case 2 => 64 * (s[0] as int - 0xC0) + (s[1] as int - 0x80)
    case 3 => 4096 * (s[0] as int - 0xE0) + 64 * (s[1] as int - 0x80) + (s[2] as int - 0x80)
    case _ => 262144 * (s[0] as int - 0xF0) + 4096 * (s[1] as int - 0x80) + 64 * (s[2] as int - 0x80) + (s[3] as int - 0x80)
  }

  /** A character at the front is the encoding of a scalar value. */
  lemma FrontIsEncoding(s: Bytes)
    requires CharLength(s) > 0
    ensures Scalar(FirstScalar(s)) && EncodeScalar(FirstScalar(s)) == s[..CharLength(s)]
  {
    var c := FirstScalar(s);
    match CharLength(s)
    case 1 => assert s[..1] == [s[0]];
    case 2 =>
      Digits(c, s[0] as int - 0xC0, s[1] as int - 0x80);
      assert s[..2] == [s[0], s[1]];
    case 3 =>
      var upper := 64 * (s[0] as int - 0xE0) + (s[1] as int - 0x80);
      Digits(c, upper, s[2] as int - 0x80);
      Digits(upper, s[0] as int - 0xE0, s[1] as int - 0x80);
      Quotient(c);
      assert s[..3] == [s[0], s[1], s[2]];
    case _ =>
      var upper := 4096 * (s[0] as int - 0xF0) + 64 * (s[1] as int - 0x80) + (s[2] as int - 0x80);
      var top := 64 * (s[0] as int - 0xF0) + (s[1] as int - 0x80);
      Digits(c, upper, s[3] as int - 0x80);
      Digits(upper, top, s[2] as int - 0x80);
      Digits(top, s[0] as int - 0xF0, s[1] as int - 0x80);
      Quotient(c);
      assert s[..4] == [s[0], s[1], s[2], s[3]];
  }

  lemma Digits(c: nat, q: nat, r: nat)
    requires r < 64 && c == 64 * q + r
    ensures c / 64 == q && c % 64 == r
  {}

  lemma Quotient(c: nat)
    ensures c / 4096 == c / 64 / 64 && c / 262144 == c / 64 / 64 / 64
  {}

  /** An encoding is a character, whatever follows. */
  lemma EncodingIsFront(c: nat, rest: Bytes)
    requires Scalar(c)
    ensures CharLength(EncodeScalar(c) + rest) == |EncodeScalar(c)| > 0
  {
    var s := EncodeScalar(c) + rest;
    Quotient(c);
    if c > 0x7F {
      assert s[0] == EncodeScalar(c)[0] && s[1] == EncodeScalar(c)[1];
    }
    if c > 0x7FF {
      assert s[2] == EncodeScalar(c)[2];
    }
    if c > 0xFFFF {
      assert s[3] == EncodeScalar(c)[3];
    }
  }

  lemma {:induction false} EncodedIsValid(cs: seq<nat>)
    requires forall i :: 0 <= i < |cs| ==> Scalar(cs[i])
    ensures Valid(EncodeAll(cs))
  {
    if cs != [] {
      var first, rest := EncodeScalar(cs[0]), EncodeAll(cs[1..]);
      EncodedIsValid(cs[1..]);
      EncodingIsFront(cs[0], rest);
      assert (first + rest)[|first|..] == rest;
    }
  }

  lemma Halves(s: Bytes, n: nat)
    requires n <= |s|
    ensures s[..n] + s[n..] == s
  {}

  lemma EncodeCons(c: nat, rest: seq<nat>)
    requires Scalar(c) && forall i :: 0 <= i < |rest| ==> Scalar(rest[i])
    ensures forall i :: 0 <= i < |[c] + rest| ==> Scalar(([c] + rest)[i])
    ensures EncodeAll([c] + rest) == EncodeScalar(c) + EncodeAll(rest)
  {
    assert ([c] + rest)[1..] == rest;
  }

  lemma {:induction false} ValidIsEncoded(s: Bytes) returns (cs: seq<nat>)
    requires Valid(s)
    ensures (forall i :: 0 <= i < |cs| ==> Scalar(cs[i])) && EncodeAll(cs) == s
    decreases |s|
  {
    if s == [] {
      cs := [];
    } else {
      var n := CharLength(s);
      var rest := ValidIsEncoded(s[n..]);
      FrontIsEncoding(s);
      cs := [FirstScalar(s)] + rest;
      EncodeCons(FirstScalar(s), rest);
      Halves(s, n);
    }
  }

  /** Well-formed UTF-8 is exactly what encoding scalar values gives. */
  lemma ValidExactly(s: Bytes)
    ensures Valid(s) <==> exists cs :: (forall i :: 0 <= i < |cs| ==> Scalar(cs[i])) && EncodeAll(cs) == s
  {
    if Valid(s) {
      var cs := ValidIsEncoded(s);
    }
    if exists cs :: (forall i :: 0 <= i < |cs| ==> Scalar(cs[i])) && EncodeAll(cs) == s {
      var cs :| (forall i :: 0 <= i < |cs| ==> Scalar(cs[i])) && EncodeAll(cs) == s;
      EncodedIsValid(cs);
    }
  }
}
