/** `serde_json`'s compact text of a value, and that the text determines the value. */
module JsonText {
  import opened Bytes
  import opened Json

  const QUOTE: byte := 34
  const COMMA: byte := 44
  const COLON: byte := 58

  // ---- strings ----

  function Hex(n: nat): (b: byte)
    requires n < 16
    ensures 48 <= b <= 57 || 97 <= b <= 102
  {
    if n < 10 then 48 + n else 87 + n
  }

  /** One byte of a string, escaped where JSON requires it. */
  function EscapeByte(b: byte): (s: Bytes)
    ensures s != [] && s[0] != QUOTE
  {
    if b == QUOTE || b == BACKSLASH then [BACKSLASH, b]
    else if b == 8 then [BACKSLASH, 98]
    else if b == 9 then [BACKSLASH, 116]
    else if b == 10 then [BACKSLASH, 110]
    else if b == 12 then [BACKSLASH, 102]
    else if b == 13 then [BACKSLASH, 114]
    else if b < 32 then [BACKSLASH, 117, 48, 48, Hex(b / 16), Hex(b % 16)]
    else [b]
  }

  function Escape(s: Bytes): (r: Bytes) {
    if s == [] then [] else EscapeByte(s[0]) + Escape(s[1..])
  }

  function Quoted(s: Bytes): (r: Bytes) {
    [QUOTE] + Escape(s) + [QUOTE]
  }

  lemma HexInjective(n: nat, m: nat)
    requires n < 16 && m < 16 && Hex(n) == Hex(m)
    ensures n == m
  {}

  lemma EscapeByteUnique(b: byte, c: byte, s: Bytes, t: Bytes)
    requires EscapeByte(b) + s == EscapeByte(c) + t
    ensures b == c && s == t
  {
    var x, y := EscapeByte(b) + s, EscapeByte(c) + t;
    assert x[0] == EscapeByte(b)[0] && y[0] == EscapeByte(c)[0];
    if |EscapeByte(b)| >= 2 && |EscapeByte(c)| >= 2 {
      assert x[1] == EscapeByte(b)[1] && y[1] == EscapeByte(c)[1];
      if |EscapeByte(b)| == 6 && |EscapeByte(c)| == 6 {
        assert x[4] == EscapeByte(b)[4] && y[4] == EscapeByte(c)[4];
        assert x[5] == EscapeByte(b)[5] && y[5] == EscapeByte(c)[5];
        HexInjective(b / 16, c / 16);
        HexInjective(b % 16, c % 16);
      }
    }
    assert b == c;
    assert x[|EscapeByte(b)|..] == s && y[|EscapeByte(c)|..] == t;
  }

  lemma EscapedStart(s: Bytes, x: Bytes)
    ensures (Escape(s) + [QUOTE] + x)[0] == QUOTE <==> s == []
    ensures s == [] ==> (Escape(s) + [QUOTE] + x)[1..] == x
    ensures s != [] ==> Escape(s) + [QUOTE] + x == EscapeByte(s[0]) + (Escape(s[1..]) + [QUOTE] + x)
  {
    if s == [] {
      assert Escape(s) + [QUOTE] + x == [QUOTE] + x;
    } else {
      Reassociate(EscapeByte(s[0]), Escape(s[1..]), [QUOTE], x);
    }
  }

  lemma Reassociate(a: Bytes, b: Bytes, c: Bytes, d: Bytes)
    ensures a + b + c + d == a + (b + c + d)
  {}

  lemma {:induction false} EscapedUnique(s: Bytes, t: Bytes, x: Bytes, y: Bytes)
    requires Escape(s) + [QUOTE] + x == Escape(t) + [QUOTE] + y
    ensures s == t && x == y
  {
    EscapedStart(s, x);
    EscapedStart(t, y);
    if s != [] {
      EscapeByteUnique(s[0], t[0], Escape(s[1..]) + [QUOTE] + x, Escape(t[1..]) + [QUOTE] + y);
      EscapedUnique(s[1..], t[1..], x, y);
      assert s == [s[0]] + s[1..] && t == [t[0]] + t[1..];
    }
  }

  lemma QuotedUnique(s: Bytes, t: Bytes, x: Bytes, y: Bytes)
    requires Quoted(s) + x == Quoted(t) + y
    ensures s == t && x == y
  {
    var l, r := Quoted(s) + x, Quoted(t) + y;
    assert l[1..] == Escape(s) + [QUOTE] + x && r[1..] == Escape(t) + [QUOTE] + y;
    EscapedUnique(s, t, x, y);
  }

  // ---- values ----

  predicate NumberByte(b: byte) {
    48 <= b <= 57 || b == 45 || b == 43 || b == 46 || b == 101 || b == 69
  }

  /** A number's text: number bytes only, a digit or a minus sign first. */
  predicate NumberText(s: Bytes) {
    s != [] && (48 <= s[0] <= 57 || s[0] == 45) && forall i :: 0 <= i < |s| ==> NumberByte(s[i])
  }

  ghost predicate Printable(v: Json) {
    match v
    case Num(text) => NumberText(text)
    case Arr(items) => forall i :: 0 <= i < |items| ==> Printable(items[i])
    case Obj(ms) => forall i :: 0 <= i < |ms| ==> Printable(ms[i].value)
    case _ => true
  }

  const NULL_TEXT: Bytes := [110, 117, 108, 108]
  const TRUE_TEXT: Bytes := [116, 114, 117, 101]
  const FALSE_TEXT: Bytes := [102, 97, 108, 115, 101]

  /** `Value::to_string` and `to_vec`. */
  function Render(v: Json): (s: Bytes)
    decreases v, 1
  {
    match v
    case Null => NULL_TEXT
    case Bool(b) => if b then TRUE_TEXT else FALSE_TEXT
    case Num(text) => text
    case Str(s) => Quoted(s)
    case Arr(items) => [91] + RenderItems(items, true)
    case Obj(ms) => [123] + RenderMembers(ms, true)
  }

  /** The rest of an array, from before the next separator. */
  function RenderItems(items: seq<Json>, first: bool): (s: Bytes)
    ensures s != [] && (!first ==> s[0] == COMMA || s[0] == 93)
    decreases items, 0
  {
    if items == [] then [93]
    else (if first then [] else [COMMA]) + Render(items[0]) + RenderItems(items[1..], false)
  }

  function RenderMembers(ms: seq<Member>, first: bool): (s: Bytes)
    ensures s != [] && (!first ==> s[0] == COMMA || s[0] == 125)
    decreases ms, 0
  {
    if ms == [] then [125]
    else (if first then [] else [COMMA]) + Quoted(ms[0].key) + [COLON] + Render(ms[0].value) + RenderMembers(ms[1..], false)
  }

  /** What can follow a value inside a text: nothing, or no number byte. */
  predicate Delimited(s: Bytes) {
    s == [] || !NumberByte(s[0])
  }

  /** The first byte tells the kind of value. */
  lemma FirstByte(v: Json)
    requires Printable(v)
    ensures Render(v) != []
    ensures var b := Render(v)[0];
            match v
            case Null => b == 110
            case Bool(x) => b == (if x then 116 else 102)
            case Num(_) => 48 <= b <= 57 || b == 45
            case Str(_) => b == QUOTE
            case Arr(_) => b == 91
            case Obj(_) => b == 123
  {}

  lemma NumberBoundary(a: Bytes, s: Bytes)
    requires NumberText(a) && Delimited(s)
    ensures forall i :: 0 <= i < |a| ==> NumberByte((a + s)[i])
    ensures |a| < |a + s| ==> !NumberByte((a + s)[|a|])
  {}

  lemma NumberUnique(a: Bytes, b: Bytes, s: Bytes, t: Bytes)
    requires NumberText(a) && NumberText(b) && Delimited(s) && Delimited(t) && a + s == b + t
    ensures a == b && s == t
  {
    var x, y := a + s, b + t;
    NumberBoundary(a, s);
    NumberBoundary(b, t);
    assert |a| == |b|;
    assert x[..|a|] == a && y[..|b|] == b && x[|a|..] == s && y[|b|..] == t;
  }

  lemma DropHead(h: byte, a: Bytes, s: Bytes)
    ensures ([h] + a + s)[1..] == a + s
  {}

  lemma DropText(a: Bytes, s: Bytes, t: Bytes)
    requires a + s == a + t
    ensures s == t
  {
    assert (a + s)[|a|..] == s && (a + t)[|a|..] == t;
  }

  lemma SameKind(v: Json, w: Json, s: Bytes, t: Bytes)
    requires Printable(v) && Printable(w) && Render(v) + s == Render(w) + t
    ensures v.Null? == w.Null? && v.Bool? == w.Bool? && v.Num? == w.Num? && v.Str? == w.Str?
    ensures v.Arr? == w.Arr? && v.Obj? == w.Obj?
    ensures v.Bool? ==> v == w
  {
    FirstByte(v);
    FirstByte(w);
    assert (Render(v) + s)[0] == Render(v)[0] && (Render(w) + t)[0] == Render(w)[0];
  }

  /** Texts of values are a prefix code up to number boundaries: equal texts with
      delimited continuations come from equal values and equal continuations. */
  lemma {:induction false} RenderUnique(v: Json, w: Json, s: Bytes, t: Bytes)
    requires Printable(v) && Printable(w) && Delimited(s) && Delimited(t)
    requires Render(v) + s == Render(w) + t
    ensures v == w && s == t
    decreases v, 1
  {
    SameKind(v, w, s, t);
    match v
    case Null => DropText(NULL_TEXT, s, t);
    case Bool(b) => DropText(Render(v), s, t);
    case Num(text) => NumberUnique(text, w.text, s, t);
    case Str(a) => QuotedUnique(a, w.s, s, t);
    case Arr(items) =>
      DropHead(91, RenderItems(items, true), s);
      DropHead(91, RenderItems(w.items, true), t);
      ItemsUnique(items, w.items, true, s, t);
    case Obj(ms) =>
      DropHead(123, RenderMembers(ms, true), s);
      DropHead(123, RenderMembers(w.members, true), t);
      MembersUnique(ms, w.members, true, s, t);
  }

  lemma ItemsSplit(a: seq<Json>, first: bool, s: Bytes)
    requires a != []
    ensures (RenderItems(a, first) + s)[if first then 0 else 1..] == Render(a[0]) + (RenderItems(a[1..], false) + s)
  {
    SkipLead(if first then [] else [COMMA], Render(a[0]), RenderItems(a[1..], false), s);
  }

  lemma SkipLead(lead: Bytes, r: Bytes, m: Bytes, s: Bytes)
    ensures (lead + r + m + s)[|lead|..] == r + (m + s)
  {
    assert lead + r + m + s == lead + (r + (m + s));
  }

  lemma {:induction false} ItemsUnique(a: seq<Json>, b: seq<Json>, first: bool, s: Bytes, t: Bytes)
    requires forall i :: 0 <= i < |a| ==> Printable(a[i])
    requires forall i :: 0 <= i < |b| ==> Printable(b[i])
    requires RenderItems(a, first) + s == RenderItems(b, first) + t
    ensures a == b && s == t
    decreases a, 0
  {
    ItemsStart(a, first, s);
    ItemsStart(b, first, t);
    if a != [] {
      var ra, rb := RenderItems(a[1..], false) + s, RenderItems(b[1..], false) + t;
      ItemsSplit(a, first, s);
      ItemsSplit(b, first, t);
      RenderUnique(a[0], b[0], ra, rb);
      ItemsUnique(a[1..], b[1..], false, s, t);
      assert a == [a[0]] + a[1..] && b == [b[0]] + b[1..];
    }
  }

  /** The first byte tells whether the list is over. */
  lemma ItemsStart(a: seq<Json>, first: bool, s: Bytes)
    requires forall i :: 0 <= i < |a| ==> Printable(a[i])
    ensures (RenderItems(a, first) + s)[0] == 93 <==> a == []
    ensures a == [] ==> (RenderItems(a, first) + s)[1..] == s
  {
    if a != [] {
      FirstByte(a[0]);
      assert (RenderItems(a, first) + s)[0] == RenderItems(a, first)[0];
      assert RenderItems(a, first)[0] == (if first then Render(a[0])[0] else COMMA);
    }
  }

  lemma MembersStart(a: seq<Member>, first: bool, s: Bytes)
    ensures (RenderMembers(a, first) + s)[0] == 125 <==> a == []
    ensures a == [] ==> (RenderMembers(a, first) + s)[1..] == s
  {
    if a != [] {
      assert (RenderMembers(a, first) + s)[0] == RenderMembers(a, first)[0];
      assert RenderMembers(a, first)[0] == (if first then QUOTE else COMMA);
    }
  }

  lemma Regroup(l: Bytes, q: Bytes, c: Bytes, r: Bytes, m: Bytes, s: Bytes)
    ensures l + q + c + r + m + s == l + (q + (c + (r + (m + s))))
  {
    assert r + m + s == r + (m + s);
    assert c + r + m + s == c + (r + (m + s));
    assert q + c + r + m + s == q + (c + (r + (m + s)));
  }

  lemma MembersSplit(a: seq<Member>, first: bool, s: Bytes)
    requires a != []
    ensures (RenderMembers(a, first) + s)[if first then 0 else 1..]
         == Quoted(a[0].key) + ([COLON] + (Render(a[0].value) + (RenderMembers(a[1..], false) + s)))
  {
    var lead: Bytes := if first then [] else [COMMA];
    Regroup(lead, Quoted(a[0].key), [COLON], Render(a[0].value), RenderMembers(a[1..], false), s);
  }

  lemma {:induction false} MembersUnique(a: seq<Member>, b: seq<Member>, first: bool, s: Bytes, t: Bytes)
    requires forall i :: 0 <= i < |a| ==> Printable(a[i].value)
    requires forall i :: 0 <= i < |b| ==> Printable(b[i].value)
    requires RenderMembers(a, first) + s == RenderMembers(b, first) + t
    ensures a == b && s == t
    decreases a, 0
  {
    MembersStart(a, first, s);
    MembersStart(b, first, t);
    if a != [] {
      var ra, rb := RenderMembers(a[1..], false) + s, RenderMembers(b[1..], false) + t;
      MembersSplit(a, first, s);
      MembersSplit(b, first, t);
      QuotedUnique(a[0].key, b[0].key, [COLON] + (Render(a[0].value) + ra), [COLON] + (Render(b[0].value) + rb));
      DropText([COLON], Render(a[0].value) + ra, Render(b[0].value) + rb);
      RenderUnique(a[0].value, b[0].value, ra, rb);
      MembersUnique(a[1..], b[1..], false, s, t);
      assert a == [a[0]] + a[1..] && b == [b[0]] + b[1..];
    }
  }

  /** The compact text determines the value, member order included. */
  lemma RenderInjective(v: Json, w: Json)
    requires Printable(v) && Printable(w)
    ensures Render(v) == Render(w) <==> v == w
  {
    if Render(v) == Render(w) {
      assert Render(v) + [] == Render(w) + [];
      RenderUnique(v, w, [], []);
    }
  }

  // ---- the text, written out ----

  /** What follows a first item: commas and items. */
  lemma {:induction false} ItemsAreJoined(items: seq<Json>, first: bool)
    ensures RenderItems(items, first)
         == (if items == [] || first then [] else [44]) + Join(Map(Render, items), 44) + [93]
    decreases |items|
  {
    if |items| == 1 {
      assert RenderItems(items[1..], false) == [93];
      assert Map(Render, items) == [Render(items[0])];
    } else if |items| > 1 {
      ItemsAreJoined(items[1..], false);
      MapHead(Render, items);
      JoinCons(Render(items[0]), Map(Render, items[1..]), 44);
      Regroup4(if first then [] else [44], Render(items[0]), [44], Join(Map(Render, items[1..]), 44), [93]);
    }
  }

  lemma Regroup4(a: Bytes, b: Bytes, c: Bytes, d: Bytes, e: Bytes)
    ensures a + b + (c + d + e) == a + (b + c + d) + e
  {}

  /** The text of one member. */
  function RenderMember(m: Member): (s: Bytes) {
    Quoted(m.key) + [58] + Render(m.value)
  }

  lemma {:induction false} MembersAreJoined(ms: seq<Member>, first: bool)
    ensures RenderMembers(ms, first)
         == (if ms == [] || first then [] else [44]) + Join(Map(RenderMember, ms), 44) + [125]
    decreases |ms|
  {
    if ms != [] {
      MemberFirst(ms, first);
      if |ms| == 1 {
        assert RenderMembers(ms[1..], false) == [125];
        assert Map(RenderMember, ms) == [RenderMember(ms[0])];
      } else {
        MembersAreJoined(ms[1..], false);
        MapHead(RenderMember, ms);
        JoinCons(RenderMember(ms[0]), Map(RenderMember, ms[1..]), 44);
        Regroup4(if first then [] else [44], RenderMember(ms[0]), [44], Join(Map(RenderMember, ms[1..]), 44), [125]);
      }
    }
  }

  lemma MemberFirst(ms: seq<Member>, first: bool)
    requires ms != []
    ensures RenderMembers(ms, first)
         == (if first then [] else [44]) + RenderMember(ms[0]) + RenderMembers(ms[1..], false)
  {
    var a, k, v := if first then [] else [COMMA], Quoted(ms[0].key), Render(ms[0].value);
    assert a + k + [COLON] + v == a + (k + [COLON] + v);
  }

  /** The compact text of every kind of value: literals, the number's own text,
      a quoted string, and comma-separated items or members in their brackets. */
  lemma TextOf(v: Json)
    ensures match v
            case Null => Render(v) == Ascii("null")
            case Bool(b) => Render(v) == Ascii(if b then "true" else "false")
            case Num(text) => Render(v) == text
            case Str(s) => Render(v) == [34] + Escape(s) + [34]
            case Arr(items) => Render(v) == [91] + Join(Map(Render, items), 44) + [93]
            case Obj(ms) => Render(v) == [123] + Join(Map(RenderMember, ms), 44) + [125]
  {
    match v
    case Arr(items) =>
      ItemsAreJoined(items, true);
      Brackets([91], Join(Map(Render, items), 44), [93]);
    case Obj(ms) =>
      MembersAreJoined(ms, true);
      Brackets([123], Join(Map(RenderMember, ms), 44), [125]);
    case _ =>
  }

  lemma Brackets(a: Bytes, b: Bytes, c: Bytes)
    ensures a + ([] + b + c) == a + b + c
  {}

  // ---- reading strings back ----

  function HexDigit(b: byte): (n: Option<nat>) {
    if 48 <= b <= 57 then Some(b as int - 48) else if 97 <= b <= 102 then Some(b as int - 87) else None
  }

  /** What a one-letter escape of JSON stands for (section 7 of RFC 8259). */
  function EscapeLetter(b: byte): (r: Option<byte>) {
    match b
    case 34 => Some(34)
    case 92 => Some(92)
    case 98 => Some(8)
    case 102 => Some(12)
    case 110 => Some(10)
    case 114 => Some(13)
    case 116 => Some(9)
    case _ => None
  }

  /** The string a body between quotes stands for: no bare quote, no bare control byte. */
  function ReadBody(s: Bytes): (r: Option<Bytes>)
    decreases |s|
  {
    if s == [] then Some([])
    else if s[0] == 34 || s[0] < 32 then None
    else if s[0] != 92 then Prefixed([s[0]], ReadBody(s[1..]))
    else if |s| >= 2 && EscapeLetter(s[1]).Some? then Prefixed([EscapeLetter(s[1]).value], ReadBody(s[2..]))
    else if |s| >= 6 && s[1..4] == Ascii("u00") && HexDigit(s[4]).Some? && HexDigit(s[4]).value < 8 && HexDigit(s[5]).Some? then
      Prefixed([16 * HexDigit(s[4]).value + HexDigit(s[5]).value], ReadBody(s[6..]))
    else None
  }

  /** Reading undoes escaping. */
  lemma {:induction false} EscapeReadsBack(s: Bytes)
    ensures ReadBody(Escape(s)) == Some(s)
  {
    if s != [] {
      EscapeReadsBack(s[1..]);
      ReadCons(s[0], Escape(s[1..]), s[1..]);
      assert s == [s[0]] + s[1..];
    }
  }

  lemma ReadCons(b: byte, body: Bytes, s: Bytes)
    requires ReadBody(body) == Some(s)
    ensures ReadBody(EscapeByte(b) + body) == Some([b] + s)
  {
    ReadByte(b, body);
  }

  lemma ReadByte(b: byte, rest: Bytes)
    ensures ReadBody(EscapeByte(b) + rest) == Prefixed([b], ReadBody(rest))
  {
    var e := EscapeByte(b);
    var s := e + rest;
    assert s[|e|..] == rest;
    if |e| == 6 {
      assert s[1..4] == [117, 48, 48] == Ascii("u00");
      HexReads(b / 16);
      HexReads(b % 16);
      assert s[4] == e[4] && s[5] == e[5] && s[1] == 117;
    } else if |e| == 2 {
      assert s[0] == 92 && s[1] == e[1];
    }
  }

  lemma HexReads(n: nat)
    requires n < 16
    ensures HexDigit(Hex(n)) == Some(n)
  {}
}
