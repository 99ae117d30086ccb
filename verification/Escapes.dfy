/** DOT and Mermaid escaping: chains of whole-text replacements, shown to be one
    simultaneous substitution, undone by a decoder. The replaced characters are
    ASCII, so replacing bytes and replacing characters of UTF-8 text agree. */
module Escapes {
  import opened Bytes

  const QUOTE: byte := 34
  const AMP: byte := 38
  const LT: byte := 60
  const GT: byte := 62
  const BACKTICK: byte := 96
  const PIPE: byte := 124
  const SPACE: byte := 32
  const LETTER_N: byte := 110

  // ---- replacement and substitution ----

  /** `str::replace` of one character. */
  function Replace(s: Bytes, from: byte, to: Bytes): (r: Bytes) {
    if s == [] then [] else (if s[0] == from then to else [s[0]]) + Replace(s[1..], from, to)
  }

  function Substitute(f: byte -> Bytes, s: Bytes): (r: Bytes) {
    if s == [] then [] else f(s[0]) + Substitute(f, s[1..])
  }

  lemma {:induction false} ReplaceAppend(a: Bytes, b: Bytes, from: byte, to: Bytes)
    ensures Replace(a + b, from, to) == Replace(a, from, to) + Replace(b, from, to)
  {
    if a == [] {
      assert a + b == b;
    } else {
      assert (a + b)[1..] == a[1..] + b;
      ReplaceAppend(a[1..], b, from, to);
    }
  }

  /** Replacing after a substitution is the substitution with replaced images. */
  lemma {:induction false} ReplaceAfter(f: byte -> Bytes, g: byte -> Bytes, s: Bytes, from: byte, to: Bytes)
    requires forall b: byte :: g(b) == Replace(f(b), from, to)
    ensures Replace(Substitute(f, s), from, to) == Substitute(g, s)
  {
    if s != [] {
      ReplaceAppend(f(s[0]), Substitute(f, s[1..]), from, to);
      ReplaceAfter(f, g, s[1..], from, to);
    }
  }

  lemma {:induction false} SubstituteSelf(s: Bytes)
    ensures Substitute((b: byte) => [b], s) == s
  {
    if s != [] {
      SubstituteSelf(s[1..]);
      assert s == [s[0]] + s[1..];
    }
  }

  lemma ReplaceOne(b: byte, from: byte, to: Bytes)
    ensures Replace([b], from, to) == if b == from then to else [b]
  {
    assert [b][1..] == [];
  }

  lemma {:induction false} ReplaceAbsent(s: Bytes, from: byte, to: Bytes)
    requires from !in s
    ensures Replace(s, from, to) == s
  {
    if s != [] {
      ReplaceAbsent(s[1..], from, to);
      assert s == [s[0]] + s[1..];
    }
  }

  /** One more replacement of a chain: a character not yet special gets its
      image, and images already in place do not contain it. */
  lemma ExtendChain(f: byte -> Bytes, g: byte -> Bytes, s: Bytes, from: byte, to: Bytes)
    requires forall b: byte :: if b == from then f(b) == [b] && g(b) == to else g(b) == f(b) && from !in f(b)
    ensures Replace(Substitute(f, s), from, to) == Substitute(g, s)
  {
    forall b: byte
      ensures g(b) == Replace(f(b), from, to)
    {
      if b == from {
        ReplaceOne(b, from, to);
      } else {
        ReplaceAbsent(f(b), from, to);
      }
    }
    ReplaceAfter(f, g, s, from, to);
  }

  // ---- DOT ----

  /** `dot_escape`. */
  function DotEscape(s: Bytes): (r: Bytes) {
    Replace(Replace(Replace(s, BACKSLASH, [BACKSLASH, BACKSLASH]), QUOTE, [BACKSLASH, QUOTE]), NEWLINE, [BACKSLASH, LETTER_N])
  }

  function DotImage(b: byte): (s: Bytes) {
    if b == BACKSLASH then [BACKSLASH, BACKSLASH]
    else if b == QUOTE then [BACKSLASH, QUOTE]
    else if b == NEWLINE then [BACKSLASH, LETTER_N]
    else [b]
  }

  /** The chain is one simultaneous substitution. */
  lemma DotIsSubstitution(s: Bytes)
    ensures DotEscape(s) == Substitute(DotImage, s)
  {
    var f0 := (b: byte) => [b];
    var f1 := (b: byte) => if b == BACKSLASH then [BACKSLASH, BACKSLASH] else [b];
    var f2 := (b: byte) => if b == QUOTE then [BACKSLASH, QUOTE] else f1(b);
    SubstituteSelf(s);
    ExtendChain(f0, f1, s, BACKSLASH, [BACKSLASH, BACKSLASH]);
    ExtendChain(f1, f2, s, QUOTE, [BACKSLASH, QUOTE]);
    ExtendChain(f2, DotImage, s, NEWLINE, [BACKSLASH, LETTER_N]);
  }

  /** Reading a DOT string body: a backslash takes the next character along. */
  function DotUnescape(s: Bytes): (r: Bytes)
    decreases |s|
  {
    if s == [] then []
    else if s[0] == BACKSLASH && |s| >= 2 then [if s[1] == LETTER_N then NEWLINE else s[1]] + DotUnescape(s[2..])
    else [s[0]] + DotUnescape(s[1..])
  }

  /** No newline, and no quote that is not escaped, so the body cannot end early. */
  predicate DotSafe(s: Bytes)
    decreases |s|
  {
    if s == [] then true
    else if s[0] == BACKSLASH then |s| >= 2 && s[1] != NEWLINE && DotSafe(s[2..])
    else s[0] != QUOTE && s[0] != NEWLINE && DotSafe(s[1..])
  }

  lemma {:induction false} DotSubstitutionReads(s: Bytes)
    ensures DotUnescape(Substitute(DotImage, s)) == s
    ensures DotSafe(Substitute(DotImage, s))
  {
    if s != [] {
      DotSubstitutionReads(s[1..]);
      var image, rest := DotImage(s[0]), Substitute(DotImage, s[1..]);
      assert (image + rest)[|image|..] == rest;
      assert s == [s[0]] + s[1..];
    }
  }

  /** DOT escaping loses nothing and leaves a safe string body. */
  lemma DotRoundTrip(s: Bytes)
    ensures DotUnescape(DotEscape(s)) == s
    ensures DotSafe(DotEscape(s))
  {
    DotIsSubstitution(s);
    DotSubstitutionReads(s);
  }

  // ---- Mermaid ----

  const AMP_TEXT: Bytes := [38, 97, 109, 112, 59]           // &amp;
  const PIPE_TEXT: Bytes := [38, 35, 49, 50, 52, 59]        // &#124;
  const BACKTICK_TEXT: Bytes := [38, 35, 57, 54, 59]        // &#96;
  const QUOTE_TEXT: Bytes := [38, 113, 117, 111, 116, 59]   // &quot;
  const LT_TEXT: Bytes := [38, 108, 116, 59]                // &lt;
  const GT_TEXT: Bytes := [38, 103, 116, 59]                // &gt;

  /** `mermaid_escape`. */
  function MermaidEscape(s: Bytes): (r: Bytes) {
    var a := Replace(s, AMP, AMP_TEXT);
    var b := Replace(a, PIPE, PIPE_TEXT);
    var c := Replace(b, BACKTICK, BACKTICK_TEXT);
    var d := Replace(c, QUOTE, QUOTE_TEXT);
    var e := Replace(d, LT, LT_TEXT);
    var f := Replace(e, GT, GT_TEXT);
    Replace(f, NEWLINE, [SPACE])
  }

  function MermaidImage(b: byte): (s: Bytes)
    ensures s != []
  {
    if b == AMP then AMP_TEXT
    else if b == PIPE then PIPE_TEXT
    else if b == BACKTICK then BACKTICK_TEXT
    else if b == QUOTE then QUOTE_TEXT
    else if b == LT then LT_TEXT
    else if b == GT then GT_TEXT
    else if b == NEWLINE then [SPACE]
    else [b]
  }

  const SPECIALS: seq<byte> := [AMP, PIPE, BACKTICK, QUOTE, LT, GT, NEWLINE]

  /** The image of a byte after the first `n` replacements of the chain. */
  function MermaidStage(n: nat, b: byte): (s: Bytes)
    requires n <= 7
  {
    if b in SPECIALS[..n] then MermaidImage(b) else [b]
  }

  /** The text after the first `n` replacements. */
  function MermaidChain(n: nat, s: Bytes): (r: Bytes)
    requires n <= 7
  {
    if n == 0 then s else Replace(MermaidChain(n - 1, s), SPECIALS[n - 1], MermaidImage(SPECIALS[n - 1]))
  }

  lemma StageStep(n: nat, b: byte)
    requires n < 7
    ensures var from := SPECIALS[n];
            if b == from then MermaidStage(n, b) == [b] && MermaidStage(n + 1, b) == MermaidImage(from)
            else MermaidStage(n + 1, b) == MermaidStage(n, b) && from !in MermaidStage(n, b)
  {
    assert SPECIALS[..n + 1] == SPECIALS[..n] + [SPECIALS[n]];
  }

  lemma {:induction false} ChainIsSubstitution(n: nat, s: Bytes)
    requires n <= 7
    ensures MermaidChain(n, s) == Substitute((b: byte) => MermaidStage(n, b), s)
  {
    if n == 0 {
      SubstituteSelf(s);
      SubstituteAlike((b: byte) => MermaidStage(0, b), (b: byte) => [b], s);
    } else {
      ChainIsSubstitution(n - 1, s);
      var f, g := (b: byte) => MermaidStage(n - 1, b), (b: byte) => MermaidStage(n, b);
      var from := SPECIALS[n - 1];
      forall b: byte
        ensures if b == from then f(b) == [b] && g(b) == MermaidImage(from) else g(b) == f(b) && from !in f(b)
      {
        StageStep(n - 1, b);
      }
      ExtendChain(f, g, s, from, MermaidImage(from));
    }
  }

  lemma {:induction false} SubstituteAlike(f: byte -> Bytes, g: byte -> Bytes, s: Bytes)
    requires forall b: byte :: f(b) == g(b)
    ensures Substitute(f, s) == Substitute(g, s)
  {
    if s != [] {
      SubstituteAlike(f, g, s[1..]);
    }
  }

  lemma MermaidIsChain(s: Bytes)
    ensures MermaidEscape(s) == MermaidChain(7, s)
  {
    assert MermaidChain(1, s) == Replace(s, AMP, AMP_TEXT);
    assert MermaidChain(2, s) == Replace(MermaidChain(1, s), PIPE, PIPE_TEXT);
    assert MermaidChain(3, s) == Replace(MermaidChain(2, s), BACKTICK, BACKTICK_TEXT);
    assert MermaidChain(4, s) == Replace(MermaidChain(3, s), QUOTE, QUOTE_TEXT);
    assert MermaidChain(5, s) == Replace(MermaidChain(4, s), LT, LT_TEXT);
    assert MermaidChain(6, s) == Replace(MermaidChain(5, s), GT, GT_TEXT);
  }

  lemma MermaidIsSubstitution(s: Bytes)
    ensures MermaidEscape(s) == Substitute(MermaidImage, s)
  {
    MermaidIsChain(s);
    ChainIsSubstitution(7, s);
    forall b: byte
      ensures MermaidStage(7, b) == MermaidImage(b)
    {
      assert SPECIALS[..7] == SPECIALS;
    }
    SubstituteAlike((b: byte) => MermaidStage(7, b), MermaidImage, s);
  }

  /** No byte of the output is special to a Mermaid label. */
  lemma {:induction false} MermaidLeavesNoSpecials(s: Bytes)
    ensures var r := Substitute(MermaidImage, s);
            PIPE !in r && BACKTICK !in r && QUOTE !in r && LT !in r && GT !in r && NEWLINE !in r
  {
    if s != [] {
      MermaidLeavesNoSpecials(s[1..]);
      ImageHasNoSpecials(s[0]);
    }
  }

  lemma ImageHasNoSpecials(b: byte)
    ensures var r := MermaidImage(b);
            PIPE !in r && BACKTICK !in r && QUOTE !in r && LT !in r && GT !in r && NEWLINE !in r
  {}

  /** Images are a prefix code on everything but the newline. */
  lemma MermaidImageUnique(b: byte, c: byte, s: Bytes, t: Bytes)
    requires b != NEWLINE && c != NEWLINE && MermaidImage(b) + s == MermaidImage(c) + t
    ensures b == c && s == t
  {
    var x, y := MermaidImage(b), MermaidImage(c);
    assert (x + s)[0] == x[0] && (y + t)[0] == y[0];
    if |x| > 1 && |y| > 1 {
      assert (x + s)[1] == x[1] && (y + t)[1] == y[1];
      assert (x + s)[2] == x[2] && (y + t)[2] == y[2];
    }
    assert b == c;
    assert (x + s)[|x|..] == s && (y + t)[|y|..] == t;
  }

  lemma {:induction false} MermaidSubstitutionInjective(s: Bytes, t: Bytes)
    requires NEWLINE !in s && NEWLINE !in t
    requires Substitute(MermaidImage, s) == Substitute(MermaidImage, t)
    ensures s == t
  {
    if s != [] && t != [] {
      MermaidImageUnique(s[0], t[0], Substitute(MermaidImage, s[1..]), Substitute(MermaidImage, t[1..]));
      MermaidSubstitutionInjective(s[1..], t[1..]);
      assert s == [s[0]] + s[1..] && t == [t[0]] + t[1..];
    }
  }

  /** On newline-free text Mermaid escaping is injective and leaves no special character. */
  lemma MermaidInjective(s: Bytes, t: Bytes)
    requires NEWLINE !in s && NEWLINE !in t
    ensures MermaidEscape(s) == MermaidEscape(t) <==> s == t
    ensures PIPE !in MermaidEscape(s) && BACKTICK !in MermaidEscape(s) && QUOTE !in MermaidEscape(s)
    ensures LT !in MermaidEscape(s) && GT !in MermaidEscape(s) && NEWLINE !in MermaidEscape(s)
  {
    MermaidIsSubstitution(s);
    MermaidIsSubstitution(t);
    MermaidLeavesNoSpecials(s);
    if MermaidEscape(s) == MermaidEscape(t) {
      MermaidSubstitutionInjective(s, t);
    }
  }

  /** For all texts: equal escapes iff equal up to newlines read as spaces. */
  lemma MermaidExact(s: Bytes, t: Bytes)
    ensures MermaidEscape(s) == MermaidEscape(t) <==> Replace(s, NEWLINE, [SPACE]) == Replace(t, NEWLINE, [SPACE])
  {
    var s', t' := Replace(s, NEWLINE, [SPACE]), Replace(t, NEWLINE, [SPACE]);
    Flattened(s);
    Flattened(t);
    MermaidIsSubstitution(s);
    MermaidIsSubstitution(t);
    if MermaidEscape(s) == MermaidEscape(t) {
      MermaidSubstitutionInjective(s', t');
    }
  }

  lemma {:induction false} Flattened(s: Bytes)
    ensures NEWLINE !in Replace(s, NEWLINE, [SPACE])
    ensures Substitute(MermaidImage, Replace(s, NEWLINE, [SPACE])) == Substitute(MermaidImage, s)
  {
    if s != [] {
      Flattened(s[1..]);
      var head, rest := (if s[0] == NEWLINE then [SPACE] else [s[0]]), Replace(s[1..], NEWLINE, [SPACE]);
      assert (head + rest)[0] == head[0] && (head + rest)[1..] == rest;
    }
  }

  // ---- reading a Mermaid label ----

  /** What the entity at the front stands for, and how long it is. */
  function Entity(s: Bytes): (r: Option<(byte, nat)>)
    ensures r.Some? ==> 0 < r.value.1 <= |s|
  {
    if Ascii("&amp;") <= s then Some((38, 5))
    else if Ascii("&#124;") <= s then Some((124, 6))
    else if Ascii("&#96;") <= s then Some((96, 5))
    else if Ascii("&quot;") <= s then Some((34, 6))
    else if Ascii("&lt;") <= s then Some((60, 4))
    else if Ascii("&gt;") <= s then Some((62, 4))
    else None
  }

  /** Entities become their characters. */
  function HtmlRead(s: Bytes): (r: Bytes)
    decreases |s|
  {
    if s == [] then []
    else match Entity(s)
      case Some((b, n)) => [b] + HtmlRead(s[n..])
      case None => [s[0]] + HtmlRead(s[1..])
  }

  lemma EntityOf(b: byte, rest: Bytes)
    requires b != NEWLINE
    ensures var s := MermaidImage(b) + rest;
            s != [] && s[|MermaidImage(b)|..] == rest
            && Entity(s) == if |MermaidImage(b)| > 1 then Some((b, |MermaidImage(b)|)) else None
  {
    var image := MermaidImage(b);
    var s := image + rest;
    EntityTexts();
    if |image| > 1 {
      assert s[..|image|] == image;
      assert s[1] == image[1] && s[2] == image[2] && s[3] == image[3];
    } else {
      assert s[0] == b;
    }
  }

  lemma EntityTexts()
    ensures Ascii("&amp;") == AMP_TEXT && Ascii("&#124;") == PIPE_TEXT && Ascii("&#96;") == BACKTICK_TEXT
    ensures Ascii("&quot;") == QUOTE_TEXT && Ascii("&lt;") == LT_TEXT && Ascii("&gt;") == GT_TEXT
  {}

  /** Reading the escaped text gives the text with newlines as spaces. */
  lemma MermaidReadsBack(s: Bytes)
    ensures HtmlRead(MermaidEscape(s)) == Replace(s, 10, [32])
  {
    MermaidIsSubstitution(s);
    Flattened(s);
    ImagesReadBack(Replace(s, NEWLINE, [SPACE]));
  }

  lemma {:induction false} ImagesReadBack(s: Bytes)
    requires NEWLINE !in s
    ensures HtmlRead(Substitute(MermaidImage, s)) == s
  {
    if s != [] {
      ImagesReadBack(s[1..]);
      EntityOf(s[0], Substitute(MermaidImage, s[1..]));
      assert s == [s[0]] + s[1..];
    }
  }
}
