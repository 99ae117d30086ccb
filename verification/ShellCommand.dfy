/** The documented launch command: printing it as continuation lines and parsing
    it back. Text is ASCII here; `trim` also removes the vertical tab, which
    `split_ascii_whitespace` does not split at. */
module ShellCommand {
  import opened Bytes

  const SPACE: byte := 32
  const CARRIAGE_RETURN: byte := 13

  function Continuation(): (s: Bytes) { [SPACE, BACKSLASH] }

  predicate IsWhite(b: byte) { 9 <= b <= 13 || b == SPACE }

  predicate Splits(b: byte) { IsWhite(b) && b != 11 }

  // ---- the string operations the parser uses ----

  function TrimStart(s: Bytes): (t: Bytes) {
    if s != [] && IsWhite(s[0]) then TrimStart(s[1..]) else s
  }

  function TrimEnd(s: Bytes): (t: Bytes) {
    if s != [] && IsWhite(s[|s| - 1]) then TrimEnd(s[..|s| - 1]) else s
  }

  function Trim(s: Bytes): (t: Bytes) { TrimEnd(TrimStart(s)) }

  function StripSuffix(s: Bytes, suffix: Bytes): (r: Option<Bytes>) {
    if |s| >= |suffix| && s[|s| - |suffix|..] == suffix then Some(s[..|s| - |suffix|]) else None
  }

  /** `split_ascii_whitespace`: the maximal runs between separators. */
  function Words(s: Bytes): (words: seq<Bytes>)
    decreases |s|
  {
    if s == [] then []
    else if Splits(s[0]) then Words(s[1..])
    else
      var n := WordEnd(s);
      [s[..n]] + Words(s[n..])
  }

  function WordEnd(s: Bytes): (n: nat)
    ensures n <= |s|
    ensures s != [] && !Splits(s[0]) ==> n > 0
  {
    if s == [] || Splits(s[0]) then 0 else 1 + WordEnd(s[1..])
  }

  function ChopReturn(line: Bytes): (r: Bytes) {
    if line != [] && line[|line| - 1] == CARRIAGE_RETURN then line[..|line| - 1] else line
  }

  /** `str::lines`: a final newline does not start another line. */
  function TextLines(s: Bytes): (lines: seq<Bytes>) {
    var parts := Split(s, NEWLINE);
    var kept := if parts[|parts| - 1] == [] then parts[..|parts| - 1] else parts;
    Map(ChopReturn, kept)
  }

  // ---- parsing ----

  predicate SafeByte(b: byte) {
    48 <= b <= 57 || 65 <= b <= 90 || 97 <= b <= 122 || b == SLASH || b == 46 || b == 95 || b == 45
  }

  predicate SafeExecutable(s: Bytes) {
    s != [] && forall i :: 0 <= i < |s| ==> SafeByte(s[i])
  }

  /** The arguments of the remaining lines: all but the last end in a continuation. */
  function LineArguments(lines: seq<Bytes>): (r: Option<seq<Bytes>>) {
    if lines == [] then Some([])
    else
      var line := Trim(lines[0]);
      if |lines| == 1 then Some(Words(line))
      else match StripSuffix(line, Continuation())
        case None => None
        case Some(body) => Prefixed(Words(body), LineArguments(lines[1..]))
  }

  datatype Command = Command(executable: Bytes, arguments: seq<Bytes>)

  function Parse(text: Bytes): (r: Option<Command>) {
    var lines := TextLines(text);
    if |lines| < 2 then None
    else match StripSuffix(Trim(lines[0]), Continuation())
      case None => None
      case Some(executable) =>
        if !SafeExecutable(executable) then None
        else match LineArguments(lines[1..])
          case None => None
          case Some(arguments) => Some(Command(executable, arguments))
  }

  /** `documented_shell_command`. */
  method DocumentedShellCommand(text: Bytes) returns (r: Option<Command>)
    ensures r == Parse(text)
  {
    var lines := TextLines(text);
    if |lines| < 2 {
      return None;
    }
    var executable := StripSuffix(Trim(lines[0]), Continuation());
    if executable.None? || !SafeExecutable(executable.value) {
      return None;
    }
    var arguments := ParseArguments(lines[1..]);
    if arguments.None? {
      return None;
    }
    return Some(Command(executable.value, arguments.value));
  }

  /** The loop over the argument lines. */
  method ParseArguments(lines: seq<Bytes>) returns (r: Option<seq<Bytes>>)
    ensures r == LineArguments(lines)
  {
    var arguments: seq<Bytes> := [];
    var i := 0;
    assert lines[0..] == lines;
    PrefixedNothing(LineArguments(lines));
    while i < |lines|
      invariant 0 <= i <= |lines|
      invariant LineArguments(lines) == Prefixed(arguments, LineArguments(lines[i..]))
    {
      ArgumentStep(lines, i, arguments);
      var line := Trim(lines[i]);
      if i + 1 < |lines| {
        var body := StripSuffix(line, Continuation());
        if body.None? {
          return None;
        }
        line := body.value;
      }
      arguments := arguments + Words(line);
      i := i + 1;
    }
    assert lines[i..] == [] && arguments + [] == arguments;
    return Some(arguments);
  }

  /** The part of a line that holds arguments: all of the last, any other without
      its continuation. */
  function ArgumentPart(line: Bytes, last: bool): (r: Option<Bytes>) {
    if last then Some(Trim(line)) else StripSuffix(Trim(line), Continuation())
  }

  lemma ArgumentStep(lines: seq<Bytes>, i: nat, arguments: seq<Bytes>)
    requires i < |lines|
    ensures Prefixed(arguments, LineArguments(lines[i..])) ==
            match ArgumentPart(lines[i], i + 1 == |lines|)
            case None => None
            case Some(body) => Prefixed(arguments + Words(body), LineArguments(lines[i + 1..]))
  {
    var rest := lines[i..];
    assert rest[1..] == lines[i + 1..] && rest[0] == lines[i];
    var part := ArgumentPart(lines[i], i + 1 == |lines|);
    if i + 1 == |lines| {
      assert lines[i + 1..] == [];
      assert Words(part.value) + [] == Words(part.value);
    }
    if part.Some? {
      assert LineArguments(rest) == Prefixed(Words(part.value), LineArguments(lines[i + 1..]));
      PrefixedTwice(arguments, Words(part.value), LineArguments(lines[i + 1..]));
    }
  }

  // ---- printing ----

  /** The lines of the arguments, two to a line. */
  function ArgumentLines(arguments: seq<Bytes>): (lines: seq<Bytes>)
    requires |arguments| % 2 == 0
  {
    if arguments == [] then []
    else
      var body := [SPACE, SPACE] + arguments[0] + [SPACE] + arguments[1];
      [if |arguments| == 2 then body else body + Continuation()] + ArgumentLines(arguments[2..])
  }

  function RenderLines(c: Command): (lines: seq<Bytes>)
    requires |c.arguments| % 2 == 0
  {
    [c.executable + Continuation()] + ArgumentLines(c.arguments)
  }

  function Render(c: Command): (text: Bytes)
    requires |c.arguments| % 2 == 0
  {
    Join(RenderLines(c), NEWLINE)
  }

  lemma RenderStep(lines: seq<Bytes>, arguments: seq<Bytes>, i: nat, line: Bytes)
    requires |arguments| % 2 == 0 && i % 2 == 0 && i < |arguments|
    requires var body := [SPACE, SPACE] + arguments[i] + [SPACE] + arguments[i + 1];
             line == if i + 2 == |arguments| then body else body + Continuation()
    ensures lines + ArgumentLines(arguments[i..]) == lines + [line] + ArgumentLines(arguments[i + 2..])
  {
    var rest := arguments[i..];
    assert rest[0] == arguments[i] && rest[1] == arguments[i + 1] && rest[2..] == arguments[i + 2..];
    assert ArgumentLines(rest) == [line] + ArgumentLines(rest[2..]);
  }

  method RenderCommand(c: Command) returns (text: Bytes)
    requires |c.arguments| % 2 == 0
    ensures text == Render(c)
  {
    var lines := [c.executable + Continuation()];
    var i := 0;
    assert c.arguments[0..] == c.arguments;
    while i < |c.arguments|
      invariant 0 <= i <= |c.arguments| && i % 2 == 0
      invariant lines + ArgumentLines(c.arguments[i..]) == RenderLines(c)
    {
      var body := [SPACE, SPACE] + c.arguments[i] + [SPACE] + c.arguments[i + 1];
      var line := if i + 2 == |c.arguments| then body else body + Continuation();
      RenderStep(lines, c.arguments, i, line);
      lines := lines + [line];
      i := i + 2;
    }
    assert c.arguments[i..] == [] && lines + [] == lines;
    text := Join(lines, NEWLINE);
  }

  // ---- the two undo each other ----

  /** A word: not empty, ASCII without white space. */
  predicate IsWord(s: Bytes) {
    s != [] && forall i :: 0 <= i < |s| ==> s[i] < 128 && !IsWhite(s[i])
  }

  lemma {:induction false} WordEndOfWord(w: Bytes, rest: Bytes)
    requires forall i :: 0 <= i < |w| ==> !IsWhite(w[i])
    requires rest == [] || Splits(rest[0])
    ensures WordEnd(w + rest) == |w|
  {
    if w == [] {
      assert w + rest == rest;
    } else {
      assert (w + rest)[1..] == w[1..] + rest;
      WordEndOfWord(w[1..], rest);
    }
  }

  lemma WordsCons(w: Bytes, rest: Bytes)
    requires IsWord(w) && (rest == [] || Splits(rest[0]))
    ensures Words(w + rest) == [w] + Words(rest)
  {
    WordEndOfWord(w, rest);
    var s := w + rest;
    assert s[0] == w[0] && s[..|w|] == w && s[|w|..] == rest;
  }

  lemma WordsOfPair(a: Bytes, b: Bytes)
    requires IsWord(a) && IsWord(b)
    ensures Words(a + [SPACE] + b) == [a, b]
  {
    assert a + [SPACE] + b == a + ([SPACE] + b);
    WordsCons(a, [SPACE] + b);
    assert ([SPACE] + b)[1..] == b;
    WordsCons(b, []);
    assert b + [] == b;
    assert Words([SPACE] + b) == Words(b) == [b] + Words([]);
  }

  lemma TrimKeeps(s: Bytes)
    requires s != [] && !IsWhite(s[0]) && !IsWhite(s[|s| - 1])
    ensures Trim(s) == s && Trim([SPACE, SPACE] + s) == s
  {
    var t := [SPACE, SPACE] + s;
    assert t[1..] == [SPACE] + s && ([SPACE] + s)[1..] == s;
    assert TrimStart(s) == s;
    assert TrimStart([SPACE] + s) == s;
    assert TrimStart(t) == s;
  }

  lemma StripContinuation(s: Bytes)
    ensures StripSuffix(s + Continuation(), Continuation()) == Some(s)
  {
    var t := s + Continuation();
    assert t[|s|..] == Continuation() && t[..|s|] == s;
  }

  predicate AllWords(arguments: seq<Bytes>) {
    forall i :: 0 <= i < |arguments| ==> IsWord(arguments[i])
  }

  lemma LineParses(a: Bytes, b: Bytes)
    requires IsWord(a) && IsWord(b)
    ensures var body := a + [SPACE] + b;
            && Trim([SPACE, SPACE] + a + [SPACE] + b) == body
            && Trim([SPACE, SPACE] + a + [SPACE] + b + Continuation()) == body + Continuation()
  {
    var body := a + [SPACE] + b;
    assert body[0] == a[0] && body[|body| - 1] == b[|b| - 1];
    TrimKeeps(body);
    assert [SPACE, SPACE] + a + [SPACE] + b == [SPACE, SPACE] + body;
    var longer := body + Continuation();
    assert longer[0] == a[0] && longer[|longer| - 1] == BACKSLASH;
    TrimKeeps(longer);
    assert [SPACE, SPACE] + a + [SPACE] + b + Continuation() == [SPACE, SPACE] + longer;
  }

  lemma {:induction false} ArgumentsParse(arguments: seq<Bytes>)
    requires |arguments| % 2 == 0 && AllWords(arguments)
    ensures LineArguments(ArgumentLines(arguments)) == Some(arguments)
    decreases |arguments|
  {
    if arguments != [] {
      var a, b, rest := arguments[0], arguments[1], arguments[2..];
      LineParses(a, b);
      WordsOfPair(a, b);
      StripContinuation(a + [SPACE] + b);
      ArgumentsParse(rest);
      var lines := ArgumentLines(arguments);
      assert lines[1..] == ArgumentLines(rest);
      assert arguments == [a, b] + rest;
      if rest == [] {
        assert |lines| == 1 && lines[0] == [SPACE, SPACE] + a + [SPACE] + b;
        assert arguments == [a, b];
      } else {
        assert |lines| > 1 && lines[0] == [SPACE, SPACE] + a + [SPACE] + b + Continuation();
        assert StripSuffix(Trim(lines[0]), Continuation()) == Some(a + [SPACE] + b);
      }
    }
  }

  /** Rendered lines hold no newline, and do not end in a carriage return. */
  predicate PlainLine(line: Bytes) {
    line != [] && NEWLINE !in line && line[|line| - 1] != CARRIAGE_RETURN
  }

  lemma PairLineIsPlain(a: Bytes, b: Bytes)
    requires IsWord(a) && IsWord(b)
    ensures PlainLine([SPACE, SPACE] + a + [SPACE] + b) && PlainLine([SPACE, SPACE] + a + [SPACE] + b + Continuation())
  {
    assert NEWLINE !in a && NEWLINE !in b;
    var line := [SPACE, SPACE] + a + [SPACE] + b;
    assert line[|line| - 1] == b[|b| - 1];
  }

  lemma {:induction false} ArgumentLinesArePlain(arguments: seq<Bytes>)
    requires |arguments| % 2 == 0 && AllWords(arguments)
    ensures forall i :: 0 <= i < |ArgumentLines(arguments)| ==> PlainLine(ArgumentLines(arguments)[i])
    ensures arguments != [] ==> ArgumentLines(arguments) != []
    decreases |arguments|
  {
    if arguments != [] {
      PairLineIsPlain(arguments[0], arguments[1]);
      ArgumentLinesArePlain(arguments[2..]);
    }
  }

  lemma LinesOfJoin(lines: seq<Bytes>)
    requires |lines| >= 1 && forall i :: 0 <= i < |lines| ==> PlainLine(lines[i])
    ensures TextLines(Join(lines, NEWLINE)) == lines
  {
    SplitJoin(lines, NEWLINE);
    assert PlainLine(lines[|lines| - 1]);
    assert Map(ChopReturn, lines) == lines;
  }

  /** Round trip: every shell-safe executable with a nonempty even list of words
      is recovered from its printed form. */
  lemma CommandRoundTrip(c: Command)
    requires SafeExecutable(c.executable)
    requires c.arguments != [] && |c.arguments| % 2 == 0 && AllWords(c.arguments)
    ensures Parse(Render(c)) == Some(c)
  {
    var first, rest := c.executable + Continuation(), ArgumentLines(c.arguments);
    var lines := RenderLines(c);
    ArgumentLinesArePlain(c.arguments);
    assert PlainLine(first) by {
      assert first[|first| - 1] == BACKSLASH;
      assert NEWLINE !in c.executable;
    }
    LinesOfJoin(lines);
    assert lines[0] == first && lines[1..] == rest;
    assert first[0] == c.executable[0] && SafeByte(c.executable[0]);
    TrimKeeps(first);
    StripContinuation(c.executable);
    ArgumentsParse(c.arguments);
  }

  // ---- the string operations, written out ----

  predicate AllIn(s: Bytes, bytes: set<int>) {
    forall i :: 0 <= i < |s| ==> s[i] in bytes
  }

  /** Trimming takes white space, and all of it, off both ends. */
  lemma TrimExactly(s: Bytes) returns (before: Bytes, after: Bytes)
    ensures s == before + Trim(s) + after
    ensures AllIn(before, {9, 10, 11, 12, 13, 32}) && AllIn(after, {9, 10, 11, 12, 13, 32})
    ensures Trim(s) != [] ==> Trim(s)[0] !in {9, 10, 11, 12, 13, 32} && Trim(s)[|Trim(s)| - 1] !in {9, 10, 11, 12, 13, 32}
  {
    var t := TrimStart(s);
    before := TrimStartExactly(s);
    after := TrimEndExactly(t);
    assert before + (Trim(s) + after) == before + Trim(s) + after;
  }

  lemma {:induction false} TrimStartExactly(s: Bytes) returns (before: Bytes)
    ensures s == before + TrimStart(s) && AllIn(before, {9, 10, 11, 12, 13, 32})
    ensures TrimStart(s) != [] ==> TrimStart(s)[0] !in {9, 10, 11, 12, 13, 32}
  {
    before := [];
    if s != [] && IsWhite(s[0]) {
      before := TrimStartExactly(s[1..]);
      before := [s[0]] + before;
    }
  }

  lemma {:induction false} TrimEndExactly(s: Bytes) returns (after: Bytes)
    ensures s == TrimEnd(s) + after && AllIn(after, {9, 10, 11, 12, 13, 32})
    ensures TrimEnd(s) != [] ==> TrimEnd(s)[0] == s[0] && TrimEnd(s)[|TrimEnd(s)| - 1] !in {9, 10, 11, 12, 13, 32}
  {
    after := [];
    if s != [] && IsWhite(s[|s| - 1]) {
      after := TrimEndExactly(s[..|s| - 1]);
      after := after + [s[|s| - 1]];
    }
  }

  /** `words` are the maximal runs of `s` without space, tab, line feed, form feed
      and carriage return. */
  ghost predicate AreRuns(words: seq<Bytes>, s: Bytes)
    decreases |words|, 1
  {
    if words == [] then AllIn(s, {9, 10, 12, 13, 32}) else exists i :: RunAt(words, s, i)
  }

  /** The first word is the run at `i`, after separators only; the others follow. */
  ghost predicate RunAt(words: seq<Bytes>, s: Bytes, i: int)
    requires words != []
    decreases |words|, 0
  {
    var w := words[0];
    && 0 <= i <= i + |w| <= |s| && AllIn(s[..i], {9, 10, 12, 13, 32}) && s[i..i + |w|] == w
    && w != [] && (forall j :: 0 <= j < |w| ==> w[j] !in {9, 10, 12, 13, 32})
    && (i + |w| < |s| ==> s[i + |w|] in {9, 10, 12, 13, 32})
    && AreRuns(words[1..], s[i + |w|..])
  }

  lemma {:induction false} WordsAreRuns(s: Bytes)
    ensures AreRuns(Words(s), s)
    decreases |s|
  {
    if s != [] && Splits(s[0]) {
      WordsAreRuns(s[1..]);
      RunsAfterSpace(Words(s), s);
    } else if s != [] {
      var n := WordEnd(s);
      WordEndExactly(s);
      WordsAreRuns(s[n..]);
      var words := Words(s);
      assert words[0] == s[..n] && words[1..] == Words(s[n..]);
      assert s[..0] == [] && s[0..0 + |words[0]|] == words[0];
      assert RunAt(words, s, 0);
    }
  }

  lemma RunsAfterSpace(words: seq<Bytes>, s: Bytes)
    requires s != [] && s[0] in {9, 10, 12, 13, 32} && AreRuns(words, s[1..])
    ensures AreRuns(words, s)
  {
    if words != [] {
      var i :| RunAt(words, s[1..], i);
      RunAfterSpace(words, s, i);
    }
  }

  lemma RunAfterSpace(words: seq<Bytes>, s: Bytes, i: int)
    requires s != [] && s[0] in {9, 10, 12, 13, 32} && words != [] && RunAt(words, s[1..], i)
    ensures RunAt(words, s, i + 1)
  {
    var w, t := words[0], s[1..];
    assert s[..i + 1] == [s[0]] + t[..i];
    assert s[i + 1..i + 1 + |w|] == t[i..i + |w|] && s[i + 1 + |w|..] == t[i + |w|..];
  }

  lemma {:induction false} WordEndExactly(s: Bytes)
    ensures forall j :: 0 <= j < WordEnd(s) ==> s[j] !in {9, 10, 12, 13, 32}
    ensures WordEnd(s) < |s| ==> s[WordEnd(s)] in {9, 10, 12, 13, 32}
  {
    if s != [] && !Splits(s[0]) {
      WordEndExactly(s[1..]);
    }
  }

  /** Lines end in a line feed, with or without a carriage return before it; the
      last need not. */
  lemma LinesExactly(lines: seq<Bytes>, parts: seq<Bytes>)
    requires |parts| == |lines| > 0
    requires forall i :: 0 <= i < |lines| ==> 10 !in lines[i] && (lines[i] == [] || lines[i][|lines[i]| - 1] != 13)
    requires forall i :: 0 <= i < |lines| ==> parts[i] == lines[i] || parts[i] == lines[i] + [13]
    ensures TextLines(Join(parts, 10) + [10]) == lines
    ensures parts[|parts| - 1] != [] ==> TextLines(Join(parts, 10)) == lines
  {
    ChoppedLines(lines, parts);
    LinesOfParts(parts);
  }

  lemma LinesOfParts(parts: seq<Bytes>)
    requires parts != [] && forall p :: p in parts ==> 10 !in p
    ensures TextLines(Join(parts, 10) + [10]) == Map(ChopReturn, parts)
    ensures parts[|parts| - 1] != [] ==> TextLines(Join(parts, 10)) == Map(ChopReturn, parts)
  {
    SplitJoin(parts, NEWLINE);
    SplitSnoc(Join(parts, NEWLINE), NEWLINE);
    EndedLines(Join(parts, NEWLINE) + [NEWLINE], parts);
    if parts[|parts| - 1] != [] {
      OpenLines(Join(parts, NEWLINE), parts);
    }
  }

  lemma EndedLines(s: Bytes, parts: seq<Bytes>)
    requires Split(s, NEWLINE) == parts + [[]]
    ensures TextLines(s) == Map(ChopReturn, parts)
  {
    DropEmptyEnd(parts);
  }

  lemma OpenLines(s: Bytes, parts: seq<Bytes>)
    requires Split(s, NEWLINE) == parts && parts[|parts| - 1] != []
    ensures TextLines(s) == Map(ChopReturn, parts)
  {}

  lemma ChoppedLines(lines: seq<Bytes>, parts: seq<Bytes>)
    requires |parts| == |lines|
    requires forall i :: 0 <= i < |lines| ==> 10 !in lines[i] && (lines[i] == [] || lines[i][|lines[i]| - 1] != 13)
    requires forall i :: 0 <= i < |lines| ==> parts[i] == lines[i] || parts[i] == lines[i] + [13]
    ensures Map(ChopReturn, parts) == lines && forall p :: p in parts ==> 10 !in p
  {
    forall i | 0 <= i < |lines|
      ensures ChopReturn(parts[i]) == lines[i] && 10 !in parts[i]
    {
      ChoppedLine(lines[i], parts[i]);
    }
  }

  lemma ChoppedLine(line: Bytes, part: Bytes)
    requires 10 !in line && (line == [] || line[|line| - 1] != 13) && (part == line || part == line + [13])
    ensures ChopReturn(part) == line && 10 !in part
  {
    assert (line + [13])[..|line|] == line;
  }

  lemma DropEmptyEnd(parts: seq<Bytes>)
    ensures (parts + [[]])[..|parts|] == parts
  {}

  /** A parsed executable has letters, digits, `.`, `_`, `-` and `/` only. */
  lemma ExecutableIsSafe(text: Bytes)
    requires Parse(text).Some?
    ensures var e := Parse(text).value.executable;
            && e != []
            && forall i :: 0 <= i < |e| ==>
                 48 <= e[i] <= 57 || 65 <= e[i] <= 90 || 97 <= e[i] <= 122 || e[i] in {45, 46, 47, 95}
  {}

  /** Exactly these count as safe. */
  lemma SafeExactly(s: Bytes)
    ensures SafeExecutable(s) <==>
            && s != []
            && forall i :: 0 <= i < |s| ==>
                 48 <= s[i] <= 57 || 65 <= s[i] <= 90 || 97 <= s[i] <= 122 || s[i] in {45, 46, 47, 95}
  {}

  // ---- the grammar, written out ----

  lemma SuffixExactly(s: Bytes, suffix: Bytes, body: Bytes)
    ensures StripSuffix(s, suffix) == Some(body) <==> s == body + suffix
  {
    if StripSuffix(s, suffix) == Some(body) {
      assert s == s[..|s| - |suffix|] + s[|s| - |suffix|..];
    }
    if s == body + suffix {
      assert s[|body|..] == suffix && s[..|body|] == body;
    }
  }

  /** The bodies of the argument lines: all but the last end in a space and a backslash. */
  ghost predicate AreBodies(lines: seq<Bytes>, bodies: seq<Bytes>) {
    && |bodies| == |lines|
    && forall i :: 0 <= i < |lines| ==>
         Trim(lines[i]) == if i + 1 == |lines| then bodies[i] else bodies[i] + [32, 92]
  }

  lemma {:induction false} ArgumentsOfBodies(lines: seq<Bytes>, bodies: seq<Bytes>)
    requires AreBodies(lines, bodies)
    ensures LineArguments(lines) == Some(Concat(Map(Words, bodies)))
  {
    if |lines| == 1 {
      OnlyBody(bodies[0]);
      assert bodies == [bodies[0]];
    } else if |lines| > 1 {
      BodiesTail(lines, bodies);
      ArgumentsOfBodies(lines[1..], bodies[1..]);
      SuffixExactly(Trim(lines[0]), Continuation(), bodies[0]);
      BodiesHead(bodies);
    }
  }

  lemma BodiesTail(lines: seq<Bytes>, bodies: seq<Bytes>)
    requires |lines| > 1 && AreBodies(lines, bodies)
    ensures AreBodies(lines[1..], bodies[1..]) && Trim(lines[0]) == bodies[0] + [32, 92]
  {
    assert forall i :: 0 <= i < |lines[1..]| ==> lines[1..][i] == lines[i + 1] && bodies[1..][i] == bodies[i + 1];
  }

  lemma BodiesHead(bodies: seq<Bytes>)
    requires bodies != []
    ensures Concat(Map(Words, bodies)) == Words(bodies[0]) + Concat(Map(Words, bodies[1..]))
  {
    MapHead(Words, bodies);
  }

  lemma OnlyBody(body: Bytes)
    ensures Concat(Map(Words, [body])) == Words(body)
  {
    var all := Map(Words, [body]);
    assert all == [Words(body)] && all[1..] == [];
    assert Words(body) + [] == Words(body);
  }

  lemma BodiesCons(lines: seq<Bytes>, body: Bytes, rest: seq<Bytes>)
    requires |lines| > 1 && AreBodies(lines[1..], rest) && Trim(lines[0]) == body + [32, 92]
    ensures AreBodies(lines, [body] + rest)
  {
    var bodies := [body] + rest;
    forall i | 0 <= i < |lines|
      ensures Trim(lines[i]) == if i + 1 == |lines| then bodies[i] else bodies[i] + [32, 92]
    {
      if i > 0 {
        assert lines[i] == lines[1..][i - 1] && bodies[i] == rest[i - 1];
      }
    }
  }

  lemma {:induction false} BodiesOfArguments(lines: seq<Bytes>) returns (bodies: seq<Bytes>)
    requires LineArguments(lines).Some?
    ensures AreBodies(lines, bodies)
  {
    if lines == [] {
      bodies := [];
    } else if |lines| == 1 {
      bodies := [Trim(lines[0])];
    } else {
      var rest := BodiesOfArguments(lines[1..]);
      var body := StripSuffix(Trim(lines[0]), Continuation()).value;
      SuffixExactly(Trim(lines[0]), Continuation(), body);
      BodiesCons(lines, body, rest);
      bodies := [body] + rest;
    }
  }

  /** Exactly which texts parse, and as what: at least two lines; the first, trimmed,
      is a safe executable, a space and a backslash; the others, trimmed and but for
      the last without their space and backslash, hold the arguments. */
  lemma ParsedExactly(text: Bytes, c: Command)
    ensures Parse(text) == Some(c) <==>
            var lines := TextLines(text);
            && |lines| >= 2 && Trim(lines[0]) == c.executable + [32, 92] && SafeExecutable(c.executable)
            && exists bodies :: AreBodies(lines[1..], bodies) && c.arguments == Concat(Map(Words, bodies))
  {
    var lines := TextLines(text);
    if |lines| >= 2 {
      SuffixExactly(Trim(lines[0]), Continuation(), c.executable);
      if Parse(text) == Some(c) {
        var executable := StripSuffix(Trim(lines[0]), Continuation()).value;
        SuffixExactly(Trim(lines[0]), Continuation(), executable);
        var bodies := BodiesOfArguments(lines[1..]);
        ArgumentsOfBodies(lines[1..], bodies);
      }
      if exists bodies :: AreBodies(lines[1..], bodies) && c.arguments == Concat(Map(Words, bodies)) {
        var bodies :| AreBodies(lines[1..], bodies) && c.arguments == Concat(Map(Words, bodies));
        ArgumentsOfBodies(lines[1..], bodies);
      }
    }
  }

  /** The printed lines: the executable and a continuation, then two arguments to a
      line, indented by two spaces and continued but for the last. */
  lemma {:induction false} PrintedLine(arguments: seq<Bytes>, i: nat)
    requires |arguments| % 2 == 0 && i < |arguments| / 2
    ensures |ArgumentLines(arguments)| == |arguments| / 2
    ensures ArgumentLines(arguments)[i]
         == [32, 32] + arguments[2 * i] + [32] + arguments[2 * i + 1]
            + (if i + 1 == |arguments| / 2 then [] else [32, 92])
    decreases |arguments|
  {
    var rest := arguments[2..];
    LineCount(rest);
    var body := [SPACE, SPACE] + arguments[0] + [SPACE] + arguments[1];
    assert body + [] == body;
    if i > 0 {
      PrintedLine(rest, i - 1);
      assert rest[2 * (i - 1)] == arguments[2 * i] && rest[2 * (i - 1) + 1] == arguments[2 * i + 1];
    }
  }

  lemma {:induction false} LineCount(arguments: seq<Bytes>)
    requires |arguments| % 2 == 0
    ensures |ArgumentLines(arguments)| == |arguments| / 2
    decreases |arguments|
  {
    if arguments != [] {
      LineCount(arguments[2..]);
    }
  }

  lemma FirstPrintedLine(c: Command)
    requires |c.arguments| % 2 == 0
    ensures Render(c) == Join([c.executable + [32, 92]] + ArgumentLines(c.arguments), 10)
  {
    assert Continuation() == [32, 92];
  }
}
