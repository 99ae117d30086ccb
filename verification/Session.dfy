/** The packaged stdio session: a server writing bytes, a reader thread cutting
    them into lines, a channel, and a client that sends requests, consumes one
    line per request and finally checks that nothing else was said. Every
    interleaving of their steps is a run. */
module Session {
  import opened Bytes

  type Id = Bytes

  /** What parsing a reply line yields: the version tag and the ID. */
  datatype Envelope = Envelope(jsonrpc2: bool, id: Id)

  type Parser = Bytes -> Option<Envelope>

  datatype Reader = Reading | ReaderDone | ReaderFailed

  datatype Client = Idle | Waiting(id: Id) | Closing | Finished(ok: bool)

  /** `written` and `exited` are the server's, `captured`, `unsent` and `reader`
      the reader thread's; `channel` is shared; the rest is the client's. `failed`
      records that some request returned an error. */
  datatype State = State(
    written: Bytes, exited: bool,
    captured: Bytes, unsent: Option<Bytes>, reader: Reader,
    channel: seq<Bytes>,
    consumed: Bytes, requests: seq<Id>, replies: seq<Bytes>, failed: bool, client: Client)

  datatype Action =
    | ServerWrites(bytes: Bytes) | ServerExits
    | ReaderReads | ReaderSends | ReaderErrs
    | ClientAsks(id: Id) | ClientReceives | ClientGivesUp
    | ClientCloses | ClientJoins(exitClean: bool) | ClientKills

  ghost predicate Init(s: State) {
    s == State([], false, [], None, Reading, [], [], [], [], false, Idle)
  }

  /** What `read_until` would return next: a whole line, or the rest at end of file. */
  function NextLine(s: State): (r: Option<Bytes>)
    requires |s.captured| <= |s.written|
  {
    var unread := s.written[|s.captured|..];
    var n := IndexOf(unread, NEWLINE);
    if n < |unread| then Some(unread[..n + 1])
    else if s.exited && unread != [] then Some(unread)
    else None
  }

  /** The checks `request_with_deadline` makes on a received line. */
  predicate GoodReply(parse: Parser, line: Bytes, id: Id) {
    && line != [] && line[|line| - 1] == NEWLINE && line != [NEWLINE]
    && parse(line).Some? && parse(line).value.jsonrpc2 && parse(line).value.id == id
  }

  ghost predicate Next(parse: Parser, s: State, a: Action, s': State) {
    match a
    case ServerWrites(bytes) => !s.exited && s' == s.(written := s.written + bytes)
    case ServerExits => s' == s.(exited := true)
    case ReaderReads =>
      && s.reader.Reading? && s.unsent.None? && |s.captured| <= |s.written|
      && (match NextLine(s)
          case Some(line) => s' == s.(captured := s.captured + line, unsent := Some(line))
          case None => s.exited && s' == s.(reader := ReaderDone))
    case ReaderSends => s.unsent.Some? && s' == s.(channel := s.channel + [s.unsent.value], unsent := None)
    case ReaderErrs => s.reader.Reading? && s.unsent.None? && s' == s.(reader := ReaderFailed)
    case ClientAsks(id) => s.client.Idle? && s' == s.(requests := s.requests + [id], client := Waiting(id))
    case ClientReceives =>
      && s.client.Waiting? && s.channel != []
      && var line := s.channel[0];
         var t := s.(channel := s.channel[1..], consumed := s.consumed + line, client := Idle);
         s' == if GoodReply(parse, line, s.client.id) then t.(replies := s.replies + [line]) else t.(failed := true)
    case ClientGivesUp => s.client.Waiting? && s' == s.(client := Idle, failed := true)
    case ClientCloses => s.client.Idle? && s' == s.(client := Closing)
    case ClientJoins(exitClean) =>
      && s.client.Closing? && s.exited && !s.reader.Reading? && s.unsent.None?
      && s' == s.(client := Finished(exitClean && s.reader.ReaderDone? && s.captured == s.consumed && s.channel == []))
    case ClientKills => s.client.Closing? && s' == s.(client := Finished(false))
  }

  // ---- the invariant ----

  function UnsentBytes(s: State): (b: Bytes) {
    if s.unsent.Some? then s.unsent.value else []
  }

  /** A line: nonempty, with a newline at most at its end. */
  predicate IsLine(line: Bytes) {
    line != [] && NEWLINE !in line[..|line| - 1]
  }

  ghost predicate Conserved(s: State) {
    && s.captured == s.consumed + Concat(s.channel) + UnsentBytes(s)
    && s.captured <= s.written
  }

  ghost predicate Lines(s: State) {
    && (forall i :: 0 <= i < |s.channel| ==> IsLine(s.channel[i]))
    && (s.unsent.Some? ==> IsLine(s.unsent.value))
    && (forall i :: 0 <= i < |s.replies| ==> IsLine(s.replies[i]))
  }

  /** While no request failed: every request but a pending one has its reply,
      and the replies are all that was consumed. */
  ghost predicate Answered(parse: Parser, s: State) {
    !s.failed ==>
      && |s.requests| == |s.replies| + (if s.client.Waiting? then 1 else 0)
      && (s.client.Waiting? ==> s.requests[|s.replies|] == s.client.id)
      && s.consumed == Concat(s.replies)
      && forall i :: 0 <= i < |s.replies| ==> GoodReply(parse, s.replies[i], s.requests[i])
  }

  ghost predicate Ended(s: State) {
    && (s.reader.ReaderDone? ==> s.exited && s.unsent.None? && s.captured == s.written)
    && (s.client.Finished? && s.client.ok ==> s.reader.ReaderDone? && s.captured == s.consumed)
  }

  ghost predicate Inv(parse: Parser, s: State) {
    Conserved(s) && Lines(s) && Answered(parse, s) && Ended(s)
  }

  // ---- every step keeps it ----

  lemma NextLineFacts(s: State)
    requires s.captured <= s.written
    ensures NextLine(s).Some? ==> IsLine(NextLine(s).value) && s.captured + NextLine(s).value <= s.written
    ensures NextLine(s).None? && s.exited ==> s.captured == s.written
  {
    var unread := s.written[|s.captured|..];
    var n := IndexOf(unread, NEWLINE);
    assert s.written == s.captured + unread;
    if n < |unread| {
      assert unread[..n + 1][..n] == unread[..n];
    } else {
      assert unread[..n] == unread;
    }
  }

  lemma CaptureConserves(consumed: Bytes, channel: seq<Bytes>, line: Bytes)
    ensures consumed + Concat(channel) + [] + line == consumed + Concat(channel) + line
    ensures consumed + Concat(channel + [line]) + [] == consumed + Concat(channel) + line
  {
    ConcatSnoc(channel, line);
    assert consumed + (Concat(channel) + line) == consumed + Concat(channel) + line;
  }

  lemma ReceiveConserves(consumed: Bytes, channel: seq<Bytes>, unsent: Bytes)
    requires channel != []
    ensures consumed + channel[0] + Concat(channel[1..]) + unsent == consumed + Concat(channel) + unsent
  {
    assert consumed + (channel[0] + Concat(channel[1..])) == consumed + channel[0] + Concat(channel[1..]);
  }

  lemma ConservedStep(parse: Parser, s: State, a: Action, s': State)
    requires Conserved(s) && Next(parse, s, a, s')
    ensures Conserved(s')
  {
    match a
    case ReaderReads =>
      NextLineFacts(s);
      if NextLine(s).Some? {
        CaptureConserves(s.consumed, s.channel, NextLine(s).value);
      }
    case ReaderSends => CaptureConserves(s.consumed, s.channel, s.unsent.value);
    case ClientReceives => ReceiveConserves(s.consumed, s.channel, UnsentBytes(s));
    case _ =>
  }

  lemma LinesStep(parse: Parser, s: State, a: Action, s': State)
    requires Conserved(s) && Lines(s) && Next(parse, s, a, s')
    ensures Lines(s')
  {
    if a.ReaderReads? {
      NextLineFacts(s);
    }
  }

  lemma AnsweredStep(parse: Parser, s: State, a: Action, s': State)
    requires Answered(parse, s) && Next(parse, s, a, s')
    ensures Answered(parse, s')
  {
    if a.ClientReceives? {
      ConcatSnoc(s.replies, s.channel[0]);
    }
  }

  lemma EndedStep(parse: Parser, s: State, a: Action, s': State)
    requires Conserved(s) && Ended(s) && Next(parse, s, a, s')
    ensures Ended(s')
  {
    if a.ReaderReads? {
      NextLineFacts(s);
    }
  }

  lemma InvStep(parse: Parser, s: State, a: Action, s': State)
    requires Inv(parse, s) && Next(parse, s, a, s')
    ensures Inv(parse, s')
  {
    ConservedStep(parse, s, a, s');
    LinesStep(parse, s, a, s');
    AnsweredStep(parse, s, a, s');
    EndedStep(parse, s, a, s');
  }

  // ---- runs ----

  /** A run: states and the actions between them. */
  ghost predicate IsRun(parse: Parser, states: seq<State>, actions: seq<Action>) {
    && |states| == |actions| + 1 && Init(states[0])
    && forall i :: 0 <= i < |actions| ==> Next(parse, states[i], actions[i], states[i + 1])
  }

  lemma {:induction false} InvAlways(parse: Parser, states: seq<State>, actions: seq<Action>, n: nat)
    requires IsRun(parse, states, actions) && n < |states|
    ensures Inv(parse, states[n])
  {
    if n > 0 {
      InvAlways(parse, states, actions, n - 1);
      InvStep(parse, states[n - 1], actions[n - 1], states[n]);
    }
  }

  /** What a reply must be: a line ended by a newline, with something before it,
      that parses as a JSON-RPC 2.0 message with the ID of the request. */
  ghost predicate Answers(parse: Parser, line: Bytes, id: Id) {
    |line| > 1 && line[|line| - 1] == 10 && parse(line) == Some(Envelope(true, id))
  }

  /** At every moment of every run, captured is consumed, then the channel, then
      the line not yet sent; and unless a request failed, the accepted replies
      are the first lines of the server's output, in request order. */
  lemma SafeAlways(parse: Parser, states: seq<State>, actions: seq<Action>, n: nat)
    requires IsRun(parse, states, actions) && n < |states|
    ensures var s := states[n];
            && s.captured == s.consumed + Concat(s.channel) + UnsentBytes(s)
            && (!s.failed ==> Concat(s.replies) <= s.written
                              && |s.replies| <= |s.requests|
                              && forall i :: 0 <= i < |s.replies| ==>
                                   && parse(s.replies[i]) == Some(Envelope(true, s.requests[i]))
                                   && |s.replies[i]| > 1 && s.replies[i][|s.replies[i]| - 1] == 10)
  {
    InvAlways(parse, states, actions, n);
  }

  /** A request that failed stays failed. */
  lemma {:induction false} FailureStays(parse: Parser, states: seq<State>, actions: seq<Action>, n: nat, m: nat)
    requires IsRun(parse, states, actions) && n <= m < |states| && states[n].failed
    ensures states[m].failed
  {
    if n < m {
      FailureStays(parse, states, actions, n, m - 1);
      assert Next(parse, states[m - 1], actions[m - 1], states[m]);
    }
  }

  /** Receiving decides: the line taken from the channel becomes a reply exactly
      when it answers the pending request; any other line, as one with another
      ID, fails the session from then on. */
  lemma ReceivingDecides(parse: Parser, states: seq<State>, actions: seq<Action>, n: nat, m: nat)
    requires IsRun(parse, states, actions) && n < m < |states| && actions[n].ClientReceives?
    ensures states[n].client.Waiting? && states[n].channel != []
    ensures var s, s', line := states[n], states[n + 1], states[n].channel[0];
            && s'.channel == s.channel[1..] && s'.consumed == s.consumed + line && s'.client == Idle
            && (Answers(parse, line, s.client.id) ==> s'.replies == s.replies + [line] && s'.failed == s.failed)
            && (!Answers(parse, line, s.client.id) ==> s'.replies == s.replies && states[m].failed)
  {
    assert Next(parse, states[n], actions[n], states[n + 1]);
    if states[n + 1].failed {
      FailureStays(parse, states, actions, n + 1, m);
    }
  }

  lemma ConcatOfLines(lines: seq<Bytes>)
    requires forall i :: 0 <= i < |lines| ==> IsLine(lines[i])
    ensures Concat(lines) == [] <==> lines == []
  {}

  /** Once the reader is done, equal buffers already mean an empty channel: the
      last check of `finish` is implied by the one before it. */
  lemma ChannelCheckIsImplied(parse: Parser, states: seq<State>, actions: seq<Action>, n: nat)
    requires IsRun(parse, states, actions) && n < |states|
    requires states[n].unsent.None? && states[n].captured == states[n].consumed
    ensures states[n].channel == []
  {
    var s := states[n];
    InvAlways(parse, states, actions, n);
    assert s.captured == s.consumed + Concat(s.channel);
    assert |Concat(s.channel)| == 0;
    ConcatOfLines(s.channel);
  }

  /** The transcript a client may rely on: one newline-terminated line per
      request, no other newline in it, the right ID, and not a byte more. */
  ghost predicate ExactTranscript(parse: Parser, s: State) {
    && s.written == Concat(s.replies)
    && |s.replies| == |s.requests|
    && forall i :: 0 <= i < |s.replies| ==> IsLine(s.replies[i]) && Answers(parse, s.replies[i], s.requests[i])
  }

  /** Session safety: if every request succeeded and `finish` succeeded, the
      server's whole output was the exact transcript. */
  lemma FinishMeansExactTranscript(parse: Parser, states: seq<State>, actions: seq<Action>, n: nat)
    requires IsRun(parse, states, actions) && n < |states|
    requires states[n].client == Finished(true) && !states[n].failed
    ensures ExactTranscript(parse, states[n])
    ensures var s := states[n];
            forall i :: 0 <= i < |s.requests| ==>
              && parse(s.replies[i]) == Some(Envelope(true, s.requests[i]))
              && |s.replies[i]| > 1 && s.replies[i][|s.replies[i]| - 1] == 10
  {
    InvAlways(parse, states, actions, n);
  }

  /** And the buffer comparison is exact: when every request succeeded and the
      reader reached the end, it holds iff the output was the exact transcript. */
  lemma FinishCheckIsExact(parse: Parser, states: seq<State>, actions: seq<Action>, n: nat)
    requires IsRun(parse, states, actions) && n < |states|
    requires states[n].client.Closing? && states[n].reader.ReaderDone? && !states[n].failed
    ensures states[n].captured == states[n].consumed <==> ExactTranscript(parse, states[n])
  {
    InvAlways(parse, states, actions, n);
  }

  /** The transcript can be cut back into the replies in only one way. */
  lemma {:induction false} TranscriptUnique(a: seq<Bytes>, b: seq<Bytes>)
    requires forall i :: 0 <= i < |a| ==> IsLine(a[i]) && a[i][|a[i]| - 1] == NEWLINE
    requires forall i :: 0 <= i < |b| ==> IsLine(b[i]) && b[i][|b[i]| - 1] == NEWLINE
    requires Concat(a) == Concat(b)
    ensures a == b
  {
    if a != [] && b != [] {
      CutLine(a[0], Concat(a[1..]), b[0], Concat(b[1..]));
      TranscriptUnique(a[1..], b[1..]);
      assert a == [a[0]] + a[1..] && b == [b[0]] + b[1..];
    } else if a != [] {
      ConcatOfLines(a);
    } else {
      ConcatOfLines(b);
    }
  }

  lemma CutLine(a: Bytes, s: Bytes, b: Bytes, t: Bytes)
    requires IsLine(a) && a[|a| - 1] == NEWLINE && IsLine(b) && b[|b| - 1] == NEWLINE && a + s == b + t
    ensures a == b && s == t
  {
    LineEnd(a, s);
    LineEnd(b, t);
    assert (a + s)[..|a|] == a && (b + t)[..|b|] == b;
    assert (a + s)[|a|..] == s && (b + t)[|b|..] == t;
  }

  lemma LineEnd(a: Bytes, s: Bytes)
    requires IsLine(a) && a[|a| - 1] == NEWLINE
    ensures IndexOf(a + s, NEWLINE) == |a| - 1
  {
    var init := a[..|a| - 1];
    assert a + s == init + ([NEWLINE] + s);
    IndexOfUnique(init, NEWLINE, [NEWLINE] + s);
  }

  // ---- an honest server is accepted ----

  ghost predicate Reachable(parse: Parser, s: State) {
    exists states, actions :: IsRun(parse, states, actions) && states[|states| - 1] == s
  }

  lemma ReachInit(parse: Parser)
    ensures Reachable(parse, State([], false, [], None, Reading, [], [], [], [], false, Idle))
  {
    var s := State([], false, [], None, Reading, [], [], [], [], false, Idle);
    assert IsRun(parse, [s], []) && [s][|[s]| - 1] == s;
  }

  lemma ReachStep(parse: Parser, s: State, a: Action, s': State)
    requires Reachable(parse, s) && Next(parse, s, a, s')
    ensures Reachable(parse, s')
  {
    var states, actions :| IsRun(parse, states, actions) && states[|states| - 1] == s;
    var longer, acts := states + [s'], actions + [a];
    forall i | 0 <= i < |acts|
      ensures Next(parse, longer[i], acts[i], longer[i + 1])
    {
      if i < |actions| {
        assert longer[i] == states[i] && longer[i + 1] == states[i + 1] && acts[i] == actions[i];
      }
    }
    assert IsRun(parse, longer, acts) && longer[|longer| - 1] == s';
  }

  /** Between two exchanges of a session in which everything so far was answered. */
  function Quiet(ids: seq<Id>, lines: seq<Bytes>): (s: State) {
    var said := Concat(lines);
    State(said, false, said, None, Reading, [], said, ids, lines, false, Idle)
  }

  /** The client has asked and the whole answer is written, but not yet read. */
  function Replying(ids: seq<Id>, lines: seq<Bytes>, id: Id, line: Bytes): (s: State) {
    Quiet(ids, lines).(written := Concat(lines) + line, requests := ids + [id], client := Waiting(id))
  }

  lemma AskAndAnswer(parse: Parser, ids: seq<Id>, lines: seq<Bytes>, id: Id, line: Bytes)
    requires Reachable(parse, Quiet(ids, lines)) && line != []
    ensures Reachable(parse, Replying(ids, lines, id, line))
  {
    var s0 := Quiet(ids, lines);
    var s1 := s0.(requests := ids + [id], client := Waiting(id));
    ReachStep(parse, s0, ClientAsks(id), s1);
    ReachStep(parse, s1, ServerWrites(line), Replying(ids, lines, id, line));
  }

  /** The same answer, read and in the channel. */
  function Delivered(ids: seq<Id>, lines: seq<Bytes>, id: Id, line: Bytes): (s: State) {
    Replying(ids, lines, id, line).(captured := Concat(lines) + line, channel := [line])
  }

  lemma ReadAndSend(parse: Parser, ids: seq<Id>, lines: seq<Bytes>, id: Id, line: Bytes)
    requires Reachable(parse, Replying(ids, lines, id, line)) && IsLine(line) && line[|line| - 1] == NEWLINE
    ensures Reachable(parse, Delivered(ids, lines, id, line))
  {
    var s0 := Replying(ids, lines, id, line);
    var s1 := s0.(captured := s0.written, unsent := Some(line));
    LineEnd(line, []);
    assert line + [] == line && s0.written[|s0.captured|..] == line && line[..|line|] == line;
    ReachStep(parse, s0, ReaderReads, s1);
    ReachStep(parse, s1, ReaderSends, Delivered(ids, lines, id, line));
  }

  lemma Exchange(parse: Parser, ids: seq<Id>, lines: seq<Bytes>, id: Id, line: Bytes)
    requires Reachable(parse, Quiet(ids, lines)) && GoodReply(parse, line, id) && IsLine(line)
    ensures Reachable(parse, Quiet(ids + [id], lines + [line]))
  {
    AskAndAnswer(parse, ids, lines, id, line);
    ReadAndSend(parse, ids, lines, id, line);
    var s := Delivered(ids, lines, id, line);
    assert [line][1..] == [];
    ConcatSnoc(lines, line);
    ReachStep(parse, s, ClientReceives, Quiet(ids + [id], lines + [line]));
  }

  lemma {:induction false} Exchanges(parse: Parser, ids: seq<Id>, lines: seq<Bytes>)
    requires |ids| == |lines| && forall i :: 0 <= i < |ids| ==> Answers(parse, lines[i], ids[i]) && IsLine(lines[i])
    ensures Reachable(parse, Quiet(ids, lines))
    decreases |ids|
  {
    if ids == [] {
      ReachInit(parse);
    } else {
      var n := |ids| - 1;
      Exchanges(parse, ids[..n], lines[..n]);
      Exchange(parse, ids[..n], lines[..n], ids[n], lines[n]);
      assert ids[..n] + [ids[n]] == ids && lines[..n] + [lines[n]] == lines;
    }
  }

  /** Completeness: whatever requests are sent, a server that answers each with one
      matching line and then exits cleanly can be finished successfully. */
  lemma HonestServerIsAccepted(parse: Parser, ids: seq<Id>, lines: seq<Bytes>)
    requires |ids| == |lines| && forall i :: 0 <= i < |ids| ==> Answers(parse, lines[i], ids[i]) && IsLine(lines[i])
    ensures exists s :: Reachable(parse, s) && s.client == Finished(true) && !s.failed
                        && s.requests == ids && s.replies == lines && s.written == Concat(lines)
  {
    Exchanges(parse, ids, lines);
    var s0 := Quiet(ids, lines);
    var s1 := s0.(client := Closing);
    ReachStep(parse, s0, ClientCloses, s1);
    var s2 := s1.(exited := true);
    ReachStep(parse, s1, ServerExits, s2);
    var s3 := s2.(reader := ReaderDone);
    assert s2.written[|s2.captured|..] == [];
    ReachStep(parse, s2, ReaderReads, s3);
    var s4 := s3.(client := Finished(true));
    ReachStep(parse, s3, ClientJoins(true), s4);
  }
}
