/**
  The driver of one plain connection: it appends what the socket delivers, parses, hands
  a complete request to the handlers and resets the parser. Proved over whole runs.
*/
module Server {
  import opened Common
  import opened Text
  import opened Requests
  import opened Parsing
  import opened Chunking
  import opened Grammar

  const HTTP400: string := "HTTP/1.1 400 Bad Request\r\n\r\n"
  const HTTP413: string := "HTTP/1.1 413 Payload Too Large\r\nConnection: close\r\n\r\n"

  /** What the driver did on a connection, apart from the bytes the handlers answer. */
  datatype Event = Handled(request: Request, close: bool) | Sent(bytes: string) | Shutdown

  /** `aborted` says that the process ended in the assertion of `setMethod`. */
  datatype Conn = Conn(m: Machine, events: seq<Event>, aborted: bool)

  const OPENED: Conn := Conn(Start(""), [], false)

  /** Whether the response is to close the connection; both comparisons are case-sensitive. */
  function WantsClose(r: Request): bool {
    var connection := HeaderOf(r.headers, "Connection");
    connection == "close" || (r.version == HTTP10 && connection != "Keep-Alive")
  }

  function HandledEvent(r: Request): Event {
    Handled(r, WantsClose(r))
  }

  function ErrorReply(status: int): string {
    if status == 413 then HTTP413 else HTTP400
  }

  /**
    One `onMessage` that finds `chunk` appended to the buffer. An error shuts down only the
    writing side: the next message is parsed in the state the error left behind.
  */
  function AfterMessage(c: Conn, max: nat, chunk: string): (c': Conn)
    requires c.m.state != GotAll
    ensures c'.m.state != GotAll && c.events <= c'.events
  {
    var m := c.m.Plus(chunk);
    if Aborts(m) then Conn(m, c.events, true)
    else
      var r := Parse(m, max);
      match r.v
      case Bad => c.(m := r.m, events := c.events + [Sent(ErrorReply(r.m.errorStatus)), Shutdown])
      case Done => c.(m := Start(r.m.input), events := c.events + [HandledEvent(r.m.request)])
      case More => c.(m := r.m)
  }

  /**
    One `onMessage` in which the handler, if one is called, throws: the error reply, and no
    reset. A parser left in `GotAll` is of no further use: `parseRequest` would not end.
  */
  function AfterThrowing(c: Conn, max: nat, chunk: string): (c': Conn)
    requires c.m.state != GotAll
    ensures c.events <= c'.events
  {
    var m := c.m.Plus(chunk);
    if Aborts(m) || Parse(m, max).v != Done then AfterMessage(c, max, chunk)
    else
      var r := Parse(m, max);
      c.(m := r.m, events := c.events + [HandledEvent(r.m.request), Sent(HTTP400), Shutdown])
  }

  /** A run: one `onMessage` after another. */
  function Serve(c: Conn, max: nat, chunks: seq<string>): (c': Conn)
    requires c.m.state != GotAll
    ensures c'.m.state != GotAll
    decreases |chunks|
  {
    if chunks == [] then c else Serve(AfterMessage(c, max, chunks[0]), max, chunks[1..])
  }

  // ---- the parser's invariant ------------------------------------------------------

  /**
    A request line is expected only by a reset parser, and a body only by a POST or PUT
    that declared a positive length within the limit.
  */
  ghost predicate Good(m: Machine, max: nat) {
    var r := m.request;
    match m.state
    case ExpectRequestLine => r == FRESH
    case ExpectHeaders => r.verb != Invalid && r.content == "" && r.contentLength == 0
    case ExpectBody =>
      (r.verb == Post || r.verb == Put) && r.content == ""
      && 0 < r.contentLength <= max && r.contentLength < UINT64_LIMIT
    case GotAll =>
      |r.content| == r.contentLength
      && (r.contentLength > 0 ==> (r.verb == Post || r.verb == Put) && r.contentLength <= max)
  }

  /** Every step keeps the invariant, except that a rejected request line may leave its fields behind. */
  lemma StepGood(m: Machine, max: nat)
    requires m.state != GotAll && Good(m, max)
    ensures var p := Step(m, max); Good(p.m, max) || (m.state == ExpectRequestLine && p.Stop? && p.v == Bad)
  {
    match m.state
    case ExpectRequestLine =>
      var e := FindCrlf(m.input);
      if e < |m.input| && RequestLine(m.request, m.input[..e]).1 {
        RequestLineGood(m.request, m.input[..e]);
      }
    case ExpectHeaders =>
      FromCharsWhole(HeaderOf(m.request.headers, "Content-Length"));
    case ExpectBody =>
  }

  lemma RequestLineGood(r: Request, line: string)
    requires r == FRESH && RequestLine(r, line).1
    ensures var r' := RequestLine(r, line).0;
      r'.verb != Invalid && r'.content == "" && r'.contentLength == 0
  {}

  lemma {:induction false} LoopGood(m: Machine, max: nat)
    requires m.state != GotAll && Good(m, max)
    ensures var r := Loop(m, max); r.v != Bad ==> Good(r.m, max)
    decreases |m.input|
  {
    StepGood(m, max);
    match Step(m, max)
    case Continue(m') => LoopGood(m', max);
    case Stop(m', v) =>
  }

  // ---- the requests of a byte stream -------------------------------------------------

  lemma {:induction false} LoopShrinks(m: Machine, max: nat)
    requires m.state != GotAll
    ensures |Loop(m, max).m.input| <= |m.input|
    ensures m.state == ExpectRequestLine && Loop(m, max).v == Done ==> |Loop(m, max).m.input| < |m.input|
    ensures Loop(m, max).v == Bad && Loop(m, max).m.state != ExpectRequestLine ==> |Loop(m, max).m.input| < |m.input|
    decreases |m.input|
  {
    match Step(m, max)
    case Continue(m') => LoopShrinks(m', max);
    case Stop(m', v) =>
  }

  /** All requests of a stream, up to the first that is incomplete or malformed. */
  function Stream(s: string, max: nat): seq<Request>
    decreases |s|
  {
    var r := Parse(Start(s), max);
    if r.v != Done then []
    else
      assert |r.m.input| < |s| by { LoopShrinks(Start(s), max); }
      [r.m.request] + Stream(r.m.input, max)
  }

  /** The complete requests a parser still has in its buffer. */
  function Backlog(m: Machine, max: nat): seq<Request>
    requires m.state != GotAll
  {
    var r := Parse(m, max);
    if r.v != Done then [] else [r.m.request] + Stream(r.m.input, max)
  }

  /**
    The requests of a byte stream for a server that goes on after errors: a rejected header
    line is passed over, and nothing follows a rejected request line.
  */
  function Salvage(m: Machine, max: nat): seq<Request>
    requires m.state != GotAll
    decreases |m.input|, if m.state == ExpectRequestLine then 0 else 1
  {
    LoopShrinks(m.(errorStatus := 400), max);
    var r := Parse(m, max);
    match r.v
    case More => []
    case Done => [r.m.request] + Salvage(Start(r.m.input), max)
    case Bad => if r.m.state == ExpectRequestLine then [] else Salvage(r.m, max)
  }

  function Dispatched(events: seq<Event>): seq<Request> {
    if events == [] then []
    else
      var last := events[|events| - 1];
      Dispatched(events[..|events| - 1]) + (if last.Handled? then [last.request] else [])
  }

  lemma DispatchedAppend(events: seq<Event>, e: Event)
    ensures Dispatched(events + [e])
      == (if e.Handled? then Dispatched(events) + [e.request] else Dispatched(events))
  {
    assert (events + [e])[..|events|] == events;
  }

  function Errors(events: seq<Event>): nat {
    if events == [] then 0
    else Errors(events[..|events| - 1]) + (if events[|events| - 1].Sent? then 1 else 0)
  }

  lemma ErrorsAppend(events: seq<Event>, e: Event)
    ensures Errors(events + [e]) == Errors(events) + (if e.Sent? then 1 else 0)
  {
    assert (events + [e])[..|events|] == events;
  }

  // ---- the account of the received bytes ----------------------------------------------

  function MessagesBytes(msgs: seq<Message>): string {
    if msgs == [] then "" else MessagesBytes(msgs[..|msgs| - 1]) + Bytes(msgs[|msgs| - 1])
  }

  ghost predicate Means(msg: Message, max: nat, r: Request) {
    Valid(msg, max) && r == Meaning(msg)
  }

  ghost predicate Meanings(msgs: seq<Message>, max: nat, requests: seq<Request>) {
    |requests| == |msgs| && forall i | 0 <= i < |msgs| :: Means(msgs[i], max, requests[i])
  }

  /** Text that was read, and the rejected line after it, which was dropped. */
  datatype Cut = Cut(text: string, line: string)

  /** What was received up to the last rejected line. */
  function Restored(cuts: seq<Cut>): string {
    if cuts == [] then ""
    else Restored(cuts[..|cuts| - 1]) + cuts[|cuts| - 1].text + (cuts[|cuts| - 1].line + CRLF)
  }

  /** The same without the rejected lines. */
  function Kept(cuts: seq<Cut>): string {
    if cuts == [] then "" else Kept(cuts[..|cuts| - 1]) + cuts[|cuts| - 1].text
  }

  ghost predicate AllValid(msgs: seq<Message>, max: nat) {
    forall i | 0 <= i < |msgs| :: Valid(msgs[i], max)
  }

  /** `head` is the beginning of a message, up to a line that is rejected. */
  ghost predicate RejectedHead(head: string, line: string, max: nat) {
    exists requestLine, lines, status ::
      head == HeadBytes(requestLine, lines) && RejectedLine(requestLine, lines, line, max, status)
  }

  /** Behind `kept`, which is some messages and the beginning of one, the grammar rejects `line`. */
  ghost predicate RejectedAt(kept: string, line: string, max: nat) {
    exists msgs, head ::
      AllValid(msgs, max) && kept == MessagesBytes(msgs) + head && RejectedHead(head, line, max)
  }

  /** Each line that was cut is rejected where it stood. */
  ghost predicate CutLines(cuts: seq<Cut>, max: nat) {
    forall i | 0 <= i < |cuts| :: RejectedAt(Kept(cuts[..i + 1]), cuts[i].line, max)
  }

  lemma CutsAppend(cuts: seq<Cut>, cut: Cut, max: nat)
    ensures Restored(cuts + [cut]) == Restored(cuts) + cut.text + (cut.line + CRLF)
    ensures Kept(cuts + [cut]) == Kept(cuts) + cut.text
    ensures CutLines(cuts, max) && RejectedAt(Kept(cuts) + cut.text, cut.line, max) ==> CutLines(cuts + [cut], max)
  {
    var all := cuts + [cut];
    assert all[..|cuts|] == cuts && all[..|cuts| + 1] == all;
    if CutLines(cuts, max) && RejectedAt(Kept(cuts) + cut.text, cut.line, max) {
      forall i | 0 <= i < |all| ensures RejectedAt(Kept(all[..i + 1]), all[i].line, max) {
        if i < |cuts| {
          assert all[..i + 1] == cuts[..i + 1];
        }
      }
    }
  }

  /** The parser is where a new one gets by reading `read`, whatever input comes next. */
  ghost predicate Reached(m: Machine, max: nat, read: string) {
    m.state != GotAll && Good(m, max) && forall input: string :: SameAfter(m, max, read, input)
  }

  ghost predicate SameAfter(m: Machine, max: nat, read: string, input: string)
    requires m.state != GotAll
  {
    Parse(Start(read + input), max) == Parse(m.(input := input), max)
  }

  /**
    Every byte received is unread, or in exactly one rejected line, or in exactly one handled
    request, in order, or in the message that is being read. After a rejected request line
    that names a known method the next message aborts.
  */
  ghost predicate Account(c: Conn, max: nat, received: string, cuts: seq<Cut>, text: string,
                          msgs: seq<Message>, read: string) {
    && received == Restored(cuts) + text + c.m.input
    && Kept(cuts) + text == MessagesBytes(msgs) + read
    && CutLines(cuts, max) && |cuts| <= Errors(c.events)
    && Meanings(msgs, max, Dispatched(c.events))
    && c.m.state != GotAll && (c.aborted ==> Aborts(c.m))
    && (if Aborts(c.m) then Parse(Start(read + c.m.input), max).v == Bad else Reached(c.m, max, read))
  }

  // ---- what reading consumes --------------------------------------------------------------

  /** After `used` the machine `m` is where `m'` is. */
  ghost predicate SameRest(m: Machine, max: nat, used: string, m': Machine) {
    && m.state != GotAll && m'.state != GotAll
    && forall input: string :: SameLoop(m, max, used, m', input)
  }

  ghost predicate SameLoop(m: Machine, max: nat, used: string, m': Machine, input: string)
    requires m.state != GotAll && m'.state != GotAll
  {
    Loop(m.(input := used + input), max) == Loop(m'.(input := input), max)
  }

  /** A step that goes on does so because of the line it consumes. */
  lemma StepUsed(m: Machine, max: nat) returns (used: string)
    requires m.state != GotAll && Step(m, max).Continue?
    ensures m.input == used + Step(m, max).m.input && Step(m, max).m.errorStatus == m.errorStatus
    ensures SameRest(m, max, used, Step(m, max).m)
  {
    var m' := Step(m, max).m;
    SplitLine(m.input);
    var line := m.input[..FindCrlf(m.input)];
    used := line + CRLF;
    forall input: string ensures SameLoop(m, max, used, m', input) {
      StepOnLine(m, max, line, input);
      assert m.(input := used + input).state == m.state;
    }
  }

  lemma StepOnLine(m: Machine, max: nat, line: string, input: string)
    requires m.state != GotAll && Step(m, max).Continue?
    requires FindCrlf(m.input) < |m.input| && line == m.input[..FindCrlf(m.input)] && OneLine(line)
    ensures Step(m.(input := line + CRLF + input), max) == Continue(Step(m, max).m.(input := input))
  {
    LineEnd(line, input);
  }

  lemma SameRestTrans(m: Machine, max: nat, u1: string, m1: Machine, u2: string, m2: Machine)
    requires SameRest(m, max, u1, m1) && SameRest(m1, max, u2, m2)
    ensures SameRest(m, max, u1 + u2, m2)
  {
    forall input: string ensures SameLoop(m, max, u1 + u2, m2, input) {
      assert SameLoop(m, max, u1, m1, u2 + input);
      assert SameLoop(m1, max, u2, m2, input);
      Assoc(u1, u2, input);
    }
  }

  /** A parser that waits is where its consumed input leads. */
  lemma {:induction false} LoopMoreUsed(m: Machine, max: nat) returns (used: string)
    requires m.state != GotAll && Loop(m, max).v == More
    ensures m.input == used + Loop(m, max).m.input
    ensures SameRest(m, max, used, Loop(m, max).m)
    decreases |m.input|
  {
    used := "";
    var p := Step(m, max);
    if p.Continue? {
      used := StepUsed(m, max);
      var more := LoopMoreUsed(p.m, max);
      SameRestTrans(m, max, used, p.m, more, Loop(m, max).m);
      Assoc(used, more, Loop(m, max).m.input);
      used := used + more;
    } else {
      WaitingStays(m, max);
      SameRestHere(m, max, m.input);
    }
  }

  lemma SameRestHere(m: Machine, max: nat, rest: string)
    requires m.state != GotAll
    ensures SameRest(m, max, "", m.(input := rest))
  {
    forall input: string ensures SameLoop(m, max, "", m.(input := rest), input) {
      NothingUsed(input);
    }
  }

  ghost predicate EndsIn(m: Machine, max: nat, r: Result) {
    m.state != GotAll && m.errorStatus == 400 && r == Loop(m, max)
  }

  lemma StepEnds(m: Machine, max: nat, r: Result)
    requires EndsIn(m, max, r) && Step(m, max).Continue?
    ensures EndsIn(Step(m, max).m, max, r)
  {
    var used := StepUsed(m, max);
  }

  /** A parser that rejects a header line goes on as if that line had not been there. */
  lemma {:induction false} LoopBadUsed(m: Machine, max: nat, r: Result) returns (used: string, line: string)
    requires EndsIn(m, max, r) && r.v == Bad && r.m.state != ExpectRequestLine
    ensures m.input == used + (line + CRLF + r.m.input) && OneLine(line) && ':' !in line
    ensures r.m.state == ExpectHeaders
    ensures SameRest(m, max, used, r.m.(errorStatus := 400))
    decreases |m.input|
  {
    if Step(m, max).Continue? {
      var first := StepUsed(m, max);
      StepEnds(m, max, r);
      used, line := LoopBadUsed(Step(m, max).m, max, r);
      used := BadUsedAfter(m, Step(m, max).m, max, first, used, line, r.m);
    } else {
      used, line := StepBadUsed(m, max, r);
    }
  }

  lemma BadUsedAfter(m: Machine, m1: Machine, max: nat, first: string, second: string, line: string, end: Machine)
      returns (used: string)
    requires m.input == first + m1.input && m1.input == second + (line + CRLF + end.input)
    requires SameRest(m, max, first, m1) && SameRest(m1, max, second, end.(errorStatus := 400))
    ensures m.input == used + (line + CRLF + end.input)
    ensures SameRest(m, max, used, end.(errorStatus := 400))
  {
    used := first + second;
    SameRestTrans(m, max, first, m1, second, end.(errorStatus := 400));
    Assoc(first, second, line + CRLF + end.input);
  }

  lemma StepBadUsed(m: Machine, max: nat, r: Result) returns (used: string, line: string)
    requires EndsIn(m, max, r) && Step(m, max).Stop? && r.v == Bad && r.m.state != ExpectRequestLine
    ensures m.input == used + (line + CRLF + r.m.input) && OneLine(line) && ':' !in line
    ensures r.m.state == ExpectHeaders
    ensures SameRest(m, max, used, r.m.(errorStatus := 400))
  {
    SplitLine(m.input);
    used, line := "", m.input[..FindCrlf(m.input)];
    NothingUsed(line + CRLF + r.m.input);
    assert r.m.(errorStatus := 400) == m.(input := r.m.input);
    SameRestHere(m, max, r.m.input);
  }

  lemma NothingUsed(s: string)
    ensures s == "" + s
  {}

  /** A rejected request line stays in the buffer, and its method, if known, stays set. */
  lemma {:induction false} LoopBadLine(m: Machine, max: nat)
    requires m.state != GotAll && Loop(m, max).v == Bad && Loop(m, max).m.state == ExpectRequestLine
    ensures m.state == ExpectRequestLine && FindCrlf(m.input) < |m.input|
    ensures Loop(m, max).m == m.(request := RequestLine(m.request, m.input[..FindCrlf(m.input)]).0)
    ensures !RequestLine(m.request, m.input[..FindCrlf(m.input)]).1
    decreases |m.input|
  {
    var p := Step(m, max);
    if p.Continue? {
      LoopBadLine(p.m, max);
    }
  }

  // ---- one message ---------------------------------------------------------------------

  lemma ReachedNew(m: Machine, max: nat)
    requires m.state == ExpectRequestLine && m.request == FRESH
    ensures Reached(m, max, "")
  {
    forall input: string ensures SameAfter(m, max, "", input) {
      assert "" + input == input;
    }
  }

  lemma ReachedBy(m: Machine, max: nat, read: string, used: string, m': Machine)
    requires Reached(m, max, read) && SameRest(m.(errorStatus := 400), max, used, m'.(errorStatus := 400))
    requires Good(m', max)
    ensures Reached(m', max, read + used)
  {
    forall input: string ensures SameAfter(m', max, read + used, input) {
      assert SameAfter(m, max, read, used + input);
      assert SameLoop(m.(errorStatus := 400), max, used, m'.(errorStatus := 400), input);
      Assoc(read, used, input);
    }
  }

  /** What `Reached` says does not depend on the unread bytes. */
  lemma ReachedAnyInput(m: Machine, max: nat, read: string, input: string)
    requires Reached(m, max, read)
    ensures Reached(m.(input := input), max, read)
  {
    forall other: string ensures SameAfter(m.(input := input), max, read, other) {
      assert SameAfter(m, max, read, other);
      assert m.(input := input).(input := other) == m.(input := other);
    }
  }

  lemma SameParse(m: Machine, max: nat, read: string)
    requires Reached(m, max, read)
    ensures Parse(Start(read + m.input), max) == Parse(m, max)
  {
    assert SameAfter(m, max, read, m.input);
    assert m.(input := m.input) == m;
  }

  /** A malformed stream stays malformed, so it has no further requests. */
  lemma BadForever(s: string, max: nat, more: string)
    requires Parse(Start(s), max).v == Bad
    ensures Parse(Start(s + more), max).v == Bad
  {
    LoopExtend(Start(s), max, more);
    assert Start(s).Plus(more) == Start(s + more);
  }

  lemma AbortsForever(m: Machine, more: string)
    requires Aborts(m)
    ensures Aborts(m.Plus(more))
  {
    FindCrlfStable(m.input, more);
    SliceLine(m.input, more, FindCrlf(m.input));
  }

  /** Bytes that only arrive keep the account. */
  lemma ArriveAccounts(c: Conn, max: nat, received: string, cuts: seq<Cut>, text: string,
                       msgs: seq<Message>, read: string, chunk: string)
    requires Account(c, max, received, cuts, text, msgs, read)
    ensures Account(c.(m := c.m.Plus(chunk)), max, received + chunk, cuts, text, msgs, read)
    ensures Aborts(c.m.Plus(chunk)) <==> Aborts(c.m)
  {
    Assoc(Restored(cuts) + text, c.m.input, chunk);
    if Aborts(c.m) {
      AbortsForever(c.m, chunk);
      BadForever(read + c.m.input, max, chunk);
      Assoc(read, c.m.input, chunk);
    } else {
      ReachedAnyInput(c.m, max, read, c.m.input + chunk);
    }
  }

  lemma MoreAccounts(c: Conn, max: nat, received: string, cuts: seq<Cut>, text: string,
                     msgs: seq<Message>, read: string) returns (text': string, read': string)
    requires Account(c, max, received, cuts, text, msgs, read) && !Aborts(c.m)
    requires Parse(c.m, max).v == More
    ensures Account(c.(m := Parse(c.m, max).m), max, received, cuts, text', msgs, read')
  {
    var m := c.m.(errorStatus := 400);
    var used := LoopMoreUsed(m, max);
    LoopMore(m, max);
    LoopGood(m, max);
    var m' := Loop(m, max).m;
    assert m'.(errorStatus := 400) == m';
    ReachedBy(c.m, max, read, used, m');
    text', read' := text + used, read + used;
    UseText(Restored(cuts), text, used, m'.input);
    UseKept(Kept(cuts), text, used, MessagesBytes(msgs), read);
  }

  lemma UseText(a: string, text: string, used: string, input: string)
    ensures a + text + (used + input) == a + (text + used) + input
  {}

  lemma UseKept(kept: string, text: string, used: string, handled: string, read: string)
    requires kept + text == handled + read
    ensures kept + (text + used) == handled + (read + used)
  {
    Assoc(kept, text, used);
    Assoc(handled, read, used);
  }

  lemma DoneAccounts(c: Conn, max: nat, received: string, cuts: seq<Cut>, text: string,
                     msgs: seq<Message>, read: string) returns (text': string, msg: Message)
    requires Account(c, max, received, cuts, text, msgs, read) && !Aborts(c.m)
    requires Parse(c.m, max).v == Done
    ensures var r := Parse(c.m, max);
      Account(c.(m := Start(r.m.input), events := c.events + [HandledEvent(r.m.request)]), max,
              received, cuts, text', msgs + [msg], "")
  {
    var r := Parse(c.m, max);
    SameParse(c.m, max, read);
    msg := DoneMessage(read + c.m.input, max);
    var used := DoneUsed(c.m, max);
    text' := text + used;
    UseText(Restored(cuts), text, used, r.m.input);
    DoneText(Kept(cuts), text, used, MessagesBytes(msgs), read, r.m.input, Bytes(msg));
    MessagesAppend(msgs, msg);
    ReachedNew(Start(r.m.input), max);
    MeaningsAppend(msgs, max, Dispatched(c.events), msg, r.m.request);
    DispatchedAppend(c.events, HandledEvent(r.m.request));
    ErrorsAppend(c.events, HandledEvent(r.m.request));
  }

  lemma DoneUsed(m: Machine, max: nat) returns (used: string)
    requires m.state != GotAll
    ensures m.input == used + Parse(m, max).m.input
  {
    LoopSuffix(m.(errorStatus := 400), max);
    used := m.input[..|m.input| - |Parse(m, max).m.input|];
  }

  lemma DoneText(kept: string, text: string, used: string, handled: string, read: string, rest: string, bytes: string)
    requires kept + text == handled + read && read + (used + rest) == bytes + rest
    ensures kept + (text + used) == handled + bytes
  {
    UseKept(kept, text, used, handled, read);
    WholeMessage(read, used, rest, bytes);
  }

  lemma MeaningsAppend(msgs: seq<Message>, max: nat, requests: seq<Request>, msg: Message, r: Request)
    requires Meanings(msgs, max, requests) && Means(msg, max, r)
    ensures Meanings(msgs + [msg], max, requests + [r])
  {
    forall i | 0 <= i < |msgs| + 1 ensures Means((msgs + [msg])[i], max, (requests + [r])[i]) {
      if i < |msgs| {
        assert Means(msgs[i], max, requests[i]);
      }
    }
  }

  lemma WholeMessage(read: string, used: string, rest: string, bytes: string)
    requires read + (used + rest) == bytes + rest
    ensures read + used == bytes
  {
    Assoc(read, used, rest);
    assert (read + used + rest)[..|read + used|] == read + used;
  }

  lemma MessagesAppend(msgs: seq<Message>, msg: Message)
    ensures MessagesBytes(msgs + [msg]) + "" == MessagesBytes(msgs) + Bytes(msg)
  {
    assert (msgs + [msg])[..|msgs|] == msgs;
  }

  lemma DoneMessage(s: string, max: nat) returns (msg: Message)
    requires Parse(Start(s), max).v == Done
    ensures var r := Parse(Start(s), max);
      Valid(msg, max) && s == Bytes(msg) + r.m.input && r.m.request == Meaning(msg)
  {
    AnswerExplained(s, max);
    var r := Parse(Start(s), max);
    msg :| Valid(msg, max) && s == Bytes(msg) + r.m.input && r.m.request == Meaning(msg);
  }

  lemma StepSuffix(m: Machine, max: nat)
    requires m.state != GotAll
    ensures EndsWith(m.input, Step(m, max).m.input)
  {
    match m.state
    case ExpectRequestLine => LineSuffix(m);
    case ExpectHeaders => HeaderSuffix(m, max);
    case ExpectBody => BodySuffix(m);
  }

  lemma LineSuffix(m: Machine)
    ensures EndsWith(m.input, RequestLineStep(m).m.input)
  {}

  lemma HeaderSuffix(m: Machine, max: nat)
    ensures EndsWith(m.input, HeaderStep(m, max).m.input)
  {}

  lemma BodySuffix(m: Machine)
    ensures EndsWith(m.input, BodyStep(m).m.input)
  {}

  ghost predicate EndsWith(s: string, end: string) {
    |end| <= |s| && s[|s| - |end|..] == end
  }

  lemma EndsWithTrans(a: string, b: string, c: string)
    requires EndsWith(a, b) && EndsWith(b, c)
    ensures EndsWith(a, c)
  {}

  /** What is unread is the end of what there was to read. */
  lemma {:induction false} LoopSuffix(m: Machine, max: nat)
    requires m.state != GotAll
    ensures EndsWith(m.input, Loop(m, max).m.input)
    decreases |m.input|
  {
    StepSuffix(m, max);
    match Step(m, max)
    case Continue(m') =>
      LoopSuffix(m', max);
      EndsWithTrans(m.input, m'.input, Loop(m, max).m.input);
    case Stop(m', v) =>
  }

  function Replied(c: Conn, m: Machine): Conn {
    c.(m := m, events := c.events + [Sent(ErrorReply(m.errorStatus)), Shutdown])
  }

  lemma ErrorReplied(events: seq<Event>, status: int)
    ensures Dispatched(events + [Sent(ErrorReply(status)), Shutdown]) == Dispatched(events)
    ensures Errors(events + [Sent(ErrorReply(status)), Shutdown]) == Errors(events) + 1
  {
    var reply := Sent(ErrorReply(status));
    DispatchedAppend(events, reply);
    DispatchedAppend(events + [reply], Shutdown);
    ErrorsAppend(events, reply);
    ErrorsAppend(events + [reply], Shutdown);
    assert events + [reply] + [Shutdown] == events + [reply, Shutdown];
  }

  /** After a rejected header line the account goes on without that line. */
  lemma BadHeaderAccounts(c: Conn, max: nat, received: string, cuts: seq<Cut>, text: string,
                          msgs: seq<Message>, read: string) returns (cut: Cut, read': string)
    requires Account(c, max, received, cuts, text, msgs, read) && !Aborts(c.m)
    requires Parse(c.m, max).v == Bad && Parse(c.m, max).m.state != ExpectRequestLine
    ensures Account(Replied(c, Parse(c.m, max).m), max, received, cuts + [cut], "", msgs, read')
    ensures read + c.m.input == read' + (cut.line + CRLF + Parse(c.m, max).m.input)
    ensures RejectedHead(read', cut.line, max)
  {
    var used, line := HeaderRejected(c.m, max, read);
    var end := Parse(c.m, max).m;
    cut, read' := Cut(text + used, line), read + used;
    UseKept(Kept(cuts), text, used, MessagesBytes(msgs), read);
    CutStands(cuts, cut, max, msgs, Dispatched(c.events), read');
    ErrorReplied(c.events, end.errorStatus);
    CutText(Restored(cuts), text, used, line + CRLF, end.input);
  }

  lemma CutStands(cuts: seq<Cut>, cut: Cut, max: nat, msgs: seq<Message>, requests: seq<Request>, head: string)
    requires CutLines(cuts, max) && Meanings(msgs, max, requests)
    requires Kept(cuts) + cut.text == MessagesBytes(msgs) + head && RejectedHead(head, cut.line, max)
    ensures CutLines(cuts + [cut], max)
    ensures Restored(cuts + [cut]) == Restored(cuts) + cut.text + (cut.line + CRLF)
    ensures Kept(cuts + [cut]) + "" == MessagesBytes(msgs) + head
  {
    MeaningsValid(msgs, max, requests);
    CutsAppend(cuts, cut, max);
  }

  /** What the parser has read, and the line behind it, when it rejects a header line. */
  lemma HeaderRejected(m: Machine, max: nat, read: string) returns (used: string, line: string)
    requires Reached(m, max, read)
    requires Parse(m, max).v == Bad && Parse(m, max).m.state != ExpectRequestLine
    ensures var end := Parse(m, max).m;
      && m.input == used + (line + CRLF + end.input) && read + m.input == read + used + (line + CRLF + end.input)
      && Reached(end, max, read + used) && !Aborts(end) && RejectedHead(read + used, line, max)
  {
    var m1 := m.(errorStatus := 400);
    var r := Loop(m1, max);
    used, line := LoopBadUsed(m1, max, r);
    LoopBadGood(m1, max);
    ReachedBy(m, max, read, used, r.m);
    Assoc(read, used, line + CRLF + r.m.input);
    LineIsRejected(m, max, read, r.m, read + used, line);
  }

  lemma MeaningsValid(msgs: seq<Message>, max: nat, requests: seq<Request>)
    requires Meanings(msgs, max, requests)
    ensures AllValid(msgs, max)
  {
    forall i | 0 <= i < |msgs| ensures Valid(msgs[i], max) {
      assert Means(msgs[i], max, requests[i]);
    }
  }

  /** What was read before a rejected line is the beginning of a message. */
  lemma LineIsRejected(m: Machine, max: nat, read: string, end: Machine, head: string, line: string)
    requires Reached(m, max, read) && Reached(end, max, head) && end.state == ExpectHeaders
    requires read + m.input == head + (line + CRLF + end.input) && OneLine(line) && ':' !in line
    requires Parse(m, max).v == Bad
    ensures RejectedHead(head, line, max)
  {
    var requestLine, lines := ReachedHead(end, max, head);
    SameParse(m, max, read);
    LineRejected(max, requestLine, lines, line, end.input);
  }

  lemma ReachedHead(m: Machine, max: nat, read: string) returns (requestLine: string, lines: seq<string>)
    requires Reached(m, max, read) && m.state == ExpectHeaders
    ensures GoodHead(requestLine, lines) && read == HeadBytes(requestLine, lines)
  {
    assert SameAfter(m, max, read, "");
    assert read + "" == read;
    requestLine, lines := HeadConsumed(read, max);
  }

  lemma CutText(a: string, text: string, used: string, line: string, rest: string)
    ensures a + text + (used + (line + rest)) == a + (text + used) + line + "" + rest
  {}

  lemma {:induction false} LoopBadGood(m: Machine, max: nat)
    requires m.state != GotAll && Good(m, max)
    requires Loop(m, max).v == Bad && Loop(m, max).m.state != ExpectRequestLine
    ensures Good(Loop(m, max).m, max)
    decreases |m.input|
  {
    StepGood(m, max);
    match Step(m, max)
    case Continue(m') => LoopBadGood(m', max);
    case Stop(m', v) =>
  }

  /** A rejected request line stays where it is: the next message rejects it again, or aborts. */
  lemma BadLineAccounts(c: Conn, max: nat, received: string, cuts: seq<Cut>, text: string,
                        msgs: seq<Message>, read: string)
    requires Account(c, max, received, cuts, text, msgs, read) && !Aborts(c.m)
    requires Parse(c.m, max).v == Bad && Parse(c.m, max).m.state == ExpectRequestLine
    ensures Account(Replied(c, Parse(c.m, max).m), max, received, cuts, text, msgs, read)
  {
    var m := c.m.(errorStatus := 400);
    LoopBadLine(m, max);
    SameParse(c.m, max, read);
    ErrorReplied(c.events, 400);
    var line := m.input[..FindCrlf(m.input)];
    RejectedLeaves(line);
    if Loop(m, max).m.request == FRESH {
      assert Loop(m, max).m == m;
      forall input: string ensures SameAfter(m, max, read, input) {
        assert SameAfter(c.m, max, read, input);
      }
    }
  }

  predicate NamesMethod(line: string) {
    ' ' in line && MethodOf(line[..Find(line, ' ')]) != Invalid
  }

  /** A rejected request line leaves nothing in the request, unless it names a known method. */
  lemma RejectedLeaves(line: string)
    requires !RequestLine(FRESH, line).1
    ensures RequestLine(FRESH, line).0 == FRESH <==> !NamesMethod(line)
    ensures RequestLine(FRESH, line).0.verb != Invalid <==> NamesMethod(line)
  {}

  /** What one `onMessage` does to the account of the received bytes. */
  lemma OnMessageAccounts(c: Conn, max: nat, received: string, cuts: seq<Cut>, text: string,
                          msgs: seq<Message>, read: string, chunk: string)
      returns (cuts': seq<Cut>, text': string, msgs': seq<Message>, read': string)
    requires Account(c, max, received, cuts, text, msgs, read)
    ensures Account(AfterMessage(c, max, chunk), max, received + chunk, cuts', text', msgs', read')
  {
    ArriveAccounts(c, max, received, cuts, text, msgs, read, chunk);
    cuts', text', msgs', read' := cuts, text, msgs, read;
    var c1 := c.(m := c.m.Plus(chunk));
    if !Aborts(c1.m) {
      var r := Parse(c1.m, max);
      match r.v
      case More =>
        text', read' := MoreAccounts(c1, max, received + chunk, cuts, text, msgs, read);
      case Done =>
        var msg: Message;
        text', msg := DoneAccounts(c1, max, received + chunk, cuts, text, msgs, read);
        msgs', read' := msgs + [msg], "";
      case Bad =>
        if r.m.state == ExpectRequestLine {
          BadLineAccounts(c1, max, received + chunk, cuts, text, msgs, read);
        } else {
          var cut: Cut;
          cut, read' := BadHeaderAccounts(c1, max, received + chunk, cuts, text, msgs, read);
          cuts', text' := cuts + [cut], "";
        }
    }
  }

  /** The reply to an error is the one that the rejection deserves. */
  lemma ErrorAnswered(c: Conn, max: nat, received: string, cuts: seq<Cut>, text: string,
                      msgs: seq<Message>, read: string, chunk: string, status: int)
    requires Account(c, max, received, cuts, text, msgs, read) && !Aborts(c.m)
    ensures (AfterMessage(c, max, chunk).events == c.events + [Sent(ErrorReply(status)), Shutdown]
             && AfterMessage(c, max, chunk).m.errorStatus == status)
      <==> Rejected(read + (c.m.input + chunk), max, status)
  {
    ArriveAccounts(c, max, received, cuts, text, msgs, read, chunk);
    SameParse(c.m.Plus(chunk), max, read);
    BadIffRejected(read + (c.m.input + chunk), max, status);
  }

  lemma RejectedStatus(s: string, max: nat, status: int)
    requires Rejected(s, max, status)
    ensures status in {400, 413}
  {}

  /** In bytes: 413 for a Content-Length that is a number above the limit, 400 for every other rejection. */
  lemma ErrorBytes(c: Conn, max: nat, received: string, cuts: seq<Cut>, text: string,
                   msgs: seq<Message>, read: string, chunk: string)
    requires Account(c, max, received, cuts, text, msgs, read) && !Aborts(c.m)
    ensures var s, events := read + (c.m.input + chunk), AfterMessage(c, max, chunk).events;
      && (Rejected(s, max, 413) <==>
            events == c.events + [Sent("HTTP/1.1 413 Payload Too Large\r\nConnection: close\r\n\r\n"), Shutdown])
      && (Rejected(s, max, 400) <==>
            events == c.events + [Sent("HTTP/1.1 400 Bad Request\r\n\r\n"), Shutdown])
  {
    var s := read + (c.m.input + chunk);
    ArriveAccounts(c, max, received, cuts, text, msgs, read, chunk);
    SameParse(c.m.Plus(chunk), max, read);
    BadIffRejected(s, max, 413);
    BadIffRejected(s, max, 400);
    AnswerExplained(s, max);
    var r := Parse(c.m.Plus(chunk), max);
    if r.v == Bad {
      RejectedStatus(s, max, r.m.errorStatus);
      assert |HTTP413| != |HTTP400|;
      var reply := Sent(ErrorReply(r.m.errorStatus));
      assert (c.events + [reply, Shutdown])[|c.events|] == reply;
    }
  }

  // ---- whole runs ------------------------------------------------------------------------

  lemma OpenedAccounts(max: nat)
    ensures Account(OPENED, max, "", [], "", [], "")
  {
    ReachedNew(Start(""), max);
  }

  /** Byte conservation over every run, through errors. */
  lemma {:induction false} ServeAccounts(c: Conn, max: nat, received: string, cuts: seq<Cut>, text: string,
                                         msgs: seq<Message>, read: string, chunks: seq<string>)
      returns (cuts': seq<Cut>, text': string, msgs': seq<Message>, read': string)
    requires Account(c, max, received, cuts, text, msgs, read)
    ensures Account(Serve(c, max, chunks), max, received + Concat(chunks), cuts', text', msgs', read')
    decreases |chunks|
  {
    cuts', text', msgs', read' := cuts, text, msgs, read;
    if chunks == [] {
      assert received + "" == received;
    } else {
      cuts', text', msgs', read' := OnMessageAccounts(c, max, received, cuts, text, msgs, read, chunks[0]);
      cuts', text', msgs', read' := ServeAccounts(AfterMessage(c, max, chunks[0]), max, received + chunks[0],
                                                  cuts', text', msgs', read', chunks[1..]);
      Assoc(received, chunks[0], Concat(chunks[1..]));
    }
  }

  /** The requests of a stream that begins with valid messages. */
  lemma {:induction false} StreamOfMessages(msgs: seq<Message>, max: nat, requests: seq<Request>, rest: string)
    requires Meanings(msgs, max, requests)
    ensures Stream(MessagesBytes(msgs) + rest, max) == requests + Stream(rest, max)
    decreases |msgs|
  {
    if msgs == [] {
      assert MessagesBytes(msgs) + rest == rest;
    } else {
      var n := |msgs| - 1;
      var before, msg := msgs[..n], msgs[n];
      assert Means(msg, max, requests[n]);
      StreamOfMessages(before, max, requests[..n], Bytes(msg) + rest);
      StreamOfMessage(msg, max, rest);
      Assoc(MessagesBytes(before), Bytes(msg), rest);
      LastApart(requests, Stream(rest, max));
    }
  }

  lemma StreamOfMessage(msg: Message, max: nat, rest: string)
    requires Valid(msg, max)
    ensures Stream(Bytes(msg) + rest, max) == [Meaning(msg)] + Stream(rest, max)
  {
    ValidParses(msg, max, rest);
  }

  lemma LastApart(a: seq<Request>, b: seq<Request>)
    requires a != []
    ensures a[..|a| - 1] + ([a[|a| - 1]] + b) == a + b
  {}

  /** The complete requests that wait in the buffer; none if the next message aborts. */
  function Waiting(m: Machine, max: nat): seq<Request>
    requires m.state != GotAll
  {
    if Aborts(m) then [] else Backlog(m, max)
  }

  /** Without the rejected lines, what arrived is what was handled and what waits. */
  lemma StreamOfAccount(c: Conn, max: nat, received: string, cuts: seq<Cut>, text: string,
                        msgs: seq<Message>, read: string)
    requires Account(c, max, received, cuts, text, msgs, read)
    ensures Stream(Kept(cuts) + text + c.m.input, max) == Dispatched(c.events) + Waiting(c.m, max)
  {
    StreamOfMessages(msgs, max, Dispatched(c.events), read + c.m.input);
    Assoc(MessagesBytes(msgs), read, c.m.input);
    if !Aborts(c.m) {
      SameParse(c.m, max, read);
    }
  }

  /** Every byte of a run is unread, in one rejected line, in one handled request, or in the message being read. */
  lemma RunConserves(max: nat, chunks: seq<string>)
    ensures exists cuts, text, msgs, read ::
      Account(Serve(OPENED, max, chunks), max, Concat(chunks), cuts, text, msgs, read)
  {
    OpenedAccounts(max);
    var cuts, text, msgs, read := ServeAccounts(OPENED, max, "", [], "", [], "", chunks);
    assert "" + Concat(chunks) == Concat(chunks);
  }

  // ---- the handled requests are a function of the bytes ------------------------------------

  /** What was handled and what the parser would salvage is what a new parser would salvage. */
  ghost predicate Salvaged(c: Conn, max: nat, received: string) {
    c.m.state != GotAll && forall more: string :: SalvagedWith(c, max, received, more)
  }

  ghost predicate SalvagedWith(c: Conn, max: nat, received: string, more: string)
    requires c.m.state != GotAll
  {
    Salvage(Start(received + more), max) == Dispatched(c.events) + Salvage(c.m.Plus(more), max)
  }

  lemma OpenedSalvaged(max: nat)
    ensures Salvaged(OPENED, max, "")
  {
    forall more: string ensures SalvagedWith(OPENED, max, "", more) {
      assert "" + more == more;
      assert Dispatched([]) + Salvage(Start(more), max) == Salvage(Start(more), max);
    }
  }

  lemma ArriveSalvaged(c: Conn, max: nat, received: string, chunk: string)
    requires Salvaged(c, max, received)
    ensures Salvaged(c.(m := c.m.Plus(chunk)), max, received + chunk)
  {
    var c' := c.(m := c.m.Plus(chunk));
    forall more: string ensures SalvagedWith(c', max, received + chunk, more) {
      assert SalvagedWith(c, max, received, chunk + more);
      Assoc(received, chunk, more);
      Assoc(c.m.input, chunk, more);
    }
  }

  /** A rejected request line is rejected again, whatever is in the request and follows the line. */
  lemma BadLineSalvagesNothing(m: Machine, max: nat, more: string)
    requires m.state != GotAll && Parse(m, max).v == Bad && Parse(m, max).m.state == ExpectRequestLine
    ensures Salvage(m.Plus(more), max) == Salvage(Parse(m, max).m.Plus(more), max) == []
  {
    LoopBadLine(m.(errorStatus := 400), max);
    var e := FindCrlf(m.input);
    FindCrlfStable(m.input, more);
    SliceLine(m.input, more, e);
    SameVerdict(m.request, Parse(m, max).m.request, m.input[..e]);
  }

  lemma SameVerdict(a: Request, b: Request, line: string)
    ensures RequestLine(a, line).1 == RequestLine(b, line).1
  {}

  lemma SameParseSalvages(a: Machine, b: Machine, max: nat)
    requires a.state != GotAll && b.state != GotAll && Parse(a, max) == Parse(b, max)
    ensures Salvage(a, max) == Salvage(b, max)
  {}

  lemma ParseSalvages(m: Machine, max: nat, more: string)
    requires m.state != GotAll
    ensures var r, salvaged := Parse(m, max), Salvage(m.Plus(more), max);
      if r.v == Done then salvaged == [r.m.request] + Salvage(Start(r.m.input + more), max)
      else salvaged == Salvage(r.m.Plus(more), max)
  {
    var m1 := m.(errorStatus := 400);
    var r := Parse(m, max);
    LoopExtend(m1, max, more);
    match r.v
    case More =>
      LoopMore(m1, max);
      SameParseSalvages(m.Plus(more), r.m.Plus(more), max);
    case Done =>
    case Bad =>
      if r.m.state == ExpectRequestLine {
        BadLineSalvagesNothing(m, max, more);
      }
  }

  /** One `onMessage` moves at most one request from what can be salvaged to what was handled. */
  lemma MessageSalvages(c: Conn, max: nat, chunk: string, more: string)
    requires c.m.state != GotAll
    ensures var c' := AfterMessage(c, max, chunk);
      Dispatched(c.events) + Salvage(c.m.Plus(chunk).Plus(more), max)
        == Dispatched(c'.events) + Salvage(c'.m.Plus(more), max)
  {
    var m := c.m.Plus(chunk);
    if !Aborts(m) {
      var r := Parse(m, max);
      ParseSalvages(m, max, more);
      match r.v
      case More =>
      case Done =>
        DispatchedAppend(c.events, HandledEvent(r.m.request));
        Assoc(Dispatched(c.events), [r.m.request], Salvage(Start(r.m.input + more), max));
      case Bad =>
        ErrorReplied(c.events, r.m.errorStatus);
    }
  }

  lemma OnMessageSalvaged(c: Conn, max: nat, received: string, chunk: string)
    requires Salvaged(c, max, received)
    ensures Salvaged(AfterMessage(c, max, chunk), max, received + chunk)
  {
    ArriveSalvaged(c, max, received, chunk);
    forall more: string ensures SalvagedWith(AfterMessage(c, max, chunk), max, received + chunk, more) {
      assert SalvagedWith(c.(m := c.m.Plus(chunk)), max, received + chunk, more);
      MessageSalvages(c, max, chunk, more);
    }
  }

  lemma {:induction false} ServeSalvaged(c: Conn, max: nat, received: string, chunks: seq<string>)
    requires Salvaged(c, max, received)
    ensures Salvaged(Serve(c, max, chunks), max, received + Concat(chunks))
    decreases |chunks|
  {
    if chunks == [] {
      assert received + "" == received;
    } else {
      OnMessageSalvaged(c, max, received, chunks[0]);
      ServeSalvaged(AfterMessage(c, max, chunks[0]), max, received + chunks[0], chunks[1..]);
      Assoc(received, chunks[0], Concat(chunks[1..]));
    }
  }

  lemma SalvagedNow(c: Conn, max: nat, received: string)
    requires Salvaged(c, max, received)
    ensures Salvage(Start(received), max) == Dispatched(c.events) + Salvage(c.m, max)
  {
    assert SalvagedWith(c, max, received, "");
    assert received + "" == received && c.m.Plus("") == c.m;
  }

  /**
    For every run of a new connection, errors and what follows them included: the requests
    handed to the handlers, and then those that can still be salvaged from the buffer, are
    exactly the requests salvaged from the received bytes, in order. Without an error they are
    the requests of the stream.
  */
  lemma RunIsStream(max: nat, chunks: seq<string>)
    ensures var c := Serve(OPENED, max, chunks);
      && Salvage(Start(Concat(chunks)), max) == Dispatched(c.events) + Salvage(c.m, max)
      && (Errors(c.events) == 0 ==> Stream(Concat(chunks), max) == Dispatched(c.events) + Waiting(c.m, max))
  {
    var c := Serve(OPENED, max, chunks);
    assert "" + Concat(chunks) == Concat(chunks);
    OpenedSalvaged(max);
    ServeSalvaged(OPENED, max, "", chunks);
    SalvagedNow(c, max, Concat(chunks));
    OpenedAccounts(max);
    var cuts, text, msgs, read := ServeAccounts(OPENED, max, "", [], "", [], "", chunks);
    WithoutErrors(c, max, Concat(chunks), cuts, text, msgs, read);
  }

  lemma WithoutErrors(c: Conn, max: nat, received: string, cuts: seq<Cut>, text: string,
                      msgs: seq<Message>, read: string)
    requires Account(c, max, received, cuts, text, msgs, read)
    ensures Errors(c.events) == 0 ==> Stream(received, max) == Dispatched(c.events) + Waiting(c.m, max)
  {
    StreamOfAccount(c, max, received, cuts, text, msgs, read);
  }

  // ---- what is salvaged, without the machine ------------------------------------------------

  /** A message at the front is salvaged. */
  lemma SalvageMessage(msg: Message, max: nat, rest: string)
    requires Valid(msg, max)
    ensures Salvage(Start(Bytes(msg) + rest), max) == [Meaning(msg)] + Salvage(Start(rest), max)
  {
    ValidParses(msg, max, rest);
  }

  /** A rejected header line of the first message is passed over. */
  lemma SalvageWithoutLine(max: nat, requestLine: string, lines: seq<string>, line: string, rest: string, status: int)
    requires RejectedLine(requestLine, lines, line, max, status)
    ensures Salvage(Start(HeadBytes(requestLine, lines) + (line + CRLF + rest)), max)
      == Salvage(Start(HeadBytes(requestLine, lines) + rest), max)
  {
    var tail := line + CRLF + rest;
    var m := Machine(ExpectHeaders, Grammar.Head(requestLine, lines), 400, tail);
    Assoc(requestLine + CRLF, LinesBytes(lines), tail);
    Assoc(requestLine + CRLF, LinesBytes(lines), rest);
    HeadRun(HeadBytes(requestLine, lines) + tail, max, requestLine, lines, tail);
    HeadRun(HeadBytes(requestLine, lines) + rest, max, requestLine, lines, rest);
    HeaderRun(m, max, line, rest);
    EndOfHeadersIsFraming(m.(input := rest), max);
    SameParseSalvages(Start(HeadBytes(requestLine, lines) + rest), m.(input := rest), max);
    SameParseSalvages(m.(input := rest), m.(input := rest, errorStatus := status), max);
  }

  /** Nothing is salvaged from a rejected request line on. */
  lemma SalvageBadLine(max: nat, line: string, rest: string)
    requires BadRequestLine(line)
    ensures Salvage(Start(line + CRLF + rest), max) == []
  {
    RequestLineAccepted(FRESH, line);
    RequestLineRun(Start(line + CRLF + rest), max, line, rest);
  }

  /** Nothing is salvaged from a stream that neither begins with a message nor is rejected. */
  lemma SalvageIncomplete(s: string, max: nat)
    requires forall r, rest :: !Accepted(s, max, r, rest)
    requires forall status :: !Rejected(s, max, status)
    ensures Salvage(Start(s), max) == []
  {
    AnswerExplained(s, max);
  }

  // ---- one request per message -------------------------------------------------------------

  /** One `onMessage` handles exactly one waiting request, if there is one. */
  lemma OnePerMessage(c: Conn, max: nat, chunk: string)
    requires c.m.state != GotAll
    ensures var waiting := Waiting(c.m.Plus(chunk), max);
      var c' := AfterMessage(c, max, chunk);
      if waiting == [] then
        Dispatched(c'.events) == Dispatched(c.events)
        && (Errors(c'.events) == Errors(c.events) ==> Waiting(c'.m, max) == [])
      else
        Dispatched(c'.events) == Dispatched(c.events) + [waiting[0]] && Backlog(c'.m, max) == waiting[1..]
  {
    var m := c.m.Plus(chunk);
    if !Aborts(m) {
      var r := Parse(m, max);
      match r.v
      case Done =>
        DispatchedAppend(c.events, HandledEvent(r.m.request));
      case Bad =>
        ErrorReplied(c.events, r.m.errorStatus);
      case More =>
        LoopMore(m.(errorStatus := 400), max);
    }
  }

  /**
    A connection has handled every complete request it received if and only if the last
    read left at most one complete request to be handled.
  */
  lemma CaughtUpIff(c: Conn, max: nat, received: string, cuts: seq<Cut>, text: string,
                    msgs: seq<Message>, read: string, chunk: string)
    requires Account(c, max, received, cuts, text, msgs, read)
    ensures Dispatched(AfterMessage(c, max, chunk).events) == Stream(Kept(cuts) + text + (c.m.input + chunk), max)
      <==> |Waiting(c.m.Plus(chunk), max)| <= 1
  {
    ArriveAccounts(c, max, received, cuts, text, msgs, read, chunk);
    StreamOfAccount(c.(m := c.m.Plus(chunk)), max, received + chunk, cuts, text, msgs, read);
    OnePerMessage(c, max, chunk);
    FirstOf(Dispatched(c.events), Waiting(c.m.Plus(chunk), max));
  }

  lemma FirstOf(a: seq<Request>, b: seq<Request>)
    ensures (if b == [] then a else a + [b[0]]) == a + b <==> |b| <= 1
  {
    if |b| > 1 {
      assert |a + b| > |a + [b[0]]|;
    }
  }

  /**
    Two complete requests in one read: the first is handled, the second waits until more
    bytes arrive, although it is complete.
  */
  lemma TwoInOneRead(max: nat, first: Message, second: Message)
    requires Valid(first, max) && Valid(second, max)
    ensures var c := AfterMessage(OPENED, max, Bytes(first) + Bytes(second));
      && c.events == [HandledEvent(Meaning(first))] && c.m == Start(Bytes(second))
      && Stream(Bytes(first) + Bytes(second), max) == [Meaning(first), Meaning(second)]
  {
    TwoParsed(max, first, second);
    TwoStreamed(max, first, second);
  }

  lemma TwoParsed(max: nat, first: Message, second: Message)
    requires Valid(first, max)
    ensures Parse(OPENED.m.Plus(Bytes(first) + Bytes(second)), max)
      == Result(Machine(GotAll, Meaning(first), 400, Bytes(second)), Done)
  {
    var s := Bytes(first) + Bytes(second);
    assert "" + s == s;
    ValidParses(first, max, Bytes(second));
  }

  lemma TwoStreamed(max: nat, first: Message, second: Message)
    requires Valid(first, max) && Valid(second, max)
    ensures Stream(Bytes(first) + Bytes(second), max) == [Meaning(first), Meaning(second)]
  {
    StreamOfMessage(first, max, Bytes(second));
    assert Bytes(second) + "" == Bytes(second);
    StreamOfMessage(second, max, "");
    NothingStreamed("", max);
  }

  lemma NothingStreamed(s: string, max: nat)
    requires s == ""
    ensures Stream(s, max) == []
  {}

  lemma NoCarriageReturn(line: string)
    requires '\r' !in line
    ensures OneLine(line)
  {
  }

  /** A GET without header fields is a valid message. */
  lemma BareGetValid(line: string, target: string, version: string, max: nat)
    requires OneLine(line) && IsRequestLine(line, "GET", target, version)
    ensures Valid(Message(line, [], ""), max) && Grammar.Head(line, []).verb == Get
  {
    RequestLineBuilt(FRESH, line, "GET", target, version);
    assert MethodOf("GET") == Get;
    assert Grammar.Head(line, []).verb == Get;
  }

  lemma HomeValid(line: string, max: nat)
    requires line == "GET / HTTP/1.1"
    ensures Valid(Message(line, [], ""), max) && Grammar.Head(line, []).verb == Get
    ensures |Bytes(Message(line, [], ""))| == 18
  {
    NoCarriageReturn(line);
    assert line == "GET" + " " + "/" + " " + HTTP11;
    BareGetValid(line, "/", HTTP11, max);
  }

  /** A concrete stream whose second request is not handled. */
  lemma PipelinedRequestWaits(line: string, max: nat)
    requires line == "GET / HTTP/1.1"
    ensures var home := Message(line, [], "");
      Valid(home, max)
      && Dispatched(AfterMessage(OPENED, max, Bytes(home) + Bytes(home)).events)
        != Stream(Bytes(home) + Bytes(home), max)
  {
    var home := Message(line, [], "");
    HomeValid(line, max);
    TwoInOneRead(max, home, home);
    DispatchedAppend([], HandledEvent(Meaning(home)));
  }

  // ---- the imperative driver ---------------------------------------------------------------

  class Connection {
    const context: HttpContext
    const input: Buffer
    var events: seq<Event>
    var aborted: bool

    ghost function Abs(): Conn
      reads this, context, context.request, input
    {
      Conn(context.Abs(input), events, aborted)
    }

    constructor (maxBodyBytes: nat)
      requires maxBodyBytes < UINT64_LIMIT
      ensures Abs() == OPENED && context.maxBodyBytes == maxBodyBytes
      ensures fresh(context) && fresh(context.request) && fresh(input)
    {
      context := new HttpContext(maxBodyBytes);
      input := new Buffer();
      events := [];
      aborted := false;
    }

    method OnRequest()
      modifies this`events
      ensures events == old(events) + [HandledEvent(context.request.Value())]
    {
      var connection := context.request.GetHeader("Connection");
      var close := connection == "close"
        || (context.request.version == HTTP10 && connection != "Keep-Alive");
      events := events + [Handled(context.request.Value(), close)];
    }

    method SendError()
      modifies this`events
      ensures events == old(events) + [Sent(ErrorReply(context.parseErrorStatus)), Shutdown]
    {
      if context.parseErrorStatus == 413 {
        events := events + [Sent(HTTP413), Shutdown];
      } else {
        events := events + [Sent(HTTP400), Shutdown];
      }
    }

    /** Called as long as the process lives; `throws` says whether a handler that is called throws. */
    method OnMessage(chunk: string, throws: bool)
      requires context.state != GotAll && !aborted
      modifies this, context, context.request, input
      ensures !throws ==> context.state != GotAll
      ensures Abs() == if throws then AfterThrowing(old(Abs()), context.maxBodyBytes, chunk)
                       else AfterMessage(old(Abs()), context.maxBodyBytes, chunk)
    {
      input.Append(chunk);
      assert context.Abs(input) == old(context.Abs(input)).Plus(chunk);
      var fails := context.AssertionFails(input);
      if fails {
        aborted := true;
        return;
      }
      var ok := context.ParseRequest(input);
      if !ok {
        SendError();
        return;
      }
      if context.state == GotAll {
        Complete(throws);
      }
    }

    /** The end of `onMessage` for a complete request. */
    method Complete(throws: bool)
      modifies this`events, context, context.request
      ensures var handled := HandledEvent(old(context.request.Value()));
        if throws then
          events == old(events) + [handled, Sent(HTTP400), Shutdown]
          && context.Abs(input) == old(context.Abs(input))
        else
          events == old(events) + [handled] && context.Abs(input) == Start(input.data)
    {
      OnRequest();
      if throws {
        events := events + [Sent(HTTP400), Shutdown];
        return;
      }
      context.Reset();
    }
  }
}
