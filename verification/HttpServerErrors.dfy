/**
  What a connection does after an error reply: it handles what the grammar accepts without
  the rejected line, or it aborts at a rejected request line.
*/
module ServerErrors {
  import opened Common
  import opened Text
  import opened Requests
  import opened Parsing
  import opened Chunking
  import opened Grammar
  import opened Server

  /** The bytes of a rejected stream, with a rejected header line. */
  function WithLine(requestLine: string, lines: seq<string>, line: string, rest: string): string {
    requestLine + CRLF + (LinesBytes(lines) + (line + CRLF + rest))
  }

  /** The same without the line. */
  function WithoutLine(requestLine: string, lines: seq<string>, rest: string): string {
    requestLine + CRLF + (LinesBytes(lines) + rest)
  }

  lemma RejectedConn(max: nat, requestLine: string, lines: seq<string>, line: string, rest: string, status: int)
    requires RejectedLine(requestLine, lines, line, max, status)
    ensures var c := AfterMessage(OPENED, max, WithLine(requestLine, lines, line, rest));
      && c.m == Machine(ExpectHeaders, Grammar.Head(requestLine, lines), status, rest) && !c.aborted
      && c.events == [Sent(ErrorReply(status)), Shutdown]
  {
    var tail := line + CRLF + rest;
    var s := requestLine + CRLF + (LinesBytes(lines) + tail);
    assert Start("").Plus(s) == Start(s);
    HeadRun(s, max, requestLine, lines, tail);
    var m := Machine(ExpectHeaders, Grammar.Head(requestLine, lines), 400, tail);
    HeaderRun(m, max, line, rest);
    EndOfHeadersIsFraming(m.(input := rest), max);
  }

  /** If the parser is where it would be on `s`, then it handles what the grammar accepts in `s`. */
  lemma HandlesIff(c: Conn, max: nat, chunk: string, s: string, r: Request, left: string)
    requires c.m.state != GotAll && !Aborts(c.m.Plus(chunk))
    requires Parse(c.m.Plus(chunk), max) == Parse(Start(s), max)
    ensures Handles(c, AfterMessage(c, max, chunk), r, left) <==> Accepted(s, max, r, left)
  {
    var p := Parse(Start(s), max);
    DoneIffAccepted(s, max, r, left);
    AnswerExplained(s, max);
    if p.v == Done {
      DoneIffAccepted(s, max, p.m.request, p.m.input);
      assert (c.events + [HandledEvent(p.m.request)])[|c.events|] == HandledEvent(p.m.request);
    }
  }

  /** From `c` to `c'` exactly the request `r` was handled, and `left` is unread. */
  ghost predicate Handles(c: Conn, c': Conn, r: Request, left: string) {
    |c'.events| == |c.events| + 1 && c'.events[|c.events|] == HandledEvent(r) && c'.m == Start(left)
  }

  /** What a live connection handles next is what the grammar accepts in the message being read and what follows. */
  lemma NextHandledIff(c: Conn, max: nat, received: string, cuts: seq<Cut>, text: string,
                       msgs: seq<Message>, read: string, more: string, r: Request, left: string)
    requires Account(c, max, received, cuts, text, msgs, read) && !Aborts(c.m)
    ensures Handles(c, AfterMessage(c, max, more), r, left)
      <==> Accepted(read + (c.m.input + more), max, r, left)
  {
    ArriveAccounts(c, max, received, cuts, text, msgs, read, more);
    SameParse(c.m.Plus(more), max, read);
    HandlesIff(c, max, more, read + (c.m.input + more), r, left);
  }

  ghost predicate HandlesIffAccepted(c: Conn, max: nat, more: string, s: string, r: Request, left: string)
    requires c.m.state != GotAll
  {
    Handles(c, AfterMessage(c, max, more), r, left) <==> Accepted(s, max, r, left)
  }

  /**
    At any time of any run: after the reply to a rejected header line the connection handles a
    request if and only if the message without that line is acceptable, and it is that request.
  */
  lemma HandledAfterErrorIff(c: Conn, max: nat, received: string, cuts: seq<Cut>, text: string,
                             msgs: seq<Message>, read: string, chunk: string) returns (head: string, line: string)
    requires Account(c, max, received, cuts, text, msgs, read) && !Aborts(c.m)
    requires var r := Parse(c.m.Plus(chunk), max); r.v == Bad && r.m.state != ExpectRequestLine
    ensures var c' := AfterMessage(c, max, chunk);
      && read + (c.m.input + chunk) == head + (line + CRLF + c'.m.input) && RejectedHead(head, line, max)
      && forall more, r, left :: HandlesIffAccepted(c', max, more, head + (c'.m.input + more), r, left)
  {
    ArriveAccounts(c, max, received, cuts, text, msgs, read, chunk);
    var c1, c' := c.(m := c.m.Plus(chunk)), AfterMessage(c, max, chunk);
    var cut, read' := BadHeaderAccounts(c1, max, received + chunk, cuts, text, msgs, read);
    head, line := read', cut.line;
    forall more, r, left ensures HandlesIffAccepted(c', max, more, head + (c'.m.input + more), r, left) {
      NextHandledIff(c', max, received + chunk, cuts + [cut], "", msgs, read', more, r, left);
    }
  }

  /** A handler that throws leaves the parser in `GotAll` if and only if one is called, on a complete request. */
  lemma ThrowLeavesGotAllIff(c: Conn, max: nat, received: string, cuts: seq<Cut>, text: string,
                             msgs: seq<Message>, read: string, chunk: string)
    requires Account(c, max, received, cuts, text, msgs, read) && !Aborts(c.m)
    ensures AfterThrowing(c, max, chunk).m.state == GotAll
      <==> exists r, left :: Accepted(read + (c.m.input + chunk), max, r, left)
    ensures var c' := AfterThrowing(c, max, chunk);
      c'.m.state == GotAll ==>
        c'.events == c.events + [HandledEvent(c'.m.request), Sent(HTTP400), Shutdown]
        && Accepted(read + (c.m.input + chunk), max, c'.m.request, c'.m.input)
  {
    var s := read + (c.m.input + chunk);
    ArriveAccounts(c, max, received, cuts, text, msgs, read, chunk);
    SameParse(c.m.Plus(chunk), max, read);
    AnswerExplained(s, max);
    if r, left :| Accepted(s, max, r, left) {
      DoneIffAccepted(s, max, r, left);
    }
  }

  lemma ParsesWithoutLine(max: nat, requestLine: string, lines: seq<string>, rest: string, status: int, more: string)
    requires GoodHead(requestLine, lines)
    ensures Parse(Machine(ExpectHeaders, Grammar.Head(requestLine, lines), status, rest).Plus(more), max)
      == Parse(Start(WithoutLine(requestLine, lines, rest + more)), max)
  {
    HeadRun(WithoutLine(requestLine, lines, rest + more), max, requestLine, lines, rest + more);
  }

  /** The same for the first message of a connection. */
  lemma FirstHandledAfterErrorIff(max: nat, requestLine: string, lines: seq<string>, line: string, rest: string,
                                  status: int, more: string, r: Request, left: string)
    requires RejectedLine(requestLine, lines, line, max, status)
    ensures var c := AfterMessage(OPENED, max, WithLine(requestLine, lines, line, rest));
      var acceptable := Accepted(WithoutLine(requestLine, lines, rest + more), max, r, left);
      Handles(c, AfterMessage(c, max, more), r, left) <==> acceptable
  {
    RejectedConn(max, requestLine, lines, line, rest, status);
    ParsesWithoutLine(max, requestLine, lines, rest, status, more);
    var c := AfterMessage(OPENED, max, WithLine(requestLine, lines, line, rest));
    HandlesIff(c, max, more, WithoutLine(requestLine, lines, rest + more), r, left);
  }

  const LENGTH_NAME: string := "Content-Length"
  const ZERO_LENGTH: string := FieldLine(LENGTH_NAME, "0")

  /**
    A POST or PUT that was answered 400 or 413 for its Content-Length is handed to the handler
    when a further Content-Length of zero arrives.
  */
  lemma RejectedThenHandled(max: nat, requestLine: string, lines: seq<string>, status: int)
    requires RejectedLine(requestLine, lines, "", max, status)
    ensures var c := AfterMessage(OPENED, max, WithLine(requestLine, lines, "", ""));
      && c.events == [Sent(ErrorReply(status)), Shutdown]
      && Handles(c, AfterMessage(c, max, ZERO_LENGTH + CRLF + CRLF),
                 Meaning(Message(requestLine, lines + [ZERO_LENGTH], "")), "")
  {
    var msg := Message(requestLine, lines + [ZERO_LENGTH], "");
    ZeroLengthValid(max, requestLine, lines, status);
    RejectedConn(max, requestLine, lines, "", "", status);
    ZeroLengthBytes(requestLine, lines);
    FirstHandledAfterErrorIff(max, requestLine, lines, "", "", status, ZERO_LENGTH + CRLF + CRLF, Meaning(msg), "");
  }

  /** A concrete case: a POST without Content-Length. */
  lemma PostAnsweredThenHandled(max: nat)
    ensures var c := AfterMessage(OPENED, max, WithLine("POST / HTTP/1.1", [], "", ""));
      && c.events == [Sent(HTTP400), Shutdown]
      && Handles(c, AfterMessage(c, max, ZERO_LENGTH + CRLF + CRLF),
                 Meaning(Message("POST / HTTP/1.1", [] + [ZERO_LENGTH], "")), "")
  {
    PostRejected("POST / HTTP/1.1", max);
    RejectedThenHandled(max, "POST / HTTP/1.1", [], 400);
  }

  lemma PostRejected(line: string, max: nat)
    requires line == "POST / HTTP/1.1"
    ensures RejectedLine(line, [], "", max, 400)
  {
    NoCarriageReturn(line);
    assert line == "POST" + " " + "/" + " " + HTTP11;
    assert IsRequestLine(line, "POST", "/", HTTP11);
    RequestLineBuilt(FRESH, line, "POST", "/", HTTP11);
    assert MethodOf("POST") == Post;
    var r := Grammar.Head(line, []);
    assert r.verb == Post && r.headers == map[];
    assert OneLine("");
  }

  lemma ZeroLengthBytes(requestLine: string, lines: seq<string>)
    ensures WithoutLine(requestLine, lines, "" + (ZERO_LENGTH + CRLF + CRLF))
      == Bytes(Message(requestLine, lines + [ZERO_LENGTH], "")) + ""
  {
    LinesBytesAppend(lines, ZERO_LENGTH);
  }

  lemma {:induction false} LinesBytesAppend(lines: seq<string>, line: string)
    ensures LinesBytes(lines + [line]) == LinesBytes(lines) + (line + CRLF)
    decreases |lines|
  {
    if lines == [] {
      assert [line][1..] == [];
      assert [] + [line] == [line];
    } else {
      assert (lines + [line])[1..] == lines[1..] + [line];
      LinesBytesAppend(lines[1..], line);
    }
  }

  lemma {:induction false} WithLinesAppend(m: Fields, lines: seq<string>, line: string)
    requires forall i | 0 <= i < |lines| :: ':' in lines[i]
    requires ':' in line
    ensures WithLines(m, lines + [line]) == AddHeaderLine(WithLines(m, lines), line)
    decreases |lines|
  {
    if lines == [] {
      assert [] + [line] == [line] && [line][1..] == [];
    } else {
      assert (lines + [line])[1..] == lines[1..] + [line];
      WithLinesAppend(AddHeaderLine(m, lines[0]), lines[1..], line);
    }
  }

  lemma ZeroLengthLine(m: Fields)
    ensures OneLine(ZERO_LENGTH) && ':' in ZERO_LENGTH
    ensures AddHeaderLine(m, ZERO_LENGTH) == m[Lower(LENGTH_NAME) := "0"]
  {
    NoCarriageReturn(ZERO_LENGTH);
    FieldRead(m, LENGTH_NAME, "0");
  }

  lemma ZeroLengthValid(max: nat, requestLine: string, lines: seq<string>, status: int)
    requires RejectedLine(requestLine, lines, "", max, status)
    ensures Valid(Message(requestLine, lines + [ZERO_LENGTH], ""), max)
  {
    var r := RequestLine(FRESH, requestLine).0;
    ZeroLengthLine(WithLines(r.headers, lines));
    WithLinesAppend(r.headers, lines, ZERO_LENGTH);
    ZeroFraming(Grammar.Head(requestLine, lines + [ZERO_LENGTH]), max);
  }

  lemma ZeroFraming(r: Request, max: nat)
    requires Lower(LENGTH_NAME) in r.headers && r.headers[Lower(LENGTH_NAME)] == "0"
    ensures BodyFraming(r, max).NoBody? || BodyFraming(r, max) == BodyOf(0)
  {
    var zero := "0";
    assert zero[..0] == "";
    assert DecimalValue(zero) == 0;
  }

  /** The next message aborts exactly if a request line that names a known method has been rejected. */
  lemma AbortsNextIff(c: Conn, max: nat, chunk: string)
    requires c.m.state != GotAll && Good(c.m, max)
    ensures Aborts(AfterMessage(c, max, chunk).m) <==>
      c.m.state == ExpectRequestLine
      && exists line, rest :: c.m.input + chunk == line + CRLF + rest && BadRequestLine(line) && NamesMethod(line)
  {
    if AfterMessage(c, max, chunk).m.state == ExpectRequestLine && Parse(c.m.Plus(chunk), max).v == Bad {
      AbortsAfterBadLine(c.m.Plus(chunk), max);
    } else if c.m.state == ExpectRequestLine {
      NoBadLine(c.m.Plus(chunk), max);
      AfterGood(c, max, chunk);
    } else {
      AfterGood(c, max, chunk);
    }
  }

  /** Unless the request line was rejected, the parser keeps its invariant. */
  lemma AfterGood(c: Conn, max: nat, chunk: string)
    requires c.m.state != GotAll && Good(c.m, max)
    requires var r := Parse(c.m.Plus(chunk), max); r.v != Bad || r.m.state != ExpectRequestLine
    ensures Good(AfterMessage(c, max, chunk).m, max)
  {
    var m := c.m.Plus(chunk).(errorStatus := 400);
    if Loop(m, max).v == Bad {
      LoopBadGood(m, max);
    } else {
      LoopGood(m, max);
    }
  }

  lemma AbortsAfterBadLine(m: Machine, max: nat)
    requires m.state != GotAll && Good(m, max)
    requires Parse(m, max).v == Bad && Parse(m, max).m.state == ExpectRequestLine
    ensures m.state == ExpectRequestLine
    ensures Aborts(Parse(m, max).m) <==>
      exists line, rest :: m.input == line + CRLF + rest && BadRequestLine(line) && NamesMethod(line)
  {
    LoopBadLine(m.(errorStatus := 400), max);
    SplitLine(m.input);
    var first := m.input[..FindCrlf(m.input)];
    RejectedLeaves(first);
    RequestLineAccepted(FRESH, first);
    assert BadRequestLine(first);
    if line, rest :| m.input == line + CRLF + rest && BadRequestLine(line) && NamesMethod(line) {
      LineEnd(line, rest);
    }
  }

  lemma NoBadLine(m: Machine, max: nat)
    requires m.state == ExpectRequestLine && Good(m, max)
    requires Parse(m, max).v != Bad || Parse(m, max).m.state != ExpectRequestLine
    ensures !exists line, rest :: m.input == line + CRLF + rest && BadRequestLine(line) && NamesMethod(line)
  {
    if line, rest :| m.input == line + CRLF + rest && BadRequestLine(line) && NamesMethod(line) {
      RequestLineAccepted(FRESH, line);
      RequestLineRun(m.(errorStatus := 400), max, line, rest);
    }
  }

  /** Then every further message finds the process gone: nothing is handled or answered. */
  lemma {:induction false} AbortIsFinal(c: Conn, max: nat, chunks: seq<string>)
    requires c.m.state != GotAll && Aborts(c.m) && chunks != []
    ensures Serve(c, max, chunks).aborted && Serve(c, max, chunks).events == c.events
    decreases |chunks|
  {
    AbortsForever(c.m, chunks[0]);
    if |chunks| > 1 {
      AbortIsFinal(AfterMessage(c, max, chunks[0]), max, chunks[1..]);
    }
  }

  /** A rejected request line that names a known method is answered, and the next message aborts. */
  lemma BadLineAborts(max: nat, line: string, chunk: string)
    requires BadRequestLine(line) && NamesMethod(line)
    ensures var c := AfterMessage(OPENED, max, line + CRLF);
      c.events == [Sent(HTTP400), Shutdown] && !c.aborted && AfterMessage(c, max, chunk).aborted
  {
    BadLineParsed(max, line);
    RejectedLeaves(line);
    LineEnd(line, "");
    AbortsForever(AfterMessage(OPENED, max, line + CRLF).m, chunk);
  }

  lemma BadLineParsed(max: nat, line: string)
    requires BadRequestLine(line)
    ensures Parse(OPENED.m.Plus(line + CRLF), max)
      == Result(Start(line + CRLF + "").(request := RequestLine(FRESH, line).0), Bad)
    ensures !RequestLine(FRESH, line).1
  {
    var s := line + CRLF;
    assert "" + s == s && s == line + CRLF + "";
    RequestLineAccepted(FRESH, line);
    RequestLineRun(Start(s), max, line, "");
  }

  /** Such a line is `GET /`. */
  lemma GetWithoutVersion(line: string)
    requires line == "GET /"
    ensures BadRequestLine(line) && NamesMethod(line)
  {
    NoCarriageReturn(line);
    assert line == "GET" + [' '] + "/";
    FindJoin("GET", ' ', "/");
    FindUnique("/", ' ', 1);
    RequestLineAccepted(FRESH, line);
  }
}
