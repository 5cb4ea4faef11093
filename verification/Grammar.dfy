/**
  The language the parser accepts, stated without the state machine: a request line,
  header lines, a blank line and, for POST and PUT, as much body as the last Content-Length
  declares. The parser answers Done, Bad or More exactly when this grammar says so.
*/
module Grammar {
  import opened Common
  import opened Text
  import opened Requests
  import opened Parsing
  import opened Chunking

  // ---- request lines ------------------------------------------------------

  const METHOD_NAMES: set<string> := {"GET", "POST", "PUT", "DELETE", "OPTIONS"}

  /** method SP target SP version, where only the target may be empty. */
  ghost predicate IsRequestLine(line: string, name: string, target: string, version: string) {
    && name in METHOD_NAMES && ' ' !in target
    && version in {HTTP11, HTTP10}
    && line == name + " " + target + " " + version
  }

  lemma MethodNamed(name: string)
    ensures MethodOf(name) != Invalid <==> name in METHOD_NAMES
    ensures name in METHOD_NAMES ==> ' ' !in name
  {}

  lemma RequestLineBuilt(r: Request, line: string, name: string, target: string, version: string)
    requires IsRequestLine(line, name, target, version)
    ensures RequestLine(r, line)
      == (WithTarget(r.(verb := MethodOf(name)), target).(version := version), true)
  {
    MethodNamed(name);
    var rest := target + " " + version;
    Assoc(name + " ", target + " ", version);
    Assoc(name + " ", target, " ");
    FindJoin(name, ' ', rest);
    FindJoin(target, ' ', version);
  }

  lemma RequestLineRead(r: Request, line: string) returns (name: string, target: string, version: string)
    requires RequestLine(r, line).1
    ensures IsRequestLine(line, name, target, version)
  {
    var sp := Find(line, ' ');
    name := line[..sp];
    var rest := line[sp + 1..];
    var sp2 := Find(rest, ' ');
    target, version := rest[..sp2], rest[sp2 + 1..];
    MethodNamed(name);
    LineInParts(line, rest);
  }

  lemma LineInParts(line: string, rest: string)
    requires Find(line, ' ') < |line| && rest == line[Find(line, ' ') + 1..] && Find(rest, ' ') < |rest|
    ensures line == line[..Find(line, ' ')] + " " + rest[..Find(rest, ' ')] + " " + rest[Find(rest, ' ') + 1..]
    ensures ' ' !in rest[..Find(rest, ' ')]
  {
    FindSplit(line, ' ');
    FindSplit(rest, ' ');
    JoinParts(line[..Find(line, ' ')], rest[..Find(rest, ' ')], rest[Find(rest, ' ') + 1..]);
  }

  lemma JoinParts(a: string, b: string, c: string)
    ensures a + " " + (b + " " + c) == a + " " + b + " " + c
  {}

  /** `processRequestLine` accepts exactly the lines of this shape. */
  lemma RequestLineAccepted(r: Request, line: string)
    ensures RequestLine(r, line).1
      <==> exists name, target, version :: IsRequestLine(line, name, target, version)
  {
    if RequestLine(r, line).1 {
      var name, target, version := RequestLineRead(r, line);
    } else if name, target, version :| IsRequestLine(line, name, target, version) {
      RequestLineBuilt(r, line, name, target, version);
    }
  }

  // ---- messages -------------------------------------------------------------

  datatype Message = Message(requestLine: string, headerLines: seq<string>, body: string)

  function LinesBytes(lines: seq<string>): string {
    if lines == [] then "" else lines[0] + CRLF + LinesBytes(lines[1..])
  }

  function Bytes(msg: Message): string {
    msg.requestLine + CRLF + LinesBytes(msg.headerLines) + CRLF + msg.body
  }

  ghost predicate HeaderLines(lines: seq<string>) {
    forall i | 0 <= i < |lines| :: OneLine(lines[i]) && ':' in lines[i]
  }

  /** The fields of a header section, a later line overriding an earlier one of the same name. */
  function WithLines(m: Fields, lines: seq<string>): Fields
    requires forall i | 0 <= i < |lines| :: ':' in lines[i]
    decreases |lines|
  {
    if lines == [] then m else WithLines(AddHeaderLine(m, lines[0]), lines[1..])
  }

  function WithHeaders(r: Request, lines: seq<string>): Request
    requires forall i | 0 <= i < |lines| :: ':' in lines[i]
  {
    r.(headers := WithLines(r.headers, lines))
  }

  /** A header field as it is printed. */
  function FieldLine(name: string, value: string): string {
    name + ": " + value
  }

  lemma FieldName(name: string, value: string)
    requires ':' !in name
    ensures Find(FieldLine(name, value), ':') == |name|
    ensures FieldLine(name, value)[..|name|] == name && |name| < |FieldLine(name, value)|
    ensures FieldLine(name, value)[|name| + 1..] == " " + value
  {
    assert FieldLine(name, value) == name + [':'] + (" " + value);
    FindJoin(name, ':', " " + value);
  }

  lemma FieldRead(m: Fields, name: string, value: string)
    requires ':' !in name && Trimmed(value)
    ensures ':' in FieldLine(name, value)
    ensures AddHeaderLine(m, FieldLine(name, value)) == m[Lower(name) := value]
  {
    FieldName(name, value);
    TrimPadded(" ", value, "");
    assert " " + value + "" == " " + value;
    assert FieldLine(name, value)[|name|] == ':';
  }

  datatype Framing = NoBody | BodyOf(length: nat) | BadLength | TooLarge

  /** How long the body is: only POST and PUT have one, and they must declare it. */
  function BodyFraming(r: Request, max: nat): Framing {
    if r.verb != Post && r.verb != Put then NoBody
    else
      var field := HeaderOf(r.headers, "Content-Length");
      if field == "" || !AllDigits(field) || DecimalValue(field) >= UINT64_LIMIT then BadLength
      else if DecimalValue(field) > max then TooLarge
      else BodyOf(DecimalValue(field))
  }

  /** The request a head announces, before its body is read. */
  function Head(requestLine: string, lines: seq<string>): Request
    requires forall i | 0 <= i < |lines| :: ':' in lines[i]
  {
    WithHeaders(RequestLine(FRESH, requestLine).0, lines)
  }

  ghost predicate GoodHead(requestLine: string, lines: seq<string>) {
    && OneLine(requestLine) && HeaderLines(lines)
    && exists name, target, version :: IsRequestLine(requestLine, name, target, version)
  }

  function BodyLength(f: Framing): nat {
    if f.BodyOf? then f.length else 0
  }

  ghost predicate Valid(msg: Message, max: nat) {
    && GoodHead(msg.requestLine, msg.headerLines)
    && var f := BodyFraming(Head(msg.requestLine, msg.headerLines), max);
      (f.NoBody? || f.BodyOf?) && |msg.body| == BodyLength(f)
  }

  /** The request a valid message means. */
  function Meaning(msg: Message): Request
    requires forall i | 0 <= i < |msg.headerLines| :: ':' in msg.headerLines[i]
  {
    Head(msg.requestLine, msg.headerLines).(content := msg.body, contentLength := |msg.body|)
  }

  ghost predicate Accepted(s: string, max: nat, r: Request, rest: string) {
    exists msg: Message :: Valid(msg, max) && s == Bytes(msg) + rest && r == Meaning(msg)
  }

  /** What the bad line of a rejected stream is, and the status it is answered with. */
  ghost predicate RejectedLine(requestLine: string, lines: seq<string>, line: string, max: nat, status: int) {
    && GoodHead(requestLine, lines) && OneLine(line) && ':' !in line
    && var f := BodyFraming(Head(requestLine, lines), max);
      if line == "" then (f.BadLength? && status == 400) || (f.TooLarge? && status == 413)
      else status == 400
  }

  ghost predicate BadRequestLine(line: string) {
    OneLine(line) && forall name, target, version :: !IsRequestLine(line, name, target, version)
  }

  ghost predicate Rejected(s: string, max: nat, status: int) {
    || (status == 400 && exists line, rest :: BadRequestLine(line) && s == line + CRLF + rest)
    || (exists requestLine, lines, line, rest ::
          RejectedLine(requestLine, lines, line, max, status)
          && s == requestLine + CRLF + (LinesBytes(lines) + (line + CRLF + rest)))
  }

  // ---- from the grammar to the machine ------------------------------------------

  lemma RequestLineRun(m: Machine, max: nat, line: string, rest: string)
    requires m.state == ExpectRequestLine && m.input == line + CRLF + rest && OneLine(line)
    ensures var (r, ok) := RequestLine(m.request, line);
      Loop(m, max)
        == (if ok then Loop(m.(state := ExpectHeaders, request := r, input := rest), max)
            else Result(m.(request := r), Bad))
  {
    LineEnd(line, rest);
  }

  lemma HeaderRun(m: Machine, max: nat, line: string, rest: string)
    requires m.state == ExpectHeaders && m.input == line + CRLF + rest && OneLine(line)
    ensures Step(m, max) == (
      var after := m.(input := rest);
      if ':' in line then
        Continue(after.(request := m.request.(headers := AddHeaderLine(m.request.headers, line))))
      else if line == "" then EndOfHeaders(after, max)
      else Stop(after, Bad))
  {
    LineEnd(line, rest);
  }

  /** Header lines are absorbed one by one. */
  lemma {:induction false} HeadersRun(m: Machine, max: nat, lines: seq<string>, rest: string)
    requires m.state == ExpectHeaders && HeaderLines(lines) && m.input == LinesBytes(lines) + rest
    ensures Loop(m, max) == Loop(m.(request := WithHeaders(m.request, lines), input := rest), max)
    decreases |lines|
  {
    if lines == [] {
      assert m.input == rest;
    } else {
      var tail := LinesBytes(lines[1..]) + rest;
      assert m.input == lines[0] + CRLF + tail;
      HeaderRun(m, max, lines[0], tail);
      var m' := Step(m, max).m;
      HeadersRun(m', max, lines[1..], rest);
    }
  }

  /** The code's `Content-Length` decision is the framing rule. */
  lemma EndOfHeadersIsFraming(m: Machine, max: nat)
    ensures EndOfHeaders(m, max) == (match BodyFraming(m.request, max)
      case NoBody => Stop(m.(state := GotAll), Done)
      case BadLength => Stop(m, Bad)
      case TooLarge => Stop(m.(errorStatus := 413), Bad)
      case BodyOf(n) =>
        var r := m.request.(contentLength := n);
        if n > 0 then Continue(m.(state := ExpectBody, request := r))
        else Stop(m.(state := GotAll, request := r), Done))
  {
    FromCharsWhole(HeaderOf(m.request.headers, "Content-Length"));
  }

  lemma BytesSplit(msg: Message, rest: string)
    ensures Bytes(msg) + rest
      == msg.requestLine + CRLF + (LinesBytes(msg.headerLines) + ("" + CRLF + (msg.body + rest)))
  {}

  /** A good head is absorbed up to its last header line. */
  lemma HeadRun(s: string, max: nat, requestLine: string, lines: seq<string>, tail: string)
    requires GoodHead(requestLine, lines) && s == requestLine + CRLF + (LinesBytes(lines) + tail)
    ensures Parse(Start(s), max)
      == Loop(Machine(ExpectHeaders, Head(requestLine, lines), 400, tail), max)
  {
    RequestLineAccepted(FRESH, requestLine);
    RequestLineRun(Start(s), max, requestLine, LinesBytes(lines) + tail);
    var r := RequestLine(FRESH, requestLine).0;
    HeadersRun(Machine(ExpectHeaders, r, 400, LinesBytes(lines) + tail), max, lines, tail);
  }

  /** Every valid message is parsed, to its meaning, leaving exactly what follows it. */
  lemma ValidParses(msg: Message, max: nat, rest: string)
    requires Valid(msg, max)
    ensures Parse(Start(Bytes(msg) + rest), max) == Result(Machine(GotAll, Meaning(msg), 400, rest), Done)
  {
    BytesSplit(msg, rest);
    var tail := "" + CRLF + (msg.body + rest);
    HeadRun(Bytes(msg) + rest, max, msg.requestLine, msg.headerLines, tail);
    var r := Head(msg.requestLine, msg.headerLines);
    var m := Machine(ExpectHeaders, r, 400, tail);
    HeaderRun(m, max, "", msg.body + rest);
    EndOfHeadersIsFraming(m.(input := msg.body + rest), max);
    HeadIsFresh(msg.requestLine, msg.headerLines);
    assert (msg.body + rest)[|msg.body|..] == rest && (msg.body + rest)[..|msg.body|] == msg.body;
  }

  /** Reading a head fills neither the body nor its length. */
  lemma HeadIsFresh(requestLine: string, lines: seq<string>)
    requires forall i | 0 <= i < |lines| :: ':' in lines[i]
    ensures Head(requestLine, lines).content == "" && Head(requestLine, lines).contentLength == 0
  {}

  lemma RejectedFails(s: string, max: nat, status: int)
    requires Rejected(s, max, status)
    ensures var r := Parse(Start(s), max); r.v == Bad && r.m.errorStatus == status
  {
    if status == 400 && exists line, rest :: BadRequestLine(line) && s == line + CRLF + rest {
      var line, rest :| BadRequestLine(line) && s == line + CRLF + rest;
      RequestLineAccepted(FRESH, line);
      RequestLineRun(Start(s), max, line, rest);
    } else {
      var requestLine, lines, line, rest :|
        RejectedLine(requestLine, lines, line, max, status)
        && s == requestLine + CRLF + (LinesBytes(lines) + (line + CRLF + rest));
      var tail := line + CRLF + rest;
      HeadRun(s, max, requestLine, lines, tail);
      var m := Machine(ExpectHeaders, Head(requestLine, lines), 400, tail);
      HeaderRun(m, max, line, rest);
      EndOfHeadersIsFraming(m.(input := rest), max);
    }
  }

  // ---- from the machine to the grammar ------------------------------------------

  /** The header section the input starts with, if its last line has arrived. */
  lemma {:induction false} HeadersRead(m: Machine, max: nat)
      returns (complete: bool, lines: seq<string>, line: string, rest: string)
    requires m.state == ExpectHeaders
    ensures !complete ==> Loop(m, max).v == More
    ensures complete ==> HeaderLines(lines) && OneLine(line) && ':' !in line
    ensures complete ==> m.input == LinesBytes(lines) + (line + CRLF + rest)
    decreases |m.input|
  {
    var e := FindCrlf(m.input);
    complete, lines, line, rest := false, [], "", "";
    if e < |m.input| {
      SplitLine(m.input);
      line, rest := m.input[..e], m.input[e + 2..];
      complete := true;
      if ':' in line {
        var first, m' := line, Step(m, max).m;
        complete, lines, line, rest := HeadersRead(m', max);
        if complete {
          PrependLine(first, lines, line + CRLF + rest);
          lines := [first] + lines;
        }
      }
    }
  }

  lemma PrependLine(first: string, lines: seq<string>, tail: string)
    ensures first + CRLF + (LinesBytes(lines) + tail) == LinesBytes([first] + lines) + tail
  {
    assert ([first] + lines)[1..] == lines;
  }

  /** Whatever the parser answers, the grammar explains it. */
  lemma AnswerExplained(s: string, max: nat)
    ensures var r := Parse(Start(s), max);
      && (r.v == Done ==> Accepted(s, max, r.m.request, r.m.input))
      && (r.v == Bad ==> Rejected(s, max, r.m.errorStatus))
  {
    var e := FindCrlf(s);
    if e < |s| {
      SplitLine(s);
      var requestLine, after := s[..e], s[e + 2..];
      RequestLineAccepted(FRESH, requestLine);
      RequestLineRun(Start(s), max, requestLine, after);
      if RequestLine(FRESH, requestLine).1 {
        HeadExplained(s, max, requestLine, after);
      } else {
        assert BadRequestLine(requestLine);
      }
    }
  }

  lemma HeadExplained(s: string, max: nat, requestLine: string, after: string)
    requires GoodHead(requestLine, []) && s == requestLine + CRLF + after
    ensures var r := Parse(Start(s), max);
      && (r.v == Done ==> Accepted(s, max, r.m.request, r.m.input))
      && (r.v == Bad ==> Rejected(s, max, r.m.errorStatus))
  {
    RequestLineAccepted(FRESH, requestLine);
    RequestLineRun(Start(s), max, requestLine, after);
    var m := Machine(ExpectHeaders, RequestLine(FRESH, requestLine).0, 400, after);
    var complete, lines, line, rest := HeadersRead(m, max);
    if complete {
      var tail := line + CRLF + rest;
      HeadRun(s, max, requestLine, lines, tail);
      var h := Machine(ExpectHeaders, Head(requestLine, lines), 400, tail);
      HeaderRun(h, max, line, rest);
      EndOfHeadersIsFraming(h.(input := rest), max);
      var f := BodyFraming(h.request, max);
      if line != "" || f.BadLength? || f.TooLarge? {
        var status := if line == "" && f.TooLarge? then 413 else 400;
        assert RejectedLine(requestLine, lines, line, max, status);
      } else if BodyLength(f) <= |rest| {
        var n := BodyLength(f);
        var msg := Message(requestLine, lines, rest[..n]);
        assert Valid(msg, max);
        BodyRead(msg, rest, n);
        ValidParses(msg, max, rest[n..]);
      }
    }
  }

  lemma BodyRead(msg: Message, rest: string, n: nat)
    requires n <= |rest| && msg.body == rest[..n]
    ensures msg.requestLine + CRLF + (LinesBytes(msg.headerLines) + ("" + CRLF + rest))
      == Bytes(msg) + rest[n..]
  {
    assert rest == msg.body + rest[n..];
    BytesSplit(msg, rest[n..]);
  }

  // ---- complete heads ---------------------------------------------------------------

  /** The bytes of a head without its blank line. */
  function HeadBytes(requestLine: string, lines: seq<string>): string {
    requestLine + CRLF + LinesBytes(lines)
  }

  /** A parser that waits in the headers with nothing unread has consumed whole header lines. */
  lemma {:induction false} HeadersConsumed(m: Machine, max: nat) returns (lines: seq<string>)
    requires m.state == ExpectHeaders
    requires var r := Loop(m, max); r.v == More && r.m.state == ExpectHeaders && r.m.input == ""
    ensures HeaderLines(lines) && m.input == LinesBytes(lines)
    ensures Loop(m, max).m.request == WithHeaders(m.request, lines)
    decreases |m.input|
  {
    lines := [];
    if m.input != "" {
      SplitLine(m.input);
      var line := m.input[..FindCrlf(m.input)];
      var m' := Step(m, max).m;
      var rest := HeadersConsumed(m', max);
      PrependLine(line, rest, "");
      assert LinesBytes(rest) + "" == LinesBytes(rest);
      lines := [line] + rest;
    }
  }

  lemma HeadConsumed(s: string, max: nat) returns (requestLine: string, lines: seq<string>)
    requires var r := Parse(Start(s), max); r.v == More && r.m.state == ExpectHeaders && r.m.input == ""
    ensures GoodHead(requestLine, lines) && s == HeadBytes(requestLine, lines)
    ensures Parse(Start(s), max).m.request == Head(requestLine, lines)
  {
    SplitLine(s);
    requestLine := s[..FindCrlf(s)];
    RequestLineAccepted(FRESH, requestLine);
    RequestLineRun(Start(s), max, requestLine, s[FindCrlf(s) + 2..]);
    lines := HeadersConsumed(Machine(ExpectHeaders, RequestLine(FRESH, requestLine).0, 400, s[FindCrlf(s) + 2..]), max);
  }

  /** A line without colon behind a good head that leads to an error is a rejected line. */
  lemma LineRejected(max: nat, requestLine: string, lines: seq<string>, line: string, rest: string)
    requires GoodHead(requestLine, lines) && OneLine(line) && ':' !in line
    requires Parse(Start(HeadBytes(requestLine, lines) + (line + CRLF + rest)), max).v == Bad
    ensures RejectedLine(requestLine, lines, line, max,
                         Parse(Start(HeadBytes(requestLine, lines) + (line + CRLF + rest)), max).m.errorStatus)
  {
    var tail := line + CRLF + rest;
    Assoc(requestLine + CRLF, LinesBytes(lines), tail);
    HeadRun(HeadBytes(requestLine, lines) + tail, max, requestLine, lines, tail);
    var m := Machine(ExpectHeaders, Head(requestLine, lines), 400, tail);
    HeaderRun(m, max, line, rest);
    EndOfHeadersIsFraming(m.(input := rest), max);
  }

  // ---- the theorems ----------------------------------------------------------------

  /** Done, with exactly this request and these unread bytes, if and only if the grammar accepts. */
  lemma DoneIffAccepted(s: string, max: nat, r: Request, rest: string)
    ensures Parse(Start(s), max) == Result(Machine(GotAll, r, 400, rest), Done)
      <==> Accepted(s, max, r, rest)
  {
    if Accepted(s, max, r, rest) {
      var msg: Message :| Valid(msg, max) && s == Bytes(msg) + rest && r == Meaning(msg);
      ValidParses(msg, max, rest);
    }
    AnswerExplained(s, max);
  }

  /** Bad, with exactly this status, if and only if the grammar rejects. */
  lemma BadIffRejected(s: string, max: nat, status: int)
    ensures (Parse(Start(s), max).v == Bad && Parse(Start(s), max).m.errorStatus == status)
      <==> Rejected(s, max, status)
  {
    if Rejected(s, max, status) {
      RejectedFails(s, max, status);
    }
    AnswerExplained(s, max);
  }

  /** The grammar is unambiguous, and nothing is both accepted and rejected. */
  lemma GrammarUnambiguous(s: string, max: nat, r1: Request, rest1: string, r2: Request, rest2: string, status: int)
    requires Accepted(s, max, r1, rest1)
    ensures Accepted(s, max, r2, rest2) ==> r1 == r2 && rest1 == rest2
    ensures !Rejected(s, max, status)
  {
    DoneIffAccepted(s, max, r1, rest1);
    DoneIffAccepted(s, max, r2, rest2);
    BadIffRejected(s, max, status);
  }
}
