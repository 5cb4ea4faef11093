/**
  The incremental HTTP/1.x request parser: a four-state machine that consumes a growing
  input buffer. `Machine`, `Step` and `Loop` say what one call of `parseRequest` does;
  the class `HttpContext` is the parser itself and is proved to do exactly that.
*/
module Parsing {
  import opened Text
  import opened Requests

  datatype ParseState = ExpectRequestLine | ExpectHeaders | ExpectBody | GotAll

  /** The parser together with the unread bytes of its connection. */
  datatype Machine = Machine(state: ParseState, request: Request, errorStatus: int, input: string) {
    function Plus(more: string): Machine {
      this.(input := input + more)
    }
  }

  /** How a call ends: waiting for bytes, with a complete request, or with a syntax error. */
  datatype Verdict = More | Done | Bad

  datatype Progress = Continue(m: Machine) | Stop(m: Machine, v: Verdict)

  datatype Result = Result(m: Machine, v: Verdict)

  function Start(input: string): Machine {
    Machine(ExpectRequestLine, FRESH, 400, input)
  }

  // ---- request line -----------------------------------------------------

  const HTTP10: string := "HTTP/1.0"
  const HTTP11: string := "HTTP/1.1"

  /** The request target: a path, and after the first `?` the query. */
  function WithTarget(r: Request, target: string): Request {
    var q := Find(target, '?');
    if q < |target| then
      r.(path := target[..q], queryParameters := AddQuery(r.queryParameters, target[q + 1..]))
    else r.(path := target)
  }

  /** What `processRequestLine` leaves in the request and whether it accepts the line. */
  function RequestLine(r: Request, line: string): (Request, bool) {
    var sp := Find(line, ' ');
    if sp == |line| then (r, false)
    else
      var r1 := r.(verb := MethodOf(line[..sp]));
      var rest := line[sp + 1..];
      var sp2 := Find(rest, ' ');
      if r1.verb == Invalid || sp2 == |rest| then (r1, false)
      else
        var r2 := WithTarget(r1, rest[..sp2]);
        var version := rest[sp2 + 1..];
        if version == HTTP11 || version == HTTP10 then (r2.(version := version), true)
        else (r2, false)
  }

  // ---- the machine ------------------------------------------------------

  function RequestLineStep(m: Machine): Progress {
    var e := FindCrlf(m.input);
    if e == |m.input| then Stop(m, More)
    else
      var (r, ok) := RequestLine(m.request, m.input[..e]);
      if ok then Continue(Machine(ExpectHeaders, r, m.errorStatus, m.input[e + 2..]))
      else Stop(m.(request := r), Bad)
  }

  /** The decision at the blank line, with the blank line already consumed. */
  function EndOfHeaders(m: Machine, max: nat): Progress {
    if m.request.verb == Post || m.request.verb == Put then
      var field := HeaderOf(m.request.headers, "Content-Length");
      var n := FromChars(field);
      if field == "" || !n.Parsed? || n.consumed != |field| then Stop(m, Bad)
      else if n.value > max then Stop(m.(errorStatus := 413), Bad)
      else
        var r := m.request.(contentLength := n.value);
        if n.value > 0 then Continue(m.(state := ExpectBody, request := r))
        else Stop(m.(state := GotAll, request := r), Done)
    else Stop(m.(state := GotAll), Done)
  }

  function HeaderStep(m: Machine, max: nat): Progress {
    var e := FindCrlf(m.input);
    if e == |m.input| then Stop(m, More)
    else
      var line := m.input[..e];
      var after := m.(input := m.input[e + 2..]);
      if ':' in line then
        Continue(after.(request := m.request.(headers := AddHeaderLine(m.request.headers, line))))
      else if line == "" then EndOfHeaders(after, max)
      else Stop(after, Bad)
  }

  function BodyStep(m: Machine): Progress {
    var n := m.request.contentLength;
    if |m.input| < n then Stop(m, More)
    else Stop(Machine(GotAll, m.request.(content := m.input[..n]), m.errorStatus, m.input[n..]), Done)
  }

  function Step(m: Machine, max: nat): (p: Progress)
    requires m.state != GotAll
    ensures p.Continue? ==> p.m.state != GotAll && |p.m.input| < |m.input|
    ensures p.Stop? ==> (p.v == Done <==> p.m.state == GotAll)
  {
    match m.state
    case ExpectRequestLine => RequestLineStep(m)
    case ExpectHeaders => HeaderStep(m, max)
    case ExpectBody => BodyStep(m)
  }

  /** Steps until one of them stops. Every other step consumes input, so the loop ends. */
  function Loop(m: Machine, max: nat): (r: Result)
    requires m.state != GotAll
    ensures r.v == Done <==> r.m.state == GotAll
    decreases |m.input|
  {
    match Step(m, max)
    case Continue(m') => Loop(m', max)
    case Stop(m', v) => Result(m', v)
  }

  /** One call of `parseRequest`. */
  function Parse(m: Machine, max: nat): (r: Result)
    requires m.state != GotAll
    ensures r.v == Done <==> r.m.state == GotAll
  {
    Loop(m.(errorStatus := 400), max)
  }

  /**
    A call that would stop in the assertion of `setMethod`: a line with a space is processed
    as a request line although the method is set already.
  */
  predicate Aborts(m: Machine) {
    m.state == ExpectRequestLine && m.request.verb != Invalid
    && FindCrlf(m.input) < |m.input| && ' ' in m.input[..FindCrlf(m.input)]
  }

  // ---- the imperative parser ---------------------------------------------

  /** The readable part of `muduo::net::Buffer`. */
  class Buffer {
    var data: string

    constructor ()
      ensures data == ""
    {
      data := "";
    }

    method Append(more: string)
      modifies this
      ensures data == old(data) + more
    {
      data := data + more;
    }

    method Retrieve(n: nat)
      requires n <= |data|
      modifies this
      ensures data == old(data)[n..]
    {
      data := data[n..];
    }
  }

  class HttpContext {
    var state: ParseState
    var parseErrorStatus: int
    const request: HttpRequest
    const maxBodyBytes: nat

    ghost function Abs(buf: Buffer): Machine
      reads this, request, buf
    {
      Machine(state, request.Value(), parseErrorStatus, buf.data)
    }

    constructor (maxBodyBytes: nat)
      requires maxBodyBytes < UINT64_LIMIT
      ensures this.maxBodyBytes == maxBodyBytes && fresh(request)
      ensures state == ExpectRequestLine && parseErrorStatus == 400 && request.Value() == FRESH
    {
      state := ExpectRequestLine;
      parseErrorStatus := 400;
      request := new HttpRequest();
      this.maxBodyBytes := maxBodyBytes;
    }

    method ProcessRequestLine(line: string) returns (ok: bool)
      requires ' ' in line ==> request.verb == Invalid
      modifies request
      ensures (request.Value(), ok) == RequestLine(old(request.Value()), line)
    {
      ok := false;
      var space := Find(line, ' ');
      if space != |line| {
        var methodOk := request.SetMethod(line[..space]);
        if methodOk {
          var rest := line[space + 1..];
          space := Find(rest, ' ');
          if space != |rest| {
            ProcessTarget(rest[..space]);
            ok := ProcessVersion(rest[space + 1..]);
          }
        }
      }
    }

    /** The part of `processRequestLine` that reads the request target. */
    method ProcessTarget(target: string)
      modifies request
      ensures request.Value() == WithTarget(old(request.Value()), target)
    {
      var argumentStart := Find(target, '?');
      if argumentStart != |target| {
        request.SetPath(target[..argumentStart]);
        request.SetQueryParameters(target[argumentStart + 1..]);
      } else {
        request.SetPath(target);
      }
    }

    /** The part of `processRequestLine` that reads the version. */
    method ProcessVersion(version: string) returns (ok: bool)
      modifies request
      ensures ok == (version == HTTP11 || version == HTTP10)
      ensures request.Value()
        == (if ok then old(request.Value()).(version := version) else old(request.Value()))
    {
      ok := |version| == 8 && version[..7] == "HTTP/1.";
      if ok {
        assert version == version[..7] + [version[7]];
        if version[7] == '1' {
          request.SetVersion(HTTP11);
        } else if version[7] == '0' {
          request.SetVersion(HTTP10);
        } else {
          ok := false;
        }
      }
    }

    /** The blank line that ends the headers. `more` says whether to go on reading. */
    method FinishHeaders() returns (ok: bool, more: bool)
      modifies this`state, this`parseErrorStatus, request
      ensures forall input: string ::
        var was := Machine(old(state), old(request.Value()), old(parseErrorStatus), input);
        var now := Machine(state, request.Value(), parseErrorStatus, input);
        EndOfHeaders(was, maxBodyBytes)
          == (if more then Continue(now) else Stop(now, if ok then Done else Bad))
      ensures more ==> ok
    {
      ok, more := true, true;
      if request.verb == Post || request.verb == Put {
        var contentLength := request.GetHeader("Content-Length");
        if contentLength != "" {
          var n := FromChars(contentLength);
          if !n.Parsed? || n.consumed != |contentLength| {
            ok, more := false, false;
          } else if n.value > maxBodyBytes {
            parseErrorStatus := 413;
            ok, more := false, false;
          } else {
            request.SetContentLength(n.value);
            if request.contentLength > 0 {
              state := ExpectBody;
            } else {
              state := GotAll;
              more := false;
            }
          }
        } else {
          ok, more := false, false;
        }
      } else {
        state := GotAll;
        more := false;
      }
    }

    /** What one round of the loop in `parseRequest` did. */
    ghost predicate Stepped(was: Machine, buf: Buffer, ok: bool, more: bool)
      requires was.state != GotAll
      reads this, request, buf
    {
      Step(was, maxBodyBytes)
        == (if more then Continue(Abs(buf))
            else Stop(Abs(buf), if !ok then Bad else if state == GotAll then Done else More))
      && (more ==> ok)
    }

    method ParseLine(buf: Buffer) returns (ok: bool, more: bool)
      requires state == ExpectRequestLine && !Aborts(Abs(buf))
      modifies this, request, buf
      ensures Stepped(old(Abs(buf)), buf, ok, more)
      ensures more ==> state == ExpectHeaders
    {
      ok, more := true, false;
      var crlf := FindCrlf(buf.data);
      if crlf < |buf.data| {
        ok := ProcessRequestLine(buf.data[..crlf]);
        if ok {
          buf.Retrieve(crlf + 2);
          state := ExpectHeaders;
          more := true;
        }
      }
    }

    method ParseHeader(buf: Buffer) returns (ok: bool, more: bool)
      requires state == ExpectHeaders
      modifies this, request, buf
      ensures Stepped(old(Abs(buf)), buf, ok, more)
      ensures more ==> state == ExpectHeaders || state == ExpectBody
    {
      ok, more := true, false;
      var crlf := FindCrlf(buf.data);
      if crlf < |buf.data| {
        var line := buf.data[..crlf];
        var colon := Find(line, ':');
        if colon < crlf {
          request.AddHeader(line, colon);
          more := true;
        } else if crlf == 0 {
          ok, more := FinishHeaders();
        } else {
          ok := false;
        }
        buf.Retrieve(crlf + 2);
      }
    }

    method ParseBody(buf: Buffer)
      requires state == ExpectBody
      modifies this, request, buf
      ensures Stepped(old(Abs(buf)), buf, true, false)
    {
      if |buf.data| >= request.contentLength {
        request.SetBody(buf.data[..request.contentLength]);
        buf.Retrieve(request.contentLength);
        state := GotAll;
      }
    }

    /** Whether a call of `parseRequest` would stop in the assertion of `setMethod`. */
    method AssertionFails(buf: Buffer) returns (fails: bool)
      ensures fails == Aborts(Abs(buf))
    {
      var crlf := FindCrlf(buf.data);
      fails := state == ExpectRequestLine && request.verb != Invalid
        && crlf < |buf.data| && ' ' in buf.data[..crlf];
    }

    /** `parseRequest`. In state `GotAll` the loop would never end; the driver's reset rules that out. */
    method ParseRequest(buf: Buffer) returns (ok: bool)
      requires state != GotAll && !Aborts(Abs(buf))
      modifies this, request, buf
      ensures Abs(buf) == Parse(old(Abs(buf)), maxBodyBytes).m
      ensures ok == (Parse(old(Abs(buf)), maxBodyBytes).v != Bad)
    {
      parseErrorStatus := 400;
      ok := true;
      var hasMore := true;
      ghost var r := Loop(Abs(buf), maxBodyBytes);
      while hasMore
        invariant hasMore ==> state != GotAll
        invariant hasMore ==> !Aborts(Abs(buf))
        invariant hasMore ==> Loop(Abs(buf), maxBodyBytes) == r
        invariant !hasMore ==> r.m == Abs(buf) && ok == (r.v != Bad)
        decreases hasMore, |buf.data|
      {
        if state == ExpectRequestLine {
          ok, hasMore := ParseLine(buf);
        } else if state == ExpectHeaders {
          ok, hasMore := ParseHeader(buf);
        } else {
          ParseBody(buf);
          ok, hasMore := true, false;
        }
      }
    }

    method Reset()
      modifies this, request
      ensures state == ExpectRequestLine && parseErrorStatus == 400
      ensures request.Value() == FRESH
    {
      state := ExpectRequestLine;
      parseErrorStatus := 400;
      var dummy := new HttpRequest();
      request.Swap(dummy);
    }
  }
}
