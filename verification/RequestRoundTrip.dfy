/** What a client prints is what the server's parser reads. */
module RequestRoundTrip {
  import opened Common
  import opened Text
  import opened Requests
  import opened Parsing
  import opened Grammar
  import Server

  type Pairs = seq<(string, string)>

  /** A request together with the order, and for header names the case, in which its fields are sent. */
  datatype Printed = Printed(request: Request, query: Pairs, fields: Pairs)

  function MethodName(m: Method): string
    requires m != Invalid && m != Head
  {
    match m
    case Get => "GET"
    case Post => "POST"
    case Put => "PUT"
    case Delete => "DELETE"
    case Options => "OPTIONS"
  }

  function PrintQuery(query: Pairs): string
    requires query != []
  {
    var pair := query[0].0 + "=" + query[0].1;
    if |query| == 1 then pair else pair + "&" + PrintQuery(query[1..])
  }

  function Target(path: string, query: Pairs): string {
    if query == [] then path else path + "?" + PrintQuery(query)
  }

  /** The parameters a list of pairs stands for; the last of equal keys wins. */
  function Overlay(m: Fields, query: Pairs): Fields
    decreases |query|
  {
    if query == [] then m else Overlay(m[query[0].0 := query[0].1], query[1..])
  }

  function FieldLines(fields: Pairs): seq<string> {
    seq(|fields|, i requires 0 <= i < |fields| => FieldLine(fields[i].0, fields[i].1))
  }

  /** The header map a list of fields stands for, under lower-case names. */
  function OverlayLower(m: Fields, fields: Pairs): Fields
    decreases |fields|
  {
    if fields == [] then m else OverlayLower(m[Lower(fields[0].0) := fields[0].1], fields[1..])
  }

  function RequestLineOf(p: Printed): string
    requires p.request.verb != Invalid && p.request.verb != Head
  {
    MethodName(p.request.verb) + " " + Target(p.request.path, p.query) + " " + p.request.version
  }

  function MessageOf(p: Printed): Message
    requires p.request.verb != Invalid && p.request.verb != Head
  {
    Message(RequestLineOf(p), FieldLines(p.fields), p.request.content)
  }

  function Print(p: Printed): string
    requires p.request.verb != Invalid && p.request.verb != Head
  {
    Bytes(MessageOf(p))
  }

  ghost predicate GoodPair(pair: (string, string)) {
    && '=' !in pair.0 && '&' !in pair.0 && ' ' !in pair.0
    && '&' !in pair.1 && ' ' !in pair.1
  }

  ghost predicate GoodField(field: (string, string)) {
    ':' !in field.0 && Trimmed(field.1) && OneLine(FieldLine(field.0, field.1))
  }

  /** A body is sent only by POST and PUT, and then its length is declared. */
  ghost predicate GoodBody(r: Request, max: nat) {
    && r.contentLength == |r.content|
    && if r.verb == Post || r.verb == Put then
         var field := HeaderOf(r.headers, "Content-Length");
         field != "" && AllDigits(field) && DecimalValue(field) == |r.content|
         && |r.content| <= max && |r.content| < UINT64_LIMIT
       else r.content == ""
  }

  ghost predicate Printable(p: Printed, max: nat) {
    var r := p.request;
    && r.verb != Invalid && r.verb != Head && r.version in {HTTP11, HTTP10}
    && ' ' !in r.path && '?' !in r.path
    && r.pathParameters == map[]
    && (forall i | 0 <= i < |p.query| :: GoodPair(p.query[i]))
    && (forall i | 0 <= i < |p.fields| :: GoodField(p.fields[i]))
    && r.queryParameters == Overlay(map[], p.query)
    && r.headers == OverlayLower(map[], p.fields)
    && OneLine(RequestLineOf(p))
    && GoodBody(r, max)
  }

  // ---- the query -----------------------------------------------------------------

  lemma PairRead(m: Fields, pair: (string, string))
    requires GoodPair(pair)
    ensures AddPair(m, pair.0 + "=" + pair.1) == m[pair.0 := pair.1]
    ensures '&' !in pair.0 + "=" + pair.1 && ' ' !in pair.0 + "=" + pair.1
  {
    FindJoin(pair.0, '=', pair.1);
  }

  lemma {:induction false} QueryRead(m: Fields, query: Pairs)
    requires query != [] && forall i | 0 <= i < |query| :: GoodPair(query[i])
    ensures AddQuery(m, PrintQuery(query)) == Overlay(m, query)
    ensures ' ' !in PrintQuery(query)
    decreases |query|
  {
    var pair := query[0].0 + "=" + query[0].1;
    PairRead(m, query[0]);
    if |query| == 1 {
      NoAmpersand(m, pair);
      assert Overlay(m[query[0].0 := query[0].1], query[1..]) == m[query[0].0 := query[0].1];
    } else {
      QueryRead(AddPair(m, pair), query[1..]);
      FindJoin(pair, '&', PrintQuery(query[1..]));
    }
  }

  lemma NoAmpersand(m: Fields, pair: string)
    requires '&' !in pair
    ensures AddQuery(m, pair) == AddPair(m, pair)
  {
    FindUnique(pair, '&', |pair|);
  }

  lemma TargetRead(r: Request, path: string, query: Pairs)
    requires ' ' !in path && '?' !in path && forall i | 0 <= i < |query| :: GoodPair(query[i])
    ensures WithTarget(r, Target(path, query))
      == r.(path := path, queryParameters := Overlay(r.queryParameters, query))
    ensures ' ' !in Target(path, query)
  {
    if query == [] {
      FindUnique(path, '?', |path|);
    } else {
      QueryRead(r.queryParameters, query);
      FindJoin(path, '?', PrintQuery(query));
    }
  }

  /** A part of a query without `=` is skipped, wherever it stands. */
  lemma FlagSkipped(m: Fields, flag: string, rest: string)
    requires '=' !in flag && '&' !in flag
    ensures AddQuery(m, flag) == m && AddQuery(m, flag + "&" + rest) == AddQuery(m, rest)
  {
    NoAmpersand(m, flag);
    FindUnique(flag, '=', |flag|);
    FindJoin(flag, '&', rest);
  }

  /** A target with such a query has its path and no parameters. */
  lemma FlagTarget(r: Request, path: string, flag: string)
    requires '?' !in path && '=' !in flag && '&' !in flag
    ensures WithTarget(r, path + "?" + flag) == r.(path := path)
  {
    FindJoin(path, '?', flag);
    FlagSkipped(r.queryParameters, flag, "");
  }

  /** So a request line with such a target is accepted, with its path and no parameters. */
  lemma FlagLine(path: string, flag: string)
    requires ' ' !in path && '?' !in path && '=' !in flag && '&' !in flag && ' ' !in flag
    ensures RequestLine(FRESH, "GET" + " " + (path + "?" + flag) + " " + HTTP11)
      == (FRESH.(verb := Get, path := path, version := HTTP11), true)
  {
    var target := path + "?" + flag;
    var line := "GET" + " " + target + " " + HTTP11;
    assert IsRequestLine(line, "GET", target, HTTP11);
    RequestLineBuilt(FRESH, line, "GET", target, HTTP11);
    MethodNameRead(Get);
    FlagTarget(FRESH.(verb := Get), path, flag);
  }

  // ---- the header fields ------------------------------------------------------------

  /** Tabs and spaces around a value do not belong to it. */
  lemma TabBeforeValue(m: Fields, name: string, value: string)
    requires ':' !in name && Trimmed(value)
    ensures ':' in name + ":" + ("\t" + value + " \t")
    ensures AddHeaderLine(m, name + ":" + ("\t" + value + " \t")) == m[Lower(name) := value]
  {
    FindJoin(name, ':', "\t" + value + " \t");
    TrimPadded("\t", value, " \t");
  }

  lemma {:induction false} FieldsRead(m: Fields, fields: Pairs)
    requires forall i | 0 <= i < |fields| :: GoodField(fields[i])
    ensures HeaderLines(FieldLines(fields))
    ensures WithLines(m, FieldLines(fields)) == OverlayLower(m, fields)
    decreases |fields|
  {
    forall i | 0 <= i < |fields| ensures ':' in FieldLine(fields[i].0, fields[i].1) {
      FieldRead(m, fields[i].0, fields[i].1);
    }
    if fields != [] {
      FieldRead(m, fields[0].0, fields[0].1);
      FieldsRead(m[Lower(fields[0].0) := fields[0].1], fields[1..]);
      assert FieldLines(fields)[1..] == FieldLines(fields[1..]);
    }
  }

  /** The last field sent under a name is found under every capitalisation of the name. */
  lemma {:induction false} SentFieldFound(m: Fields, fields: Pairs, i: nat, asked: string)
    requires i < |fields| && SameText(asked, fields[i].0)
    requires forall j | i < j < |fields| :: !SameText(fields[j].0, asked)
    ensures HeaderOf(OverlayLower(m, fields), asked) == fields[i].1
    decreases |fields|
  {
    var m' := m[Lower(fields[0].0) := fields[0].1];
    if i > 0 {
      SentFieldFound(m', fields[1..], i - 1, asked);
    } else {
      LowerIff(asked, fields[0].0);
      forall j | 0 <= j < |fields[1..]| ensures Lower(fields[1..][j].0) != Lower(asked) {
        LowerIff(fields[j + 1].0, asked);
      }
      OthersKept(m', fields[1..], Lower(asked));
    }
  }

  lemma {:induction false} OthersKept(m: Fields, fields: Pairs, key: string)
    requires key in m && forall j | 0 <= j < |fields| :: Lower(fields[j].0) != key
    ensures key in OverlayLower(m, fields) && OverlayLower(m, fields)[key] == m[key]
    decreases |fields|
  {
    if fields != [] {
      OthersKept(m[Lower(fields[0].0) := fields[0].1], fields[1..], key);
    }
  }

  // ---- the request ---------------------------------------------------------------------

  lemma MethodNameRead(m: Method)
    requires m != Invalid && m != Head
    ensures MethodName(m) in METHOD_NAMES && MethodOf(MethodName(m)) == m
  {}

  lemma PrintedHead(p: Printed, max: nat)
    requires Printable(p, max)
    ensures var msg := MessageOf(p);
      GoodHead(msg.requestLine, msg.headerLines)
      && Grammar.Head(msg.requestLine, msg.headerLines) == p.request.(content := "", contentLength := 0)
  {
    var r := p.request;
    MethodNameRead(r.verb);
    TargetRead(FRESH.(verb := r.verb), r.path, p.query);
    var target := Target(r.path, p.query);
    assert IsRequestLine(RequestLineOf(p), MethodName(r.verb), target, r.version);
    RequestLineBuilt(FRESH, RequestLineOf(p), MethodName(r.verb), target, r.version);
    FieldsRead(map[], p.fields);
  }

  /**
    A printed request is a valid message that means the request; so it is parsed back
    exactly, whatever follows it on the connection.
  */
  lemma PrintThenParse(p: Printed, max: nat, rest: string)
    requires Printable(p, max)
    ensures Valid(MessageOf(p), max) && Meaning(MessageOf(p)) == p.request
    ensures Parse(Start(Print(p) + rest), max) == Result(Machine(GotAll, p.request, 400, rest), Done)
  {
    PrintedHead(p, max);
    var r := p.request;
    var h := r.(content := "", contentLength := 0);
    assert BodyFraming(h, max) ==
      (if r.verb == Post || r.verb == Put then BodyOf(|r.content|) else NoBody);
    ValidParses(MessageOf(p), max, rest);
  }

  ghost predicate AllPrintable(ps: seq<Printed>, max: nat) {
    ps == [] || (Printable(ps[0], max) && AllPrintable(ps[1..], max))
  }

  ghost function PrintAll(ps: seq<Printed>, max: nat): string
    requires AllPrintable(ps, max)
  {
    if ps == [] then "" else Print(ps[0]) + PrintAll(ps[1..], max)
  }

  function RequestsOf(ps: seq<Printed>): seq<Request> {
    if ps == [] then [] else [ps[0].request] + RequestsOf(ps[1..])
  }

  /** A pipeline of printed requests is read as exactly those requests, in order. */
  lemma {:induction false} PipelineThenStream(ps: seq<Printed>, max: nat)
    requires AllPrintable(ps, max)
    ensures Server.Stream(PrintAll(ps, max), max) == RequestsOf(ps)
    decreases |ps|
  {
    if ps == [] {
      assert Server.Stream("", max) == [];
    } else {
      PipelineThenStream(ps[1..], max);
      PrintThenParse(ps[0], max, PrintAll(ps[1..], max));
      Server.StreamOfMessage(MessageOf(ps[0]), max, PrintAll(ps[1..], max));
    }
  }
}
