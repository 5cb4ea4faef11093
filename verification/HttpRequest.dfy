/** The request object: its fields, the setters that fill them, and what those setters mean. */
module Requests {
  import opened Text

  datatype Method = Invalid | Get | Post | Head | Put | Delete | Options

  type Fields = map<string, string>

  /** The value of a request object. The receive time is not part of it. */
  datatype Request = Request(
    verb: Method,
    version: string,
    path: string,
    pathParameters: Fields,
    queryParameters: Fields,
    headers: Fields,
    content: string,
    contentLength: nat)

  /** A freshly constructed request. */
  const FRESH: Request := Request(Invalid, "Unknown", "", map[], map[], map[], "", 0)

  /** The method a request line may name. HEAD is not recognised. */
  function MethodOf(m: string): Method {
    if m == "GET" then Get
    else if m == "POST" then Post
    else if m == "PUT" then Put
    else if m == "DELETE" then Delete
    else if m == "OPTIONS" then Options
    else Invalid
  }

  /** One `key=value` pair of a query; a pair without `=` is skipped. */
  function AddPair(m: Fields, pair: string): Fields {
    var e := Find(pair, '=');
    if e < |pair| then m[pair[..e] := pair[e + 1..]] else m
  }

  /** A whole query string: the pairs between `&`s, a later pair overriding an earlier one. */
  function AddQuery(m: Fields, query: string): Fields
    decreases |query|
  {
    var a := Find(query, '&');
    if a == |query| then AddPair(m, query)
    else AddQuery(AddPair(m, query[..a]), query[a + 1..])
  }

  lemma AddQueryStep(m: Fields, query: string, prev: nat, pos: nat)
    requires prev <= pos < |query| && pos == prev + Find(query[prev..], '&')
    ensures AddQuery(m, query[prev..]) == AddQuery(AddPair(m, query[prev..pos]), query[pos + 1..])
  {
    var rest := query[prev..];
    SliceOfSlice(query, prev, pos);
    SliceOfSlice(query, prev, pos + 1);
    FirstPair(m, rest, pos - prev);
  }

  lemma FirstPair(m: Fields, query: string, a: nat)
    requires a == Find(query, '&') < |query|
    ensures AddQuery(m, query) == AddQuery(AddPair(m, query[..a]), query[a + 1..])
  {}

  /** The header field a line stands for, given where its colon is. */
  function AddHeaderLine(m: Fields, line: string): Fields
    requires ':' in line
  {
    var c := Find(line, ':');
    m[Lower(line[..c]) := Trim(line[c + 1..])]
  }

  function HeaderOf(m: Fields, field: string): string {
    var key := Lower(field);
    if key in m then m[key] else ""
  }

  /** A field that was sent under one name is found under every capitalisation of that name, and no other. */
  lemma HeaderNameCaseInsensitive(m: Fields, name: string, value: string, asked: string)
    requires ':' !in name
    ensures ':' in name + ":" + value
    ensures HeaderOf(AddHeaderLine(m, name + ":" + value), asked)
      == (if SameText(asked, name) then Trim(value) else HeaderOf(m, asked))
  {
    FindJoin(name, ':', value);
    LowerIff(asked, name);
  }

  /** `toLowerAsciiInPlace` */
  method ToLowerAscii(s: string) returns (r: string)
    ensures r == Lower(s) && SameText(s, r) && NoUpper(r)
  {
    LowerIs(s, Lower(s));
    r := s;
    for i := 0 to |s|
      invariant |r| == |s|
      invariant forall k | 0 <= k < i :: r[k] == LowerChar(s[k])
      invariant forall k | i <= k < |s| :: r[k] == s[k]
    {
      r := r[i := LowerChar(r[i])];
    }
    assert r == Lower(s);
  }

  class HttpRequest {
    var verb: Method
    var version: string
    var path: string
    var pathParameters: Fields
    var queryParameters: Fields
    var headers: Fields
    var content: string
    var contentLength: nat

    function Value(): Request
      reads this
    {
      Request(verb, version, path, pathParameters, queryParameters, headers, content, contentLength)
    }

    constructor ()
      ensures Value() == FRESH
    {
      verb, version, path := Invalid, "Unknown", "";
      pathParameters, queryParameters, headers := map[], map[], map[];
      content, contentLength := "", 0;
    }

    /** The method may be set only once between two resets. */
    method SetMethod(m: string) returns (ok: bool)
      requires verb == Invalid
      modifies this
      ensures Value() == old(Value()).(verb := MethodOf(m))
      ensures ok <==> MethodOf(m) != Invalid
    {
      if m == "GET" {
        verb := Get;
      } else if m == "POST" {
        verb := Post;
      } else if m == "PUT" {
        verb := Put;
      } else if m == "DELETE" {
        verb := Delete;
      } else if m == "OPTIONS" {
        verb := Options;
      } else {
        verb := Invalid;
      }
      ok := verb != Invalid;
    }

    method SetPath(p: string)
      modifies this
      ensures Value() == old(Value()).(path := p)
    {
      path := p;
    }

    method SetVersion(v: string)
      modifies this
      ensures Value() == old(Value()).(version := v)
    {
      version := v;
    }

    /** Walks the query with the positions of the previous and the next `&`. */
    method SetQueryParameters(query: string)
      modifies this`queryParameters
      ensures queryParameters == AddQuery(old(queryParameters), query)
    {
      var prev := 0;
      var pos := Find(query, '&');
      while pos < |query|
        invariant 0 <= prev <= pos <= |query|
        invariant pos == prev + Find(query[prev..], '&')
        invariant AddQuery(queryParameters, query[prev..]) == AddQuery(old(queryParameters), query)
        decreases |query| - prev
      {
        AddQueryStep(queryParameters, query, prev, pos);
        SetQueryPair(query[prev..pos]);
        prev := pos + 1;
        pos := prev + Find(query[prev..], '&');
      }
      SetQueryPair(query[prev..]);
    }

    method SetQueryPair(pair: string)
      modifies this`queryParameters
      ensures queryParameters == AddPair(old(queryParameters), pair)
    {
      var equal := Find(pair, '=');
      if equal < |pair| {
        queryParameters := queryParameters[pair[..equal] := pair[equal + 1..]];
      }
    }

    /** `addHeader(start, colon, end)` on the bytes of one line. */
    method AddHeader(line: string, colon: nat)
      requires colon < |line| && colon == Find(line, ':')
      modifies this
      ensures Value() == old(Value()).(headers := AddHeaderLine(old(headers), line))
    {
      var key := ToLowerAscii(line[..colon]);
      var start := colon + 1;
      while start < |line| && IsSpace(line[start])
        invariant colon + 1 <= start <= |line|
        invariant TrimLeft(line[start..]) == TrimLeft(line[colon + 1..])
      {
        assert line[start..][1..] == line[start + 1..];
        start := start + 1;
      }
      var value := line[start..];
      while value != "" && IsSpace(value[|value| - 1])
        invariant TrimRight(value) == Trim(line[colon + 1..])
        decreases |value|
      {
        value := value[..|value| - 1];
      }
      headers := headers[key := value];
    }

    method GetHeader(field: string) returns (value: string)
      ensures value == HeaderOf(headers, field)
    {
      value := "";
      var key := ToLowerAscii(field);
      if key in headers {
        value := headers[key];
      }
    }

    method SetBody(body: string)
      modifies this
      ensures Value() == old(Value()).(content := body)
    {
      content := body;
    }

    method SetContentLength(length: nat)
      modifies this
      ensures Value() == old(Value()).(contentLength := length)
    {
      contentLength := length;
    }

    /** Exchanges every field of two requests. */
    method Swap(that: HttpRequest)
      modifies this, that
      ensures Value() == old(that.Value()) && that.Value() == old(Value())
    {
      verb, that.verb := that.verb, verb;
      path, that.path := that.path, path;
      pathParameters, that.pathParameters := that.pathParameters, pathParameters;
      queryParameters, that.queryParameters := that.queryParameters, queryParameters;
      version, that.version := that.version, version;
      headers, that.headers := that.headers, headers;
      content, that.content := that.content, content;
      contentLength, that.contentLength := that.contentLength, contentLength;
    }
  }
}
