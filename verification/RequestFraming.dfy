/**
  Where the server and section 6.3 of RFC 9112 agree about the body of a request, and where
  they do not. The server looks at the method, takes the last Content-Length and ignores
  Transfer-Encoding.
*/
module RequestFraming {
  import opened Common
  import opened Text
  import opened Requests
  import opened Parsing
  import opened Grammar
  import opened MessageFraming
  import Server

  /** The last field of a name is the one that the server keeps. */
  lemma {:induction false} LastValueKept(m: Fields, lines: seq<string>, field: string)
    requires forall i | 0 <= i < |lines| :: ':' in lines[i]
    ensures var values := ValuesOf(lines, field);
      HeaderOf(WithLines(m, lines), field) == (if values == [] then HeaderOf(m, field) else values[|values| - 1])
    decreases |lines|
  {
    if lines != [] {
      LastValueKept(AddHeaderLine(m, lines[0]), lines[1..], field);
      LowerIff(lines[0][..Find(lines[0], ':')], field);
    }
  }

  lemma {:induction false} SameValues(lines: seq<string>, a: string, b: string)
    requires SameText(a, b)
    ensures ValuesOf(lines, a) == ValuesOf(lines, b)
    decreases |lines|
  {
    if lines != [] {
      SameValues(lines[1..], a, b);
      var name := lines[0][..Find(lines[0], ':')];
      LowerIff(a, b);
      LowerIff(name, a);
      LowerIff(name, b);
    }
  }

  /** What the server reads as Content-Length. */
  function Declared(lines: seq<string>): string {
    var values := ValuesOf(lines, LENGTH_NAME);
    if values == [] then "" else values[|values| - 1]
  }

  lemma DeclaredKept(requestLine: string, lines: seq<string>)
    requires forall i | 0 <= i < |lines| :: ':' in lines[i]
    ensures HeaderOf(Grammar.Head(requestLine, lines).headers, "Content-Length") == Declared(lines)
  {
    LengthNames();
    LastValueKept(map[], lines, "Content-Length");
    SameValues(lines, "Content-Length", LENGTH_NAME);
  }

  predicate SendsBody(r: Request) {
    r.verb == Post || r.verb == Put
  }

  /**
    For a head that the server accepts, its body has the length that the standard gives it if
    and only if there is no Transfer-Encoding, all Content-Lengths are one number, if any, and
    a method other than POST and PUT declares nothing but zero.
  */
  lemma FramingAgreesIff(requestLine: string, lines: seq<string>, max: nat)
    requires GoodHead(requestLine, lines)
    requires var f := BodyFraming(Grammar.Head(requestLine, lines), max); f.NoBody? || f.BodyOf?
    ensures var r, lengths := Grammar.Head(requestLine, lines), AllMembers(ValuesOf(lines, LENGTH_NAME));
      RequestBody(lines) == Length(BodyLength(BodyFraming(r, max)))
      <==>
      && ValuesOf(lines, TRANSFER_ENCODING) == []
      && (lengths == [] || (OneNumber(lengths) && (SendsBody(r) || DecimalValue(lengths[0]) == 0)))
  {
    DeclaredKept(requestLine, lines);
    if SendsBody(Grammar.Head(requestLine, lines)) {
      DeclaredIsMember(lines);
    }
  }

  /** A declared number is the last of all lengths. */
  lemma DeclaredIsMember(lines: seq<string>)
    requires IsNumber(Declared(lines))
    ensures var lengths := AllMembers(ValuesOf(lines, LENGTH_NAME));
      lengths != [] && lengths[|lengths| - 1] == Declared(lines)
  {
    ValuesTrimmed(lines, LENGTH_NAME);
    LastMember(ValuesOf(lines, LENGTH_NAME));
  }

  /**
    Of the heads that the standard gives a length, the server rejects those of POST and PUT that
    do not end in a plain number: without Content-Length, with a list, or too large.
  */
  lemma RejectedThoughFramed(requestLine: string, lines: seq<string>, max: nat)
    requires GoodHead(requestLine, lines) && RequestBody(lines).Length?
    ensures var r, n := Grammar.Head(requestLine, lines), RequestBody(lines).n;
      var plain := Declared(lines) != "" && ',' !in Declared(lines);
      && (BodyFraming(r, max) == BadLength <==> SendsBody(r) && (!plain || n >= UINT64_LIMIT))
      && (BodyFraming(r, max) == TooLarge <==> SendsBody(r) && plain && max < n < UINT64_LIMIT)
  {
    DeclaredKept(requestLine, lines);
    var values := ValuesOf(lines, LENGTH_NAME);
    if values != [] && ',' !in Declared(lines) {
      ValuesTrimmed(lines, LENGTH_NAME);
      LastMember(values);
    }
  }

  /**
    A request of another method that declares the length of what follows is handled without a
    body, and its declared body is handled as a request of its own.
  */
  lemma BodyHandledAsRequest(max: nat, requestLine: string, second: Message)
    requires GoodHead(requestLine, []) && !SendsBody(Grammar.Head(requestLine, [])) && Valid(second, max)
    ensures var first := Message(requestLine, [FieldLine("Content-Length", ToDecimal(|Bytes(second)|))], "");
      && Valid(first, max) && RequestBody(first.headerLines) == Length(|Bytes(second)|)
      && Server.Stream(Bytes(first) + Bytes(second), max) == [Meaning(first), Meaning(second)]
  {
    var n := |Bytes(second)|;
    var line := FieldLine("Content-Length", ToDecimal(n));
    LengthLineRead(n);
    assert HeaderLines([line]);
    var first := Message(requestLine, [line], "");
    assert Valid(first, max);
    Server.TwoStreamed(max, first, second);
  }

  lemma LengthLineRead(n: nat)
    ensures var line := FieldLine("Content-Length", ToDecimal(n));
      OneLine(line) && ':' in line && RequestBody([line]) == Length(n)
  {
    var digits := ToDecimal(n);
    LengthLineShape(digits);
    LengthLineValues(n);
    DigitsOneMember(digits);
  }

  lemma LengthLineShape(digits: string)
    requires AllDigits(digits)
    ensures OneLine(FieldLine("Content-Length", digits)) && ':' in FieldLine("Content-Length", digits)
  {
    assert '\r' !in digits;
    Server.NoCarriageReturn(FieldLine("Content-Length", digits));
    FieldName("Content-Length", digits);
    assert FieldLine("Content-Length", digits)[14] == ':';
  }

  lemma LengthLineValues(n: nat)
    ensures var line := FieldLine("Content-Length", ToDecimal(n));
      ValuesOf([line], LENGTH_NAME) == [ToDecimal(n)] && ValuesOf([line], TRANSFER_ENCODING) == []
  {
    LengthNames();
    TrimDecimal(n);
    OneFieldValue("Content-Length", ToDecimal(n), LENGTH_NAME);
    OneFieldValue("Content-Length", ToDecimal(n), TRANSFER_ENCODING);
  }

  lemma DigitsOneMember(digits: string)
    requires IsNumber(digits)
    ensures AllMembers([digits]) == [digits]
  {
    SingleMember(digits);
    assert [digits][1..] == [] && [digits] + [] == [digits];
  }

  /** Concrete bytes: a GET that declares 18 bytes, and 18 bytes that are a GET. */
  lemma GetBodyHandled(line: string, max: nat)
    requires line == "GET / HTTP/1.1"
    ensures var second := Message(line, [], "");
      var first := Message(line, [FieldLine("Content-Length", ToDecimal(18))], "");
      && RequestBody(first.headerLines) == Length(18) && |Bytes(second)| == 18
      && Server.Stream(Bytes(first) + Bytes(second), max) == [Meaning(first), Meaning(second)]
  {
    Server.HomeValid(line, max);
    BodyHandledAsRequest(max, line, Message(line, [], ""));
  }

  /** A POST without Content-Length: the standard gives it an empty body, the server rejects it. */
  lemma PostWithoutLength(requestLine: string, max: nat)
    requires GoodHead(requestLine, []) && SendsBody(Grammar.Head(requestLine, []))
    ensures RequestBody([]) == Length(0) && RejectedLine(requestLine, [], "", max, 400)
  {
    RejectedThoughFramed(requestLine, [], max);
    assert OneLine("");
  }
}
