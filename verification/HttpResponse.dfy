/**
  The response serializer, and a reader that follows section 6.3 of RFC 9112: what the
  server writes frames itself, so the reader recovers the body and what follows it.
*/
module Responses {
  import opened Common
  import opened Text
  import opened Requests
  import opened Parsing
  import opened Grammar
  import opened MessageFraming

  datatype Response = Response(
    version: string,
    statusCode: nat,
    statusMessage: string,
    close: bool,
    headers: Fields,
    body: string)

  const SNPRINTF_SIZE: nat := 32

  /** `snprintf` into a buffer of 32 bytes, of which the last is the terminator. */
  function Snprintf(s: string): string {
    if |s| < SNPRINTF_SIZE then s else s[..SNPRINTF_SIZE - 1]
  }

  /** `headerKeyEqualsIgnoreCase` */
  method KeyEqualsIgnoreCase(key: string, asciiLower: string) returns (equal: bool)
    ensures equal == (Lower(key) == asciiLower)
    ensures NoUpper(asciiLower) ==> (equal <==> SameText(key, asciiLower))
  {
    LowerIs(key, asciiLower);
    if |key| != |asciiLower| {
      return false;
    }
    for i := 0 to |key|
      invariant forall k | 0 <= k < i :: LowerChar(key[k]) == asciiLower[k]
    {
      if LowerChar(key[i]) != asciiLower[i] {
        assert Lower(key)[i] != asciiLower[i];
        return false;
      }
    }
    assert Lower(key) == asciiLower;
    return true;
  }

  /** The lines of the stored fields in iteration order, without any Content-Length. */
  function KeptLines(headers: Fields, order: seq<string>): seq<string>
    requires forall k | k in order :: k in headers
  {
    if order == [] then []
    else
      (if Lower(order[0]) == LENGTH_NAME then [] else [FieldLine(order[0], headers[order[0]])])
      + KeptLines(headers, order[1..])
  }

  function StatusLine(r: Response): string {
    Snprintf(r.version + " " + ToDecimal(r.statusCode) + " ") + r.statusMessage
  }

  function ConnectionLine(r: Response): string {
    if r.close then "Connection: close" else "Connection: Keep-Alive"
  }

  function LengthText(n: nat): string {
    "Content-Length: " + ToDecimal(n) + CRLF
  }

  /** What `appendToBuffer` appends, with the fields in the order in which they are iterated. */
  function Serialized(r: Response, order: seq<string>): string
    requires forall k | k in order :: k in r.headers
  {
    HeadStart(r) + LinesBytes(KeptLines(r.headers, order)) + CRLF + r.body
  }

  function HeadStart(r: Response): string {
    StatusLine(r) + CRLF + (ConnectionLine(r) + CRLF) + Snprintf(LengthText(|r.body|))
  }

  method AppendToBuffer(output: Buffer, r: Response, order: seq<string>)
    requires forall k | k in order :: k in r.headers
    modifies output
    ensures output.data == old(output.data) + Serialized(r, order)
  {
    AppendHead(output, r);
    AppendFields(output, r.headers, order);
    output.Append(CRLF);
    output.Append(r.body);
    InPieces(old(output.data), HeadStart(r), LinesBytes(KeptLines(r.headers, order)), CRLF, r.body);
  }

  /** The part of `appendToBuffer` before the loop over the stored fields. */
  method AppendHead(output: Buffer, r: Response)
    modifies output
    ensures output.data == old(output.data) + HeadStart(r)
  {
    var first := Snprintf(r.version + " " + ToDecimal(r.statusCode) + " ");
    output.Append(first);
    output.Append(r.statusMessage);
    output.Append(CRLF);
    AppendConnection(output, r);
    output.Append(Snprintf(LengthText(|r.body|)));
    HeadPieces(old(output.data), first, r.statusMessage, CRLF, ConnectionLine(r) + CRLF,
               Snprintf(LengthText(|r.body|)));
  }

  method AppendConnection(output: Buffer, r: Response)
    modifies output
    ensures output.data == old(output.data) + (ConnectionLine(r) + CRLF)
  {
    if r.close {
      output.Append("Connection: close\r\n");
    } else {
      output.Append("Connection: Keep-Alive\r\n");
    }
  }

  lemma HeadPieces(start: string, a: string, b: string, c: string, d: string, e: string)
    ensures start + a + b + c + d + e == start + (a + b + c + d + e)
  {}

  lemma InPieces(start: string, a: string, b: string, c: string, d: string)
    ensures start + a + b + c + d == start + (a + b + c + d)
  {}

  method AppendFields(output: Buffer, headers: Fields, order: seq<string>)
    requires forall k | k in order :: k in headers
    modifies output
    ensures output.data == old(output.data) + LinesBytes(KeptLines(headers, order))
  {
    var i := 0;
    while i < |order|
      invariant i <= |order|
      invariant output.data + LinesBytes(KeptLines(headers, order[i..]))
        == old(output.data) + LinesBytes(KeptLines(headers, order))
    {
      var name := order[i];
      KeptStep(headers, order, i);
      var skip := KeyEqualsIgnoreCase(name, LENGTH_NAME);
      if !skip {
        ghost var before := output.data;
        output.Append(name);
        output.Append(": ");
        output.Append(headers[name]);
        output.Append(CRLF);
        LineAppended(before, name, headers[name], LinesBytes(KeptLines(headers, order[i + 1..])));
      }
      i := i + 1;
    }
    assert output.data + "" == output.data;
  }

  lemma KeptStep(headers: Fields, order: seq<string>, i: nat)
    requires i < |order| && forall k | k in order :: k in headers
    ensures LinesBytes(KeptLines(headers, order[i..]))
      == (if Lower(order[i]) == LENGTH_NAME then "" else FieldLine(order[i], headers[order[i]]) + CRLF)
         + LinesBytes(KeptLines(headers, order[i + 1..]))
  {
    var rest := KeptLines(headers, order[i + 1..]);
    assert order[i..][1..] == order[i + 1..];
    if Lower(order[i]) == LENGTH_NAME {
      assert [] + rest == rest;
      assert "" + LinesBytes(rest) == LinesBytes(rest);
    } else {
      var line := FieldLine(order[i], headers[order[i]]);
      assert ([line] + rest)[1..] == rest;
    }
  }

  lemma LineAppended(before: string, name: string, value: string, rest: string)
    ensures before + name + ": " + value + CRLF + rest == before + (FieldLine(name, value) + CRLF + rest)
  {}

  // ---- the length line ------------------------------------------------------------------

  function Pow10(k: nat): nat {
    if k == 0 then 1 else 10 * Pow10(k - 1)
  }

  lemma {:induction false} DecimalDigits(n: nat, k: nat)
    requires k > 0
    ensures |ToDecimal(n)| <= k <==> n < Pow10(k)
    decreases k
  {
    if n >= 10 && k > 1 {
      DecimalDigits(n / 10, k - 1);
    } else {
      PowPositive(k - 1);
    }
  }

  lemma {:induction false} PowPositive(k: nat)
    ensures Pow10(k) >= 1
  {
    if k > 0 {
      PowPositive(k - 1);
    }
  }

  const LENGTH_LIMIT: nat := 10_000_000_000_000

  /** The buffer holds the whole Content-Length line exactly for bodies below 10^13 bytes. */
  lemma LengthLineWholeIff(n: nat)
    ensures Snprintf(LengthText(n)) == LengthText(n) <==> n < LENGTH_LIMIT
  {
    DecimalDigits(n, 13);
    LimitIsPow();
  }

  lemma LimitIsPow()
    ensures Pow10(13) == LENGTH_LIMIT
  {
    assert Pow10(3) == 1000;
    assert Pow10(6) == 1_000_000;
    assert Pow10(9) == 1_000_000_000;
    assert Pow10(12) == 1_000_000_000_000;
  }

  // ---- the reader --------------------------------------------------------------------------

  /** version SP code SP reason, with a version of HTTP/1.x and a code of three digits. */
  function ReadStatus(line: string): Option<(string, nat, string)> {
    var sp := Find(line, ' ');
    if sp == |line| then None
    else
      var rest := line[sp + 1..];
      var sp2 := Find(rest, ' ');
      var code := rest[..sp2];
      if sp2 == |rest| || line[..sp] !in {HTTP11, HTTP10} || |code| != 3 || !AllDigits(code) then None
      else Some((line[..sp], DecimalValue(code), rest[sp2 + 1..]))
  }

  predicate Bodiless(code: nat) {
    code < 200 || code == 204 || code == 304
  }

  /** A message as it is received; codings other than chunked are left in its body. */
  datatype Received = Received(version: string, code: nat, reason: string, body: string)

  /** The body of a message with a transfer coding: chunked, or else up to the close of the connection. */
  function ReadCoded(codings: seq<string>, rest: string): Option<(string, string)>
    requires codings != []
  {
    if EndsChunked(codings) then ReadChunked(rest) else Some((rest, ""))
  }

  /** The body of a message whose length is declared once. */
  function ReadDeclared(lengths: seq<string>, rest: string): Option<(string, string)> {
    if |lengths| != 1 || !IsNumber(lengths[0]) || DecimalValue(lengths[0]) > |rest| then None
    else
      var n := DecimalValue(lengths[0]);
      Some((rest[..n], rest[n..]))
  }

  function ReadBody(code: nat, lines: seq<string>, rest: string): Option<(string, string)> {
    var codings := ValuesOf(lines, TRANSFER_ENCODING);
    if Bodiless(code) then Some(("", rest))
    else if codings != [] then ReadCoded(codings, rest)
    else ReadDeclared(ValuesOf(lines, LENGTH_NAME), rest)
  }

  /** The message whose lines have been read, from the bytes after its blank line. */
  function ReadFrom(lines: seq<string>, rest: string): Option<(Received, string)> {
    if lines == [] then None
    else match ReadStatus(lines[0])
      case None => None
      case Some((version, code, reason)) =>
        match ReadBody(code, lines[1..], rest)
        case None => None
        case Some((body, left)) => Some((Received(version, code, reason, body), left))
  }

  function ReadResponse(s: string): Option<(Received, string)> {
    match ReadLines(s)
    case None => None
    case Some((lines, rest)) => ReadFrom(lines, rest)
  }

  // ---- the response frames itself --------------------------------------------------------------

  ghost predicate PlainField(name: string, value: string) {
    ':' !in name && OneLine(FieldLine(name, value))
  }

  /** CRLF-free texts, names without colons, a code that the enumeration may have, and a length line that fits. */
  ghost predicate Framed(r: Response, order: seq<string>) {
    && PlainFields(r.headers, order)
    && r.statusCode < 1000 && OneLine(StatusLine(r)) && StatusLine(r) != ""
    && |r.body| < LENGTH_LIMIT
  }

  predicate HasTransferEncoding(order: seq<string>) {
    exists k | k in order :: SameText(k, TRANSFER_ENCODING)
  }

  ghost predicate ReadsAs(s: string, lines: seq<string>, rest: string) {
    ReadLines(s) == Some((lines, rest))
  }

  lemma {:induction false} ReadLinesBack(lines: seq<string>, rest: string)
    requires AllLines(lines)
    ensures ReadsAs(LinesBytes(lines) + (CRLF + rest), lines, rest)
    decreases |lines|
  {
    if lines == [] {
      BlankRead(rest);
      assert LinesBytes(lines) + (CRLF + rest) == CRLF + rest;
    } else {
      var tail := LinesBytes(lines[1..]) + (CRLF + rest);
      ReadLinesBack(lines[1..], rest);
      LineRead(lines, tail, rest);
      FirstLine(lines, CRLF + rest);
    }
  }

  lemma BlankRead(rest: string)
    ensures ReadsAs(CRLF + rest, [], rest)
  {
    assert CrlfAt(CRLF + rest, 0);
    assert (CRLF + rest)[2..] == rest;
  }

  lemma LineRead(lines: seq<string>, tail: string, rest: string)
    requires AllLines(lines) && lines != [] && ReadsAs(tail, lines[1..], rest)
    ensures ReadsAs(lines[0] + CRLF + tail, lines, rest)
  {
    LineEnd(lines[0], tail);
    assert [lines[0]] + lines[1..] == lines;
  }

  lemma FirstLine(lines: seq<string>, rest: string)
    requires lines != []
    ensures LinesBytes(lines) + rest == lines[0] + CRLF + (LinesBytes(lines[1..]) + rest)
  {}

  ghost predicate PlainFields(headers: Fields, order: seq<string>) {
    forall k | k in order :: k in headers && PlainField(k, headers[k])
  }

  /** The values of the stored fields with this name, in any case, in iteration order. */
  function StoredValues(headers: Fields, order: seq<string>, name: string): seq<string>
    requires forall k | k in order :: k in headers
  {
    if order == [] then []
    else
      (if SameText(order[0], name) then [Trim(headers[order[0]])] else [])
      + StoredValues(headers, order[1..], name)
  }

  /** Every stored field is written as it is, except for those called Content-Length in any capitalisation. */
  lemma {:induction false} KeptValues(headers: Fields, order: seq<string>, name: string)
    requires PlainFields(headers, order)
    ensures ValuesOf(KeptLines(headers, order), name)
      == (if SameText(name, LENGTH_NAME) then [] else StoredValues(headers, order, name))
    decreases |order|
  {
    if order != [] {
      var k, rest := order[0], KeptLines(headers, order[1..]);
      KeptValues(headers, order[1..], name);
      LengthNames();
      LowerNameIff(k, LENGTH_NAME);
      SameTextTrans(k, name, LENGTH_NAME);
      SameTextTrans(name, k, LENGTH_NAME);
      if Lower(k) == LENGTH_NAME {
        assert [] + rest == rest;
      } else {
        KeptValue(k, headers[k], rest, name);
      }
    }
  }

  lemma SameTextTrans(a: string, b: string, c: string)
    ensures SameText(a, b) <==> SameText(b, a)
    ensures SameText(a, b) && SameText(b, c) ==> SameText(a, c)
  {
    LowerIff(a, b);
    LowerIff(b, a);
    LowerIff(b, c);
    LowerIff(a, c);
  }

  lemma KeptValue(field: string, value: string, rest: seq<string>, name: string)
    requires ':' !in field
    ensures ValuesOf([FieldLine(field, value)] + rest, name)
      == (if SameText(field, name) then [Trim(value)] else []) + ValuesOf(rest, name)
  {
    OneFieldValue(field, value, name);
    SpaceTrimmed(value);
    ValuesConcat([FieldLine(field, value)], rest, name);
  }

  lemma SpaceTrimmed(value: string)
    ensures Trim(" " + value) == Trim(value)
  {
    assert (" " + value)[1..] == value;
  }

  ghost predicate AllLines(lines: seq<string>) {
    forall i | 0 <= i < |lines| :: lines[i] != "" && OneLine(lines[i])
  }

  lemma {:induction false} KeptAreLines(headers: Fields, order: seq<string>)
    requires PlainFields(headers, order)
    ensures AllLines(KeptLines(headers, order))
    decreases |order|
  {
    if order != [] {
      KeptAreLines(headers, order[1..]);
      FieldName(order[0], headers[order[0]]);
    }
  }

  lemma NoReturn(line: string)
    requires '\r' !in line
    ensures OneLine(line)
  {}

  /** The two lines that the serializer writes itself. */
  lemma OwnLines(r: Response)
    ensures OneLine(ConnectionLine(r)) && ConnectionLine(r) != ""
    ensures OneLine(LengthLine(|r.body|)) && LengthLine(|r.body|) != ""
  {
    NoReturn(ConnectionLine(r));
    var digits := ToDecimal(|r.body|);
    assert '\r' !in digits;
    NoReturn(LengthLine(|r.body|));
  }

  function LengthLine(n: nat): string {
    FieldLine("Content-Length", ToDecimal(n))
  }

  /** The lines of a response head after the status line. */
  function HeadLines(r: Response, order: seq<string>): seq<string>
    requires forall k | k in order :: k in r.headers
  {
    [ConnectionLine(r), LengthLine(|r.body|)] + KeptLines(r.headers, order)
  }

  /** What a reader finds in the head under any name: what the serializer writes itself, then the stored fields. */
  lemma HeadValues(r: Response, order: seq<string>, name: string)
    requires PlainFields(r.headers, order)
    ensures ValuesOf(HeadLines(r, order), name)
      == (if SameText("Connection", name) then [if r.close then "close" else "Keep-Alive"] else [])
         + ((if SameText("Content-Length", name) then [ToDecimal(|r.body|)] else [])
            + ValuesOf(KeptLines(r.headers, order), name))
  {
    var kept := KeptLines(r.headers, order);
    var connection := if r.close then "close" else "Keep-Alive";
    HeadLinesAre(r, kept);
    KeptValue("Connection", connection, [LengthLine(|r.body|)] + kept, name);
    KeptValue("Content-Length", ToDecimal(|r.body|), kept, name);
    DigitsTrimmed(|r.body|);
    WordTrimmed(connection);
  }

  lemma DigitsTrimmed(n: nat)
    ensures Trim(ToDecimal(n)) == ToDecimal(n)
  {
    TrimDecimal(n);
    SpaceTrimmed(ToDecimal(n));
  }

  lemma HeadLinesAre(r: Response, kept: seq<string>)
    ensures var connection := FieldLine("Connection", if r.close then "close" else "Keep-Alive");
      [ConnectionLine(r), LengthLine(|r.body|)] + kept == [connection] + ([LengthLine(|r.body|)] + kept)
  {
    var connection := if r.close then "close" else "Keep-Alive";
    assert ConnectionLine(r) == FieldLine("Connection", connection);
  }

  lemma WordTrimmed(word: string)
    requires word != "" && !IsSpace(word[0]) && !IsSpace(word[|word| - 1])
    ensures Trim(word) == word
  {}

  const CONNECTION_NAME: string := "connection"

  lemma ConnectionNames()
    ensures SameText("Connection", CONNECTION_NAME) && !SameText(CONNECTION_NAME, LENGTH_NAME)
    ensures !SameText("Content-Length", CONNECTION_NAME)
  {}

  /** A reader finds the server's own decision first, and `close` exactly if the connection is closed. */
  lemma ConnectionRead(r: Response, order: seq<string>)
    requires PlainFields(r.headers, order)
    ensures ValuesOf(HeadLines(r, order), CONNECTION_NAME)
      == [if r.close then "close" else "Keep-Alive"] + StoredValues(r.headers, order, CONNECTION_NAME)
  {
    ConnectionNames();
    HeadValues(r, order, CONNECTION_NAME);
    KeptValues(r.headers, order, CONNECTION_NAME);
    NothingBefore(StoredValues(r.headers, order, CONNECTION_NAME));
  }

  lemma NothingBefore(values: seq<string>)
    ensures [] + values == values && [] + ([] + values) == values
  {}

  /** Exactly one Content-Length is written, whatever the stored fields are called. */
  lemma OneContentLength(r: Response, order: seq<string>, name: string)
    requires PlainFields(r.headers, order) && SameText(name, LENGTH_NAME)
    ensures ValuesOf(HeadLines(r, order), name) == [ToDecimal(|r.body|)]
  {
    LengthNames();
    SameTextTrans("Content-Length", LENGTH_NAME, name);
    SameTextTrans(name, LENGTH_NAME, name);
    HeadValues(r, order, name);
    KeptValues(r.headers, order, name);
    assert [ToDecimal(|r.body|)] + [] == [ToDecimal(|r.body|)];
    assert [] + [ToDecimal(|r.body|)] == [ToDecimal(|r.body|)];
  }

  /** All other stored fields are read back, under every capitalisation of their names. */
  lemma OthersReadBack(r: Response, order: seq<string>, name: string)
    requires PlainFields(r.headers, order)
    requires !SameText("Connection", name) && !SameText(name, LENGTH_NAME)
    ensures ValuesOf(HeadLines(r, order), name) == StoredValues(r.headers, order, name)
  {
    LengthNames();
    SameTextTrans(name, "Content-Length", LENGTH_NAME);
    HeadValues(r, order, name);
    KeptValues(r.headers, order, name);
    NothingBefore(StoredValues(r.headers, order, name));
  }

  /** The transfer codings that are stored, in iteration order. */
  function StoredCodings(r: Response, order: seq<string>): seq<string>
    requires forall k | k in order :: k in r.headers
  {
    StoredValues(r.headers, order, TRANSFER_ENCODING)
  }

  /** A Transfer-Encoding is written if and only if one is stored. */
  lemma EncodingIffStored(r: Response, order: seq<string>)
    requires PlainFields(r.headers, order)
    ensures ValuesOf(HeadLines(r, order), TRANSFER_ENCODING) == StoredCodings(r, order)
    ensures StoredCodings(r, order) == [] <==> !HasTransferEncoding(order)
  {
    assert !SameText("Connection", TRANSFER_ENCODING) && !SameText(TRANSFER_ENCODING, LENGTH_NAME);
    OthersReadBack(r, order, TRANSFER_ENCODING);
    NoneStored(r.headers, order, TRANSFER_ENCODING);
  }

  lemma {:induction false} NoneStored(headers: Fields, order: seq<string>, name: string)
    requires forall k | k in order :: k in headers
    ensures StoredValues(headers, order, name) == [] <==> forall k | k in order :: !SameText(k, name)
    decreases |order|
  {
    if order != [] {
      NoneStored(headers, order[1..], name);
      assert order == [order[0]] + order[1..];
    }
  }

  /** A framed response is its status line, its head lines, a blank line and its body. */
  lemma SerializedLines(r: Response, order: seq<string>, rest: string)
    requires Framed(r, order)
    ensures Serialized(r, order) + rest
      == LinesBytes([StatusLine(r)] + HeadLines(r, order)) + (CRLF + (r.body + rest))
  {
    var kept := KeptLines(r.headers, order);
    HeadStartWhole(r, kept);
    HeadInLines(StatusLine(r), ConnectionLine(r), LengthLine(|r.body|), kept);
    BlankAndBody(HeadStart(r) + LinesBytes(kept), CRLF, r.body, rest);
  }

  lemma HeadInLines(a: string, b: string, c: string, kept: seq<string>)
    ensures [a] + ([b, c] + kept) == [a, b, c] + kept
  {}

  /** With a length line that fits, the start of the head is three lines. */
  lemma HeadStartWhole(r: Response, kept: seq<string>)
    requires |r.body| < LENGTH_LIMIT
    ensures HeadStart(r) + LinesBytes(kept)
      == LinesBytes([StatusLine(r), ConnectionLine(r), LengthLine(|r.body|)] + kept)
  {
    LengthLineWholeIff(|r.body|);
    LengthTextIsLine(|r.body|);
    FourLines(StatusLine(r), ConnectionLine(r), LengthLine(|r.body|), kept);
  }

  lemma LengthTextIsLine(n: nat)
    ensures LengthText(n) == LengthLine(n) + CRLF
  {}

  lemma BlankAndBody(head: string, blank: string, body: string, rest: string)
    ensures head + blank + body + rest == head + (blank + (body + rest))
  {}

  lemma LinesCons(a: string, rest: seq<string>)
    ensures LinesBytes([a] + rest) == a + CRLF + LinesBytes(rest)
  {
    assert ([a] + rest)[1..] == rest;
  }

  lemma FourLines(a: string, b: string, c: string, kept: seq<string>)
    ensures LinesBytes([a, b, c] + kept)
      == a + CRLF + (b + CRLF) + (c + CRLF) + LinesBytes(kept)
  {
    assert [a, b, c] + kept == [a] + ([b] + ([c] + kept));
    LinesCons(a, [b] + ([c] + kept));
    LinesCons(b, [c] + kept);
    LinesCons(c, kept);
    Reassociated(a + CRLF, b + CRLF, c + CRLF, LinesBytes(kept));
  }

  lemma Reassociated(a: string, b: string, c: string, d: string)
    ensures a + (b + (c + d)) == a + b + c + d
  {}

  lemma StatusRead(r: Response)
    requires ' ' !in r.version && |r.version| <= 26 && r.statusCode < 1000
    ensures ReadStatus(StatusLine(r))
      == (if r.version in {HTTP11, HTTP10} && 100 <= r.statusCode then
            Some((r.version, r.statusCode, r.statusMessage))
          else None)
  {
    var code := ToDecimal(r.statusCode);
    DecimalDigits(r.statusCode, 3);
    DecimalDigits(r.statusCode, 2);
    assert Pow10(2) == 100 && Pow10(3) == 1000;
    var rest := code + " " + r.statusMessage;
    assert StatusLine(r) == r.version + " " + rest;
    FindJoin(r.version, ' ', rest);
    assert ' ' !in code;
    FindJoin(code, ' ', r.statusMessage);
  }

  lemma VersionPlain(version: string)
    requires version in {HTTP11, HTTP10}
    ensures ' ' !in version && |version| <= 26
  {}

  /**
    A status without a body must not have one, and otherwise only the Content-Length may frame
    it, unless a coding other than chunked comes last and nothing follows on the connection.
  */
  predicate FramesItself(r: Response, order: seq<string>, rest: string)
    requires forall k | k in order :: k in r.headers
  {
    if Bodiless(r.statusCode) then r.body == ""
    else
      var codings := StoredCodings(r, order);
      codings == [] || (!EndsChunked(codings) && rest == "")
  }

  /**
    A reader recovers the body and what follows it, exactly, if and only if the response was
    given an HTTP/1.x version and a status, has a body only if its status allows one, and
    does not name a transfer coding that frames it otherwise.
  */
  lemma ReadsBackIff(r: Response, order: seq<string>, rest: string)
    requires Framed(r, order)
    ensures ReadResponse(Serialized(r, order) + rest)
        == Some((Received(r.version, r.statusCode, r.statusMessage, r.body), rest))
      <==> r.version in {HTTP11, HTTP10} && 100 <= r.statusCode && FramesItself(r, order, rest)
  {
    ReadsHead(r, order, rest);
    if r.version in {HTTP11, HTTP10} {
      HeadReadsBack(r, order, rest);
      NotTheRest(r.body, rest);
      if StoredCodings(r, order) != [] {
        CodedIff(StoredCodings(r, order), r.body, rest);
      }
    }
  }

  /** Reading by a coding gives back body and rest only if it is not chunked and nothing follows. */
  lemma CodedIff(codings: seq<string>, body: string, rest: string)
    requires codings != []
    ensures ReadCoded(codings, body + rest) == Some((body, rest))
      <==> !EndsChunked(codings) && rest == ""
  {
    assert |body + rest| == |body| + |rest|;
    if rest == "" {
      assert body + rest == body;
    }
  }

  lemma NotTheRest(body: string, rest: string)
    ensures body + rest == rest <==> body == ""
  {
    assert |body + rest| == |body| + |rest|;
  }

  lemma ReadsHead(r: Response, order: seq<string>, rest: string)
    requires Framed(r, order)
    ensures ReadResponse(Serialized(r, order) + rest)
      == ReadFrom([StatusLine(r)] + HeadLines(r, order), r.body + rest)
  {
    SerializedLines(r, order, rest);
    HeadIsLines(r, order);
    ReadLinesBack([StatusLine(r)] + HeadLines(r, order), r.body + rest);
  }

  /** A body behind a status that has none is left to be read as the next message. */
  lemma HeadReadsBack(r: Response, order: seq<string>, rest: string)
    requires Framed(r, order) && r.version in {HTTP11, HTTP10}
    ensures var codings := StoredCodings(r, order);
      var content :=
        if Bodiless(r.statusCode) then Some(("", r.body + rest))
        else if codings != [] then ReadCoded(codings, r.body + rest)
        else Some((r.body, rest));
      ReadFrom([StatusLine(r)] + HeadLines(r, order), r.body + rest)
        == (if r.statusCode < 100 || content.None? then None
            else Some((Received(r.version, r.statusCode, r.statusMessage, content.value.0), content.value.1)))
  {
    VersionPlain(r.version);
    StatusRead(r);
    TailOf(StatusLine(r), HeadLines(r, order));
    BodyReadsBack(r, order, rest);
  }

  lemma BodyReadsBack(r: Response, order: seq<string>, rest: string)
    requires Framed(r, order)
    ensures ReadBody(r.statusCode, HeadLines(r, order), r.body + rest)
      == (if Bodiless(r.statusCode) then Some(("", r.body + rest))
          else if StoredCodings(r, order) != [] then ReadCoded(StoredCodings(r, order), r.body + rest)
          else Some((r.body, rest)))
  {
    OwnLength(r, order);
    EncodingIffStored(r, order);
    BodyApart(r.body, rest);
  }

  /** The framework's answer when no route fits: it has no version, so a reader rejects it. */
  lemma NotFoundUnreadable(rest: string)
    ensures Framed(NOT_FOUND, []) && ReadResponse(Serialized(NOT_FOUND, []) + rest) == None
  {
    StatusRead(NOT_FOUND);
    NotFoundLine(NOT_FOUND);
    ReadsHead(NOT_FOUND, [], rest);
    TailOf(StatusLine(NOT_FOUND), HeadLines(NOT_FOUND, []));
  }

  const NOT_FOUND: Response := Response("", 404, "Not Found", true, map[], "")

  lemma NotFoundLine(r: Response)
    requires r == NOT_FOUND
    ensures OneLine(StatusLine(r)) && StatusLine(r) != ""
  {
    DecimalDigits(404, 3);
    assert Pow10(3) == 1000;
    assert '\r' !in ToDecimal(404);
    NoReturn(StatusLine(r));
  }

  lemma OwnLength(r: Response, order: seq<string>)
    requires PlainFields(r.headers, order)
    ensures ValuesOf(HeadLines(r, order), LENGTH_NAME) == [ToDecimal(|r.body|)]
  {
    OneContentLength(r, order, LENGTH_NAME);
  }

  lemma TailOf(first: string, rest: seq<string>)
    ensures ([first] + rest)[0] == first && ([first] + rest)[1..] == rest
  {}

  lemma BodyApart(body: string, rest: string)
    ensures (body + rest)[..|body|] == body && (body + rest)[|body|..] == rest
  {}

  lemma HeadIsLines(r: Response, order: seq<string>)
    requires Framed(r, order)
    ensures AllLines([StatusLine(r)] + HeadLines(r, order))
  {
    OwnLines(r);
    KeptAreLines(r.headers, order);
    assert |ToDecimal(r.statusCode)| > 0;
  }
}
