/**
  How section 6.3 of RFC 9112 finds the length of a message body from its header lines, with
  field values as section 5.5 and lists as section 5.6.1 of RFC 9110 read them.
*/
module MessageFraming {
  import opened Common
  import opened Text
  import opened Requests
  import opened Grammar

  const LENGTH_NAME: string := "content-length"
  const TRANSFER_ENCODING: string := "transfer-encoding"

  /** The values of the fields with this name, in any case. */
  function ValuesOf(lines: seq<string>, name: string): seq<string> {
    if lines == [] then []
    else
      var c := Find(lines[0], ':');
      (if c < |lines[0]| && SameText(lines[0][..c], name) then [Trim(lines[0][c + 1..])] else [])
      + ValuesOf(lines[1..], name)
  }

  lemma {:induction false} ValuesConcat(a: seq<string>, b: seq<string>, name: string)
    ensures ValuesOf(a + b, name) == ValuesOf(a, name) + ValuesOf(b, name)
    decreases |a|
  {
    if a == [] {
      assert a + b == b;
    } else {
      assert (a + b)[0] == a[0] && (a + b)[1..] == a[1..] + b;
      ValuesConcat(a[1..], b, name);
      var c := Find(a[0], ':');
      var first := if c < |a[0]| && SameText(a[0][..c], name) then [Trim(a[0][c + 1..])] else [];
      Assoc(first, ValuesOf(a[1..], name), ValuesOf(b, name));
    }
  }

  /** What a reader finds in a line of its own. */
  lemma OneFieldValue(field: string, value: string, name: string)
    requires ':' !in field
    ensures ValuesOf([FieldLine(field, value)], name) == (if SameText(field, name) then [Trim(" " + value)] else [])
  {
    FieldName(field, value);
    assert [FieldLine(field, value)][1..] == [];
  }

  lemma LengthNames()
    ensures SameText("Content-Length", LENGTH_NAME) && NoUpper(LENGTH_NAME)
    ensures !SameText("Content-Length", TRANSFER_ENCODING) && NoUpper(TRANSFER_ENCODING)
  {}

  lemma TrimDecimal(n: nat)
    ensures Trim(" " + ToDecimal(n)) == ToDecimal(n)
  {
    var digits := ToDecimal(n);
    assert Trimmed(digits);
    TrimPadded(" ", digits, "");
    assert " " + digits + "" == " " + digits;
  }

  /** The members of a list, between commas. */
  function Members(value: string): (members: seq<string>)
    ensures members != []
    decreases |value|
  {
    var c := Find(value, ',');
    if c == |value| then [Trim(value)] else [Trim(value[..c])] + Members(value[c + 1..])
  }

  function AllMembers(values: seq<string>): (members: seq<string>)
    ensures members == [] <==> values == []
  {
    if values == [] then [] else Members(values[0]) + AllMembers(values[1..])
  }

  predicate IsNumber(s: string) {
    s != "" && AllDigits(s)
  }

  /** One and the same digit string, once or repeated. */
  predicate OneNumber(members: seq<string>) {
    members != [] && IsNumber(members[0]) && forall i | 0 <= i < |members| :: members[i] == members[0]
  }

  /** A body whose length is coded in it, or known, or that makes the message unusable. */
  datatype RequestLength = ByCoding | Length(n: nat) | Unusable

  /** The rule for requests: it does not look at the method. */
  function RequestBody(lines: seq<string>): RequestLength {
    var lengths := AllMembers(ValuesOf(lines, LENGTH_NAME));
    if ValuesOf(lines, TRANSFER_ENCODING) != [] then ByCoding
    else if lengths == [] then Length(0)
    else if OneNumber(lengths) then Length(DecimalValue(lengths[0]))
    else Unusable
  }

  /** A value without commas is its only member. */
  lemma SingleMember(value: string)
    requires ',' !in value && Trimmed(value)
    ensures Members(value) == [value]
  {
    FindUnique(value, ',', |value|);
    TrimPadded("", value, "");
    assert "" + value + "" == value;
  }

  lemma {:induction false} LastMember(values: seq<string>)
    requires values != [] && ',' !in values[|values| - 1] && Trimmed(values[|values| - 1])
    ensures var members := AllMembers(values); members[|members| - 1] == values[|values| - 1]
    decreases |values|
  {
    if |values| == 1 {
      SingleMember(values[0]);
      assert values[1..] == [];
    } else {
      LastMember(values[1..]);
    }
  }

  lemma {:induction false} ValuesTrimmed(lines: seq<string>, name: string)
    ensures forall i | 0 <= i < |ValuesOf(lines, name)| :: Trimmed(ValuesOf(lines, name)[i])
    decreases |lines|
  {
    if lines != [] {
      var c := Find(lines[0], ':');
      if c < |lines[0]| {
        TrimShape(lines[0][c + 1..]);
      }
      ValuesTrimmed(lines[1..], name);
    }
  }

  /** Whether the last of all transfer codings is chunked. */
  predicate EndsChunked(codings: seq<string>)
    requires codings != []
  {
    var members := AllMembers(codings);
    SameText(members[|members| - 1], "chunked")
  }

  // ---- the chunked coding, section 7.1 of RFC 9112 ------------------------------------------

  /** The lines up to the blank line, and what follows it. */
  function ReadLines(s: string): (r: Option<(seq<string>, string)>)
    ensures r.Some? ==> |r.value.1| < |s|
    decreases |s|
  {
    var e := FindCrlf(s);
    if e == |s| then None
    else if e == 0 then Some(([], s[2..]))
    else match ReadLines(s[e + 2..])
      case None => None
      case Some((lines, rest)) => Some(([s[..e]] + lines, rest))
  }

  function HexValue(s: string): nat
    requires IsHex(s)
  {
    if s == "" then 0 else 16 * HexValue(s[..|s| - 1]) + Nibble(s[|s| - 1]).value
  }

  /** Chunks with their sizes, extensions ignored, and a trailer: the data, and what follows. */
  function ReadChunked(s: string): (r: Option<(string, string)>)
    ensures r.Some? ==> |r.value.0| + |r.value.1| < |s|
    decreases |s|
  {
    var e := FindCrlf(s);
    var size := Trim(s[..e][..Find(s[..e], ';')]);
    if e == |s| || size == "" || !IsHex(size) then None
    else
      var n, after := HexValue(size), s[e + 2..];
      if n == 0 then
        match ReadLines(after)
        case None => None
        case Some((trailer, rest)) => Some(("", rest))
      else if |after| < n + 2 || !CrlfAt(after, n) then None
      else match ReadChunked(after[n + 2..])
        case None => None
        case Some((data, rest)) => Some((after[..n] + data, rest))
  }
}
