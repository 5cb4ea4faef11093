/**
  Byte strings as the server's parsers see them. A `char` stands for one byte of a
  C++ `std::string`. The search functions return the length of the string where
  the C++ algorithms return the end of the range.
*/
module Text {
  import opened Common

  const CRLF: string := "\r\n"

  lemma SliceOfSlice(s: string, from: nat, mid: nat)
    requires from <= mid <= |s|
    ensures s[from..][..mid - from] == s[from..mid]
    ensures s[from..][mid - from..] == s[mid..]
  {}

  /** `std::find`: the first position of `c`, or `|s|`. */
  function Find(s: string, c: char): (r: nat)
    ensures r <= |s|
    ensures forall i | 0 <= i < r :: s[i] != c
    ensures r < |s| ==> s[r] == c
  {
    if s == "" || s[0] == c then 0 else 1 + Find(s[1..], c)
  }

  /** What `Find` promises determines it. */
  lemma FindUnique(s: string, c: char, i: nat)
    requires i <= |s| && (forall k | 0 <= k < i :: s[k] != c) && (i < |s| ==> s[i] == c)
    ensures Find(s, c) == i
  {
  }

  lemma FindJoin(a: string, c: char, b: string)
    requires c !in a
    ensures Find(a + [c] + b, c) == |a|
    ensures (a + [c] + b)[..|a|] == a && (a + [c] + b)[|a| + 1..] == b
  {
    FindUnique(a + [c] + b, c, |a|);
  }

  lemma CutAt(s: string, i: nat)
    requires i < |s|
    ensures s == s[..i] + [s[i]] + s[i + 1..]
  {}

  lemma FindSplit(s: string, c: char)
    requires Find(s, c) < |s|
    ensures c !in s[..Find(s, c)]
    ensures s == s[..Find(s, c)] + [c] + s[Find(s, c) + 1..]
  {
    CutAt(s, Find(s, c));
  }

  predicate CrlfAt(s: string, i: nat) {
    i + 1 < |s| && s[i] == '\r' && s[i + 1] == '\n'
  }

  /** `Buffer::findCRLF`: where the first line ends, or `|s|` when no line is complete. */
  function FindCrlf(s: string): (r: nat)
    ensures r <= |s|
    ensures r < |s| ==> CrlfAt(s, r)
    ensures forall i: nat | i < r :: !CrlfAt(s, i)
  {
    if |s| < 2 then |s|
    else if CrlfAt(s, 0) then 0
    else
      var t := FindCrlf(s[1..]);
      assert forall i: nat | 0 < i <= t :: CrlfAt(s, i) == CrlfAt(s[1..], i - 1);
      1 + t
  }

  ghost predicate OneLine(line: string) {
    FindCrlf(line) == |line|
  }

  /** Bytes that arrive later do not move the end of a complete line. */
  lemma FindCrlfStable(a: string, b: string)
    requires FindCrlf(a) < |a|
    ensures FindCrlf(a + b) == FindCrlf(a)
  {
    var i := FindCrlf(a);
    assert CrlfAt(a + b, i);
    assert forall k: nat | k < i :: CrlfAt(a + b, k) == CrlfAt(a, k);
  }

  /** A line followed by CRLF ends exactly there. */
  lemma LineEnd(line: string, rest: string)
    requires OneLine(line)
    ensures FindCrlf(line + CRLF + rest) == |line|
    ensures (line + CRLF + rest)[..|line|] == line
    ensures (line + CRLF + rest)[|line| + 2..] == rest
  {
    var s := line + CRLF + rest;
    assert CrlfAt(s, |line|);
    EarlierCrlf(line, rest, FindCrlf(s));
  }

  lemma EarlierCrlf(line: string, rest: string, k: nat)
    ensures k < |line| && CrlfAt(line + CRLF + rest, k) ==> CrlfAt(line, k)
  {}

  lemma PrefixCrlf(s: string, n: nat, k: nat)
    requires n <= |s|
    ensures CrlfAt(s[..n], k) ==> CrlfAt(s, k)
  {}

  lemma PrefixOneLine(s: string, n: nat)
    requires n <= FindCrlf(s)
    ensures n <= |s| && OneLine(s[..n])
  {
    PrefixCrlf(s, n, FindCrlf(s[..n]));
  }

  lemma CrlfSplit(s: string, i: nat)
    requires CrlfAt(s, i)
    ensures s == s[..i] + CRLF + s[i + 2..]
  {
    assert s[i..i + 2] == CRLF;
    assert s == s[..i] + s[i..i + 2] + s[i + 2..];
  }

  /** The first complete line, read back. */
  lemma SplitLine(s: string)
    requires FindCrlf(s) < |s|
    ensures FindCrlf(s) + 2 <= |s|
    ensures OneLine(s[..FindCrlf(s)])
    ensures s == s[..FindCrlf(s)] + CRLF + s[FindCrlf(s) + 2..]
  {
    var e := FindCrlf(s);
    PrefixOneLine(s, e);
    CrlfSplit(s, e);
  }

  // ---- ASCII case -------------------------------------------------------

  /** `std::tolower` in the "C" locale. */
  function LowerChar(c: char): char {
    if 'A' <= c <= 'Z' then (c as int + 32) as char else c
  }

  function Lower(s: string): (r: string)
    ensures |r| == |s|
  {
    seq(|s|, i requires 0 <= i < |s| => LowerChar(s[i]))
  }

  /** The same character, or the same letter of the English alphabet in two cases. */
  predicate SameLetter(c: char, d: char) {
    || c == d
    || ('A' <= c <= 'Z' && d as int == c as int + 32)
    || ('A' <= d <= 'Z' && c as int == d as int + 32)
  }

  /** Equality up to ASCII case. */
  predicate SameText(a: string, b: string) {
    |a| == |b| && forall i | 0 <= i < |a| :: SameLetter(a[i], b[i])
  }

  predicate NoUpper(s: string) {
    forall i | 0 <= i < |s| :: !('A' <= s[i] <= 'Z')
  }

  lemma LowerLetter(c: char, d: char)
    ensures LowerChar(c) == LowerChar(d) <==> SameLetter(c, d)
    ensures SameLetter(c, LowerChar(c)) && !('A' <= LowerChar(c) <= 'Z')
  {}

  /** Two texts have the same lower-case form if and only if they are equal up to case. */
  lemma LowerIff(a: string, b: string)
    ensures Lower(a) == Lower(b) <==> SameText(a, b)
  {
    if Lower(a) == Lower(b) {
      forall i | 0 <= i < |a| ensures SameLetter(a[i], b[i]) {
        assert Lower(a)[i] == Lower(b)[i];
        LowerLetter(a[i], b[i]);
      }
    }
    if SameText(a, b) {
      forall i | 0 <= i < |a| ensures Lower(a)[i] == Lower(b)[i] {
        LowerLetter(a[i], b[i]);
      }
    }
  }

  /** The lower-case form is the only text that is equal up to case and has no upper-case letter. */
  lemma LowerIs(s: string, t: string)
    ensures Lower(s) == t <==> SameText(s, t) && NoUpper(t)
  {
    forall i | 0 <= i < |s| ensures SameLetter(s[i], Lower(s)[i]) && !('A' <= Lower(s)[i] <= 'Z') {
      LowerLetter(s[i], s[i]);
    }
    if SameText(s, t) && NoUpper(t) {
      forall i | 0 <= i < |s| ensures Lower(s)[i] == t[i] {
        assert SameLetter(s[i], t[i]);
      }
    }
  }

  /** Comparing with a name that has no upper-case letter. */
  lemma LowerNameIff(s: string, name: string)
    requires NoUpper(name)
    ensures Lower(s) == name <==> SameText(s, name)
  {
    LowerIs(s, name);
  }

  // ---- white space ------------------------------------------------------

  /** `isspace` in the "C" locale. */
  predicate IsSpace(c: char) {
    c == ' ' || ('\t' <= c <= '\r')
  }

  /** Space, tab, line feed, vertical tab, form feed and carriage return. */
  lemma SpaceIff(c: char)
    ensures IsSpace(c) <==> c as int in {32, 9, 10, 11, 12, 13}
  {}

  predicate AllSpace(s: string) {
    forall i | 0 <= i < |s| :: IsSpace(s[i])
  }

  function TrimLeft(s: string): string {
    if s != "" && IsSpace(s[0]) then TrimLeft(s[1..]) else s
  }

  function TrimRight(s: string): string {
    if s != "" && IsSpace(s[|s| - 1]) then TrimRight(s[..|s| - 1]) else s
  }

  function Trim(s: string): string {
    TrimRight(TrimLeft(s))
  }

  predicate Trimmed(s: string) {
    s == "" || (!IsSpace(s[0]) && !IsSpace(s[|s| - 1]))
  }

  lemma {:induction false} TrimLeftShape(s: string)
    ensures var t := TrimLeft(s);
      |t| <= |s| && s[|s| - |t|..] == t && AllSpace(s[..|s| - |t|]) && (t == "" || !IsSpace(t[0]))
  {
    if s != "" && IsSpace(s[0]) {
      var t := TrimLeft(s[1..]);
      TrimLeftShape(s[1..]);
      assert s[..|s| - |t|] == [s[0]] + s[1..][..|s| - 1 - |t|];
    }
  }

  lemma {:induction false} TrimRightShape(s: string)
    ensures var t := TrimRight(s);
      |t| <= |s| && s[..|t|] == t && AllSpace(s[|t|..]) && (t == "" || !IsSpace(t[|t| - 1]))
  {
    if s != "" && IsSpace(s[|s| - 1]) {
      var n := |s| - 1;
      var t := TrimRight(s[..n]);
      TrimRightShape(s[..n]);
      assert s[|t|..] == s[..n][|t|..] + [s[n]];
    }
  }

  /** Trimming takes white space off both ends and leaves none there. */
  lemma TrimShape(s: string)
    ensures Trimmed(Trim(s))
    ensures exists pre, post :: AllSpace(pre) && AllSpace(post) && s == pre + Trim(s) + post
  {
    var t := TrimLeft(s);
    TrimLeftShape(s);
    TrimRightShape(t);
    var pre, post := s[..|s| - |t|], t[|Trim(s)|..];
    Assoc(pre, Trim(s), post);
    assert AllSpace(pre) && AllSpace(post) && s == pre + Trim(s) + post;
  }

  /** White space around a trimmed value is exactly what trimming removes. */
  lemma {:induction false} TrimPadded(pre: string, s: string, post: string)
    requires AllSpace(pre) && AllSpace(post) && Trimmed(s)
    ensures Trim(pre + s + post) == s
    decreases |pre| + |post|
  {
    if pre != "" {
      assert (pre + s + post)[1..] == pre[1..] + s + post;
      TrimPadded(pre[1..], s, post);
    } else if post != "" && s == "" {
      assert pre + s + post == post;
      assert post[1..] == post[1..] + s + "";
      TrimPadded(post[1..], s, "");
    } else if post != "" {
      var n := |post| - 1;
      assert pre + s + post == s + post;
      assert TrimLeft(s + post) == s + post;
      assert (s + post)[..|s| + n] == s + post[..n];
      TrimPadded("", s, post[..n]);
      assert "" + s + post[..n] == s + post[..n];
      assert TrimLeft(s + post[..n]) == s + post[..n];
    } else {
      assert pre + s + post == s;
    }
  }

  // ---- decimal numbers --------------------------------------------------

  predicate IsDigit(c: char) {
    '0' <= c <= '9'
  }

  predicate AllDigits(s: string) {
    forall i | 0 <= i < |s| :: IsDigit(s[i])
  }

  /** The number a digit string denotes; leading zeros are allowed. */
  function DecimalValue(s: string): nat
    requires AllDigits(s)
  {
    if s == "" then 0
    else 10 * DecimalValue(s[..|s| - 1]) + (s[|s| - 1] as int - '0' as int)
  }

  /** `std::to_string` on a non-negative number. */
  function ToDecimal(n: nat): (s: string)
    ensures s != "" && AllDigits(s)
    ensures DecimalValue(s) == n
  {
    if n < 10 then
      var s := [('0' as int + n) as char];
      assert s[..0] == "";
      s
    else
      var h := ToDecimal(n / 10);
      var s := h + [('0' as int + n % 10) as char];
      assert s[..|s| - 1] == h;
      s
  }

  const UINT64_LIMIT: nat := 0x1_0000_0000_0000_0000

  datatype FromCharsResult =
    | NoDigits
    | OutOfRange(consumed: nat)
    | Parsed(value: nat, consumed: nat)

  /** The length of the longest digit prefix. */
  function DigitRun(s: string): (r: nat)
    ensures r <= |s| && AllDigits(s[..r])
    ensures r < |s| ==> !IsDigit(s[r])
  {
    if s == "" || !IsDigit(s[0]) then 0
    else
      var t := DigitRun(s[1..]);
      assert s[..1 + t] == [s[0]] + s[1..][..t];
      1 + t
  }

  /** `std::from_chars` into a `uint64_t`, base 10: no sign, no white space. */
  function FromChars(s: string): FromCharsResult {
    var k := DigitRun(s);
    if k == 0 then NoDigits
    else if DecimalValue(s[..k]) >= UINT64_LIMIT then OutOfRange(k)
    else Parsed(DecimalValue(s[..k]), k)
  }

  /** The whole string is consumed without error exactly when it is a 64-bit decimal number. */
  lemma FromCharsWhole(s: string)
    ensures (FromChars(s).Parsed? && FromChars(s).consumed == |s|)
      <==> (s != "" && AllDigits(s) && DecimalValue(s) < UINT64_LIMIT)
    ensures FromChars(s).Parsed? && FromChars(s).consumed == |s| ==>
      AllDigits(s) && FromChars(s).value == DecimalValue(s)
  {
    var k := DigitRun(s);
    if k == |s| {
      assert s[..k] == s;
    }
  }

  // ---- hexadecimal digits -----------------------------------------------

  /** The value of a hexadecimal digit of either case. */
  function Nibble(c: char): Option<nat> {
    if '0' <= c <= '9' then Some(c as int - '0' as int)
    else if 'a' <= c <= 'f' then Some(c as int - 'a' as int + 10)
    else if 'A' <= c <= 'F' then Some(c as int - 'A' as int + 10)
    else None
  }

  predicate IsHex(s: string) {
    forall i | 0 <= i < |s| :: Nibble(s[i]).Some?
  }
}
