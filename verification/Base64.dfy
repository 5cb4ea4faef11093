/**
  The base64 codec: both alphabets, optional padding on input, PEM and MIME line wrapping,
  and an encoder whose cursor is a 32-bit unsigned integer.
*/
module Base64 {
  import opened Common
  import opened Text

  type Sextet = x: int | 0 <= x < 64

  // ---- the alphabets ------------------------------------------------------------

  /** `base64_chars[url][i]` */
  function CharAt(i: Sextet, url: bool): char {
    if i < 26 then ('A' as int + i) as char
    else if i < 52 then ('a' as int + i - 26) as char
    else if i < 62 then ('0' as int + i - 52) as char
    else if i == 62 then (if url then '-' else '+')
    else if url then '_' else '/'
  }

  /** `pos_of_char`: both alphabets are accepted, anything else throws. */
  function PosOf(c: char): Option<Sextet> {
    if 'A' <= c <= 'Z' then Some(c as int - 'A' as int)
    else if 'a' <= c <= 'z' then Some(c as int - 'a' as int + 26)
    else if '0' <= c <= '9' then Some(c as int - '0' as int + 52)
    else if c == '+' || c == '-' then Some(62)
    else if c == '/' || c == '_' then Some(63)
    else None
  }

  function Padding(url: bool): char {
    if url then '.' else '='
  }

  predicate IsPadding(c: char) {
    c == '=' || c == '.'
  }

  lemma PosOfCharAt(i: Sextet, url: bool)
    ensures PosOf(CharAt(i, url)) == Some(i)
    ensures !IsPadding(CharAt(i, url)) && CharAt(i, url) != '\n'
  {}

  /** The alphabets of sections 4 and 5 of RFC 4648: A to Z, a to z, 0 to 9, and two signs each. */
  lemma AlphabetIs(i: Sextet, url: bool)
    ensures CharAt(0, url) == 'A' && CharAt(25, url) == 'Z' && CharAt(26, url) == 'a' && CharAt(51, url) == 'z'
    ensures CharAt(52, url) == '0' && CharAt(61, url) == '9'
    ensures CharAt(62, url) == (if url then '-' else '+') && CharAt(63, url) == (if url then '_' else '/')
    ensures i !in {0, 26, 52, 62, 63} ==> CharAt(i, url) as int == CharAt(i - 1, url) as int + 1
  {}

  /** A character has a position if and only if it is in one of the alphabets, at that position. */
  lemma PosOfIff(c: char, i: Sextet)
    ensures PosOf(c) == Some(i) <==> c == CharAt(i, false) || c == CharAt(i, true)
  {}

  // ---- masks and shifts ------------------------------------------------------------

  /** A byte as a machine word. */
  function Bits(b: Byte): (v: bv8)
    ensures v as int == b
  {
    if b == 0 then 0 else Bits(b - 1) + 1
  }

  lemma EncoderMasks(v: bv8)
    ensures ((v & 0xfc) >> 2) as int == v as int / 4
    ensures ((v & 0x03) << 4) as int == v as int % 4 * 16
    ensures ((v & 0xf0) >> 4) as int == v as int / 16
    ensures ((v & 0x0f) << 2) as int == v as int % 16 * 4
    ensures ((v & 0xc0) >> 6) as int == v as int / 64
    ensures (v & 0x3f) as int == v as int % 64
  {}

  lemma DecoderMasks(v: bv8)
    requires v < 64
    ensures (v << 2) as int == v as int * 4
    ensures ((v & 0x30) >> 4) as int == v as int / 16
    ensures ((v & 0x0f) << 4) as int == v as int % 16 * 16
    ensures ((v & 0x3c) >> 2) as int == v as int / 4
    ensures ((v & 0x03) << 6) as int == v as int % 4 * 64
  {}

  /** The four positions of a group of the encoder, as its masks compute them. */
  method Position0(b0: Byte) returns (i: Sextet)
    ensures i == b0 / 4
  {
    EncoderMasks(Bits(b0));
    i := ((Bits(b0) & 0xfc) >> 2) as int;
  }

  method Position1(b0: Byte, b1: Byte) returns (i: Sextet)
    ensures i == b0 % 4 * 16 + b1 / 16
  {
    EncoderMasks(Bits(b0));
    EncoderMasks(Bits(b1));
    i := ((Bits(b0) & 0x03) << 4) as int + ((Bits(b1) & 0xf0) >> 4) as int;
  }

  method Position2(b1: Byte, b2: Byte) returns (i: Sextet)
    ensures i == b1 % 16 * 4 + b2 / 64
  {
    EncoderMasks(Bits(b1));
    EncoderMasks(Bits(b2));
    i := ((Bits(b1) & 0x0f) << 2) as int + ((Bits(b2) & 0xc0) >> 6) as int;
  }

  method Position3(b2: Byte) returns (i: Sextet)
    ensures i == b2 % 64
  {
    EncoderMasks(Bits(b2));
    i := (Bits(b2) & 0x3f) as int;
  }

  method Shifted(p: Sextet) returns (b: Byte)
    ensures b == p * 4
  {
    var v := Bits(p);
    DecoderMasks(v);
    b := (v << 2) as int;
  }

  /** The three bytes of a group of the decoder, as its masks compute them. */
  method FirstByte(p0: Sextet, p1: Sextet) returns (b: Byte)
    ensures b == Byte1(p0, p1)
  {
    var high := Shifted(p0);
    DecoderMasks(Bits(p1));
    b := high + ((Bits(p1) & 0x30) >> 4) as int;
  }

  method SecondByte(p1: Sextet, p2: Sextet) returns (b: Byte)
    ensures b == Byte2(p1, p2)
  {
    DecoderMasks(Bits(p1));
    DecoderMasks(Bits(p2));
    b := ((Bits(p1) & 0x0f) << 4) as int + ((Bits(p2) & 0x3c) >> 2) as int;
  }

  method ThirdByte(p2: Sextet, p3: Sextet) returns (b: Byte)
    ensures b == Byte3(p2, p3)
  {
    DecoderMasks(Bits(p2));
    b := ((Bits(p2) & 0x03) << 6) as int + p3;
  }

  // ---- what the encoder computes --------------------------------------------------

  /** The four characters of a full group of three bytes. */
  function Group(b0: Byte, b1: Byte, b2: Byte, url: bool): string {
    [CharAt(b0 / 4, url), CharAt(b0 % 4 * 16 + b1 / 16, url),
     CharAt(b1 % 16 * 4 + b2 / 64, url), CharAt(b2 % 64, url)]
  }

  function Encode(x: seq<Byte>, url: bool): (s: string)
    ensures |s| == (|x| + 2) / 3 * 4
    decreases |x|
  {
    if x == [] then ""
    else if |x| == 1 then
      [CharAt(x[0] / 4, url), CharAt(x[0] % 4 * 16, url), Padding(url), Padding(url)]
    else if |x| == 2 then
      [CharAt(x[0] / 4, url), CharAt(x[0] % 4 * 16 + x[1] / 16, url), CharAt(x[1] % 16 * 4, url), Padding(url)]
    else Group(x[0], x[1], x[2], url) + Encode(x[3..], url)
  }

  const UINT32: nat := 0x1_0000_0000

  /** `base64_encode`. From 2^32 bytes on its loop does not end, see `CursorReachesIff`. */
  method Base64Encode(bytes: seq<Byte>, url: bool) returns (ret: string)
    requires |bytes| < UINT32
    ensures ret == Encode(bytes, url)
  {
    ret := "";
    var pos: nat := 0;
    while pos < |bytes|
      invariant pos % 3 == 0 && pos < UINT32
      invariant ret + Encode(Rest(bytes, pos), url) == Encode(bytes, url)
      decreases |bytes| - pos
    {
      var four := EncodeRound(bytes, pos, url);
      EncodeStep(bytes, pos, url, ret, four);
      CursorStep(pos, |bytes|);
      ret := ret + four;
      pos := (pos + 3) % UINT32;
    }
    assert ret + "" == ret;
  }

  lemma EncodeStep(bytes: seq<Byte>, pos: nat, url: bool, ret: string, four: string)
    requires pos < |bytes| && four == EncodeHead(bytes[pos..], url)
    requires ret + Encode(Rest(bytes, pos), url) == Encode(bytes, url)
    ensures ret + four + Encode(Rest(bytes, pos + 3), url) == Encode(bytes, url)
  {
    RestStep(bytes, pos, url);
    Assoc(ret, four, Encode(Rest(bytes, pos + 3), url));
  }

  /** Below 2^32 - 1 a multiple of 3 can grow by 3 without wrapping. */
  lemma CursorStep(pos: nat, n: nat)
    requires pos % 3 == 0 && pos < n < UINT32
    ensures (pos + 3) % UINT32 == pos + 3 && (pos + 3) % 3 == 0
  {}

  /** One round of the encoder's loop: the four characters that it appends. */
  method EncodeRound(bytes: seq<Byte>, pos: nat, url: bool) returns (ret: string)
    requires pos < |bytes| < UINT32 && pos % 3 == 0
    ensures ret == EncodeHead(bytes[pos..], url)
  {
    var trailing := Padding(url);
    var b0 := bytes[pos];
    var i := Position0(b0);
    ret := [CharAt(i, url)];
    if (pos + 1) % UINT32 < |bytes| {
      var b1 := bytes[pos + 1];
      i := Position1(b0, b1);
      ret := ret + [CharAt(i, url)];
      if (pos + 2) % UINT32 < |bytes| {
        var b2 := bytes[pos + 2];
        i := Position2(b1, b2);
        ret := ret + [CharAt(i, url)];
        i := Position3(b2);
        ret := ret + [CharAt(i, url)];
        HeadOfThree(bytes[pos..], url);
      } else {
        i := Position2(b1, 0);
        ret := ret + [CharAt(i, url), trailing];
      }
    } else {
      i := Position1(b0, 0);
      ret := ret + [CharAt(i, url), trailing, trailing];
    }
  }

  lemma HeadOfThree(x: seq<Byte>, url: bool)
    requires |x| >= 3
    ensures EncodeHead(x, url) == Group(x[0], x[1], x[2], url)
  {
    if |x| == 3 {
      assert x[3..] == [];
      assert Group(x[0], x[1], x[2], url) + "" == Group(x[0], x[1], x[2], url);
    }
  }

  function Rest(bytes: seq<Byte>, pos: nat): seq<Byte> {
    if pos <= |bytes| then bytes[pos..] else []
  }

  /** The four characters that the first three, two or one bytes give. */
  function EncodeHead(x: seq<Byte>, url: bool): string
    requires x != []
  {
    if |x| <= 3 then Encode(x, url) else Group(x[0], x[1], x[2], url)
  }

  lemma RestStep(bytes: seq<Byte>, pos: nat, url: bool)
    requires pos < |bytes|
    ensures Encode(bytes[pos..], url) == EncodeHead(bytes[pos..], url) + Encode(Rest(bytes, pos + 3), url)
  {
    var rest := bytes[pos..];
    if |rest| < 3 {
      assert Encode(rest, url) + "" == Encode(rest, url);
    } else {
      assert rest[3..] == bytes[pos + 3..];
      HeadOfThree(rest, url);
    }
  }

  // ---- the cursor ---------------------------------------------------------------------

  /** The 32-bit cursor after `k` rounds. */
  function Cursor(k: nat): nat {
    3 * k % UINT32
  }

  /**
    The encoder's loop ends if and only if the input has at most 2^32 - 1 bytes; since 3
    divides that number, the bound is exact.
  */
  lemma CursorReachesIff(n: nat)
    ensures (exists k: nat :: Cursor(k) >= n) <==> n < UINT32
  {
    if n < UINT32 {
      assert Cursor(1431655765) == UINT32 - 1;
    }
  }

  // ---- what the decoder computes ---------------------------------------------------------

  datatype Decoded = Bytes(bytes: seq<Byte>) | OutOfBounds | InvalidChar

  function Then(a: Decoded, b: Decoded): Decoded {
    if !a.Bytes? then a else if !b.Bytes? then b else Bytes(a.bytes + b.bytes)
  }

  /** The three bytes that four positions stand for. */
  function Byte1(p0: Sextet, p1: Sextet): Byte {
    (p0 as int) * 4 + (p1 as int) / 16
  }

  function Byte2(p1: Sextet, p2: Sextet): Byte {
    (p1 as int) % 16 * 16 + (p2 as int) / 4
  }

  function Byte3(p2: Sextet, p3: Sextet): Byte {
    (p2 as int) % 4 * 64 + (p3 as int)
  }

  /** The one to three bytes of the first group of `s`; what padding hides is not looked at. */
  function DecodeGroup(s: string): Decoded
    requires s != ""
  {
    if |s| < 2 then OutOfBounds
    else
      var p1, p0 := PosOf(s[1]), PosOf(s[0]);
      if p1.None? || p0.None? then InvalidChar
      else
        var first := [Byte1(p0.value, p1.value)];
        if |s| < 3 || IsPadding(s[2]) then Bytes(first)
        else
          var p2 := PosOf(s[2]);
          if p2.None? then InvalidChar
          else
            var second := first + [Byte2(p1.value, p2.value)];
            if |s| < 4 || IsPadding(s[3]) then Bytes(second)
            else
              var p3 := PosOf(s[3]);
              if p3.None? then InvalidChar
              else Bytes(second + [Byte3(p2.value, p3.value)])
  }

  function Decode(s: string): Decoded
    decreases |s|
  {
    if s == "" then Bytes([])
    else if |s| <= 4 then DecodeGroup(s)
    else Then(DecodeGroup(s[..4]), Decode(s[4..]))
  }

  /** `copy.erase(std::remove(..., '\n'), ...)` */
  function RemoveNewlines(s: string): string {
    if s == "" then ""
    else (if s[0] == '\n' then "" else [s[0]]) + RemoveNewlines(s[1..])
  }

  function DecodeText(s: string, removeLinebreaks: bool): Decoded {
    Decode(if removeLinebreaks then RemoveNewlines(s) else s)
  }

  method Base64Decode(s: string, removeLinebreaks: bool) returns (r: Decoded)
    ensures r == DecodeText(s, removeLinebreaks)
    decreases removeLinebreaks
  {
    if s == "" {
      return Bytes([]);
    }
    if removeLinebreaks {
      r := Base64Decode(RemoveNewlines(s), false);
      return;
    }
    var ret: seq<Byte> := [];
    var pos := 0;
    while pos < |s|
      invariant Then(Bytes(ret), Decode(RestOf(s, pos))) == Decode(s)
      decreases |s| - pos
    {
      var group := GroupAt(s, pos);
      DecodeStep(s, pos, ret);
      if !group.Bytes? {
        return group;
      }
      ret := ret + group.bytes;
      pos := pos + 4;
    }
    assert ret + [] == ret;
    r := Bytes(ret);
  }

  /** One round of the decoder's loop, which reads `s` from `pos` on. */
  method GroupAt(s: string, pos: nat) returns (r: Decoded)
    requires pos < |s|
    ensures r == DecodeGroup(s[pos..])
  {
    if pos + 1 >= |s| {
      return OutOfBounds;
    }
    var p1 := PosOf(s[pos + 1]);
    var p0 := PosOf(s[pos]);
    if p1.None? || p0.None? {
      return InvalidChar;
    }
    var b := FirstByte(p0.value, p1.value);
    var ret: seq<Byte> := [b];
    if pos + 2 < |s| && s[pos + 2] != '=' && s[pos + 2] != '.' {
      var p2 := PosOf(s[pos + 2]);
      if p2.None? {
        return InvalidChar;
      }
      b := SecondByte(p1.value, p2.value);
      ret := ret + [b];
      if pos + 3 < |s| && s[pos + 3] != '=' && s[pos + 3] != '.' {
        var p3 := PosOf(s[pos + 3]);
        if p3.None? {
          return InvalidChar;
        }
        b := ThirdByte(p2.value, p3.value);
        ret := ret + [b];
      }
    }
    r := Bytes(ret);
  }

  function RestOf(s: string, pos: nat): string {
    if pos <= |s| then s[pos..] else ""
  }

  lemma DecodeStep(s: string, pos: nat, ret: seq<Byte>)
    requires pos < |s|
    ensures var g := DecodeGroup(s[pos..]);
      Then(Bytes(ret), Decode(s[pos..]))
        == (if g.Bytes? then Then(Bytes(ret + g.bytes), Decode(RestOf(s, pos + 4))) else g)
  {
    var rest := s[pos..];
    var g, after := DecodeGroup(rest), RestOf(s, pos + 4);
    if |rest| <= 4 {
      assert after == "";
      ThenNext(ret, g, Bytes([]));
      ThenNothing(g);
    } else {
      assert rest[4..] == after;
      FourAreEnough(rest);
      ThenNext(ret, g, Decode(after));
    }
  }

  lemma FourAreEnough(s: string)
    requires |s| > 4
    ensures DecodeGroup(s[..4]) == DecodeGroup(s)
  {}

  lemma ThenNext(ret: seq<Byte>, g: Decoded, after: Decoded)
    ensures Then(Bytes(ret), Then(g, after)) == (if g.Bytes? then Then(Bytes(ret + g.bytes), after) else g)
  {
    ThenAssoc(Bytes(ret), g, after);
  }

  lemma ThenNothing(g: Decoded)
    ensures Then(g, Bytes([])) == g
  {
    if g.Bytes? {
      assert g.bytes + [] == g.bytes;
    }
  }

  // ---- errors ------------------------------------------------------------------------------

  /** The group of text from position `4 * k`. */
  function GroupOf(s: string, k: nat): string
    requires 4 * k < |s|
  {
    if 4 * k + 4 <= |s| then s[4 * k..4 * k + 4] else s[4 * k..]
  }

  /** The first `n` groups are good, and the one after them is not. */
  ghost predicate FirstBad(s: string, n: nat) {
    && 4 * n < |s| && !DecodeGroup(GroupOf(s, n)).Bytes?
    && forall k: nat | k < n :: DecodeGroup(GroupOf(s, k)).Bytes?
  }

  ghost predicate AllGood(s: string) {
    forall k: nat | 4 * k < |s| :: DecodeGroup(GroupOf(s, k)).Bytes?
  }

  /** Decoding succeeds if and only if every group does, and otherwise throws what the first bad group throws. */
  lemma {:induction false} DecodeFailsIff(s: string) returns (n: nat)
    ensures Decode(s).Bytes? <==> AllGood(s)
    ensures !Decode(s).Bytes? ==> FirstBad(s, n) && Decode(s) == DecodeGroup(GroupOf(s, n))
    decreases |s|
  {
    n := 0;
    if |s| > 4 {
      FourAreEnough(s);
      assert GroupOf(s, 0) == s[..4];
      var m := DecodeFailsIff(s[4..]);
      forall k: nat | 4 * k < |s[4..]| ensures GroupOf(s, k + 1) == GroupOf(s[4..], k) {
        LaterGroup(s, k);
      }
      GoodTail(s);
      if DecodeGroup(s[..4]).Bytes? {
        n := m + 1;
        if !Decode(s[4..]).Bytes? {
          BadTail(s, m);
        }
      }
    } else if s != "" {
      assert GroupOf(s, 0) == s;
    }
  }

  lemma LaterGroup(s: string, k: nat)
    requires |s| > 4 && 4 * k < |s[4..]|
    ensures GroupOf(s, k + 1) == GroupOf(s[4..], k)
  {}

  lemma GoodTail(s: string)
    requires |s| > 4 && forall k: nat | 4 * k < |s[4..]| :: GroupOf(s, k + 1) == GroupOf(s[4..], k)
    ensures AllGood(s) <==> DecodeGroup(GroupOf(s, 0)).Bytes? && AllGood(s[4..])
  {
    if AllGood(s) {
      forall k: nat | 4 * k < |s[4..]| ensures DecodeGroup(GroupOf(s[4..], k)).Bytes? {
        assert DecodeGroup(GroupOf(s, k + 1)).Bytes?;
      }
    }
    if DecodeGroup(GroupOf(s, 0)).Bytes? && AllGood(s[4..]) {
      forall k: nat | 4 * k < |s| ensures DecodeGroup(GroupOf(s, k)).Bytes? {
        if k > 0 {
          assert GroupOf(s, k - 1 + 1) == GroupOf(s[4..], k - 1);
        }
      }
    }
  }

  lemma BadTail(s: string, m: nat)
    requires |s| > 4 && forall k: nat | 4 * k < |s[4..]| :: GroupOf(s, k + 1) == GroupOf(s[4..], k)
    requires FirstBad(s[4..], m) && DecodeGroup(GroupOf(s, 0)).Bytes?
    ensures FirstBad(s, m + 1)
  {
    forall k: nat | k < m + 1 ensures DecodeGroup(GroupOf(s, k)).Bytes? {
      if k > 0 {
        assert GroupOf(s, k - 1 + 1) == GroupOf(s[4..], k - 1);
      }
    }
  }

  // ---- one, two and three bytes ------------------------------------------------------------

  lemma EncodeOne(b: Byte, url: bool)
    ensures Encode([b], url) == [CharAt(b / 4, url), CharAt(b % 4 * 16, url), Padding(url), Padding(url)]
  {}

  lemma EncodeTwo(b0: Byte, b1: Byte, url: bool)
    ensures Encode([b0, b1], url)
      == [CharAt(b0 / 4, url), CharAt(b0 % 4 * 16 + b1 / 16, url), CharAt(b1 % 16 * 4, url), Padding(url)]
  {}

  lemma EncodeThree(b0: Byte, b1: Byte, b2: Byte, url: bool)
    ensures Encode([b0, b1, b2], url) == Group(b0, b1, b2, url)
  {
    HeadOfThree([b0, b1, b2], url);
  }

  // ---- what a group means -------------------------------------------------------------------

  /** The four positions of a group and its three bytes are the same 24-bit number. */
  lemma GroupNumber(b0: Byte, b1: Byte, b2: Byte)
    ensures b0 / 4 * 262144 + (b0 % 4 * 16 + b1 / 16) * 4096 + (b1 % 16 * 4 + b2 / 64) * 64 + b2 % 64
      == b0 * 65536 + b1 * 256 + b2
  {}

  /** So are the four positions that a group of text has, and the three bytes that it is decoded to. */
  lemma DecodedNumber(s: string)
    requires |s| == 4 && forall i | 0 <= i < 4 :: !IsPadding(s[i]) && PosOf(s[i]).Some?
    ensures DecodeGroup(s).Bytes? && |DecodeGroup(s).bytes| == 3
    ensures var b := DecodeGroup(s).bytes;
      (b[0] as int) * 65536 + (b[1] as int) * 256 + (b[2] as int)
        == PosOf(s[0]).value * 262144 + PosOf(s[1]).value * 4096 + PosOf(s[2]).value * 64 + PosOf(s[3]).value
  {
    BytesNumber(PosOf(s[0]).value, PosOf(s[1]).value, PosOf(s[2]).value, PosOf(s[3]).value);
  }

  lemma BytesNumber(p0: Sextet, p1: Sextet, p2: Sextet, p3: Sextet)
    ensures Byte1(p0, p1) * 65536 + Byte2(p1, p2) * 256 + Byte3(p2, p3) == p0 * 262144 + p1 * 4096 + p2 * 64 + p3
  {}

  /** How many characters pad the text of `n` bytes. */
  function Pads(n: nat): nat {
    match n % 3
    case 0 => 0
    case 1 => 2
    case _ => 1
  }

  /** The padding of a text: none, two or one characters, by the length of what is encoded. */
  lemma {:induction false} EncodePadding(x: seq<Byte>, url: bool)
    ensures PaddedBy(Encode(x, url), Pads(|x|), if url then '.' else '=')
    decreases |x|
  {
    if |x| >= 3 {
      EncodePadding(x[3..], url);
      FullPadded(x, url, if url then '.' else '=');
    } else if |x| == 2 {
      TwoPadded(x[0], x[1], url);
      assert x == [x[0], x[1]];
    } else if |x| == 1 {
      OnePadded(x[0], url);
      assert x == [x[0]];
    }
  }

  lemma FullPadded(x: seq<Byte>, url: bool, pad: char)
    requires |x| >= 3 && PaddedBy(Encode(x[3..], url), Pads(|x| - 3), pad)
    ensures PaddedBy(Encode(x, url), Pads(|x|), pad)
  {
    assert Pads(|x|) == Pads(|x| - 3);
    GroupUnpadded(x[0], x[1], x[2], url);
    PaddedBehind(Group(x[0], x[1], x[2], url), Encode(x[3..], url), Pads(|x|), pad);
  }

  lemma OnePadded(b: Byte, url: bool)
    ensures PaddedBy(Encode([b], url), 2, if url then '.' else '=')
  {
    EncodeOne(b, url);
    PosOfCharAt(b / 4, url);
    PosOfCharAt(b % 4 * 16, url);
  }

  lemma TwoPadded(b0: Byte, b1: Byte, url: bool)
    ensures PaddedBy(Encode([b0, b1], url), 1, if url then '.' else '=')
  {
    EncodeTwo(b0, b1, url);
    PosOfCharAt(b0 / 4, url);
    PosOfCharAt(b0 % 4 * 16 + b1 / 16, url);
    PosOfCharAt(b1 % 16 * 4, url);
  }

  /** The last `k` characters are `pad`, and no other is padding. */
  predicate PaddedBy(s: string, k: nat, pad: char) {
    && k <= |s|
    && (forall i | |s| - k <= i < |s| :: s[i] == pad)
    && (forall i | 0 <= i < |s| - k :: !IsPadding(s[i]))
  }

  lemma PaddedBehind(group: string, s: string, k: nat, pad: char)
    requires PaddedBy(s, k, pad) && forall i | 0 <= i < |group| :: !IsPadding(group[i])
    ensures PaddedBy(group + s, k, pad)
  {}

  lemma GroupUnpadded(b0: Byte, b1: Byte, b2: Byte, url: bool)
    ensures forall i | 0 <= i < 4 :: !IsPadding(Group(b0, b1, b2, url)[i])
  {
    PosOfCharAt(b0 / 4, url);
    PosOfCharAt(b0 % 4 * 16 + b1 / 16, url);
    PosOfCharAt(b1 % 16 * 4 + b2 / 64, url);
    PosOfCharAt(b2 % 64, url);
  }

  /** Text of one group is decoded if and only if each of its characters that matters is in an alphabet. */
  lemma DecodeGroupIff(s: string)
    requires s != ""
    ensures DecodeGroup(s) == OutOfBounds <==> |s| == 1
    ensures DecodeGroup(s).Bytes? <==>
      && |s| > 1 && PosOf(s[0]).Some? && PosOf(s[1]).Some?
      && (|s| > 2 && !IsPadding(s[2]) ==>
            PosOf(s[2]).Some? && (|s| > 3 && !IsPadding(s[3]) ==> PosOf(s[3]).Some?))
  {}

  // ---- decode after encode -----------------------------------------------------------------

  /** Three bytes cut into sextets are put together again. */
  lemma Ungroup(b0: Byte, b1: Byte, b2: Byte)
    ensures Byte1(b0 / 4, b0 % 4 * 16 + b1 / 16) == b0
    ensures Byte2(b0 % 4 * 16 + b1 / 16, b1 % 16 * 4 + b2 / 64) == b1
    ensures Byte3(b1 % 16 * 4 + b2 / 64, b2 % 64) == b2
  {}

  lemma DecodeOfGroup(b0: Byte, b1: Byte, b2: Byte, url: bool)
    ensures DecodeGroup(Group(b0, b1, b2, url)) == Bytes([b0, b1, b2])
  {
    Ungroup(b0, b1, b2);
    PosOfCharAt(b0 / 4, url);
    PosOfCharAt(b0 % 4 * 16 + b1 / 16, url);
    PosOfCharAt(b1 % 16 * 4 + b2 / 64, url);
    PosOfCharAt(b2 % 64, url);
  }

  lemma DecodeOfOne(b: Byte, url: bool)
    ensures DecodeGroup(Encode([b], url)) == Bytes([b])
  {
    EncodeOne(b, url);
    PosOfCharAt(b / 4, url);
    PosOfCharAt(b % 4 * 16, url);
  }

  lemma DecodeOfTwo(b0: Byte, b1: Byte, url: bool)
    ensures DecodeGroup(Encode([b0, b1], url)) == Bytes([b0, b1])
  {
    EncodeTwo(b0, b1, url);
    Ungroup(b0, b1, 0);
    PosOfCharAt(b0 / 4, url);
    PosOfCharAt(b0 % 4 * 16 + b1 / 16, url);
    PosOfCharAt(b1 % 16 * 4, url);
  }

  /** Decoding is by groups of four characters. */
  lemma DecodeFirst(head: string, tail: string)
    requires |head| == 4
    ensures Decode(head + tail) == Then(DecodeGroup(head), Decode(tail))
  {
    if tail == "" {
      assert head + tail == head;
      ThenNothing(DecodeGroup(head));
    } else {
      assert (head + tail)[..4] == head && (head + tail)[4..] == tail;
    }
  }

  /** Every byte string survives encoding and decoding, in both alphabets. */
  lemma {:induction false} DecodeEncode(x: seq<Byte>, url: bool)
    ensures Decode(Encode(x, url)) == Bytes(x)
    decreases |x|
  {
    if |x| == 1 {
      DecodeOfOne(x[0], url);
      assert x == [x[0]];
    } else if |x| == 2 {
      DecodeOfTwo(x[0], x[1], url);
      assert x == [x[0], x[1]];
    } else if x != [] {
      DecodeEncode(x[3..], url);
      DecodeOfGroup(x[0], x[1], x[2], url);
      DecodeFirst(Group(x[0], x[1], x[2], url), Encode(x[3..], url));
      assert x == [x[0], x[1], x[2]] + x[3..];
    }
  }

  // ---- concatenation ---------------------------------------------------------------------------

  lemma ThenAssoc(a: Decoded, b: Decoded, c: Decoded)
    ensures Then(Then(a, b), c) == Then(a, Then(b, c))
  {
    if a.Bytes? && b.Bytes? && c.Bytes? {
      Assoc(a.bytes, b.bytes, c.bytes);
    }
  }

  /**
    Decoding is a homomorphism on whole groups, errors included and even with padding inside:
    the bytes are concatenated, or the first error is the error.
  */
  lemma {:induction false} DecodeConcat(s: string, t: string)
    requires |s| % 4 == 0
    ensures Decode(s + t) == Then(Decode(s), Decode(t))
    decreases |s|
  {
    if s == "" {
      assert s + t == t;
      if Decode(t).Bytes? {
        assert [] + Decode(t).bytes == Decode(t).bytes;
      }
    } else {
      var head, tail := s[..4], s[4..];
      assert s == head + tail;
      assert s + t == head + (tail + t);
      DecodeConcat(tail, t);
      DecodeFirst(head, tail);
      DecodeFirst(head, tail + t);
      ThenAssoc(DecodeGroup(head), Decode(tail), Decode(t));
    }
  }

  // ---- encode after decode ----------------------------------------------------------------------

  predicate IsStandard(c: char) {
    PosOf(c).Some? && c != '-' && c != '_'
  }

  /** A last group: four characters, or padding after bits that are zero. */
  predicate CanonicalGroup(s: string) {
    && |s| == 4 && IsStandard(s[0]) && IsStandard(s[1])
    && if s[2] == '=' then s[3] == '=' && PosOf(s[1]).value as int % 16 == 0
       else IsStandard(s[2]) && (if s[3] == '=' then PosOf(s[2]).value as int % 4 == 0 else IsStandard(s[3]))
  }

  /** Canonical standard-alphabet text, as section 3.5 of RFC 4648 wants it. */
  predicate Canonical(s: string)
    decreases |s|
  {
    || s == ""
    || CanonicalGroup(s)
    || (|s| > 4 && CanonicalGroup(s[..4]) && s[3] != '=' && Canonical(s[4..]))
  }

  lemma CharAtPosOf(c: char)
    requires IsStandard(c)
    ensures CharAt(PosOf(c).value, false) == c
  {}

  /** Three bytes made of four sextets give the same sextets back. */
  lemma Regroup(p0: Sextet, p1: Sextet, p2: Sextet, p3: Sextet)
    ensures var b0, b1, b2 := Byte1(p0, p1), Byte2(p1, p2), Byte3(p2, p3);
      && b0 / 4 == p0 && b0 % 4 * 16 + b1 / 16 == p1 && b1 % 16 * 4 + b2 / 64 == p2 && b2 % 64 == p3
  {}

  /** With zero bits before the padding, so do one and two bytes. */
  lemma RegroupLast(p0: Sextet, p1: Sextet, p2: Sextet)
    ensures Byte1(p0, p1) / 4 == p0
    ensures p1 % 16 == 0 ==> Byte1(p0, p1) % 4 * 16 == p1
    ensures Byte1(p0, p1) % 4 * 16 + Byte2(p1, p2) / 16 == p1
    ensures p2 % 4 == 0 ==> Byte2(p1, p2) % 16 * 4 == p2
  {}

  lemma EncodeOfOne(s: string)
    requires CanonicalGroup(s) && s[2] == '='
    ensures DecodeGroup(s).Bytes? && Encode(DecodeGroup(s).bytes, false) == s
  {
    var p0, p1 := PosOf(s[0]).value, PosOf(s[1]).value;
    CharAtPosOf(s[0]);
    CharAtPosOf(s[1]);
    EncodeOne(Byte1(p0, p1), false);
    RegroupLast(p0, p1, 0);
  }

  lemma EncodeOfTwo(s: string)
    requires CanonicalGroup(s) && s[2] != '=' && s[3] == '='
    ensures DecodeGroup(s).Bytes? && Encode(DecodeGroup(s).bytes, false) == s
  {
    var p0, p1, p2 := TwoRead(s);
    EncodeTwo(Byte1(p0, p1), Byte2(p1, p2), false);
    RegroupLast(p0, p1, p2);
  }

  /** The positions of a group with one padding character. */
  lemma TwoRead(s: string) returns (p0: Sextet, p1: Sextet, p2: Sextet)
    requires CanonicalGroup(s) && s[2] != '=' && s[3] == '='
    ensures DecodeGroup(s) == Bytes([Byte1(p0, p1), Byte2(p1, p2)]) && p2 % 4 == 0
    ensures s == [CharAt(p0, false), CharAt(p1, false), CharAt(p2, false), '=']
  {
    p0, p1, p2 := PosOf(s[0]).value, PosOf(s[1]).value, PosOf(s[2]).value;
    CharAtPosOf(s[0]);
    CharAtPosOf(s[1]);
    CharAtPosOf(s[2]);
  }

  lemma EncodeOfThree(s: string)
    requires CanonicalGroup(s) && s[2] != '=' && s[3] != '='
    ensures DecodeGroup(s).Bytes? && Encode(DecodeGroup(s).bytes, false) == s
    ensures |DecodeGroup(s).bytes| == 3
  {
    var p0, p1, p2, p3 := PosOf(s[0]).value, PosOf(s[1]).value, PosOf(s[2]).value, PosOf(s[3]).value;
    CharAtPosOf(s[0]);
    CharAtPosOf(s[1]);
    CharAtPosOf(s[2]);
    CharAtPosOf(s[3]);
    EncodeThree(Byte1(p0, p1), Byte2(p1, p2), Byte3(p2, p3), false);
    Regroup(p0, p1, p2, p3);
  }

  lemma EncodeOfGroup(s: string)
    requires CanonicalGroup(s)
    ensures DecodeGroup(s).Bytes? && Encode(DecodeGroup(s).bytes, false) == s
    ensures s[3] != '=' ==> |DecodeGroup(s).bytes| == 3
  {
    if s[2] == '=' {
      EncodeOfOne(s);
    } else if s[3] == '=' {
      EncodeOfTwo(s);
    } else {
      EncodeOfThree(s);
    }
  }

  /** Canonical text survives decoding and encoding. */
  lemma {:induction false} EncodeDecode(s: string)
    requires Canonical(s)
    ensures Decode(s).Bytes? && Encode(Decode(s).bytes, false) == s
    decreases |s|
  {
    if s != "" {
      if |s| == 4 {
        EncodeOfGroup(s);
      } else {
        var head, tail := s[..4], s[4..];
        EncodeOfGroup(head);
        EncodeDecode(tail);
        EncodeJoined(DecodeGroup(head).bytes, Decode(tail).bytes, head);
      }
    }
  }

  /** Three bytes ahead of others are encoded ahead of them. */
  lemma EncodeJoined(b: seq<Byte>, c: seq<Byte>, head: string)
    requires |b| == 3 && Encode(b, false) == head
    ensures Encode(b + c, false) == head + Encode(c, false)
  {
    EncodeThree(b[0], b[1], b[2], false);
    assert b == [b[0], b[1], b[2]];
    assert (b + c)[3..] == c;
  }

  /** What the encoder writes is canonical. */
  lemma {:induction false} EncodeIsCanonical(x: seq<Byte>)
    ensures Canonical(Encode(x, false))
    decreases |x|
  {
    if |x| == 1 {
      OneIsCanonical(x[0]);
      assert x == [x[0]];
    } else if |x| == 2 {
      TwoIsCanonical(x[0], x[1]);
      assert x == [x[0], x[1]];
    } else if x != [] {
      var head, tail := Group(x[0], x[1], x[2], false), Encode(x[3..], false);
      EncodeIsCanonical(x[3..]);
      GroupIsCanonical(x[0], x[1], x[2]);
      if tail == "" {
        assert head + tail == head;
      } else {
        assert (head + tail)[..4] == head && (head + tail)[4..] == tail;
      }
    }
  }

  lemma GroupIsCanonical(b0: Byte, b1: Byte, b2: Byte)
    ensures CanonicalGroup(Group(b0, b1, b2, false)) && Group(b0, b1, b2, false)[3] != '='
  {}

  lemma OneIsCanonical(b: Byte)
    ensures CanonicalGroup(Encode([b], false))
  {
    EncodeOne(b, false);
    PosOfCharAt(b % 4 * 16, false);
  }

  lemma TwoIsCanonical(b0: Byte, b1: Byte)
    ensures CanonicalGroup(Encode([b0, b1], false))
  {
    EncodeTwo(b0, b1, false);
    PosOfCharAt(b1 % 16 * 4, false);
  }

  /** The canonical texts are exactly the texts that the encoder writes. */
  lemma CanonicalIff(s: string)
    ensures Canonical(s) <==> exists x: seq<Byte> :: s == Encode(x, false)
  {
    if Canonical(s) {
      EncodeDecode(s);
    } else if x: seq<Byte> :| s == Encode(x, false) {
      EncodeIsCanonical(x);
    }
  }

  // ---- line wrapping ---------------------------------------------------------------------------------

  const PEM_LINE: nat := 64
  const MIME_LINE: nat := 76

  /** Lines of `d` characters, the last one of one to `d`. */
  function Wrapped(s: string, d: nat): string
    requires d > 0
    decreases |s|
  {
    if |s| <= d then s else s[..d] + "\n" + Wrapped(s[d..], d)
  }

  /** `insert_linebreaks`: line breaks are inserted in place, `distance` characters apart. */
  method InsertLinebreaks(s: string, distance: nat) returns (str: string)
    requires distance > 0
    ensures str == Wrapped(s, distance)
  {
    str := s;
    if s == "" {
      return;
    }
    var pos := distance;
    NoLineYet(s, distance);
    while pos < |str|
      invariant distance <= pos && pos - distance <= |str|
      invariant str[..pos - distance] + Wrapped(str[pos - distance..], distance) == Wrapped(s, distance)
      decreases |str| - pos
    {
      InsertBreak(str, pos, distance);
      str := str[..pos] + "\n" + str[pos..];
      pos := pos + distance + 1;
    }
    LastLine(str, pos - distance, distance);
  }

  lemma LastLine(str: string, at: nat, d: nat)
    requires d > 0 && at <= |str| <= at + d
    ensures str[..at] + Wrapped(str[at..], d) == str
  {}

  lemma NoLineYet(s: string, d: nat)
    requires d > 0
    ensures s[..0] + Wrapped(s[0..], d) == Wrapped(s, d)
  {
    assert s[0..] == s;
  }

  lemma InsertBreak(str: string, pos: nat, d: nat)
    requires 0 < d <= pos < |str|
    ensures var str' := str[..pos] + "\n" + str[pos..];
      str'[..pos + 1] + Wrapped(str'[pos + 1..], d) == str[..pos - d] + Wrapped(str[pos - d..], d)
  {
    var rest := str[pos - d..];
    var str' := str[..pos] + "\n" + str[pos..];
    assert rest[..d] == str[pos - d..pos] && rest[d..] == str[pos..];
    assert str'[pos + 1..] == str[pos..];
    assert str'[..pos + 1] == str[..pos - d] + str[pos - d..pos] + "\n";
    var w := Wrapped(str[pos..], d);
    assert str[..pos - d] + str[pos - d..pos] + "\n" + w == str[..pos - d] + (str[pos - d..pos] + "\n" + w);
  }

  /** The lines of a text. */
  function Lines(s: string): seq<string>
    decreases |s|
  {
    var n := Find(s, '\n');
    if n == |s| then [s] else [s[..n]] + Lines(s[n + 1..])
  }

  ghost predicate EvenLines(lines: seq<string>, d: nat) {
    && lines != []
    && (forall i | 0 <= i < |lines| - 1 :: |lines[i]| == d)
    && 0 < |lines[|lines| - 1]| <= d
  }

  /** Every line but the last has exactly `d` characters, and the last is not empty. */
  lemma {:induction false} WrappedLines(s: string, d: nat)
    requires d > 0 && '\n' !in s && s != ""
    ensures EvenLines(Lines(Wrapped(s, d)), d)
    decreases |s|
  {
    if |s| <= d {
      FindUnique(s, '\n', |s|);
    } else {
      var rest := Wrapped(s[d..], d);
      WrappedLines(s[d..], d);
      FindJoin(s[..d], '\n', rest);
    }
  }

  /** Removing the line breaks gives the text back. */
  lemma {:induction false} UnwrapWrapped(s: string, d: nat)
    requires d > 0 && '\n' !in s
    ensures RemoveNewlines(Wrapped(s, d)) == s
    decreases |s|
  {
    if |s| <= d {
      NothingToRemove(s, "");
      assert s + "" == s;
    } else {
      UnwrapWrapped(s[d..], d);
      RemoveOne(s[..d], Wrapped(s[d..], d));
      assert s == s[..d] + s[d..];
    }
  }

  lemma RemoveOne(line: string, rest: string)
    requires '\n' !in line
    ensures RemoveNewlines(line + "\n" + rest) == line + RemoveNewlines(rest)
  {
    Assoc(line, "\n", rest);
    NothingToRemove(line, "\n" + rest);
    assert ("\n" + rest)[1..] == rest;
  }

  lemma {:induction false} NothingToRemove(s: string, t: string)
    requires '\n' !in s
    ensures RemoveNewlines(s + t) == s + RemoveNewlines(t)
    decreases |s|
  {
    if s == "" {
      assert s + t == t;
    } else {
      assert (s + t)[1..] == s[1..] + t;
      NothingToRemove(s[1..], t);
      assert s[0] in s;
    }
  }

  lemma {:induction false} EncodeHasNoNewline(x: seq<Byte>, url: bool)
    ensures '\n' !in Encode(x, url)
    decreases |x|
  {
    if |x| >= 3 {
      EncodeHasNoNewline(x[3..], url);
    }
  }

  /** `base64_encode_pem` with 64 and `base64_encode_mime` with 76 characters a line. */
  method EncodeWithLineBreaks(bytes: seq<Byte>, lineLength: nat) returns (r: string)
    requires |bytes| < UINT32 && (lineLength == PEM_LINE || lineLength == MIME_LINE)
    ensures r == Wrapped(Encode(bytes, false), lineLength)
  {
    var s := Base64Encode(bytes, false);
    r := InsertLinebreaks(s, lineLength);
  }

  /** Wrapped text decodes to the bytes that were encoded, at every line length. */
  lemma DecodeWrapped(x: seq<Byte>, d: nat)
    requires d > 0
    ensures DecodeText(Wrapped(Encode(x, false), d), true) == Bytes(x)
    ensures x != [] ==> EvenLines(Lines(Wrapped(Encode(x, false), d)), d)
  {
    EncodeHasNoNewline(x, false);
    UnwrapWrapped(Encode(x, false), d);
    DecodeEncode(x, false);
    if x != [] {
      WrappedLines(Encode(x, false), d);
    }
  }

  /** PEM text has lines of 64 characters. */
  method EncodePem(bytes: seq<Byte>) returns (r: string)
    requires |bytes| < UINT32
    ensures bytes != [] ==> EvenLines(Lines(r), 64)
    ensures DecodeText(r, true) == Bytes(bytes)
  {
    r := EncodeWithLineBreaks(bytes, PEM_LINE);
    DecodeWrapped(bytes, PEM_LINE);
  }

  /** MIME text has lines of 76 characters. */
  method EncodeMime(bytes: seq<Byte>) returns (r: string)
    requires |bytes| < UINT32
    ensures bytes != [] ==> EvenLines(Lines(r), 76)
    ensures DecodeText(r, true) == Bytes(bytes)
  {
    r := EncodeWithLineBreaks(bytes, MIME_LINE);
    DecodeWrapped(bytes, MIME_LINE);
  }
}
