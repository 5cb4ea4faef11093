/**
  Password records: the PBKDF2 record that is stored, the older SHA-256 record, and what is
  done with either when a user logs in. The two hash functions are parameters.
*/
module PasswordHash {
  import opened Common
  import opened Text

  const ITERATIONS: nat := 310000
  const LEAST_ITERATIONS: int := 100000
  const SALT_BYTES: nat := 16
  const KEY_BYTES: nat := 32
  const INT_LIMIT: int := 0x8000_0000

  const PBKDF2: string := "pbkdf2_sha256$"
  const SHA256: string := "sha256$"

  type Digest = d: seq<Byte> | |d| == 32 witness seq(32, _ => 0)

  /** PBKDF2-HMAC-SHA256, which may fail, on password, salt and iterations; and SHA-256. */
  datatype Hashes = Hashes(kdf: (string, seq<Byte>, int) -> Option<Digest>, sha: string -> Digest)

  // ---- hexadecimal ----------------------------------------------------------------

  function Digit(n: nat): char
    requires n < 16
  {
    if n < 10 then ('0' as int + n) as char else ('a' as int + n - 10) as char
  }

  lemma DigitIs(n: nat)
    requires n < 16
    ensures Digit(n) == "0123456789abcdef"[n]
  {}

  predicate PairFor(b: Byte, hi: char, lo: char) {
    hi == Digit(b / 16) && lo == Digit(b % 16)
  }

  /** `s` spells `bytes` in lower-case hexadecimal, two digits a byte. */
  predicate Spells(s: string, bytes: seq<Byte>) {
    |s| == 2 * |bytes| && forall i | 0 <= i < |bytes| :: PairFor(bytes[i], s[2 * i], s[2 * i + 1])
  }

  function ToHex(bytes: seq<Byte>): (s: string)
    ensures Spells(s, bytes)
  {
    if bytes == [] then ""
    else
      var n := |bytes| - 1;
      ToHex(bytes[..n]) + [Digit(bytes[n] / 16), Digit(bytes[n] % 16)]
  }

  lemma SpellsOne(s: string, t: string, bytes: seq<Byte>)
    requires Spells(s, bytes) && Spells(t, bytes)
    ensures s == t
  {
    forall k | 0 <= k < |s| ensures s[k] == t[k] {
      assert PairFor(bytes[k / 2], s[2 * (k / 2)], s[2 * (k / 2) + 1]);
      assert PairFor(bytes[k / 2], t[2 * (k / 2)], t[2 * (k / 2) + 1]);
    }
  }

  /** `toHex` */
  method PrintHex(data: seq<Byte>) returns (s: string)
    ensures s == ToHex(data)
  {
    s := "";
    for i := 0 to |data|
      invariant s == ToHex(data[..i])
    {
      s := s + [Digit(data[i] / 16), Digit(data[i] % 16)];
      assert data[..i + 1][..i] == data[..i];
    }
    assert data[..|data|] == data;
  }

  function ByteAt(s: string, i: nat): Byte
    requires IsHex(s) && 2 * i + 1 < |s|
  {
    Nibble(s[2 * i]).value * 16 + Nibble(s[2 * i + 1]).value
  }

  function FromHex(s: string): Option<seq<Byte>> {
    if |s| % 2 == 0 && IsHex(s) then Some(seq(|s| / 2, i requires 0 <= i < |s| / 2 => ByteAt(s, i)))
    else None
  }

  /** `hexToBytes` */
  method HexToBytes(hex: string) returns (result: Option<seq<Byte>>)
    ensures result == FromHex(hex)
  {
    if |hex| % 2 != 0 {
      return None;
    }
    var out: seq<Byte> := [];
    for i := 0 to |hex| / 2
      invariant |out| == i && IsHex(hex[..2 * i])
      invariant forall k | 0 <= k < i :: out[k] == ByteAt(hex[..2 * i], k)
    {
      var hi, lo := Nibble(hex[2 * i]), Nibble(hex[2 * i + 1]);
      if hi.None? || lo.None? {
        return None;
      }
      out := out + [hi.value * 16 + lo.value];
    }
    assert hex[..2 * (|hex| / 2)] == hex;
    assert out == FromHex(hex).value;
    return Some(out);
  }

  lemma DigitNibble(c: char)
    requires Nibble(c).Some?
    ensures Nibble(c).value < 16 && Digit(Nibble(c).value) == LowerChar(c)
  {}

  /** Text is read as `bytes` if and only if it spells them, up to the case of its digits. */
  lemma FromHexIff(s: string, bytes: seq<Byte>)
    ensures FromHex(s) == Some(bytes) <==> Lower(s) == ToHex(bytes)
  {
    if FromHex(s) == Some(bytes) {
      forall i | 0 <= i < |bytes| ensures PairFor(bytes[i], Lower(s)[2 * i], Lower(s)[2 * i + 1]) {
        assert bytes[i] == ByteAt(s, i);
        DigitNibble(s[2 * i]);
        DigitNibble(s[2 * i + 1]);
      }
      SpellsOne(Lower(s), ToHex(bytes), bytes);
    }
    if Lower(s) == ToHex(bytes) {
      SpellingRead(s, bytes);
    }
  }

  lemma LowerDigit(c: char, n: nat)
    requires n < 16 && LowerChar(c) == Digit(n)
    ensures Nibble(c) == Some(n)
  {}

  lemma PairRead(s: string, bytes: seq<Byte>, i: nat)
    requires Spells(Lower(s), bytes) && i < |bytes|
    ensures 2 * i + 1 < |s| && Nibble(s[2 * i]) == Some(bytes[i] / 16) && Nibble(s[2 * i + 1]) == Some(bytes[i] % 16)
  {
    assert PairFor(bytes[i], Lower(s)[2 * i], Lower(s)[2 * i + 1]);
    LowerDigit(s[2 * i], bytes[i] / 16);
    LowerDigit(s[2 * i + 1], bytes[i] % 16);
  }

  lemma SpellingIsHex(s: string, bytes: seq<Byte>)
    requires Spells(Lower(s), bytes)
    ensures IsHex(s)
  {
    forall k | 0 <= k < |s| ensures Nibble(s[k]).Some? {
      PairRead(s, bytes, k / 2);
    }
  }

  lemma SpellingRead(s: string, bytes: seq<Byte>)
    requires Spells(Lower(s), bytes)
    ensures FromHex(s) == Some(bytes)
  {
    SpellingIsHex(s, bytes);
    forall i | 0 <= i < |bytes| ensures ByteAt(s, i) == bytes[i] {
      PairRead(s, bytes, i);
    }
    assert FromHex(s).value == bytes;
  }

  lemma DigitPlain(n: nat)
    requires n < 16
    ensures LowerChar(Digit(n)) == Digit(n) && Digit(n) != '$'
  {}

  lemma SpellingPlain(s: string, bytes: seq<Byte>)
    requires Spells(s, bytes)
    ensures Lower(s) == s && '$' !in s
  {
    forall k | 0 <= k < |s| ensures LowerChar(s[k]) == s[k] && s[k] != '$' {
      var i := k / 2;
      assert PairFor(bytes[i], s[2 * i], s[2 * i + 1]);
      DigitPlain(if k % 2 == 0 then bytes[i] / 16 else bytes[i] % 16);
    }
  }

  lemma FromHexToHex(bytes: seq<Byte>)
    ensures FromHex(ToHex(bytes)) == Some(bytes)
    ensures '$' !in ToHex(bytes)
  {
    SpellingPlain(ToHex(bytes), bytes);
    FromHexIff(ToHex(bytes), bytes);
  }

  // ---- the iteration count -------------------------------------------------------------

  function SignOf(t: string): string {
    if t != "" && (t[0] == '-' || t[0] == '+') then [t[0]] else ""
  }

  /** The digits behind the sign. */
  function DigitsOf(t: string): string {
    var u := t[|SignOf(t)|..];
    u[..DigitRun(u)]
  }

  /** White space, a sign and digits are read; what follows them is ignored. */
  function Stoi(s: string): Option<int> {
    var t := TrimLeft(s);
    var digits := DigitsOf(t);
    var value := Signed(SignOf(t), DecimalValue(digits));
    if digits == "" || value < -INT_LIMIT || value >= INT_LIMIT then None else Some(value)
  }

  function Signed(sign: string, n: int): int {
    if sign == "-" then -n else n
  }

  predicate Counts(s: string, space: string, sign: string, digits: string, tail: string, v: int) {
    && s == space + (sign + (digits + tail))
    && AllSpace(space) && sign in {"", "+", "-"}
    && digits != "" && AllDigits(digits) && (tail != "" ==> !IsDigit(tail[0]))
    && Signed(sign, DecimalValue(digits)) == v && -INT_LIMIT <= v < INT_LIMIT
  }

  /** A number is read exactly from white space, an optional sign, its digits and a tail that begins otherwise. */
  lemma StoiIff(s: string, v: int)
    ensures Stoi(s) == Some(v) <==> exists space, sign, digits, tail :: Counts(s, space, sign, digits, tail, v)
  {
    if Stoi(s) == Some(v) {
      CountRead(s, v);
    }
    if space, sign, digits, tail :| Counts(s, space, sign, digits, tail, v) {
      TrimLeftOver(space, sign + (digits + tail));
      DigitRunIs(digits, tail);
      SignRead(sign, digits, tail);
    }
  }

  lemma SignRead(sign: string, digits: string, tail: string)
    requires sign in {"", "+", "-"} && digits != "" && AllDigits(digits)
    ensures var t := sign + (digits + tail);
      && SignOf(t) == sign && t[|sign|..] == digits + tail && (digits + tail)[..|digits|] == digits
  {
    if sign == "" {
      assert IsDigit(digits[0]) && (sign + (digits + tail))[0] == digits[0];
    }
  }

  lemma SpaceBefore(s: string) returns (space: string)
    ensures AllSpace(space) && s == space + TrimLeft(s)
  {
    TrimLeftShape(s);
    space := s[..|s| - |TrimLeft(s)|];
  }

  lemma CountRead(s: string, v: int)
    requires Stoi(s) == Some(v)
    ensures exists space, sign, digits, tail :: Counts(s, space, sign, digits, tail, v)
  {
    var t := TrimLeft(s);
    var space := SpaceBefore(s);
    var tail := TailOf(t);
    assert Counts(s, space, SignOf(t), DigitsOf(t), tail, v);
  }

  lemma TailOf(t: string) returns (tail: string)
    ensures t == SignOf(t) + (DigitsOf(t) + tail)
    ensures AllDigits(DigitsOf(t)) && (tail != "" ==> !IsDigit(tail[0]))
  {
    var u := t[|SignOf(t)|..];
    tail := u[DigitRun(u)..];
    assert u == DigitsOf(t) + tail;
    assert t == SignOf(t) + u;
  }

  lemma {:induction false} TrimLeftOver(space: string, s: string)
    requires AllSpace(space) && s != "" && !IsSpace(s[0])
    ensures TrimLeft(space + s) == s
    decreases |space|
  {
    if space == "" {
      assert space + s == s;
    } else {
      assert (space + s)[1..] == space[1..] + s;
      TrimLeftOver(space[1..], s);
    }
  }

  /** A printed number is read back, whatever follows its digits. */
  lemma StoiIgnoresTail(n: nat, tail: string)
    requires n < INT_LIMIT && (tail != "" ==> !IsDigit(tail[0]))
    ensures Stoi(ToDecimal(n) + tail) == Some(n)
  {
    NothingBefore(ToDecimal(n) + tail);
    assert Counts(ToDecimal(n) + tail, "", "", ToDecimal(n), tail, n);
    StoiIff(ToDecimal(n) + tail, n);
  }

  lemma NothingBefore(s: string)
    ensures "" + ("" + s) == s
  {}

  lemma {:induction false} DigitRunIs(digits: string, tail: string)
    requires AllDigits(digits) && (tail != "" ==> !IsDigit(tail[0]))
    ensures DigitRun(digits + tail) == |digits|
  {
    if digits == "" {
      assert digits + tail == tail;
    } else {
      assert (digits + tail)[1..] == digits[1..] + tail;
      DigitRunIs(digits[1..], tail);
    }
  }

  // ---- records ---------------------------------------------------------------------------

  /** `verifyPbkdf2` */
  function VerifyPbkdf2(h: Hashes, plain: string, stored: string): bool {
    PBKDF2 <= stored
    && var fields := stored[|PBKDF2|..];
    var d1 := Find(fields, '$');
    d1 < |fields|
    && var iterations := Stoi(fields[..d1]);
    iterations.Some? && iterations.value >= LEAST_ITERATIONS
    && var rest := fields[d1 + 1..];
    var d2 := Find(rest, '$');
    d2 < |rest|
    && var salt, expected := FromHex(rest[..d2]), FromHex(rest[d2 + 1..]);
    salt.Some? && expected.Some? && |expected.value| == KEY_BYTES && salt.value != []
    && h.kdf(plain, salt.value, iterations.value) == Some(expected.value)
  }

  /** `verifyLegacySha256` */
  function VerifyLegacySha256(h: Hashes, plain: string, stored: string): bool {
    SHA256 <= stored
    && var fields := stored[|SHA256|..];
    var d := Find(fields, '$');
    d < |fields| && ToHex(h.sha(fields[..d] + plain)) == fields[d + 1..]
  }

  function Record(iterations: string, saltHex: string, keyHex: string): string {
    PBKDF2 + (iterations + "$" + (saltHex + "$" + keyHex))
  }

  /** A record's fields, and that the password derives its key. */
  ghost predicate Accepts(h: Hashes, plain: string, iterations: string, saltHex: string, keyHex: string) {
    && '$' !in iterations && '$' !in saltHex
    && Stoi(iterations).Some? && Stoi(iterations).value >= LEAST_ITERATIONS
    && FromHex(saltHex).Some? && FromHex(saltHex).value != []
    && FromHex(keyHex).Some? && |FromHex(keyHex).value| == KEY_BYTES
    && h.kdf(plain, FromHex(saltHex).value, Stoi(iterations).value) == Some(FromHex(keyHex).value)
  }

  lemma AfterPrefix(prefix: string, rest: string)
    ensures prefix <= prefix + rest && (prefix + rest)[|prefix|..] == rest
  {}

  lemma RecordVerified(h: Hashes, plain: string, iterations: string, saltHex: string, keyHex: string)
    requires '$' !in iterations && '$' !in saltHex
    ensures VerifyPbkdf2(h, plain, Record(iterations, saltHex, keyHex))
      <==> Accepts(h, plain, iterations, saltHex, keyHex)
  {
    AfterPrefix(PBKDF2, iterations + "$" + (saltHex + "$" + keyHex));
    FindJoin(iterations, '$', saltHex + "$" + keyHex);
    FindJoin(saltHex, '$', keyHex);
  }

  lemma VerifiedIsRecord(h: Hashes, plain: string, stored: string)
      returns (iterations: string, saltHex: string, keyHex: string)
    requires VerifyPbkdf2(h, plain, stored)
    ensures '$' !in iterations && '$' !in saltHex && stored == Record(iterations, saltHex, keyHex)
  {
    var fields := stored[|PBKDF2|..];
    FindSplit(fields, '$');
    iterations := fields[..Find(fields, '$')];
    var rest := fields[|iterations| + 1..];
    FindSplit(rest, '$');
    saltHex := rest[..Find(rest, '$')];
    keyHex := rest[|saltHex| + 1..];
    Joined(stored, PBKDF2, fields, iterations, rest, saltHex, keyHex);
  }

  lemma Joined(stored: string, prefix: string, fields: string, a: string, rest: string, b: string, c: string)
    requires prefix <= stored && fields == stored[|prefix|..]
    requires fields == a + "$" + rest && rest == b + "$" + c
    ensures stored == prefix + (a + "$" + (b + "$" + c))
  {}

  /** A current record for the password: a sufficient count, a salt, and the key derived from them. */
  ghost predicate CurrentFor(h: Hashes, plain: string, stored: string) {
    exists iterations, saltHex, keyHex ::
      stored == Record(iterations, saltHex, keyHex) && Accepts(h, plain, iterations, saltHex, keyHex)
  }

  /** `verifyPbkdf2` accepts exactly the current records for the password. */
  lemma VerifyPbkdf2Iff(h: Hashes, plain: string, stored: string)
    ensures VerifyPbkdf2(h, plain, stored) <==> CurrentFor(h, plain, stored)
  {
    if VerifyPbkdf2(h, plain, stored) {
      var iterations, saltHex, keyHex := VerifiedIsRecord(h, plain, stored);
      RecordVerified(h, plain, iterations, saltHex, keyHex);
    }
    if CurrentFor(h, plain, stored) {
      var iterations, saltHex, keyHex :|
        stored == Record(iterations, saltHex, keyHex) && Accepts(h, plain, iterations, saltHex, keyHex);
      RecordVerified(h, plain, iterations, saltHex, keyHex);
    }
  }

  function LegacyRecord(salt: string, keyHex: string): string {
    SHA256 + (salt + "$" + keyHex)
  }

  /** A legacy record for the password names the digest of salt and password, in lower case. */
  ghost predicate LegacyFor(h: Hashes, plain: string, stored: string) {
    exists salt: string :: '$' !in salt && stored == LegacyRecord(salt, ToHex(h.sha(salt + plain)))
  }

  /** `verifyLegacySha256` accepts exactly the legacy records for the password. */
  lemma VerifyLegacyIff(h: Hashes, plain: string, stored: string)
    ensures VerifyLegacySha256(h, plain, stored) <==> LegacyFor(h, plain, stored)
  {
    if VerifyLegacySha256(h, plain, stored) {
      var salt := VerifiedIsLegacy(h, plain, stored);
    }
    if LegacyFor(h, plain, stored) {
      var salt: string :| '$' !in salt && stored == LegacyRecord(salt, ToHex(h.sha(salt + plain)));
      LegacyVerified(h, plain, salt);
    }
  }

  lemma VerifiedIsLegacy(h: Hashes, plain: string, stored: string) returns (salt: string)
    requires VerifyLegacySha256(h, plain, stored)
    ensures '$' !in salt && stored == LegacyRecord(salt, ToHex(h.sha(salt + plain)))
  {
    var fields := stored[|SHA256|..];
    FindSplit(fields, '$');
    salt := fields[..Find(fields, '$')];
    JoinedLegacy(stored, SHA256, fields, salt, fields[|salt| + 1..]);
  }

  lemma JoinedLegacy(stored: string, prefix: string, fields: string, a: string, b: string)
    requires prefix <= stored && fields == stored[|prefix|..] && fields == a + "$" + b
    ensures stored == prefix + (a + "$" + b)
  {}

  lemma LegacyVerified(h: Hashes, plain: string, salt: string)
    requires '$' !in salt
    ensures VerifyLegacySha256(h, plain, LegacyRecord(salt, ToHex(h.sha(salt + plain))))
  {
    var keyHex := ToHex(h.sha(salt + plain));
    AfterPrefix(SHA256, salt + "$" + keyHex);
    FindJoin(salt, '$', keyHex);
  }

  // ---- hashing and verifying ---------------------------------------------------------------

  /** `hashPassword` with the random salt as a parameter; none stands for its two exceptions. */
  function HashPassword(h: Hashes, password: string, salt: Option<seq<Byte>>): Option<string> {
    if salt.None? then None
    else
      var key := h.kdf(password, salt.value, ITERATIONS);
      if key.None? then None
      else Some(Record(ToDecimal(ITERATIONS), ToHex(salt.value), ToHex(key.value)))
  }

  datatype Verification = Accepted(upgraded: Option<string>) | Rejected | Threw

  /** `verifyPassword`; `wantsUpgrade` says that there is somewhere to put a new record. */
  method VerifyPassword(h: Hashes, plain: string, stored: string, wantsUpgrade: bool, salt: Option<seq<Byte>>)
      returns (v: Verification)
    requires salt.Some? ==> |salt.value| == SALT_BYTES
    ensures v == Rejected <==> !CurrentFor(h, plain, stored) && !LegacyFor(h, plain, stored)
    ensures v == Accepted(None)
      <==> CurrentFor(h, plain, stored) || (LegacyFor(h, plain, stored) && !wantsUpgrade)
    ensures v == Threw
      <==> LegacyFor(h, plain, stored) && wantsUpgrade && HashPassword(h, plain, salt) == None
    ensures v.Accepted? && v.upgraded.Some? ==>
      v.upgraded == HashPassword(h, plain, salt) && CurrentFor(h, plain, v.upgraded.value)
  {
    VerifyPbkdf2Iff(h, plain, stored);
    VerifyLegacyIff(h, plain, stored);
    FormatsApart(h, plain, stored);
    if VerifyPbkdf2(h, plain, stored) {
      return Accepted(None);
    }
    if VerifyLegacySha256(h, plain, stored) {
      var upgraded: Option<string> := None;
      if wantsUpgrade {
        upgraded := HashPassword(h, plain, salt);
        if upgraded.None? {
          return Threw;
        }
        UpgradeAccepted(h, plain, salt.value);
      }
      return Accepted(upgraded);
    }
    return Rejected;
  }

  lemma DigitsNoDollar(s: string)
    requires AllDigits(s)
    ensures '$' !in s
  {}

  /** The two formats have no record in common. */
  lemma FormatsApart(h: Hashes, plain: string, stored: string)
    ensures PBKDF2 <= stored ==> !VerifyLegacySha256(h, plain, stored)
  {
    if PBKDF2 <= stored {
      assert stored[0] == 'p' && SHA256[0] == 's';
    }
  }

  /**
    A new hash is a current record for exactly the passwords that derive the same key, so
    always for the one that was hashed, and never a legacy record.
  */
  lemma HashThenVerify(h: Hashes, password: string, other: string, salt: seq<Byte>)
    requires |salt| == SALT_BYTES && h.kdf(password, salt, ITERATIONS).Some?
    ensures var hash := HashPassword(h, password, Some(salt));
      && hash.Some? && !LegacyFor(h, other, hash.value)
      && (CurrentFor(h, other, hash.value) <==> h.kdf(other, salt, ITERATIONS) == h.kdf(password, salt, ITERATIONS))
  {
    var key := h.kdf(password, salt, ITERATIONS).value;
    var record := Record(ToDecimal(ITERATIONS), ToHex(salt), ToHex(key));
    HashedIff(h, other, salt, key);
    VerifyPbkdf2Iff(h, other, record);
    VerifyLegacyIff(h, other, record);
    AfterPrefix(PBKDF2, ToDecimal(ITERATIONS) + "$" + (ToHex(salt) + "$" + ToHex(key)));
    FormatsApart(h, other, record);
  }

  /** What a legacy login is upgraded to is a current record for the same password, and needs no further upgrade. */
  lemma UpgradeAccepted(h: Hashes, plain: string, salt: seq<Byte>)
    requires |salt| == SALT_BYTES
    ensures var hash := HashPassword(h, plain, Some(salt));
      hash.Some? ==> CurrentFor(h, plain, hash.value) && !LegacyFor(h, plain, hash.value)
  {
    if h.kdf(plain, salt, ITERATIONS).Some? {
      HashThenVerify(h, plain, plain, salt);
    }
  }

  lemma HashedIff(h: Hashes, other: string, salt: seq<Byte>, key: Digest)
    requires |salt| == SALT_BYTES
    ensures VerifyPbkdf2(h, other, Record(ToDecimal(ITERATIONS), ToHex(salt), ToHex(key)))
      <==> h.kdf(other, salt, ITERATIONS) == Some(key)
  {
    var iterations := ToDecimal(ITERATIONS);
    DigitsNoDollar(iterations);
    FromHexToHex(salt);
    FromHexToHex(key);
    RecordVerified(h, other, iterations, ToHex(salt), ToHex(key));
    StoiIgnoresTail(ITERATIONS, "");
    assert iterations + "" == iterations;
  }

  /** Of the iteration field only the number that is read from it matters. */
  lemma CountByValue(h: Hashes, plain: string, a: string, b: string, saltHex: string, keyHex: string)
    requires '$' !in a && '$' !in b && '$' !in saltHex && Stoi(a) == Stoi(b)
    ensures VerifyPbkdf2(h, plain, Record(a, saltHex, keyHex)) == VerifyPbkdf2(h, plain, Record(b, saltHex, keyHex))
  {
    RecordVerified(h, plain, a, saltHex, keyHex);
    RecordVerified(h, plain, b, saltHex, keyHex);
  }

  /** The iteration field of a record may carry text behind its digits and is accepted all the same. */
  lemma TailAfterCount(h: Hashes, plain: string, n: nat, tail: string, saltHex: string, keyHex: string)
    requires n < INT_LIMIT && '$' !in tail && '$' !in saltHex && (tail != "" ==> !IsDigit(tail[0]))
    ensures VerifyPbkdf2(h, plain, Record(ToDecimal(n) + tail, saltHex, keyHex))
      == VerifyPbkdf2(h, plain, Record(ToDecimal(n), saltHex, keyHex))
  {
    StoiIgnoresTail(n, tail);
    StoiIgnoresTail(n, "");
    assert ToDecimal(n) + "" == ToDecimal(n);
    DigitsNoDollar(ToDecimal(n));
    CountByValue(h, plain, ToDecimal(n) + tail, ToDecimal(n), saltHex, keyHex);
  }
}
