/** The session identifier of `UserService.generateSessionId`:
    `Long.toHexString` of a random `long`. The random value is a parameter:
    drawing it from `SecureRandom.nextLong` is outside the model.
    `Long.toHexString` prints the unsigned two's-complement value in
    lowercase hexadecimal with no leading zeros, so a negative value gives
    sixteen digits and no sign. */
module SessionId {
  import opened Wrappers
  import opened Hex
  import opened JavaTypes

  const Two64: nat := 0x1_0000_0000_0000_0000

  /** The two's-complement reading of a `long` as an unsigned 64-bit value. */
  function Unsigned64(x: int64): (u: nat)
    ensures u < Two64
    ensures u % Two64 == x % Two64
    ensures x < 0 <==> u >= 0x8000_0000_0000_0000
  {
    if x < 0 then x + Two64 else x
  }

  /** The `long` whose unsigned 64-bit reading is `u`. */
  function Signed64(u: nat): (x: int64)
    requires u < Two64
    ensures Unsigned64(x) == u
  {
    if u < 0x8000_0000_0000_0000 then u else u - Two64
  }

  function Pow16(k: nat): (p: nat)
    ensures p >= 1
  {
    if k == 0 then 1 else 16 * Pow16(k - 1)
  }

  /** The number a lowercase hexadecimal string denotes, most significant
      digit first (leading zeros allowed). */
  function HexValue(s: string): (n: nat)
    requires IsLowerHex(s)
    ensures n < Pow16(|s|)
  {
    if s == [] then 0 else HexValue(s[..|s| - 1]) * 16 + DigitValue(s[|s| - 1])
  }

  /** A hexadecimal numeral as `Long.toHexString` prints one: lowercase
      digits, at least one of them, and no leading zero unless it is "0". */
  predicate IsCanonicalHex(s: string) {
    1 <= |s| && IsLowerHex(s) && (s[0] == '0' ==> s == "0")
  }

  /** The minimal lowercase hexadecimal numeral of `n`. The length clauses
      pin the number of digits: `Pow16(|s| - 1) <= n < Pow16(|s|)` once
      `n` needs more than one digit. */
  function UnsignedHex(n: nat): (s: string)
    ensures IsCanonicalHex(s)
    ensures HexValue(s) == n
    ensures n < Pow16(|s|)
    ensures |s| > 1 ==> Pow16(|s| - 1) <= n
    decreases n
  {
    if n < 16 then [Digit(n)]
    else
      var s := UnsignedHex(n / 16) + [Digit(n % 16)];
      assert s[..|s| - 1] == UnsignedHex(n / 16);
      s
  }

  /** `generateSessionId` with its random `long` given; the result is
      `Long.toHexString(sessionId)`. */
  function GenerateSessionId(sessionId: int64): (id: string)
    ensures IsCanonicalHex(id)
    ensures HexValue(id) == Unsigned64(sessionId)
  {
    UnsignedHex(Unsigned64(sessionId))
  }

  /** Reads a session id back as an unsigned 64-bit value into a `long`;
      `None` for the empty string, a character outside `0-9a-f`, or a value
      that does not fit in 64 bits. */
  function ParseSessionId(s: string): (r: Option<int64>)
    ensures r.Some? ==> IsLowerHex(s) && Unsigned64(r.value) == HexValue(s)
  {
    if |s| == 0 || !IsLowerHex(s) || HexValue(s) >= Two64 then None
    else Some(Signed64(HexValue(s)))
  }

  lemma {:induction false} Pow16Monotone(i: nat, j: nat)
    requires i <= j
    ensures Pow16(i) <= Pow16(j)
    decreases j
  {
    if i < j {
      Pow16Monotone(i, j - 1);
    }
  }

  /** A session id has between 1 and 16 digits, and exactly 16 when the
      random `long` is negative. */
  lemma SessionIdLength(sessionId: int64)
    ensures 1 <= |GenerateSessionId(sessionId)| <= 16
    ensures sessionId < 0 ==> |GenerateSessionId(sessionId)| == 16
  {
    var id := GenerateSessionId(sessionId);
    var n := Unsigned64(sessionId);
    assert Pow16(15) == 0x1000_0000_0000_0000;
    assert Pow16(16) == Two64;
    if |id| > 16 {
      Pow16Monotone(16, |id| - 1);
      assert false;
    }
    if sessionId < 0 && |id| < 16 {
      Pow16Monotone(|id|, 15);
      assert false;
    }
  }

  /** Parsing a session id back recovers the `long` it was rendered from. */
  lemma SessionIdRoundTrip(sessionId: int64)
    ensures ParseSessionId(GenerateSessionId(sessionId)) == Some(sessionId)
  {
  }

  /** One more low digit: the step `UnsignedHex` takes for `n >= 16`. */
  lemma UnsignedHexStep(v: nat, d: nat)
    requires 1 <= v && d < 16
    ensures UnsignedHex(v * 16 + d) == UnsignedHex(v) + [Digit(d)]
  {
    var n := v * 16 + d;
    assert n / 16 == v && n % 16 == d;
  }

  /** A canonical numeral is `UnsignedHex` of its own value. */
  lemma {:induction false} UnsignedHexOfValue(s: string)
    requires IsCanonicalHex(s)
    ensures UnsignedHex(HexValue(s)) == s
    decreases |s|
  {
    if |s| == 1 {
      DigitOfValue(s[0]);
      assert [s[0]] == s;
    } else {
      var p := s[..|s| - 1];
      var c := s[|s| - 1];
      assert p[0] == s[0];
      UnsignedHexOfValue(p);
      UnsignedHexStep(HexValue(p), DigitValue(c));
      DigitOfValue(c);
      assert p + [c] == s;
    }
  }

  /** Every canonical numeral that parses is the session id of the `long`
      it parses to: rendering and parsing are inverse on canonical text. */
  lemma SessionIdFromParse(s: string)
    requires IsCanonicalHex(s) && ParseSessionId(s).Some?
    ensures GenerateSessionId(ParseSessionId(s).value) == s
  {
    UnsignedHexOfValue(s);
  }
}
