/** The password-reset token of `UserService.generatePasswordResetToken`:
    32 random bytes, each appended as `String.format("%02x", b)`.
    This is the Base16 encoding of section 8 of RFC 4648 with lowercase
    digits. The random bytes are a parameter: drawing them from
    `SecureRandom` is outside the model. */
module ResetToken {
  import opened Wrappers
  import opened Hex
  import opened JavaTypes

  /** Number of random bytes in a reset token (`new byte[32]`). */
  const TokenBytes: nat := 32

  /** The unsigned value Java's `%x` prints for a `byte`: a negative byte
      is taken as its two's-complement value, `b + 256`. */
  function Unsigned8(b: int8): (u: nat)
    ensures u < 256
    ensures u % 256 == b % 256
  {
    if b < 0 then b + 256 else b
  }

  /** The byte whose unsigned value is `u`. */
  function Signed8(u: nat): (b: int8)
    requires u < 256
    ensures Unsigned8(b) == u
  {
    if u < 128 then u else u - 256
  }

  /** `String.format("%02x", b)`: two digits, high nibble first, zero-padded. */
  function FormatByte(b: int8): (r: string)
    ensures |r| == 2 && IsLowerHex(r)
    ensures DigitValue(r[0]) * 16 + DigitValue(r[1]) == Unsigned8(b)
  {
    [Digit(Unsigned8(b) / 16), Digit(Unsigned8(b) % 16)]
  }

  /** The token text for a sequence of bytes, in input order. */
  function Encode(bytes: seq<int8>): (r: string)
    ensures |r| == 2 * |bytes|
    ensures IsLowerHex(r)
  {
    if bytes == [] then [] else FormatByte(bytes[0]) + Encode(bytes[1..])
  }

  /** Reads a token text back, two digits per byte; `None` for an odd
      length or a character outside `0-9a-f`. */
  function Decode(s: string): (r: Option<seq<int8>>)
    ensures r.Some? ==> 2 * |r.value| == |s|
  {
    if |s| == 0 then Some([])
    else if |s| == 1 || !IsLowerHexChar(s[0]) || !IsLowerHexChar(s[1]) then None
    else match Decode(s[2..])
      case None => None
      case Some(rest) => Some([Signed8(DigitValue(s[0]) * 16 + DigitValue(s[1]))] + rest)
  }

  /** Appending one byte appends its two digits: the step of the source's
      `StringBuilder` loop. */
  lemma {:induction false} EncodeAppend(bytes: seq<int8>, b: int8)
    ensures Encode(bytes + [b]) == Encode(bytes) + FormatByte(b)
  {
    if bytes == [] {
      assert [] + [b] == [b];
      assert [b][1..] == [];
    } else {
      assert (bytes + [b])[1..] == bytes[1..] + [b];
      EncodeAppend(bytes[1..], b);
    }
  }

  /** Byte `i` is rendered at positions `2i` (high nibble) and `2i + 1`
      (low nibble). */
  lemma {:induction false} EncodeAt(bytes: seq<int8>, i: nat)
    requires i < |bytes|
    ensures Encode(bytes)[2 * i] == Digit(Unsigned8(bytes[i]) / 16)
    ensures Encode(bytes)[2 * i + 1] == Digit(Unsigned8(bytes[i]) % 16)
  {
    if i > 0 {
      EncodeAt(bytes[1..], i - 1);
    }
  }

  /** Decoding a token recovers the bytes it was made from. */
  lemma {:induction false} DecodeEncode(bytes: seq<int8>)
    ensures Decode(Encode(bytes)) == Some(bytes)
  {
    if bytes != [] {
      var s := Encode(bytes);
      var u := Unsigned8(bytes[0]);
      assert s[..2] == FormatByte(bytes[0]);
      assert s[2..] == Encode(bytes[1..]);
      DecodeEncode(bytes[1..]);
      assert DigitValue(s[0]) * 16 + DigitValue(s[1]) == u;
      assert Signed8(u) == bytes[0];
      assert IsLowerHexChar(s[0]) && IsLowerHexChar(s[1]);
      assert [bytes[0]] + bytes[1..] == bytes;
    }
  }

  /** Every string `Decode` accepts is the encoding of what it returns:
      the encoding is a bijection onto the even-length lowercase hex strings. */
  lemma {:induction false} EncodeDecode(s: string)
    requires Decode(s).Some?
    ensures Encode(Decode(s).value) == s
  {
    if |s| > 0 {
      var rest := Decode(s[2..]).value;
      var b := Signed8(DigitValue(s[0]) * 16 + DigitValue(s[1]));
      EncodeDecode(s[2..]);
      var u := Unsigned8(b);
      assert u == DigitValue(s[0]) * 16 + DigitValue(s[1]);
      assert u / 16 == DigitValue(s[0]) && u % 16 == DigitValue(s[1]);
      DigitOfValue(s[0]);
      DigitOfValue(s[1]);
      assert ([b] + rest)[0] == b && ([b] + rest)[1..] == rest;
      assert FormatByte(b) == s[..2];
      assert s == s[..2] + s[2..];
    }
  }

  /** `Decode` accepts exactly the even-length lowercase hexadecimal strings. */
  lemma {:induction false} DecodeDefined(s: string)
    ensures Decode(s).Some? <==> (|s| % 2 == 0 && IsLowerHex(s))
  {
    if |s| >= 2 {
      DecodeDefined(s[2..]);
      if Decode(s).Some? {
        forall i | 0 <= i < |s| ensures IsLowerHexChar(s[i]) {
          if i >= 2 { assert s[i] == s[2..][i - 2]; }
        }
      }
    } else if |s| == 1 {
      assert Decode(s).None?;
    }
  }

  /** `generatePasswordResetToken` with its random bytes given: the loop
      appends `FormatByte` of each byte in order, so the token is exactly
      `Encode` of the bytes, 64 lowercase hex characters. */
  method GeneratePasswordResetToken(randomBytes: array<int8>) returns (token: string)
    requires randomBytes.Length == TokenBytes
    ensures token == Encode(randomBytes[..])
    ensures |token| == 2 * TokenBytes && IsLowerHex(token)
    ensures Decode(token) == Some(randomBytes[..])
  {
    token := "";
    for i := 0 to randomBytes.Length
      invariant token == Encode(randomBytes[..i])
    {
      EncodeAppend(randomBytes[..i], randomBytes[i]);
      assert randomBytes[..i + 1] == randomBytes[..i] + [randomBytes[i]];
      token := token + FormatByte(randomBytes[i]);
    }
    assert randomBytes[..] == randomBytes[..randomBytes.Length];
    DecodeEncode(randomBytes[..]);
  }
}
