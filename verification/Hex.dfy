/** `encoding/hex`. */
module Hex {
  import opened Basics
  import opened Numerals

  function Encode(b: Bytes): (s: string)
    ensures |s| == 2 * |b|
  {
    if b == [] then "" else [DigitChar(b[0] / 16), DigitChar(b[0] % 16)] + Encode(b[1..])
  }

  /** The bytes decoded before the first invalid pair, which `DecodeString` returns with its error. */
  function DecodePrefix(s: string): Bytes {
    if |s| < 2 || DigitValue(s[0]).None? || DigitValue(s[1]).None? then []
    else [DigitValue(s[0]).value * 16 + DigitValue(s[1]).value] + DecodePrefix(s[2..])
  }

  predicate IsHex(s: string) { |s| % 2 == 0 && AllDigits(s, 16) }

  /** `hex.DecodeString`. */
  function Decode(s: string): Option<Bytes> {
    if IsHex(s) then Some(DecodePrefix(s)) else None
  }

  lemma {:induction false} PrefixOfEncoding(b: Bytes)
    ensures AllDigits(Encode(b), 16) && DecodePrefix(Encode(b)) == b
  {
    if b != [] {
      DigitRoundTrip(b[0] / 16);
      DigitRoundTrip(b[0] % 16);
      PrefixOfEncoding(b[1..]);
      assert Encode(b)[2..] == Encode(b[1..]);
    }
  }

  /** Decoding undoes encoding. */
  lemma RoundTrip(b: Bytes)
    ensures Decode(Encode(b)) == Some(b)
  {
    PrefixOfEncoding(b);
  }

  /** Encoding what was decoded gives the digits back in lower case. */
  lemma {:induction false} EncodeDecoded(s: string)
    requires IsHex(s)
    ensures Encode(DecodePrefix(s)) == Lower(s)
  {
    if s != "" {
      assert IsDigit(s[0], 16) && IsDigit(s[1], 16);
      DigitInLower(s[0]);
      DigitInLower(s[1]);
      assert IsHex(s[2..]);
      EncodeDecoded(s[2..]);
      assert Lower(s) == [LowerChar(s[0]), LowerChar(s[1])] + Lower(s[2..]);
    }
  }

  /** Letter case makes no difference to decoding. */
  lemma LowerDecodes(s: string)
    requires IsHex(Lower(s))
    ensures IsHex(s) && DecodePrefix(s) == DecodePrefix(Lower(s))
  {
    hide DecodePrefix, Encode;
    LowerDigits(s);
    EncodeDecoded(s);
    PrefixOfEncoding(DecodePrefix(s));
  }

  /** Two lower-case digits for each byte, the high half first. */
  lemma KnownEncodings()
    ensures Encode([0x0f, 0xa0]) == "0fa0"
    ensures Decode("0F") == Some([15]) && Decode("0").None? && Decode("0g").None? && DecodePrefix("0fg0") == [15]
  {
    assert "0fg0"[2..] == "g0" && "0F"[2..] == "" && DecodePrefix("") == [] && DecodePrefix("0F") == [15];
    assert !IsDigit("0g"[1], 16);
    assert Encode([0xa0]) == "a0";
  }
}
