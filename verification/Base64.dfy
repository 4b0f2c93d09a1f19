/** `base64.StdEncoding`: section 4 of RFC 4648 as Go encodes and decodes it. */
module Base64 {
  import opened Basics

  type Sextet = n: int | 0 <= n < 64

  function Symbol(i: Sextet): char {
    if i < 26 then ('A' as int + i) as char
    else if i < 52 then ('a' as int + (i - 26)) as char
    else if i < 62 then ('0' as int + (i - 52)) as char
    else if i == 62 then '+' else '/'
  }

  function SymbolValue(c: char): Option<Sextet> {
    if 'A' <= c <= 'Z' then Some(c as int - 'A' as int)
    else if 'a' <= c <= 'z' then Some(c as int - 'a' as int + 26)
    else if '0' <= c <= '9' then Some(c as int - '0' as int + 52)
    else if c == '+' then Some(62)
    else if c == '/' then Some(63)
    else None
  }

  predicate IsSymbol(c: char) { SymbolValue(c).Some? || c == '=' }

  lemma SymbolRoundTrip(i: Sextet)
    ensures SymbolValue(Symbol(i)) == Some(i) && IsSymbol(Symbol(i))
  {
  }

  // The four sextets of three bytes, and the three bytes of four sextets.

  function Sextet1(a: Byte): Sextet { a / 4 }
  function Sextet2(a: Byte, b: Byte): Sextet { a % 4 * 16 + b / 16 }
  function Sextet3(b: Byte, c: Byte): Sextet { b % 16 * 4 + c / 64 }
  function Sextet4(c: Byte): Sextet { c % 64 }

  function Byte1(w: Sextet, x: Sextet): Byte { w * 4 + x / 16 }
  function Byte2(x: Sextet, y: Sextet): Byte { x % 16 * 16 + y / 4 }
  function Byte3(y: Sextet, z: Sextet): Byte { y % 4 * 64 + z }

  lemma GroupRoundTrip(a: Byte, b: Byte, c: Byte)
    ensures Byte1(Sextet1(a), Sextet2(a, b)) == a
    ensures Byte2(Sextet2(a, b), Sextet3(b, c)) == b
    ensures Byte3(Sextet3(b, c), Sextet4(c)) == c
  {
  }

  lemma FirstByteRoundTrip(a: Byte)
    ensures Byte1(Sextet1(a), Sextet2(a, 0)) == a
  {
  }

  function Encode(b: Bytes): string {
    if |b| == 0 then ""
    else if |b| == 1 then [Symbol(Sextet1(b[0])), Symbol(Sextet2(b[0], 0)), '=', '=']
    else if |b| == 2 then [Symbol(Sextet1(b[0])), Symbol(Sextet2(b[0], b[1])), Symbol(Sextet3(b[1], 0)), '=']
    else
      [Symbol(Sextet1(b[0])), Symbol(Sextet2(b[0], b[1])), Symbol(Sextet3(b[1], b[2])), Symbol(Sextet4(b[2]))]
      + Encode(b[3..])
  }

  /** Line breaks are skipped wherever they occur. */
  function WithoutBreaks(s: string): string {
    if s == "" then ""
    else if s[0] == '\n' || s[0] == '\r' then WithoutBreaks(s[1..])
    else [s[0]] + WithoutBreaks(s[1..])
  }

  /** Groups of four symbols, padding only in the last; bits beyond the last byte are ignored. */
  function DecodeGroups(s: string): Option<Bytes> {
    if s == "" then Some([])
    else if |s| < 4 then None
    else
      var w, x, y, z := SymbolValue(s[0]), SymbolValue(s[1]), SymbolValue(s[2]), SymbolValue(s[3]);
      if w.None? || x.None? then None
      else if y.None? then
        if s[2] == '=' && s[3] == '=' && |s| == 4 then Some([Byte1(w.value, x.value)]) else None
      else if z.None? then
        if s[3] == '=' && |s| == 4 then Some([Byte1(w.value, x.value), Byte2(x.value, y.value)]) else None
      else
        var rest := DecodeGroups(s[4..]);
        if rest.None? then None
        else Some([Byte1(w.value, x.value), Byte2(x.value, y.value), Byte3(y.value, z.value)] + rest.value)
  }

  /** `base64.StdEncoding.DecodeString`. */
  function Decode(s: string): Option<Bytes> { DecodeGroups(WithoutBreaks(s)) }

  /** Encodings are made of symbols alone. */
  lemma {:induction false} EncodeSymbols(b: Bytes)
    ensures forall i :: 0 <= i < |Encode(b)| ==> IsSymbol(Encode(b)[i])
  {
    assert IsSymbol('=');
    hide Symbol, IsSymbol, Sextet1, Sextet2, Sextet3, Sextet4;
    if |b| == 1 {
      SymbolRoundTrip(Sextet1(b[0]));
      SymbolRoundTrip(Sextet2(b[0], 0));
    } else if |b| == 2 {
      SymbolRoundTrip(Sextet1(b[0]));
      SymbolRoundTrip(Sextet2(b[0], b[1]));
      SymbolRoundTrip(Sextet3(b[1], 0));
    } else if |b| > 2 {
      SymbolRoundTrip(Sextet1(b[0]));
      SymbolRoundTrip(Sextet2(b[0], b[1]));
      SymbolRoundTrip(Sextet3(b[1], b[2]));
      SymbolRoundTrip(Sextet4(b[2]));
      EncodeSymbols(b[3..]);
    }
  }

  /** Four symbols for each started group of three bytes. */
  lemma {:induction false} EncodeLength(b: Bytes)
    ensures |Encode(b)| == (|b| + 2) / 3 * 4
  {
    if |b| > 2 {
      EncodeLength(b[3..]);
      assert (|b| + 2) / 3 == (|b| - 1) / 3 + 1;
    }
  }

  lemma {:induction false} WithoutBreaksIdentity(s: string)
    requires forall i :: 0 <= i < |s| ==> s[i] != '\n' && s[i] != '\r'
    ensures WithoutBreaks(s) == s
  {
    if s != "" {
      WithoutBreaksIdentity(s[1..]);
    }
  }

  lemma DecodeFullGroup(s: string, a: Byte, b: Byte, c: Byte)
    requires |s| >= 4
    requires s[0] == Symbol(Sextet1(a)) && s[1] == Symbol(Sextet2(a, b))
    requires s[2] == Symbol(Sextet3(b, c)) && s[3] == Symbol(Sextet4(c))
    ensures DecodeGroups(s[4..]).Some? ==> DecodeGroups(s) == Some([a, b, c] + DecodeGroups(s[4..]).value)
  {
    hide Symbol, SymbolValue, Byte1, Byte2, Byte3, Sextet1, Sextet2, Sextet3, Sextet4;
    SymbolRoundTrip(Sextet1(a));
    SymbolRoundTrip(Sextet2(a, b));
    SymbolRoundTrip(Sextet3(b, c));
    SymbolRoundTrip(Sextet4(c));
    GroupRoundTrip(a, b, c);
  }

  lemma DecodeOneByte(s: string, a: Byte)
    requires |s| == 4 && s[0] == Symbol(Sextet1(a)) && s[1] == Symbol(Sextet2(a, 0)) && s[2] == s[3] == '='
    ensures DecodeGroups(s) == Some([a])
  {
    assert SymbolValue('=').None?;
    hide Symbol, SymbolValue, Byte1, Byte2, Byte3, Sextet1, Sextet2, Sextet3, Sextet4;
    SymbolRoundTrip(Sextet1(a));
    SymbolRoundTrip(Sextet2(a, 0));
    FirstByteRoundTrip(a);
  }

  lemma DecodeTwoBytes(s: string, a: Byte, b: Byte)
    requires |s| == 4 && s[0] == Symbol(Sextet1(a)) && s[1] == Symbol(Sextet2(a, b)) && s[2] == Symbol(Sextet3(b, 0))
    requires s[3] == '='
    ensures DecodeGroups(s) == Some([a, b])
  {
    assert SymbolValue('=').None?;
    hide Symbol, SymbolValue, Byte1, Byte2, Byte3, Sextet1, Sextet2, Sextet3, Sextet4;
    SymbolRoundTrip(Sextet1(a));
    SymbolRoundTrip(Sextet2(a, b));
    SymbolRoundTrip(Sextet3(b, 0));
    GroupRoundTrip(a, b, 0);
  }

  lemma {:induction false} GroupsRoundTrip(b: Bytes)
    ensures DecodeGroups(Encode(b)) == Some(b)
  {
    hide Symbol, SymbolValue, Sextet1, Sextet2, Sextet3, Sextet4;
    if |b| == 1 {
      assert b == [b[0]];
      DecodeOneByte(Encode(b), b[0]);
    } else if |b| == 2 {
      assert b == [b[0], b[1]];
      DecodeTwoBytes(Encode(b), b[0], b[1]);
    } else if |b| > 2 {
      var s := Encode(b);
      GroupsRoundTrip(b[3..]);
      hide DecodeGroups;
      assert s[4..] == Encode(b[3..]);
      DecodeFullGroup(s, b[0], b[1], b[2]);
      assert b == [b[0], b[1], b[2]] + b[3..];
    }
  }

  /** Decoding undoes encoding. */
  lemma RoundTrip(b: Bytes)
    ensures Decode(Encode(b)) == Some(b)
  {
    EncodeSymbols(b);
    WithoutBreaksIdentity(Encode(b));
    GroupsRoundTrip(b);
  }

  /** What decodes is exactly as long as its canonical encoding. */
  lemma {:induction false} DecodedGroupsLength(s: string)
    requires DecodeGroups(s).Some?
    ensures |s| == |Encode(DecodeGroups(s).value)|
  {
    if s != "" {
      EncodeLength(DecodeGroups(s).value);
      if SymbolValue(s[2]).Some? && SymbolValue(s[3]).Some? {
        DecodedGroupsLength(s[4..]);
        EncodeLength(DecodeGroups(s[4..]).value);
      }
    }
  }

  /**
    The alphabet and padding of section 4 of RFC 4648, on the test vectors of its section 10 and on the last two
    symbols.
   */
  lemma KnownEncodings()
    ensures Encode([]) == "" && Encode([102]) == "Zg==" && Encode([102, 111]) == "Zm8="
            && Encode([102, 111, 111]) == "Zm9v"
    ensures Encode([102, 111, 111, 98, 97, 114]) == "Zm9vYmFy"
    ensures Encode([251, 255, 0]) == "+/8A"
  {
    assert [102, 111, 111, 98, 97, 114][3..] == [98, 97, 114];
    assert Encode([98, 97, 114]) == "YmFy";
  }

  /** Padding is needed and nothing may follow it, but stray low bits before it and line breaks are let through. */
  lemma KnownDecodings()
    ensures Decode("Zh==") == Some([102]) && Decode("Zg").None? && Decode("Zg==Zg==").None?
    ensures Decode("Z\r\ng==") == Some([102])
  {
    assert DecodeGroups("Zh==") == Some([102]) && DecodeGroups("Zg==") == Some([102]);
    assert DecodeGroups("Zg").None? && DecodeGroups("Zg==Zg==").None?;
    hide DecodeGroups;
    WithoutBreaksIdentity("Zh==");
    WithoutBreaksIdentity("Zg");
    WithoutBreaksIdentity("Zg==Zg==");
    WithoutBreaksIdentity("g==");
    BreaksVanish("Z", "g==");
    WithoutBreaksIdentity("Z");
  }

  lemma {:induction false} BreaksVanish(s: string, t: string)
    ensures WithoutBreaks(s + "\r\n" + t) == WithoutBreaks(s) + WithoutBreaks(t)
  {
    var all := s + "\r\n" + t;
    if s == "" {
      assert all[1..] == "\n" + t && ("\n" + t)[1..] == t;
    } else {
      BreaksVanish(s[1..], t);
      assert all[1..] == s[1..] + "\r\n" + t;
    }
  }
}
