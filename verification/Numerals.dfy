/** Numbers as text: the verbs `%d` and `%x` of `fmt`, and `strconv.ParseUint` and `ParseInt`. */
module Numerals {
  import opened Basics

  type Base = b: int | b == 10 || b == 16 witness 10

  function DigitChar(d: nat): (c: char)
    requires d < 16
  {
    if d < 10 then ('0' as int + d) as char else ('a' as int + (d - 10)) as char
  }

  /** The value of a digit of either case, or None. */
  function DigitValue(c: char): (v: Option<nat>)
    ensures v.Some? ==> v.value < 16
  {
    if '0' <= c <= '9' then Some(c as int - '0' as int)
    else if 'a' <= c <= 'f' then Some(c as int - 'a' as int + 10)
    else if 'A' <= c <= 'F' then Some(c as int - 'A' as int + 10)
    else None
  }

  predicate IsDigit(c: char, base: Base) {
    DigitValue(c).Some? && DigitValue(c).value < base
  }

  predicate AllDigits(s: string, base: Base) {
    forall i :: 0 <= i < |s| ==> IsDigit(s[i], base)
  }

  lemma DigitRoundTrip(d: nat)
    requires d < 16
    ensures DigitValue(DigitChar(d)) == Some(d)
  {
  }

  /** The numeral of `n`, most significant digit first, without leading zeros. */
  function Format(n: nat, base: Base): string
    decreases n
  {
    if n < base then [DigitChar(n)] else Format(n / base, base) + [DigitChar(n % base)]
  }

  /** `%d` and `%x` of a signed number. */
  function FormatInt(x: int, base: Base): string {
    if x < 0 then "-" + Format(-x, base) else Format(x, base)
  }

  function Value(s: string, base: Base): nat
    requires AllDigits(s, base)
  {
    if s == "" then 0
    else
      var n := |s| - 1;
      assert IsDigit(s[n], base);
      Value(s[..n], base) * base + DigitValue(s[n]).value
  }

  /** `strconv.ParseUint(s, base, 64)`. */
  function ParseUint(s: string, base: Base): Option<U64> {
    if s != "" && AllDigits(s, base) && Value(s, base) < TWO_64 then Some(Value(s, base)) else None
  }

  /** `strconv.ParseInt(s, base, 64)`: an optional sign, then an unsigned numeral in range. */
  function ParseInt(s: string, base: Base): Option<int> {
    if s == "" then None
    else
      var negative := s[0] == '-';
      var magnitude := ParseUint(if negative || s[0] == '+' then s[1..] else s, base);
      if magnitude.None? then None
      else if negative then (if magnitude.value <= TWO_63 then Some(0 - magnitude.value) else None)
      else if magnitude.value < TWO_63 then Some(magnitude.value) else None
  }

  /** A numeral reads back as its number. */
  lemma {:induction false} FormatRoundTrip(n: nat, base: Base)
    ensures Format(n, base) != "" && AllDigits(Format(n, base), base)
    ensures Value(Format(n, base), base) == n
    decreases n
  {
    DigitRoundTrip(n % base);
    if n < base {
      assert Format(n, base)[..0] == "";
    } else {
      FormatRoundTrip(n / base, base);
      var s := Format(n, base);
      assert s[..|s| - 1] == Format(n / base, base);
      assert n == n / base * base + n % base;
    }
  }

  lemma ParseUintRoundTrip(n: nat, base: Base)
    requires IsUint64(n)
    ensures ParseUint(Format(n, base), base) == Some(n)
  {
    FormatRoundTrip(n, base);
  }

  lemma DigitIsNoSign(c: char, base: Base)
    requires IsDigit(c, base)
    ensures c != '-' && c != '+'
  {
  }

  /** Zeros in front of a numeral do not change its value. */
  lemma {:induction false} LeadingZeros(zeros: string, s: string, base: Base)
    requires AllDigits(s, base) && forall i :: 0 <= i < |zeros| ==> zeros[i] == '0'
    ensures AllDigits(zeros + s, base) && Value(zeros + s, base) == Value(s, base)
    decreases |s|, |zeros|
  {
    if s != "" {
      var n := |s| - 1;
      LeadingZeros(zeros, s[..n], base);
      assert (zeros + s)[..|zeros + s| - 1] == zeros + s[..n];
    } else if zeros != "" {
      var n := |zeros| - 1;
      LeadingZeros(zeros[..n], "", base);
      assert zeros[..n] + "" == (zeros + "")[..n];
      assert IsDigit('0', base);
    }
  }

  /** A signed number reads back from its numeral. */
  lemma FormatIntParses(x: int, base: Base)
    requires IsInt64(x)
    ensures ParseInt(FormatInt(x, base), base) == Some(x)
  {
    hide Value, Format;
    var s := FormatInt(x, base);
    FormatRoundTrip(if x < 0 then -x else x, base);
    if x < 0 {
      assert s[1..] == Format(-x, base);
    } else {
      assert IsDigit(s[0], base);
      DigitIsNoSign(s[0], base);
    }
  }

  /** Different numbers, of any size, have different numerals. */
  lemma FormatIntInjective(x: int, y: int, base: Base)
    requires FormatInt(x, base) == FormatInt(y, base)
    ensures x == y
  {
    hide Value, Format;
    FormatRoundTrip(if x < 0 then -x else x, base);
    FormatRoundTrip(if y < 0 then -y else y, base);
    var (s, t) := (FormatInt(x, base), FormatInt(y, base));
    assert x >= 0 ==> IsDigit(s[0], base);
    assert y >= 0 ==> IsDigit(t[0], base);
    assert x < 0 ==> s[1..] == Format(-x, base);
    assert y < 0 ==> t[1..] == Format(-y, base);
  }

  /** Numerals are written most significant digit first, with lower-case letters and a leading sign. */
  lemma KnownNumerals()
    ensures Format(1203, 10) == "1203" && Format(0x2fa, 16) == "2fa" && Format(0, 10) == "0"
    ensures FormatInt(-26, 16) == "-1a"
  {
    assert Format(0x2f, 16) == "2f" && Format(120, 10) == "120" && Format(12, 10) == "12";
  }

  /** Digits with or without a sign parse exactly when their number is an int64. */
  lemma ParseIntIs(s: string, base: Base)
    requires IsNumeral(s, base)
    ensures var v: int := Value(s, base);
            && ParseInt(s, base) == (if IsInt64(v) then Some(v) else None)
            && ParseInt("+" + s, base) == (if IsInt64(v) then Some(v) else None)
            && ParseInt("-" + s, base) == (if IsInt64(-v) then Some(-v) else None)
  {
    hide Value, IsDigit;
    assert IsDigit(s[0], base);
    DigitIsNoSign(s[0], base);
    assert ("+" + s)[1..] == s && ("-" + s)[1..] == s;
  }

  predicate IsNumeral(s: string, base: Base) { s != "" && AllDigits(s, base) }

  /** And nothing else parses. */
  lemma ParsedIntIs(s: string, base: Base)
    requires ParseInt(s, base).Some?
    ensures IsNumeral(s, base) || (s != "" && s[0] in "+-" && IsNumeral(s[1..], base))
  {
    hide Value, IsDigit;
  }

  // ----- Letter case of hexadecimal digits -----

  function LowerChar(c: char): char { if 'A' <= c <= 'F' then (c as int - 'A' as int + 'a' as int) as char else c }

  function UpperChar(c: char): char { if 'a' <= c <= 'f' then (c as int - 'a' as int + 'A' as int) as char else c }

  function Lower(s: string): string { seq(|s|, i requires 0 <= i < |s| => LowerChar(s[i])) }

  function Upper(s: string): string { seq(|s|, i requires 0 <= i < |s| => UpperChar(s[i])) }

  predicate HasUpper(s: string) { exists i :: 0 <= i < |s| && 'A' <= s[i] <= 'F' }

  predicate HasLower(s: string) { exists i :: 0 <= i < |s| && 'a' <= s[i] <= 'f' }

  lemma LowerIsSelf(s: string)
    ensures Lower(s) == s <==> !HasUpper(s)
  {
    if i :| 0 <= i < |s| && 'A' <= s[i] <= 'F' {
      assert Lower(s)[i] != s[i];
    }
  }

  lemma NoUpperInBoth(a: string, b: string)
    requires !HasUpper(a) && !HasUpper(b)
    ensures !HasUpper(a + b)
  {
  }

  lemma LowerOfUpper(s: string)
    requires !HasUpper(s)
    ensures Lower(Upper(s)) == s
    ensures HasLower(s) ==> HasUpper(Upper(s))
  {
    if i :| 0 <= i < |s| && 'a' <= s[i] <= 'f' {
      assert 'A' <= Upper(s)[i] <= 'F';
    }
  }

  /** The digit written for a digit read is its lower case. */
  lemma DigitInLower(c: char)
    requires IsDigit(c, 16)
    ensures DigitChar(DigitValue(c).value) == LowerChar(c)
    ensures DigitValue(LowerChar(c)) == DigitValue(c) == DigitValue(UpperChar(c))
  {
  }

  lemma LowerDigits(s: string)
    ensures AllDigits(Lower(s), 16) <==> AllDigits(s, 16)
  {
    hide IsDigit, LowerChar;
    forall i | 0 <= i < |s|
      ensures IsDigit(LowerChar(s[i]), 16) <==> IsDigit(s[i], 16)
    {
      CaseKeepsDigit(s[i]);
    }
    if AllDigits(Lower(s), 16) {
      forall i | 0 <= i < |s|
        ensures IsDigit(s[i], 16)
      {
        assert IsDigit(Lower(s)[i], 16);
      }
    }
  }

  lemma CaseKeepsDigit(c: char)
    ensures IsDigit(LowerChar(c), 16) <==> IsDigit(c, 16)
  {
  }

  lemma {:induction false} LowerValue(s: string)
    requires AllDigits(s, 16)
    ensures AllDigits(Lower(s), 16) && Value(Lower(s), 16) == Value(s, 16)
  {
    LowerDigits(s);
    if s != "" {
      var n := |s| - 1;
      LowerValue(s[..n]);
      assert Lower(s)[..n] == Lower(s[..n]);
      assert IsDigit(s[n], 16);
      DigitInLower(s[n]);
    }
  }

  function Pow16(k: nat): nat {
    if k == 0 then 1 else 16 * Pow16(k - 1)
  }

  /** A number below `16^k` has at most `k` hexadecimal digits. */
  lemma {:induction false} HexLength(n: nat, k: nat)
    requires 1 <= k && n < Pow16(k)
    ensures |Format(n, 16)| <= k
    decreases n
  {
    assert Pow16(1) == 16;
    if n >= 16 {
      HexLength(n / 16, k - 1);
    }
  }
}
