/**
 * Python's `int(s)` on a `str` in base 10, the conversion the handler
 * applies to the `Content-Length` header value. `None` stands for the
 * `ValueError` it raises.
 */
module PyInt {
  import opened Wrappers

  /**
   * The characters `int` skips at both ends: below U+007F only tab, line
   * feed, vertical tab, form feed, carriage return and space (the
   * separators U+001C to U+001F, which `str.isspace` accepts, are
   * rejected), and above it the Unicode white space characters.
   */
  predicate IsPySpace(c: char) {
    var n := c as int;
    n == 0x20 || 0x09 <= n <= 0x0D || n == 0x85 || n == 0xA0
    || n == 0x1680 || 0x2000 <= n <= 0x200A || n == 0x2028 || n == 0x2029
    || n == 0x202F || n == 0x205F || n == 0x3000
  }

  function LStripSpace(s: string): (r: string)
    ensures |r| <= |s| && r == s[|s| - |r|..]
    ensures r == [] || !IsPySpace(r[0])
    ensures forall i :: 0 <= i < |s| - |r| ==> IsPySpace(s[i])
    decreases |s|
  {
    if s != [] && IsPySpace(s[0]) then LStripSpace(s[1..]) else s
  }

  function RStripSpace(s: string): (r: string)
    ensures |r| <= |s| && r == s[..|r|]
    ensures r == [] || !IsPySpace(r[|r| - 1])
    ensures forall i :: |r| <= i < |s| ==> IsPySpace(s[i])
    decreases |s|
  {
    if s != [] && IsPySpace(s[|s| - 1]) then RStripSpace(s[..|s| - 1]) else s
  }

  /** `s.strip()`. */
  function StripSpace(s: string): string {
    RStripSpace(LStripSpace(s))
  }

  predicate IsDigit(c: char) { '0' <= c <= '9' }

  /**
   * Decimal digits in which single underscores may separate two digits,
   * the form `int` accepts after the sign.
   */
  predicate IsDigitGroup(s: string) {
    && |s| > 0 && IsDigit(s[0]) && IsDigit(s[|s| - 1])
    && (forall i :: 0 <= i < |s| ==> IsDigit(s[i]) || s[i] == '_')
    && (forall i :: 0 < i < |s| && s[i] == '_' ==> s[i - 1] != '_')
  }

  /** The number the digits of `s` spell, underscores ignored. */
  function DigitsValue(s: string): (n: nat)
    decreases |s|
  {
    if s == [] then 0
    else if !IsDigit(s[|s| - 1]) then DigitsValue(s[..|s| - 1])
    else DigitsValue(s[..|s| - 1]) * 10 + (s[|s| - 1] as int - '0' as int)
  }

  /** `int(s)`: `Some` of the value, or `None` where Python raises `ValueError`. */
  function Parse(s: string): Option<int> {
    var t := StripSpace(s);
    if t != [] && (t[0] == '+' || t[0] == '-') then
      var v: int := DigitsValue(t[1..]);
      if IsDigitGroup(t[1..]) then Some(if t[0] == '-' then -v else v)
      else None
    else if IsDigitGroup(t) then Some(DigitsValue(t))
    else None
  }

  /**
   * The information separators U+001C to U+001F are not skipped: a numeral
   * followed by one is rejected, although `str.isspace` accepts them.
   */
  lemma ParseRejectsSeparators(c: char)
    requires 0x1C <= c as int <= 0x1F
    ensures Parse(['5', c]) == None
    ensures Parse([c, '5']) == None
  {
    SeparatorRejected(['5', c], c);
    SeparatorRejected([c, '5'], c);
  }

  lemma SeparatorRejected(s: string, c: char)
    requires 0x1C <= c as int <= 0x1F && |s| == 2 && c in s && s[0] != '+' && s[0] != '-'
    requires !IsPySpace(s[0]) && !IsPySpace(s[1])
    ensures Parse(s) == None
  {
    assert LStripSpace(s) == s;
    assert RStripSpace(s) == s;
    assert !IsDigit(c);
  }

  /** `str(n)` for a natural number. */
  function NatToDecimal(n: nat): (s: string)
    ensures |s| > 0
    ensures forall i :: 0 <= i < |s| ==> IsDigit(s[i])
  {
    if n < 10 then [('0' as int + n) as char]
    else NatToDecimal(n / 10) + [('0' as int + n % 10) as char]
  }

  /** `str(n)`. */
  function IntToDecimal(n: int): string {
    if n < 0 then "-" + NatToDecimal(-n) else NatToDecimal(n)
  }

  lemma {:induction false} DigitsValueOfDecimal(n: nat)
    ensures DigitsValue(NatToDecimal(n)) == n
  {
    if n >= 10 {
      var s := NatToDecimal(n);
      assert s[..|s| - 1] == NatToDecimal(n / 10);
      DigitsValueOfDecimal(n / 10);
    }
  }

  lemma NoSpaceUnstripped(s: string)
    requires forall i :: 0 <= i < |s| ==> IsDigit(s[i]) || s[i] == '-'
    ensures LStripSpace(s) == s && RStripSpace(s) == s
  {
    if s != [] {
      assert !IsPySpace(s[0]);
      assert !IsPySpace(s[|s| - 1]);
    }
  }

  lemma DigitsAreGroup(s: string)
    requires |s| > 0 && forall i :: 0 <= i < |s| ==> IsDigit(s[i])
    ensures IsDigitGroup(s)
  {
  }

  lemma ParseUnsigned(s: string)
    requires StripSpace(s) == s && IsDigitGroup(s)
    ensures Parse(s) == Some(DigitsValue(s))
  {
    assert IsDigit(s[0]);
  }

  lemma ParseSigned(t: string)
    requires StripSpace(t) == t && t != [] && t[0] == '-' && IsDigitGroup(t[1..])
    ensures Parse(t) == Some(-(DigitsValue(t[1..]) as int))
  {
  }

  lemma ParseDigits(s: string)
    requires |s| > 0 && forall i :: 0 <= i < |s| ==> IsDigit(s[i])
    ensures Parse(s) == Some(DigitsValue(s))
  {
    NoSpaceUnstripped(s);
    DigitsAreGroup(s);
    ParseUnsigned(s);
  }

  lemma ParseNat(n: nat)
    ensures Parse(NatToDecimal(n)) == Some(n)
  {
    ParseDigits(NatToDecimal(n));
    DigitsValueOfDecimal(n);
  }

  lemma SignedDigits(d: string)
    requires forall i :: 0 <= i < |d| ==> IsDigit(d[i])
    ensures var t := "-" + d; t[0] == '-' && t[1..] == d && StripSpace(t) == t
  {
    var t := "-" + d;
    assert forall i :: 0 < i < |t| ==> t[i] == d[i - 1];
    NoSpaceUnstripped(t);
  }

  lemma ParseNegative(n: int)
    requires n < 0
    ensures Parse(IntToDecimal(n)) == Some(n)
  {
    var d := NatToDecimal(-n);
    SignedDigits(d);
    DigitsAreGroup(d);
    ParseSigned("-" + d);
    DigitsValueOfDecimal(-n);
  }

  /** `int(str(n)) == n` for every integer. */
  lemma ParseDecimal(n: int)
    ensures Parse(IntToDecimal(n)) == Some(n)
  {
    if n < 0 {
      ParseNegative(n);
    } else {
      ParseNat(n);
    }
  }

  /** A character that can occur in text `int` accepts. */
  predicate IsNumeralChar(c: char) {
    IsPySpace(c) || IsDigit(c) || c == '_' || c == '+' || c == '-'
  }

  /** What `int` demands of the stripped text: an optional sign, then a digit group. */
  predicate IsNumeral(t: string) {
    if t != [] && (t[0] == '+' || t[0] == '-') then IsDigitGroup(t[1..]) else IsDigitGroup(t)
  }

  lemma ParseNumeral(s: string)
    requires Parse(s).Some?
    ensures IsNumeral(StripSpace(s))
  {
  }

  lemma NumeralChars(t: string)
    requires IsNumeral(t)
    ensures forall k :: 0 <= k < |t| ==> IsNumeralChar(t[k])
  {
    if t != [] && (t[0] == '+' || t[0] == '-') {
      forall k | 0 < k < |t|
        ensures IsNumeralChar(t[k])
      {
        assert t[1..][k - 1] == t[k];
        DigitGroupChar(t[1..], k - 1);
      }
    } else {
      forall k | 0 <= k < |t|
        ensures IsNumeralChar(t[k])
      {
        DigitGroupChar(t, k);
      }
    }
  }

  /**
   * Whatever `int` accepts consists only of white space, digits,
   * underscores and a sign: text with any other character is rejected.
   */
  lemma ParseAcceptsOnlyNumerals(s: string)
    requires Parse(s).Some?
    ensures forall i :: 0 <= i < |s| ==> IsNumeralChar(s[i])
  {
    var l := LStripSpace(s);
    var t := RStripSpace(l);
    ParseNumeral(s);
    NumeralChars(t);
    StrippedChars(s, l, t);
  }

  /** Text that is blank around a core of numeral characters consists of numeral characters. */
  lemma StrippedChars(s: string, l: string, t: string)
    requires |l| <= |s| && l == s[|s| - |l|..] && forall i :: 0 <= i < |s| - |l| ==> IsPySpace(s[i])
    requires |t| <= |l| && t == l[..|t|] && forall i :: |t| <= i < |l| ==> IsPySpace(l[i])
    requires forall k :: 0 <= k < |t| ==> IsNumeralChar(t[k])
    ensures forall i :: 0 <= i < |s| ==> IsNumeralChar(s[i])
  {
    var off := |s| - |l|;
    forall i | 0 <= i < |s|
      ensures IsNumeralChar(s[i])
    {
      if i < off {
        assert IsPySpace(s[i]);
      } else if i - off < |t| {
        assert s[i] == l[i - off] == t[i - off];
      } else {
        assert s[i] == l[i - off];
      }
    }
  }

  lemma DigitGroupChar(s: string, k: int)
    requires IsDigitGroup(s) && 0 <= k < |s|
    ensures IsDigit(s[k]) || s[k] == '_'
  {
  }

  /** A value with nothing but white space, such as an empty header, is rejected. */
  lemma ParseBlank(s: string)
    requires forall i :: 0 <= i < |s| ==> IsPySpace(s[i])
    ensures Parse(s) == None
  {
  }
}
