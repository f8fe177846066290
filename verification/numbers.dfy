/**
 * The two numeric tests of the classifier, as text validators: `str::parse::<i64>`
 * (optional sign, decimal digits, value within 64-bit signed range) and
 * `str::parse::<f64>` (the decimal literal grammar of Rust's standard library,
 * plus `inf`, `infinity` and `nan` in any ASCII case). Only acceptance is
 * modelled for floats, never the parsed value.
 */
module Numbers {
  import opened Fields

  const MinI64: int := -0x8000_0000_0000_0000
  const MaxI64: int := 0x7FFF_FFFF_FFFF_FFFF

  predicate IsDigit(c: char) {
    '0' <= c <= '9'
  }

  predicate AllDigits(s: string) {
    forall i :: 0 <= i < |s| ==> IsDigit(s[i])
  }

  function DigitValue(c: char): (d: nat)
    requires IsDigit(c)
    ensures d < 10
  {
    c as int - '0' as int
  }

  function DigitChar(d: nat): (c: char)
    requires d < 10
    ensures IsDigit(c) && DigitValue(c) == d
  {
    ('0' as int + d) as char
  }

  /** The value of a run of decimal digits, most significant first. */
  function DigitsValue(ds: string): nat
    requires AllDigits(ds)
    decreases |ds|
  {
    if ds == [] then 0 else DigitsValue(ds[..|ds| - 1]) * 10 + DigitValue(ds[|ds| - 1])
  }

  /** The text after one leading `+` or `-`, if there is one. Both parsers strip at most one sign. */
  function StripSign(s: string): (body: string)
    ensures |body| <= |s|
  {
    if |s| > 0 && (s[0] == '+' || s[0] == '-') then s[1..] else s
  }

  /**
   * `<i64 as FromStr>::from_str`: an optional sign, then at least one ASCII
   * digit and nothing else, with the signed value in [-2^63, 2^63-1]. Leading
   * zeros are allowed; whitespace is not.
   */
  function ParseI64(s: string): (r: Option<int>)
    ensures r.Some? ==> MinI64 <= r.value <= MaxI64
  {
    var digits := StripSign(s);
    if digits == [] || !AllDigits(digits) then None
    else
      var magnitude: int := DigitsValue(digits);
      var v := if s[0] == '-' then -magnitude else magnitude;
      if MinI64 <= v <= MaxI64 then Some(v) else None
  }

  /** The decimal digits of a natural number, without leading zeros. */
  function NatDigits(m: nat): (s: string)
    ensures |s| > 0 && AllDigits(s) && DigitsValue(s) == m
    ensures s[0] != '0' || m == 0
    decreases m
  {
    if m < 10 then
      [DigitChar(m)]
    else
      var prefix := NatDigits(m / 10);
      var s := prefix + [DigitChar(m % 10)];
      assert s[..|s| - 1] == prefix;
      s
  }

  /** The decimal text of an integer as `to_string` writes it: a `-` for negatives, never a `+`. */
  function FormatI64(n: int): (s: string)
    ensures |s| > 0
  {
    if n < 0 then "-" + NatDigits(-n) else NatDigits(n)
  }

  /** The index just past the run of digits that starts at `i`. */
  function SkipDigits(s: string, i: nat): (j: nat)
    requires i <= |s|
    ensures i <= j <= |s|
    ensures forall k :: i <= k < j ==> IsDigit(s[k])
    ensures j < |s| ==> !IsDigit(s[j])
    decreases |s| - i
  {
    if i < |s| && IsDigit(s[i]) then SkipDigits(s, i + 1) else i
  }

  /** An exponent part: `e` or `E`, an optional sign, then at least one digit, to the end of the text. */
  predicate IsExponent(t: string) {
    && |t| > 0
    && (t[0] == 'e' || t[0] == 'E')
    && var digits := StripSign(t[1..]);
       |digits| > 0 && AllDigits(digits)
  }

  /**
   * An unsigned decimal float literal: digits, an optional `.` with more
   * digits, at least one digit in all (so `1.`, `.5` and `1` are accepted and
   * `.` is not), then an optional exponent, and nothing after it.
   */
  predicate IsDecimalLiteral(s: string) {
    var intEnd := SkipDigits(s, 0);
    var fracStart := if intEnd < |s| && s[intEnd] == '.' then intEnd + 1 else intEnd;
    var fracEnd := SkipDigits(s, fracStart);
    && (0 < intEnd || fracStart < fracEnd)
    && (fracEnd == |s| || IsExponent(s[fracEnd..]))
  }

  /** ASCII lower-casing, as `eq_ignore_ascii_case` compares; other characters are unchanged. */
  function AsciiLower(c: char): char {
    if 'A' <= c <= 'Z' then (c as int + 32) as char else c
  }

  /** `inf`, `infinity` or `nan`, ignoring ASCII case. */
  predicate IsInfOrNan(s: string) {
    var lower := seq(|s|, i requires 0 <= i < |s| => AsciiLower(s[i]));
    lower == "inf" || lower == "infinity" || lower == "nan"
  }

  /**
   * `<f64 as FromStr>::from_str` succeeds: an optional sign, then a decimal
   * literal or inf/infinity/nan. Something must follow the sign, so the empty
   * text and a lone sign are rejected, and the text never ends in a sign.
   */
  predicate IsF64Literal(s: string)
    ensures IsF64Literal(s) ==> |StripSign(s)| > 0 && s[|s| - 1] != '+' && s[|s| - 1] != '-'
  {
    var body := StripSign(s);
    if IsInfOrNan(body) || IsDecimalLiteral(body) then
      LiteralEnd(body);
      true
    else
      false
  }

  /** A float literal after its sign is not empty and does not end in a sign. */
  lemma LiteralEnd(body: string)
    requires IsInfOrNan(body) || IsDecimalLiteral(body)
    ensures |body| > 0 && body[|body| - 1] != '+' && body[|body| - 1] != '-'
  {
    var last := |body| - 1;
    if IsInfOrNan(body) {
      var lower := seq(|body|, i requires 0 <= i < |body| => AsciiLower(body[i]));
      assert lower[last] == AsciiLower(body[last]);
    } else {
      var intEnd := SkipDigits(body, 0);
      var fracStart := if intEnd < |body| && body[intEnd] == '.' then intEnd + 1 else intEnd;
      var fracEnd := SkipDigits(body, fracStart);
      if fracEnd < |body| {
        var t := body[fracEnd..];
        var digits := StripSign(t[1..]);
        assert body[last] == digits[|digits| - 1];
      }
    }
  }

  /**
   * The integer rule accepts the decimal text of exactly the 64-bit signed
   * values and gives back the value; out-of-range text is rejected.
   */
  lemma FormatParseRoundTrip(n: int)
    ensures ParseI64(FormatI64(n)) == if MinI64 <= n <= MaxI64 then Some(n) else None
  {
    var s := FormatI64(n);
    if n < 0 {
      assert StripSign(s) == NatDigits(-n);
    } else {
      assert StripSign(s) == NatDigits(n);
    }
  }

  /** A run of digits covering the whole text is scanned to its end. */
  lemma SkipAllDigits(s: string)
    requires AllDigits(s)
    ensures SkipDigits(s, 0) == |s|
  {
  }

  /**
   * Integer text is a subset of float text: whatever the integer rule accepts,
   * the float rule accepts too. This is why the integer rule must come first.
   */
  lemma IntegerTextIsFloatText(s: string)
    requires ParseI64(s).Some?
    ensures IsF64Literal(s)
  {
    var body := StripSign(s);
    SkipAllDigits(body);
    assert IsDecimalLiteral(body);
  }

  /** Every decimal integer text, in range or not, is float text. */
  lemma FormatIsFloatText(n: int)
    ensures IsF64Literal(FormatI64(n))
  {
    var s := FormatI64(n);
    var body := StripSign(s);
    if n < 0 {
      assert body == NatDigits(-n);
    } else {
      assert body == NatDigits(n);
    }
    SkipAllDigits(body);
    assert IsDecimalLiteral(body);
  }

  predicate IsAsciiWhitespace(c: char) {
    c == ' ' || c == '\t' || c == '\n' || c == '\r' || c == '\U{C}'
  }

  /** The characters a decimal float literal may contain. */
  predicate IsDecimalLiteralChar(c: char) {
    IsDigit(c) || c == '.' || c == 'e' || c == 'E' || c == '+' || c == '-'
  }

  /** An exponent part is made of decimal literal characters only. */
  lemma ExponentChars(t: string)
    requires IsExponent(t)
    ensures forall k :: 0 <= k < |t| ==> IsDecimalLiteralChar(t[k])
  {
    var digits := StripSign(t[1..]);
    var off := |t| - |digits|;
    forall k | 0 <= k < |t|
      ensures IsDecimalLiteralChar(t[k])
    {
      if k >= off {
        assert t[k] == digits[k - off];
      }
    }
  }

  /** A decimal float literal is made of digits, `.`, `e`, `E`, `+` and `-` only. */
  lemma DecimalLiteralChars(s: string)
    requires IsDecimalLiteral(s)
    ensures forall i :: 0 <= i < |s| ==> IsDecimalLiteralChar(s[i])
  {
    var intEnd := SkipDigits(s, 0);
    var fracStart := if intEnd < |s| && s[intEnd] == '.' then intEnd + 1 else intEnd;
    var fracEnd := SkipDigits(s, fracStart);
    if fracEnd < |s| {
      ExponentChars(s[fracEnd..]);
    }
    forall i | 0 <= i < |s|
      ensures IsDecimalLiteralChar(s[i])
    {
      if fracEnd <= i {
        assert s[i] == s[fracEnd..][i - fracEnd];
      }
    }
  }

  /** Lower-casing never turns whitespace into a letter, so inf/infinity/nan contain none. */
  lemma InfOrNanHasNoWhitespace(s: string, j: nat)
    requires j < |s| && IsAsciiWhitespace(s[j])
    ensures !IsInfOrNan(s)
  {
    var lower := seq(|s|, k requires 0 <= k < |s| => AsciiLower(s[k]));
    assert lower[j] == s[j];
  }

  /**
   * No trimming: text with any ASCII whitespace in it, such as " 1" or "1 ",
   * is neither integer text nor float text.
   */
  lemma WhitespaceIsNotNumeric(s: string, i: nat)
    requires i < |s| && IsAsciiWhitespace(s[i])
    ensures ParseI64(s).None?
    ensures !IsF64Literal(s)
  {
    var body := StripSign(s);
    var j := if |body| == |s| then i else i - 1;
    assert 0 <= j < |body| && body[j] == s[i];
    InfOrNanHasNoWhitespace(body, j);
    if IsDecimalLiteral(body) {
      DecimalLiteralChars(body);
    }
  }
}
