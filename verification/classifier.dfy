/**
 * The per-cell classifier `parse`: a priority chain from a cell's bytes to an
 * optional field type. Rules, first match wins: not UTF-8 gives `Unknown`;
 * the exact text `NULL` gives null; 64-bit integer text gives `Integer`; float
 * text gives `Float`; everything else gives `String`.
 */
module Classifier {
  import opened Fields
  import opened Utf8
  import opened Numbers

  /**
   * `parse`: total, with no precondition; every byte string gets exactly one
   * of five results. The first rule: `Unknown` exactly for bytes outside the
   * RFC 3629 grammar, and no later rule ever produces it.
   */
  function Parse(bytes: seq<byte>): (r: Option<Field>)
    ensures r == Some(Unknown) <==> !IsValidUtf8(bytes)
  {
    match DecodeUtf8(bytes)
    case None => Some(Unknown)
    case Some(text) => Classify(text)
  }

  /**
   * The rules of `parse` after the UTF-8 check, on the decoded text, first
   * match wins. Decoded text is never `Unknown`, and it is numeric (`Integer`
   * or `Float`) exactly when it is float text: integer text is float text too.
   */
  function Classify(text: string): (r: Option<Field>)
    ensures r != Some(Unknown)
    ensures r == Some(Integer) || r == Some(Float) <==> IsF64Literal(text)
  {
    if text == NullMarker then
      NullMarkerIsNotNumeric();
      None
    else if ParseI64(text).Some? then
      IntegerTextIsFloatText(text);
      Some(Integer)
    else if IsF64Literal(text) then Some(Float)
    else Some(String)
  }

  /** The bytes of any text are valid UTF-8, so `parse` of them is the text's classification. */
  lemma ParseText(text: string)
    ensures Parse(EncodeUtf8(text)) == Classify(text)
  {
    DecodeEncode(text);
  }

  /** The marker's bytes: N, U, L, L. */
  lemma NullMarkerBytes()
    ensures EncodeUtf8(NullMarker) == [0x4E, 0x55, 0x4C, 0x4C]
  {
  }

  /** Null exactly for the four bytes of `NULL`: case-sensitive and untrimmed. */
  lemma ParseNullIff(bytes: seq<byte>)
    ensures Parse(bytes) == None <==> bytes == EncodeUtf8(NullMarker)
  {
    if Parse(bytes) == None {
      EncodeDecode(bytes);
    }
    DecodeEncode(NullMarker);
  }

  /** The marker itself is neither integer nor float text. */
  lemma NullMarkerIsNotNumeric()
    ensures ParseI64(NullMarker).None?
    ensures !IsF64Literal(NullMarker)
  {
    assert !IsDigit(NullMarker[0]);
  }

  /** For valid text, `Integer` exactly when the 64-bit integer parse succeeds. */
  lemma ParseIntegerIff(text: string)
    ensures Parse(EncodeUtf8(text)) == Some(Integer) <==> ParseI64(text).Some?
  {
    ParseText(text);
    NullMarkerIsNotNumeric();
  }

  /** For valid text, `Float` exactly when it is float text that the integer parse rejects. */
  lemma ParseFloatIff(text: string)
    ensures Parse(EncodeUtf8(text)) == Some(Float) <==> IsF64Literal(text) && ParseI64(text).None?
  {
    ParseText(text);
    NullMarkerIsNotNumeric();
  }

  /**
   * For valid text, `String` exactly when it is not the marker and not float
   * text; integer text never reaches this rule because it is float text too.
   */
  lemma ParseStringIff(text: string)
    ensures Parse(EncodeUtf8(text)) == Some(String) <==> text != NullMarker && !IsF64Literal(text)
  {
    ParseText(text);
    if ParseI64(text).Some? {
      IntegerTextIsFloatText(text);
    }
  }

  /**
   * The decimal text of every integer in [-2^63, 2^63-1] classifies as
   * `Integer`; the decimal text of any integer outside it falls through to `Float`.
   */
  lemma IntegerTextClassification(n: int)
    ensures Parse(EncodeUtf8(FormatI64(n))) == if MinI64 <= n <= MaxI64 then Some(Integer) else Some(Float)
  {
    FormatParseRoundTrip(n);
    FormatIsFloatText(n);
    ParseIntegerIff(FormatI64(n));
    ParseFloatIff(FormatI64(n));
  }

  /** No trimming: valid text with whitespace anywhere in it, such as " 1", classifies as `String`. */
  lemma WhitespaceTextIsString(text: string, i: nat)
    requires i < |text| && IsAsciiWhitespace(text[i])
    ensures Parse(EncodeUtf8(text)) == Some(String)
  {
    WhitespaceIsNotNumeric(text, i);
    ParseStringIff(text);
  }

  /**
   * 2^63 - 1 ("9223372036854775807") is the largest integer text and -2^63 the
   * smallest; one step beyond either falls through to `Float`.
   */
  lemma IntegerBoundaryExamples()
    ensures Parse(EncodeUtf8(FormatI64(MaxI64))) == Some(Integer)
    ensures Parse(EncodeUtf8(FormatI64(MinI64))) == Some(Integer)
    ensures Parse(EncodeUtf8(FormatI64(MaxI64 + 1))) == Some(Float)
    ensures Parse(EncodeUtf8(FormatI64(MinI64 - 1))) == Some(Float)
  {
    IntegerTextClassification(MaxI64);
    IntegerTextClassification(MinI64);
    IntegerTextClassification(MaxI64 + 1);
    IntegerTextClassification(MinI64 - 1);
  }

  /** Integer text wins over float text; a decimal point makes it float text only. */
  lemma PrecedenceExamples()
    ensures Classify("42") == Some(Integer)
    ensures Classify("42.0") == Some(Float)
  {
    assert "42"[..1] == "4";
    assert DigitsValue("42") == 42;
  }

  /** Only the exact marker is null; the marker with a space before or after it is a string. */
  lemma NullExamples()
    ensures Classify("NULL") == None
    ensures Classify(" NULL") == Some(String)
    ensures Classify("NULL ") == Some(String)
  {
    WhitespaceIsNotNumeric(" NULL", 0);
    WhitespaceIsNotNumeric("NULL ", 4);
  }

  /** The null marker is case-sensitive: other spellings are strings. */
  lemma NullCaseExamples()
    ensures Classify("null") == Some(String)
    ensures Classify("Null") == Some(String)
  {
  }

  /** The empty cell and plain words fail both numeric rules and are strings. */
  lemma WordExamples()
    ensures Classify("hello") == Some(String)
    ensures Classify("") == Some(String)
  {
  }

  /** Whitespace-padded numbers are not trimmed: they are strings. */
  lemma PaddedExamples()
    ensures Classify(" 1") == Some(String)
    ensures Classify("1 ") == Some(String)
  {
    WhitespaceIsNotNumeric(" 1", 0);
    WhitespaceIsNotNumeric("1 ", 1);
  }

  /** Text that is neither numeric nor the marker is a string, including a lone point or sign. */
  lemma NonNumericExamples()
    ensures Classify(".") == Some(String)
    ensures Classify("-") == Some(String)
  {
  }

  /** The special float words are floats in any ASCII case. */
  lemma SpecialFloatExamples()
    ensures Classify("inf") == Some(Float)
    ensures Classify("NaN") == Some(Float)
  {
  }

  /** A sign may come before the special float words, and `infinity` is one of them. */
  lemma SignedInfinityExample()
    ensures Classify("-Infinity") == Some(Float)
  {
    var body := "Infinity";
    assert IsInfOrNan(body) by {
      assert seq(|body|, i requires 0 <= i < |body| => AsciiLower(body[i])) == "infinity";
    }
    assert StripSign("-Infinity") == body;
    assert !IsDigit(body[0]);
  }

  /** A trailing point and a leading point each make float text. */
  lemma PointExamples()
    ensures Classify("1.") == Some(Float)
    ensures Classify(".5") == Some(Float)
  {
  }

  /** An exponent with a sign makes float text. */
  lemma ExponentExample()
    ensures Classify("1e-7") == Some(Float)
  {
  }

  /** A lone continuation byte, an overlong form, a surrogate and a value above U+10FFFF are `Unknown`. */
  lemma UnknownExamples()
    ensures Parse([0x80]) == Some(Unknown)
    ensures Parse([0xC0, 0xAF]) == Some(Unknown)
    ensures Parse([0xED, 0xA0, 0x80]) == Some(Unknown)
    ensures Parse([0xF4, 0x90, 0x80, 0x80]) == Some(Unknown)
  {
  }
}
