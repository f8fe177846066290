/**
 * UTF-8 validation and decoding, as `std::str::from_utf8` performs them: the
 * UTF8-octets grammar of section 4 of RFC 3629, which rejects overlong forms,
 * the surrogate range U+D800..U+DFFF and values above U+10FFFF.
 */
module Utf8 {
  import opened Fields

  /** UTF8-tail = %x80-BF */
  predicate IsTail(b: byte) {
    0x80 <= b <= 0xBF
  }

  /** The length of the character a lead byte announces, or 0 when the byte cannot start one. */
  function LeadWidth(b: byte): (n: nat)
    ensures n <= 4
  {
    if b <= 0x7F then 1
    else if 0xC2 <= b <= 0xDF then 2
    else if 0xE0 <= b <= 0xEF then 3
    else if 0xF0 <= b <= 0xF4 then 4
    else 0
  }

  /** UTF8-char: exactly one well-formed character, production by production. */
  predicate IsUtf8Char(c: seq<byte>) {
    if |c| == 1 then
      c[0] <= 0x7F
    else if |c| == 2 then
      0xC2 <= c[0] <= 0xDF && IsTail(c[1])
    else if |c| == 3 then
      && ((c[0] == 0xE0 && 0xA0 <= c[1] <= 0xBF)
          || ((0xE1 <= c[0] <= 0xEC || 0xEE <= c[0] <= 0xEF) && IsTail(c[1]))
          || (c[0] == 0xED && 0x80 <= c[1] <= 0x9F))
      && IsTail(c[2])
    else if |c| == 4 then
      && ((c[0] == 0xF0 && 0x90 <= c[1] <= 0xBF)
          || (0xF1 <= c[0] <= 0xF3 && IsTail(c[1]))
          || (c[0] == 0xF4 && 0x80 <= c[1] <= 0x8F))
      && IsTail(c[2]) && IsTail(c[3])
    else
      false
  }

  /** An octet that never appears in UTF-8: C0, C1 and F5 to FF (section 1 of RFC 3629). */
  predicate IsNeverUtf8(x: byte) {
    x == 0xC0 || x == 0xC1 || 0xF5 <= x
  }

  /**
   * UTF8-octets = *( UTF8-char ). The lead byte fixes each character's length.
   * Valid UTF-8 never contains an octet that never appears in UTF-8.
   */
  predicate IsValidUtf8(b: seq<byte>)
    ensures IsValidUtf8(b) ==> forall i :: 0 <= i < |b| ==> !IsNeverUtf8(b[i])
    decreases |b|
  {
    b == [] ||
    (var n := LeadWidth(b[0]);
     0 < n <= |b| && IsUtf8Char(b[..n]) && IsValidUtf8(b[n..]))
  }

  /** The number of bytes the shortest encoding of a scalar value takes. */
  function ShortestWidth(cp: int): nat {
    if cp < 0x80 then 1 else if cp < 0x800 then 2 else if cp < 0x10000 then 3 else 4
  }

  /** A Unicode scalar value: a code point that is not a surrogate. */
  predicate IsScalar(cp: int) {
    0 <= cp < 0xD800 || 0xE000 <= cp < 0x110000
  }

  /**
   * The scalar value one well-formed character encodes. It is always a scalar
   * value and the character is never longer than needed (no overlong form).
   */
  function ScalarOf(c: seq<byte>): (cp: int)
    requires IsUtf8Char(c)
    ensures IsScalar(cp)
    ensures |c| == ShortestWidth(cp)
  {
    if |c| == 1 then
      c[0] as int
    else if |c| == 2 then
      (c[0] as int - 0xC0) * 0x40 + (c[1] as int - 0x80)
    else if |c| == 3 then
      ((c[0] as int - 0xE0) * 0x40 + (c[1] as int - 0x80)) * 0x40 + (c[2] as int - 0x80)
    else
      (((c[0] as int - 0xF0) * 0x40 + (c[1] as int - 0x80)) * 0x40 + (c[2] as int - 0x80)) * 0x40
        + (c[3] as int - 0x80)
  }

  /**
   * `std::str::from_utf8`: the text the bytes encode, or `None` when they are
   * not valid UTF-8. Success is exactly validity under the RFC 3629 grammar.
   */
  function DecodeUtf8(b: seq<byte>): (r: Option<string>)
    ensures r.Some? <==> IsValidUtf8(b)
    ensures r.Some? ==> |r.value| <= |b|
    decreases |b|
  {
    if b == [] then Some([])
    else
      var n := LeadWidth(b[0]);
      if 0 < n <= |b| && IsUtf8Char(b[..n]) then
        match DecodeUtf8(b[n..])
        case None => None
        case Some(rest) => Some([ScalarOf(b[..n]) as char] + rest)
      else
        None
  }

  /** The UTF-8 encoding of one character, in the shortest form, peeling off six bits per continuation byte. */
  function EncodeChar(ch: char): (c: seq<byte>)
    ensures |c| == ShortestWidth(ch as int)
  {
    var cp := ch as int;
    if cp < 0x80 then
      [cp as byte]
    else
      var last := (0x80 + cp % 0x40) as byte;
      var r1 := cp / 0x40;
      if cp < 0x800 then
        [(0xC0 + r1) as byte, last]
      else
        var third := (0x80 + r1 % 0x40) as byte;
        var r2 := r1 / 0x40;
        if cp < 0x10000 then
          [(0xE0 + r2) as byte, third, last]
        else
          [(0xF0 + r2 / 0x40) as byte, (0x80 + r2 % 0x40) as byte, third, last]
  }

  /** The UTF-8 encoding of a text, character by character (what `str::as_bytes` exposes). */
  function EncodeUtf8(s: string): (b: seq<byte>)
    ensures |s| <= |b|
  {
    if s == [] then [] else EncodeChar(s[0]) + EncodeUtf8(s[1..])
  }

  /** Splitting off the low six bits of `q * 64 + r` gives back `q` and `r`. */
  lemma Split64(q: int, r: int)
    requires 0 <= r < 0x40
    ensures (q * 0x40 + r) / 0x40 == q && (q * 0x40 + r) % 0x40 == r
  {
  }

  /** Every character's encoding is one well-formed UTF8-char that decodes back to it. */
  lemma EncodeCharIsUtf8Char(ch: char)
    ensures LeadWidth(EncodeChar(ch)[0]) == |EncodeChar(ch)|
    ensures IsUtf8Char(EncodeChar(ch))
    ensures ScalarOf(EncodeChar(ch)) == ch as int
  {
    var cp := ch as int;
    if cp >= 0x80 {
      var r1 := cp / 0x40;
      assert cp == r1 * 0x40 + cp % 0x40;
      if cp < 0x800 {
        EncodeTwo(cp);
      } else {
        var r2 := r1 / 0x40;
        assert r1 == r2 * 0x40 + r1 % 0x40;
        if cp < 0x10000 {
          EncodeThree(cp);
        } else {
          assert r2 == r2 / 0x40 * 0x40 + r2 % 0x40;
          EncodeFour(cp);
        }
      }
    }
  }

  /** The two-byte case of `EncodeCharIsUtf8Char` (U+0080..U+07FF). */
  lemma EncodeTwo(cp: int)
    requires 0x80 <= cp < 0x800
    ensures var c := EncodeChar(cp as char);
      LeadWidth(c[0]) == 2 && IsUtf8Char(c) && ScalarOf(c) == cp
  {
    var c := EncodeChar(cp as char);
    assert c[0] as int - 0xC0 == cp / 0x40 && c[1] as int - 0x80 == cp % 0x40;
  }

  /** The three-byte case of `EncodeCharIsUtf8Char` (U+0800..U+FFFF, surrogates excluded). */
  lemma EncodeThree(cp: int)
    requires 0x800 <= cp < 0x10000 && IsScalar(cp)
    ensures var c := EncodeChar(cp as char);
      LeadWidth(c[0]) == 3 && IsUtf8Char(c) && ScalarOf(c) == cp
  {
    var c := EncodeChar(cp as char);
    var r1 := cp / 0x40;
    var r2 := r1 / 0x40;
    assert c[0] as int - 0xE0 == r2;
    assert c[1] as int - 0x80 == r1 % 0x40;
    assert c[2] as int - 0x80 == cp % 0x40;
    assert r1 == r2 * 0x40 + r1 % 0x40;
    assert cp == r1 * 0x40 + cp % 0x40;
  }

  /** The four-byte case of `EncodeCharIsUtf8Char` (U+10000..U+10FFFF). */
  lemma EncodeFour(cp: int)
    requires 0x10000 <= cp < 0x110000
    ensures var c := EncodeChar(cp as char);
      LeadWidth(c[0]) == 4 && IsUtf8Char(c) && ScalarOf(c) == cp
  {
    var c := EncodeChar(cp as char);
    var r1 := cp / 0x40;
    var r2 := r1 / 0x40;
    var r3 := r2 / 0x40;
    assert c[0] as int - 0xF0 == r3;
    assert c[1] as int - 0x80 == r2 % 0x40;
    assert c[2] as int - 0x80 == r1 % 0x40;
    assert c[3] as int - 0x80 == cp % 0x40;
    assert r2 == r3 * 0x40 + r2 % 0x40;
    assert r1 == r2 * 0x40 + r1 % 0x40;
    assert cp == r1 * 0x40 + cp % 0x40;
  }

  /** Every well-formed UTF8-char is the encoding of the scalar value it decodes to. */
  lemma ScalarOfEncodes(c: seq<byte>)
    requires IsUtf8Char(c)
    ensures EncodeChar(ScalarOf(c) as char) == c
  {
    var cp := ScalarOf(c);
    if |c| == 2 {
      Split64(c[0] as int - 0xC0, c[1] as int - 0x80);
    } else if |c| == 3 {
      var r1 := (c[0] as int - 0xE0) * 0x40 + (c[1] as int - 0x80);
      Split64(r1, c[2] as int - 0x80);
      Split64(c[0] as int - 0xE0, c[1] as int - 0x80);
    } else if |c| == 4 {
      var r2 := (c[0] as int - 0xF0) * 0x40 + (c[1] as int - 0x80);
      var r1 := r2 * 0x40 + (c[2] as int - 0x80);
      Split64(r1, c[3] as int - 0x80);
      Split64(r2, c[2] as int - 0x80);
      Split64(c[0] as int - 0xF0, c[1] as int - 0x80);
    }
  }

  /** Decoding undoes encoding: every text round-trips, so its encoding is valid UTF-8. */
  lemma {:induction false} DecodeEncode(s: string)
    ensures DecodeUtf8(EncodeUtf8(s)) == Some(s)
    ensures IsValidUtf8(EncodeUtf8(s))
  {
    if s != [] {
      var c, rest := EncodeChar(s[0]), EncodeUtf8(s[1..]);
      EncodeCharIsUtf8Char(s[0]);
      DecodeEncode(s[1..]);
      var b := c + rest;
      assert b[..|c|] == c && b[|c|..] == rest;
      assert b[0] == c[0];
      assert s == [ScalarOf(c) as char] + s[1..];
    }
  }

  /** A text that decodes is its first character followed by the decoding of the bytes after it. */
  lemma DecodeStep(b: seq<byte>)
    requires b != [] && DecodeUtf8(b).Some?
    ensures var n := LeadWidth(b[0]);
      && 0 < n <= |b| && IsUtf8Char(b[..n]) && DecodeUtf8(b[n..]).Some?
      && DecodeUtf8(b).value == [ScalarOf(b[..n]) as char] + DecodeUtf8(b[n..]).value
  {
  }

  /** Encoding a text that starts with `ch` starts with the encoding of `ch`. */
  lemma EncodeCons(ch: char, rest: string)
    ensures EncodeUtf8([ch] + rest) == EncodeChar(ch) + EncodeUtf8(rest)
  {
    assert ([ch] + rest)[0] == ch && ([ch] + rest)[1..] == rest;
  }

  /** Encoding undoes decoding: a byte string that decodes is exactly the encoding of its text. */
  lemma {:induction false} EncodeDecode(b: seq<byte>)
    requires DecodeUtf8(b).Some?
    ensures EncodeUtf8(DecodeUtf8(b).value) == b
    decreases |b|
  {
    if b != [] {
      DecodeStep(b);
      var n := LeadWidth(b[0]);
      var c, tail := b[..n], b[n..];
      var ch, rest := ScalarOf(c) as char, DecodeUtf8(tail).value;
      calc {
        EncodeUtf8(DecodeUtf8(b).value);
        EncodeUtf8([ch] + rest);
        { EncodeCons(ch, rest); }
        EncodeChar(ch) + EncodeUtf8(rest);
        { ScalarOfEncodes(c); EncodeDecode(tail); }
        c + tail;
        b;
      }
    }
  }

  /** Validity is exactly "is the encoding of some text": the grammar and the encoder agree. */
  lemma ValidIffEncoding(b: seq<byte>)
    ensures IsValidUtf8(b) <==> exists s: string :: EncodeUtf8(s) == b
  {
    if IsValidUtf8(b) {
      EncodeDecode(b);
      var s := DecodeUtf8(b).value;
      assert EncodeUtf8(s) == b;
    }
    if s: string :| EncodeUtf8(s) == b {
      DecodeEncode(s);
    }
  }
}
