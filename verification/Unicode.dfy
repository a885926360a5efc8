/** UTF-16 surrogates (section 2.2 of RFC 2781) and UTF-8 (section 3 of RFC 3629). */
module Unicode {
  import opened Bytes

  predicate IsHigh(u: nat) {
    0xD800 <= u <= 0xDBFF
  }

  predicate IsLow(u: nat) {
    0xDC00 <= u <= 0xDFFF
  }

  /** A Unicode scalar value: what UTF-8 can encode. */
  predicate IsScalar(c: nat) {
    c < 0xD800 || 0xE000 <= c < 0x11_0000
  }

  /** Section 2.2 of RFC 2781: ten bits from each half. */
  function Join(hi: nat, lo: nat): (c: nat)
    requires IsHigh(hi) && IsLow(lo)
    ensures 0x1_0000 <= c < 0x11_0000
  {
    0x1_0000 + (hi - 0xD800) * 0x400 + (lo - 0xDC00)
  }

  /** Section 3 of RFC 3629. */
  function Utf8(c: nat): (r: Text)
    requires IsScalar(c)
    ensures 1 <= |r| <= 4
  {
    if c < 0x80 then [c]
    else if c < 0x800 then [0xC0 + c / 64, 0x80 + c % 64]
    else if c < 0x1_0000 then [0xE0 + c / 4096, 0x80 + c / 64 % 64, 0x80 + c % 64]
    else [0xF0 + c / 262144, 0x80 + c / 4096 % 64, 0x80 + c / 64 % 64, 0x80 + c % 64]
  }

  predicate IsTail(b: byte) {
    0x80 <= b < 0xC0
  }

  /** The one scalar value that `s` encodes; `-1` unless `s` is exactly one well-formed sequence
      of the ABNF in section 4 of RFC 3629 (shortest form, no surrogates, at most 10FFFF). */
  function DecodeUtf8(s: Text): int {
    if |s| == 1 && s[0] < 0x80 then s[0]
    else if |s| == 2 && 0xC2 <= s[0] < 0xE0 && IsTail(s[1]) then
      Bits(s[0], 0xC0) * 64 + Bits(s[1], 0x80)
    else if |s| == 3 && 0xE0 <= s[0] < 0xF0 && IsTail(s[1]) && IsTail(s[2])
            && (s[0] == 0xE0 ==> 0xA0 <= s[1]) && (s[0] == 0xED ==> s[1] < 0xA0) then
      Bits(s[0], 0xE0) * 4096 + Bits(s[1], 0x80) * 64 + Bits(s[2], 0x80)
    else if |s| == 4 && 0xF0 <= s[0] < 0xF5 && IsTail(s[1]) && IsTail(s[2]) && IsTail(s[3])
            && (s[0] == 0xF0 ==> 0x90 <= s[1]) && (s[0] == 0xF4 ==> s[1] < 0x90) then
      Bits(s[0], 0xF0) * 262144 + Bits(s[1], 0x80) * 4096 + Bits(s[2], 0x80) * 64 + Bits(s[3], 0x80)
    else -1
  }

  /** The payload of a byte whose marker is `mark`. */
  function Bits(b: int, mark: int): int {
    b - mark
  }

  /** The encoding is well formed, never overlong, and read back as the same character. */
  lemma Utf8RoundTrip(c: nat)
    requires IsScalar(c)
    ensures DecodeUtf8(Utf8(c)) == c
  {
    assert c / 4096 == c / 64 / 64 && c / 262144 == c / 64 / 64 / 64;
  }

  /** Every well-formed sequence is the encoding of what it decodes to. */
  lemma Utf8Onto(s: Text)
    requires DecodeUtf8(s) >= 0
    ensures IsScalar(DecodeUtf8(s)) && Utf8(DecodeUtf8(s)) == s
  {
    var c: nat := DecodeUtf8(s);
    assert c / 4096 == c / 64 / 64 && c / 262144 == c / 64 / 64 / 64;
    if |s| == 2 {
      assert c / 64 == Bits(s[0], 0xC0);
    } else if |s| == 3 {
      assert c / 64 == Bits(s[0], 0xE0) * 64 + Bits(s[1], 0x80);
    } else if |s| == 4 {
      assert c / 64 == Bits(s[0], 0xF0) * 4096 + Bits(s[1], 0x80) * 64 + Bits(s[2], 0x80);
    }
  }

  /** The examples of section 7 of RFC 3629. */
  lemma Utf8Examples()
    ensures Utf8(0x391) == [0xCE, 0x91]
    ensures Utf8(0x2262) == [0xE2, 0x89, 0xA2] && Utf8(0x65E5) == [0xE6, 0x97, 0xA5]
    ensures Utf8(0x2_33B4) == [0xF0, 0xA3, 0x8E, 0xB4]
  {
  }

  /** The first and the last character of each length. */
  lemma Utf8Ends()
    ensures Utf8(0) == [0] && Utf8(0x7F) == [0x7F] && Utf8(0x80) == [0xC2, 0x80] && Utf8(0x7FF) == [0xDF, 0xBF]
    ensures Utf8(0x800) == [0xE0, 0xA0, 0x80] && Utf8(0xFFFF) == [0xEF, 0xBF, 0xBF]
  {
  }

  lemma LongEnds()
    ensures Utf8(0x1_0000) == [0xF0, 0x90, 0x80, 0x80] && Utf8(0x10_FFFF) == [0xF4, 0x8F, 0xBF, 0xBF]
  {
  }
}
