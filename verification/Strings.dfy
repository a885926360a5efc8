/** String literals: the two scans of `parse_string`, and `print_string_ptr`. */
module Strings {
  import opened Bytes
  import opened Unicode

  // ----- Printing ----------------------------------------------------------

  /** The letter after the backslash of a two-byte escape, or 0 if `b` has none. */
  function ShortEscape(b: byte): byte {
    if b == QUOTE || b == BACKSLASH then b
    else if b == 8 then 98
    else if b == 12 then 102
    else if b == LF then 110
    else if b == CR then 114
    else if b == TAB then 116
    else 0
  }

  /** A lower-case hexadecimal digit. */
  function HexDigit(d: nat): byte
    requires d < 16
  {
    if d < 10 then 48 + d else 87 + d
  }

  function EscapeByte(b: byte): (r: Text)
    ensures 1 <= |r| <= 6
  {
    if ShortEscape(b) != 0 then [BACKSLASH, ShortEscape(b)]
    else if b < 32 then [BACKSLASH, LOWER_U, 48, 48, HexDigit(b / 16), HexDigit(b % 16)]
    else [b]
  }

  /** How each byte is printed. */
  lemma EscapeIs(b: byte)
    ensures match b as char
            case '\"' => EscapeByte(b) == Ascii("\\\"")
            case '\\' => EscapeByte(b) == Ascii("\\\\")
            case '\n' => EscapeByte(b) == Ascii("\\n")
            case '\r' => EscapeByte(b) == Ascii("\\r")
            case '\t' => EscapeByte(b) == Ascii("\\t")
            case _ =>
              if b == 8 then EscapeByte(b) == Ascii("\\b")
              else if b == 12 then EscapeByte(b) == Ascii("\\f")
              else if b >= 32 then EscapeByte(b) == [b]
              else EscapeByte(b) == Ascii("\\u00" + ["01"[b / 16], "0123456789abcdef"[b % 16]])
  {
  }

  function Escape(s: Text): Text {
    if s == [] then [] else EscapeByte(s[0]) + Escape(s[1..])
  }

  function PrintString(s: Text): Text {
    [QUOTE] + Escape(s) + [QUOTE]
  }

  /** The first scan of `print_string_ptr`: how many bytes the body of the literal takes. */
  function EscapedLength(s: Text): nat {
    if s == [] then 0
    else (if ShortEscape(s[0]) != 0 then 2 else if s[0] < 32 then 6 else 1) + EscapedLength(s[1..])
  }

  lemma {:induction false} EscapedLengthIsExact(s: Text)
    ensures |PrintString(s)| == EscapedLength(s) + 2
  {
    if s != [] {
      EscapedLengthIsExact(s[1..]);
    }
  }

  // ----- Parsing -----------------------------------------------------------

  /** At position `p` of `s` the body of a literal stops: a closing quote, or the end of the text. */
  predicate Stops(s: Text, p: nat) {
    At(s, p) == QUOTE || At(s, p) == 0
  }

  /** Every escape from `p` to the end of the literal is complete: a backslash is followed by a
      byte, and `\u` by four more bytes of the literal. `CompleteFrom(s, p)` is what the
      source demands of a literal whose body starts at `p`: its cursor jumps that far unchecked. */
  predicate CompleteFrom(s: Text, p: nat)
    decreases |s| - p
  {
    if Stops(s, p) then true
    else if s[p] != BACKSLASH then CompleteFrom(s, p + 1)
    else
      && At(s, p + 1) != 0
      && if s[p + 1] == LOWER_U then InBody(s, p + 2, 4) && CompleteFrom(s, p + 6) else CompleteFrom(s, p + 2)
  }

  /** The `n` bytes from `p` are ordinary bytes of a literal. */
  predicate InBody(s: Text, p: nat, n: nat)
    decreases n
  {
    n > 0 ==> !Stops(s, p) && At(s, p) != BACKSLASH && InBody(s, p + 1, n - 1)
  }

  /** The first scan: where the literal ends (at its closing quote, or at the NUL). */
  function LiteralEnd(s: Text, p: nat): (k: nat)
    requires CompleteFrom(s, p)
    ensures p <= k && Stops(s, k)
    ensures p <= |s| ==> k <= |s|
    decreases |s| - p
  {
    if Stops(s, p) then p
    else if s[p] == BACKSLASH then CompleteStep(s, p); LiteralEnd(s, p + 2)
    else LiteralEnd(s, p + 1)
  }

  /** The first scan: how many characters it counts, an escaped one as one. */
  function LiteralCount(s: Text, p: nat): nat
    requires CompleteFrom(s, p)
    decreases |s| - p
  {
    if Stops(s, p) then 0
    else if s[p] == BACKSLASH then CompleteStep(s, p); 1 + LiteralCount(s, p + 2)
    else 1 + LiteralCount(s, p + 1)
  }

  lemma CompleteStep(s: Text, p: nat)
    requires CompleteFrom(s, p) && At(s, p) == BACKSLASH
    ensures p + 2 <= |s| && CompleteFrom(s, p + 2)
  {
    if s[p + 1] == LOWER_U {
      assert InBody(s, p + 2, 4) && InBody(s, p + 3, 3) && InBody(s, p + 4, 2) && InBody(s, p + 5, 1);
      assert CompleteFrom(s, p + 5);
      assert CompleteFrom(s, p + 4);
      assert CompleteFrom(s, p + 3);
    }
  }

  /** The value of one hexadecimal digit, or `-1`. */
  function HexValue(b: byte): int {
    if IsDigit(b) then b - 48
    else if 65 <= b <= 70 then b - 55
    else if 97 <= b <= 102 then b - 87
    else -1
  }

  /** `parse_hex4`: four hexadecimal digits, or 0 if one of them is not a digit. */
  function Hex4(s: Text, p: nat): (u: nat)
    ensures u < 0x1_0000
  {
    var a, b, c, d := HexValue(At(s, p)), HexValue(At(s, p + 1)), HexValue(At(s, p + 2)), HexValue(At(s, p + 3));
    if a < 0 || b < 0 || c < 0 || d < 0 then 0 else ((a * 16 + b) * 16 + c) * 16 + d
  }

  /** Byte `b` is the hexadecimal digit with value `d`, in either case. */
  ghost predicate IsHex(b: byte, d: nat) {
    d < 16 && (b as char == "0123456789abcdef"[d] || b as char == "0123456789ABCDEF"[d])
  }

  lemma HexValueIs(b: byte)
    ensures forall d :: IsHex(b, d) ==> HexValue(b) == d
    ensures var c := b as char;
            HexValue(b) < 0 <==> !('0' <= c <= '9' || 'a' <= c <= 'f' || 'A' <= c <= 'F')
  {
  }

  lemma HexDigits(u: nat)
    requires u < 0x1_0000
    ensures ((u / 0x1000 * 16 + u / 0x100 % 16) * 16 + u / 16 % 16) * 16 + u % 16 == u
  {
    assert u / 0x100 / 16 == u / 0x1000 && u / 16 / 16 == u / 0x100;
  }

  /** Four hexadecimal digits, most significant first, are read as the number that they denote. */
  lemma Hex4Reads(s: Text, p: nat, u: nat)
    requires u < 0x1_0000
    requires IsHex(At(s, p), u / 0x1000) && IsHex(At(s, p + 1), u / 0x100 % 16)
    requires IsHex(At(s, p + 2), u / 16 % 16) && IsHex(At(s, p + 3), u % 16)
    ensures Hex4(s, p) == u
  {
    HexValueIs(At(s, p));
    HexValueIs(At(s, p + 1));
    HexValueIs(At(s, p + 2));
    HexValueIs(At(s, p + 3));
    HexDigits(u);
    hide HexValue, IsHex;
  }

  /** Anything else is read as 0. */
  lemma Hex4OfOther(s: Text, p: nat, k: nat)
    requires var c := At(s, p + k) as char;
             k < 4 && !('0' <= c <= '9' || 'a' <= c <= 'f' || 'A' <= c <= 'F')
    ensures Hex4(s, p) == 0
  {
    HexValueIs(At(s, p + k));
    hide HexValue;
  }

  /** What a backslash followed by a byte other than `u` stands for. */
  function Unescaped(b: byte): byte {
    if b == 98 then 8
    else if b == 102 then 12
    else if b == 110 then LF
    else if b == 114 then CR
    else if b == 116 then TAB
    else b
  }

  /** The `\u` case of the second scan, with the cursor `p` at the backslash: the bytes it writes
      and the position it moves to. */
  function UnicodeEscape(s: Text, p: nat): (r: (Text, nat))
    ensures r.1 == p + 6 || (r.1 == p + 12 && At(s, p + 6) == BACKSLASH && At(s, p + 7) == LOWER_U)
    ensures |r.0| <= 4 && (r.1 == p + 6 ==> |r.0| <= 3)
  {
    var uc := Hex4(s, p + 2);
    if IsLow(uc) || uc == 0 then ([], p + 6)
    else if IsHigh(uc) then
      if At(s, p + 6) != BACKSLASH || At(s, p + 7) != LOWER_U then ([], p + 6)
      else
        var uc2 := Hex4(s, p + 8);
        if !IsLow(uc2) then ([], p + 12) else (Utf8(Join(uc, uc2)), p + 12)
    else (Utf8(uc), p + 6)
  }

  /** The second scan: the bytes it writes for the body that starts at `p`. */
  function Unescape(s: Text, p: nat): Text
    requires CompleteFrom(s, p)
    decreases |s| - p
  {
    if Stops(s, p) then []
    else if s[p] != BACKSLASH then [s[p]] + Unescape(s, p + 1)
    else if s[p + 1] != LOWER_U then [Unescaped(s[p + 1])] + Unescape(s, p + 2)
    else
      var u := UnicodeEscape(s, p);
      CompleteJump(s, p);
      u.0 + Unescape(s, u.1)
  }

  /** Both scans agree on where the literal goes on after a `\u` escape. */
  lemma CompleteJump(s: Text, p: nat)
    requires CompleteFrom(s, p) && At(s, p) == BACKSLASH && At(s, p + 1) == LOWER_U
    ensures var k := UnicodeEscape(s, p).1;
            k <= |s| && CompleteFrom(s, k) && LiteralEnd(s, p) == LiteralEnd(s, k)
            && LiteralCount(s, p) == LiteralCount(s, k) + (if k == p + 6 then 5 else 10)
  {
    SkipEscape(s, p);
    if UnicodeEscape(s, p).1 == p + 12 {
      SkipEscape(s, p + 6);
    }
  }

  lemma SkipEscape(s: Text, p: nat)
    requires CompleteFrom(s, p) && At(s, p) == BACKSLASH && At(s, p + 1) == LOWER_U
    ensures p + 6 <= |s| && CompleteFrom(s, p + 6)
    ensures LiteralEnd(s, p) == LiteralEnd(s, p + 6) && LiteralCount(s, p) == LiteralCount(s, p + 6) + 5
  {
    assert InBody(s, p + 2, 4) && InBody(s, p + 3, 3) && InBody(s, p + 4, 2) && InBody(s, p + 5, 1);
    assert CompleteFrom(s, p + 6);
    assert CompleteFrom(s, p + 5);
    assert CompleteFrom(s, p + 4);
    assert CompleteFrom(s, p + 3);
    CompleteStep(s, p);
    assert LiteralEnd(s, p + 2) == LiteralEnd(s, p + 3) == LiteralEnd(s, p + 4);
    assert LiteralEnd(s, p + 4) == LiteralEnd(s, p + 5) == LiteralEnd(s, p + 6);
    assert LiteralCount(s, p + 2) == LiteralCount(s, p + 4) + 2;
    assert LiteralCount(s, p + 4) == LiteralCount(s, p + 6) + 2;
  }

  /** The second scan never writes more bytes than the first one counted. */
  lemma {:induction false} UnescapeFits(s: Text, p: nat)
    requires CompleteFrom(s, p)
    ensures |Unescape(s, p)| <= LiteralCount(s, p)
    decreases |s| - p
  {
    if Stops(s, p) {
    } else if s[p] != BACKSLASH {
      UnescapeFits(s, p + 1);
    } else if s[p + 1] != LOWER_U {
      CompleteStep(s, p);
      UnescapeFits(s, p + 2);
    } else {
      CompleteJump(s, p);
      UnescapeFits(s, UnicodeEscape(s, p).1);
    }
  }

  // ----- Reading back what was printed -------------------------------------

  lemma EscapeByteReadBack(b: byte, s: Text, p: nat)
    requires b != 0 && Occurs(EscapeByte(b), s, p)
    requires CompleteFrom(s, p + |EscapeByte(b)|)
    ensures CompleteFrom(s, p)
    ensures LiteralEnd(s, p) == LiteralEnd(s, p + |EscapeByte(b)|)
    ensures Unescape(s, p) == [b] + Unescape(s, p + |EscapeByte(b)|)
  {
    assert s[p] == EscapeByte(b)[0];
    if |EscapeByte(b)| == 2 {
      assert s[p + 1] == EscapeByte(b)[1];
    } else if |EscapeByte(b)| == 6 {
      forall k | 0 <= k < 6 ensures s[p + k] == EscapeByte(b)[k] {}
      assert InBody(s, p + 5, 1);
      assert InBody(s, p + 4, 2);
      assert InBody(s, p + 3, 3);
      assert CompleteFrom(s, p);
      CompleteJump(s, p);
      assert Hex4(s, p + 2) == b / 16 * 16 + b % 16 == b;
      assert UnicodeEscape(s, p) == ([b], p + 6);
    }
  }

  lemma EscapeFirst(v: Text)
    requires v != []
    ensures Escape(v) + [QUOTE] == EscapeByte(v[0]) + (Escape(v[1..]) + [QUOTE])
    ensures |Escape(v)| == |EscapeByte(v[0])| + |Escape(v[1..])|
  {
  }

  lemma EmptyReadBack(s: Text, p: nat)
    requires Occurs([] + [QUOTE], s, p)
    ensures CompleteFrom(s, p) && LiteralEnd(s, p) == p && Unescape(s, p) == []
  {
    assert s[p] == ([] + [QUOTE])[0];
  }

  /** `parse_string` undoes `print_string_ptr`, for every NUL-free string and whatever follows. */
  lemma {:induction false} EscapeReadBack(v: Text, s: Text, p: nat)
    requires NulFree(v) && Occurs(Escape(v) + [QUOTE], s, p)
    ensures CompleteFrom(s, p)
    ensures LiteralEnd(s, p) == p + |Escape(v)|
    ensures Unescape(s, p) == v
    decreases |v|
  {
    hide EscapeByte, Occurs, CompleteFrom, LiteralEnd, Unescape;
    if v == [] {
      EmptyReadBack(s, p);
    } else {
      var e := EscapeByte(v[0]);
      EscapeFirst(v);
      hide Escape;
      OccursSplit(e, Escape(v[1..]) + [QUOTE], s, p);
      EscapeReadBack(v[1..], s, p + |e|);
      EscapeByteReadBack(v[0], s, p);
      assert v == [v[0]] + v[1..];
    }
  }
}
