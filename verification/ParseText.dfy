/** `parse_number` and `parse_string` as the loops that they are. */
module ParseText {
  import opened Bytes
  import opened Unicode
  import opened Doubles
  import opened Numbers
  import opened Strings
  import opened Memory
  import P = Parser

  // ----- Numbers -----------------------------------------------------------

  /** A loop that reads digits into `acc`. */
  method ReadRun(s: Text, i: nat, acc: int) returns (n: int, num: nat)
    ensures (n, num) == ReadDigits(s, i, acc)
  {
    n, num := acc, i;
    while IsDigit(At(s, num))
      invariant i <= num && ReadDigits(s, num, n) == ReadDigits(s, i, acc)
      decreases |s| - num
    {
      n, num := n * 10 + (At(s, num) - 48), num + 1;
    }
  }

  /** The same into a `double`: each product and each sum is rounded. */
  method ReadDouble(s: Text, i: nat, acc: real) returns (n: real, num: nat)
    ensures (n, num) == ReadMantissa(DOUBLES, s, i, acc)
  {
    n, num := acc, i;
    while IsDigit(At(s, num))
      invariant i <= num && ReadMantissa(DOUBLES, s, num, n) == ReadMantissa(DOUBLES, s, i, acc)
      decreases |s| - num
    {
      n, num := Plus(Times(n, 10.0), (At(s, num) - 48) as real), num + 1;
    }
  }

  /** The digits before the dot. */
  method ReadWhole(s: Text, i: nat) returns (n: real, num: nat)
    ensures (n, num) == IntegerPart(DOUBLES, s, i)
  {
    n, num := 0.0, i;
    if At(s, num) == 48 {
      num := num + 1;
    }
    if 49 <= At(s, num) <= 57 {
      n, num := ReadDouble(s, num, n);
    }
  }

  /** The digits after the dot, and minus their number. */
  method ReadFraction(s: Text, i: nat, n0: real) returns (n: real, num: nat, scale: int)
    ensures (n, num) == FractionPart(DOUBLES, s, i, n0)
    ensures scale == if num == i then 0 else i + 1 - num
  {
    n, num, scale := n0, i, 0;
    if At(s, num) == DOT && IsDigit(At(s, num + 1)) {
      n, num := ReadDouble(s, num + 1, n);
      scale := i + 1 - num;
    }
  }

  method ReadExponent(s: Text, i: nat) returns (e: int, num: nat)
    ensures (e, num) == ExponentPart(s, i)
  {
    e, num := 0, i;
    if At(s, num) == 101 || At(s, num) == 69 {
      var signsubscale := 1;
      num := num + 1;
      if At(s, num) == PLUS {
        num := num + 1;
      } else if At(s, num) == MINUS {
        signsubscale, num := -1, num + 1;
      }
      e, num := ReadRun(s, num, 0);
      e := e * signsubscale;
    }
  }

  /** `parse_number`. */
  method ParseNumberInto(item: Node, s: Text, i: nat) returns (num: nat)
    modifies item`valuedouble, item`valueint, item`kind
    ensures item.kind == IsNumber && item.valueint == Truncate(item.valuedouble)
    ensures (item.valuedouble, num) == ParseNumber(s, i)
  {
    hide IntegerPart, FractionPart, ExponentPart, Nearest, Power, Times, ParseNumber;
    var n, sign, scale, exponent := 0.0, 1.0, 0, 0;
    num := i;
    if At(s, num) == MINUS {
      sign, num := -1.0, num + 1;
    }
    n, num := ReadWhole(s, num);
    n, num, scale := ReadFraction(s, num, n);
    exponent, num := ReadExponent(s, num);
    ParseNumberIs(s, i);
    var mantissa := sign * n;
    assert mantissa == if sign == 1.0 then n else -n;
    item.valuedouble := Times(mantissa, Nearest(Power(scale + exponent)));
    item.valueint := Truncate(item.valuedouble);
    item.kind := IsNumber;
  }

  // ----- Strings -----------------------------------------------------------

  /** The first scan: how many characters there are up to the closing quote or the NUL. */
  method Count(s: Text, str: nat) returns (len: nat)
    requires CompleteFrom(s, str)
    ensures len == LiteralCount(s, str)
  {
    var ptr := str;
    len := 0;
    while At(s, ptr) != QUOTE && At(s, ptr) != 0
      invariant CompleteFrom(s, ptr) && len + LiteralCount(s, ptr) == LiteralCount(s, str)
      decreases |s| - ptr
    {
      len := len + 1;
      if At(s, ptr) == BACKSLASH {
        CompleteStep(s, ptr);
        ptr := ptr + 1;
      }
      ptr := ptr + 1;
    }
  }

  function FirstByteMark(len: nat): byte
    requires 1 <= len <= 4
  {
    if len == 1 then 0 else if len == 2 then 0xC0 else if len == 3 then 0xE0 else 0xF0
  }

  /** The switch that writes one character backwards, six bits at a time, falling through from the
      longest form to the shortest. `(uc | 0x80) & 0xBF` keeps the low six bits and sets the top one. */
  method WriteUtf8(out: array<byte>, into: nat, uc: nat) returns (ptr2: nat)
    requires IsScalar(uc) && into + |Utf8(uc)| <= out.Length
    modifies out
    ensures ptr2 == into + |Utf8(uc)|
    ensures out[..ptr2] == old(out[..into]) + Utf8(uc)
  {
    var len := if uc < 0x80 then 1 else if uc < 0x800 then 2 else if uc < 0x1_0000 then 3 else 4;
    var u := uc;
    ptr2 := into + len;
    if len == 4 {
      ptr2 := ptr2 - 1;
      out[ptr2], u := 0x80 + u % 64, u / 64;
    }
    if len >= 3 {
      ptr2 := ptr2 - 1;
      out[ptr2], u := 0x80 + u % 64, u / 64;
    }
    if len >= 2 {
      ptr2 := ptr2 - 1;
      out[ptr2], u := 0x80 + u % 64, u / 64;
    }
    assert u + FirstByteMark(len) == Utf8(uc)[0] by {
      assert uc / 4096 == uc / 64 / 64 && uc / 262144 == uc / 64 / 64 / 64;
    }
    ptr2 := ptr2 - 1;
    out[ptr2] := u + FirstByteMark(len);
    ptr2 := ptr2 + len;
  }

  /** The byte that the two-byte escape with letter `b` stands for. */
  method Simple(b: byte) returns (r: byte)
    ensures r == Unescaped(b)
  {
    match b {
      case 98 => r := 8;
      case 102 => r := 12;
      case 110 => r := LF;
      case 114 => r := CR;
      case 116 => r := TAB;
      case _ => r := b;
    }
  }

  /** `parse_hex4`. */
  method ParseHex4(s: Text, p: nat) returns (h: nat)
    ensures h == Hex4(s, p)
  {
    h := 0;
    var d := HexValue(At(s, p));
    if d < 0 {
      return 0;
    }
    h := (h + d) * 16;
    d := HexValue(At(s, p + 1));
    if d < 0 {
      return 0;
    }
    h := (h + d) * 16;
    d := HexValue(At(s, p + 2));
    if d < 0 {
      return 0;
    }
    h := (h + d) * 16;
    d := HexValue(At(s, p + 3));
    if d < 0 {
      return 0;
    }
    h := h + d;
  }

  /** The `\u` case of the second scan. */
  method WriteUnicode(out: array<byte>, into: nat, s: Text, p: nat) returns (ptr2: nat, ptr: nat)
    requires into + |UnicodeEscape(s, p).0| <= out.Length
    modifies out
    ensures ptr2 == into + |UnicodeEscape(s, p).0| && ptr == UnicodeEscape(s, p).1
    ensures out[..ptr2] == old(out[..into]) + UnicodeEscape(s, p).0
  {
    hide Hex4, Utf8;
    var uc := ParseHex4(s, p + 2);
    ptr2, ptr := into, p + 6;
    if IsLow(uc) || uc == 0 {
      return;
    }
    if IsHigh(uc) {
      if At(s, ptr) != BACKSLASH || At(s, ptr + 1) != LOWER_U {
        return;
      }
      var uc2 := ParseHex4(s, ptr + 2);
      ptr := ptr + 6;
      if !IsLow(uc2) {
        return;
      }
      uc := Join(uc, uc2);
    }
    ptr2 := WriteUtf8(out, into, uc);
  }

  /** The three cases of a round of the second scan. */
  lemma PlainStep(s: Text, p: nat)
    requires CompleteFrom(s, p) && !Stops(s, p) && s[p] != BACKSLASH
    ensures CompleteFrom(s, p + 1) && LiteralEnd(s, p + 1) == LiteralEnd(s, p)
    ensures Unescape(s, p) == [s[p]] + Unescape(s, p + 1)
  {
  }

  lemma SimpleStep(s: Text, p: nat)
    requires CompleteFrom(s, p) && At(s, p) == BACKSLASH && At(s, p + 1) != LOWER_U
    ensures p + 1 < |s| && CompleteFrom(s, p + 2) && LiteralEnd(s, p + 2) == LiteralEnd(s, p)
    ensures Unescape(s, p) == [Unescaped(s[p + 1])] + Unescape(s, p + 2)
  {
    CompleteStep(s, p);
  }

  lemma UnicodeStep(s: Text, p: nat)
    requires CompleteFrom(s, p) && At(s, p) == BACKSLASH && At(s, p + 1) == LOWER_U
    ensures var u := UnicodeEscape(s, p);
            && CompleteFrom(s, u.1) && LiteralEnd(s, u.1) == LiteralEnd(s, p)
            && Unescape(s, p) == u.0 + Unescape(s, u.1)
  {
    hide UnicodeEscape;
    CompleteJump(s, p);
  }

  /** One round of the second scan: it writes the first bytes of what is still to be written. */
  method WriteNext(out: array<byte>, into: nat, s: Text, p: nat) returns (ptr2: nat, ptr: nat)
    requires CompleteFrom(s, p) && !Stops(s, p) && into + |Unescape(s, p)| <= out.Length
    modifies out
    ensures p < ptr && CompleteFrom(s, ptr) && LiteralEnd(s, ptr) == LiteralEnd(s, p)
    ensures into <= ptr2 && ptr2 + |Unescape(s, ptr)| == into + |Unescape(s, p)|
    ensures out[..ptr2] + Unescape(s, ptr) == old(out[..into]) + Unescape(s, p)
  {
    hide UnicodeEscape, Unescape, CompleteFrom, LiteralEnd, Unescaped;
    ghost var before := out[..into];
    if At(s, p) != BACKSLASH {
      PlainStep(s, p);
      out[into] := At(s, p);
      ptr2, ptr := into + 1, p + 1;
      Assoc(before, [s[p]], Unescape(s, ptr));
    } else if At(s, p + 1) == LOWER_U {
      UnicodeStep(s, p);
      ptr2, ptr := WriteUnicode(out, into, s, p);
      Assoc(before, UnicodeEscape(s, p).0, Unescape(s, ptr));
    } else {
      SimpleStep(s, p);
      var b := Simple(At(s, p + 1));
      out[into] := b;
      ptr2, ptr := into + 1, p + 2;
      Assoc(before, [b], Unescape(s, ptr));
    }
  }

  /** The second scan, and the NUL after it. */
  method Fill(out: array<byte>, s: Text, str: nat) returns (ptr: nat)
    requires NulFree(s) && CompleteFrom(s, str) && out.Length == LiteralCount(s, str) + 1
    modifies out
    ensures ptr == LiteralEnd(s, str) && Holds(out, Unescape(s, str))
  {
    UnescapeFits(s, str);
    UnescapeIsNulFree(s, str);
    var ptr2 := 0;
    ptr := str;
    while At(s, ptr) != QUOTE && At(s, ptr) != 0
      invariant CompleteFrom(s, ptr) && LiteralEnd(s, ptr) == LiteralEnd(s, str)
      invariant ptr2 + |Unescape(s, ptr)| == |Unescape(s, str)|
      invariant out[..ptr2] + Unescape(s, ptr) == Unescape(s, str)
      decreases |s| - ptr
    {
      ptr2, ptr := WriteNext(out, ptr2, s, ptr);
    }
    out[ptr2] := 0;
  }

  lemma Utf8IsNulFree(c: nat)
    requires IsScalar(c) && c != 0
    ensures NulFree(Utf8(c))
  {
  }

  lemma {:induction false} UnescapeIsNulFree(s: Text, p: nat)
    requires NulFree(s) && CompleteFrom(s, p)
    ensures NulFree(Unescape(s, p))
    decreases |s| - p
  {
    hide Utf8, Hex4;
    if Stops(s, p) {
    } else if s[p] != BACKSLASH {
      UnescapeIsNulFree(s, p + 1);
    } else if s[p + 1] != LOWER_U {
      CompleteStep(s, p);
      UnescapeIsNulFree(s, p + 2);
    } else {
      CompleteJump(s, p);
      UnescapeIsNulFree(s, UnicodeEscape(s, p).1);
      var uc, uc2 := Hex4(s, p + 2), Hex4(s, p + 8);
      if IsScalar(uc) && uc != 0 {
        Utf8IsNulFree(uc);
      } else if IsHigh(uc) && IsLow(uc2) {
        Utf8IsNulFree(Join(uc, uc2));
      }
    }
  }

  /** Why a parse returned null: memory ran out meanwhile, or the text is wrong where `ep` points. */
  twostate predicate Failed<T(!new)>(h: Heap, r: P.Parsed<T>)
    reads h`asked, h`ep
  {
    h.OutOfMemory() || (r.Error? && h.ep == r.at)
  }

  /** `parse_string`: null (-1) with `ep` set if there is no literal, or if memory runs out. */
  method ParseStringInto(h: Heap, item: Node, s: Text, str: nat) returns (end: int, ghost text: Owner)
    requires NulFree(s) && !P.ParseString(s, str).Overrun? && h !in h.live
    modifies h`asked, h`live, h`ep, item`valuestring, item`kind
    ensures end < 0 ==> h.live == old(h.live) && text == None && item.valuestring == old(item.valuestring)
    ensures end < 0 ==> Failed(h, P.ParseString(s, str))
    ensures end >= 0 ==>
              && text.Some? && P.ParseString(s, str) == P.Ok(text.text, end) && fresh(text.at)
                && Holds(text.at, text.text)
              && item.valuestring == text.at && item.kind == IsString
              && h.live == old(h.live) + {text.at} && h.Refused() == old(h.Refused())
  {
    text := None;
    if At(s, str) != QUOTE {
      h.ep := str;
      return -1, None;
    }
    var len := Count(s, str + 1);
    var out := h.Bytes(len + 1);
    if out == null {
      return -1, None;
    }
    end := Fill(out, s, str + 1);
    if At(s, end) == QUOTE {
      end := end + 1;
    }
    item.valuestring, item.kind := out, IsString;
    text := Some(out, Unescape(s, str + 1));
  }
}
