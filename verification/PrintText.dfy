/** Writing texts into buffers, and `print_number` and `print_string_ptr`. */
module PrintText {
  import opened Bytes
  import opened Numbers
  import opened Doubles
  import opened Floats
  import opened Strings
  import opened Memory

  // ----- A buffer and its write cursor -------------------------------------

  /** `*ptr++ = b`. */
  method Put(out: array<byte>, at: nat, b: byte) returns (ptr: nat)
    requires at < out.Length
    modifies out
    ensures ptr == at + 1 && out[..ptr] == old(out[..at]) + [b]
  {
    out[at] := b;
    ptr := at + 1;
  }

  /** `strcpy(ptr, src); ptr += strlen(src)`. */
  method Append(out: array<byte>, at: nat, src: array<byte>, ghost s: Text) returns (ptr: nat)
    requires at + |s| < out.Length && Holds(src, s) && src != out
    modifies out
    ensures ptr == at + |s| && out[..ptr] == old(out[..at]) + s
  {
    ptr := at;
    while src[ptr - at] != 0
      invariant at <= ptr <= at + |s| && Holds(src, s)
      invariant out[..ptr] == old(out[..at]) + s[..ptr - at]
      decreases at + |s| - ptr
    {
      HeldByte(src, s, ptr - at);
      out[ptr] := src[ptr - at];
      ptr := ptr + 1;
      assert s[..ptr - at] == s[..ptr - at - 1] + [s[ptr - at - 1]];
    }
    HeldByte(src, s, ptr - at);
    assert s[..ptr - at] == s;
    out[ptr] := 0;
  }

  /** `sprintf(ptr, ...)` of a text that is known to be `s`. */
  method Sprint(out: array<byte>, at: nat, s: Text) returns (ptr: nat)
    requires at + |s| < out.Length
    modifies out
    ensures ptr == at + |s| && out[..ptr] == old(out[..at]) + s && out[ptr] == 0
  {
    forall k | 0 <= k < |s| {
      out[at + k] := s[k];
    }
    ptr := at + |s|;
    out[ptr] := 0;
  }

  // ----- Numbers -----------------------------------------------------------

  lemma NumberIsNulFree(n: int, v: real)
    ensures NulFree(NumberText(n, v))
  {
    NumberBytes(n, v);
  }

  /** `print_number`, whether or not the two fields agree: the text fits into 21 bytes if the number is
      printed by `%lld`, and else into 64. */
  method PrintNumberText(h: Heap, item: Node) returns (str: array?<byte>)
    requires IsFinite(item.valuedouble)
    modifies h`asked, h`live
    ensures str == null ==> h.OutOfMemory() && h.live == old(h.live)
    ensures str != null ==>
              && fresh(str) && Holds(str, NumberText(item.valueint, item.valuedouble))
              && h.live == old(h.live) + {str} && h.Refused() == old(h.Refused())
  {
    hide Magnitude, PrintInt, IsFinite, NulFree;
    var n, d := item.valueint, item.valuedouble;
    PrintedIsShort(n, d);
    NumberIsNulFree(n, d);
    ZeroIsWhole(n);
    if Abs(n as real - d) <= EPSILON && d <= INT_MAX as real && d >= INT_MIN as real {
      str := h.Bytes(21);
      if str != null {
        var ptr := Sprint(str, 0, PrintInt(n));
      }
    } else {
      str := h.Bytes(64);
      if str != null {
        var ptr;
        if Abs(d.Floor as real - d) <= EPSILON && Abs(d) < TEN_TO_60 {
          ptr := Sprint(str, 0, Signed(d < 0.0, Magnitude(F0, Abs(d))));
        } else if Abs(d) < TEN_TO_MINUS_6 || Abs(d) > 1000000000.0 {
          ptr := Sprint(str, 0, Signed(d < 0.0, Magnitude(E, Abs(d))));
        } else {
          ptr := Sprint(str, 0, Signed(d < 0.0, Magnitude(F6, Abs(d))));
        }
      }
    }
  }

  // ----- Strings -----------------------------------------------------------

  lemma EscapeFrom(s: Text, i: nat)
    requires i < |s|
    ensures Escape(s[i..]) == EscapeByte(s[i]) + Escape(s[i + 1..])
    ensures EscapedLength(s[i..]) == |EscapeByte(s[i])| + EscapedLength(s[i + 1..])
  {
    assert s[i..][1..] == s[i + 1..];
  }

  lemma {:induction false} EscapeIsNulFree(s: Text)
    requires NulFree(s)
    ensures NulFree(Escape(s))
    decreases |s|
  {
    if s != [] {
      EscapeIsNulFree(s[1..]);
    }
  }

  /** The first scan: the length of the body of the literal. */
  method EscapedSize(str: array<byte>, ghost s: Text) returns (len: nat)
    requires Holds(str, s)
    ensures len == EscapedLength(s)
  {
    var ptr := 0;
    len := 0;
    assert s[0..] == s;
    while str[ptr] != 0
      invariant ptr <= |s| && len + EscapedLength(s[ptr..]) == EscapedLength(s)
      decreases |s| - ptr
    {
      HeldByte(str, s, ptr);
      EscapeFrom(s, ptr);
      var token := str[ptr];
      len := len + 1;
      if token in {QUOTE, BACKSLASH, 8, 12, LF, CR, TAB} {
        len := len + 1;
      } else if token < 32 {
        len := len + 5;
      }
      ptr := ptr + 1;
    }
    HeldByte(str, s, ptr);
  }

  /** Writes one character of the literal. */
  method PutEscaped(out: array<byte>, at: nat, token: byte) returns (ptr: nat)
    requires at + |EscapeByte(token)| < out.Length && token != 0
    modifies out
    ensures ptr == at + |EscapeByte(token)| && out[..ptr] == old(out[..at]) + EscapeByte(token)
  {
    if token > 31 && token != QUOTE && token != BACKSLASH {
      ptr := Put(out, at, token);
    } else {
      ptr := Put(out, at, BACKSLASH);
      match token {
        case 92 => ptr := Put(out, ptr, BACKSLASH);
        case 34 => ptr := Put(out, ptr, QUOTE);
        case 8 => ptr := Put(out, ptr, 98);
        case 12 => ptr := Put(out, ptr, 102);
        case 10 => ptr := Put(out, ptr, 110);
        case 13 => ptr := Put(out, ptr, 114);
        case 9 => ptr := Put(out, ptr, 116);
        case _ => ptr := Sprint(out, ptr, [LOWER_U, 48, 48, HexDigit(token / 16), HexDigit(token % 16)]);
      }
    }
  }

  /** The second scan. */
  method PutLiteral(out: array<byte>, str: array<byte>, ghost s: Text) returns (ptr2: nat)
    requires Holds(str, s) && str != out && out.Length == EscapedLength(s) + 3
    modifies out
    ensures ptr2 == |PrintString(s)| < out.Length && out[..ptr2] == PrintString(s)
  {
    EscapedLengthIsExact(s);
    ptr2 := Put(out, 0, QUOTE);
    var ptr := 0;
    assert s[0..] == s;
    while str[ptr] != 0
      invariant ptr <= |s| && Holds(str, s)
      invariant ptr2 + |Escape(s[ptr..])| + 2 == out.Length
      invariant out[..ptr2] + Escape(s[ptr..]) == [QUOTE] + Escape(s)
      decreases |s| - ptr
    {
      HeldByte(str, s, ptr);
      EscapeFrom(s, ptr);
      ghost var before := out[..ptr2];
      ptr2 := PutEscaped(out, ptr2, str[ptr]);
      Assoc(before, EscapeByte(s[ptr]), Escape(s[ptr + 1..]));
      ptr := ptr + 1;
    }
    HeldByte(str, s, ptr);
    ptr2 := Put(out, ptr2, QUOTE);
  }

  /** `print_string_ptr` of a string that is there. */
  method PrintStringPtr(h: Heap, str: array<byte>, ghost s: Text) returns (out: array?<byte>)
    requires Holds(str, s)
    modifies h`asked, h`live
    ensures out == null ==> h.OutOfMemory() && h.live == old(h.live)
    ensures out != null ==>
              && fresh(out) && Holds(out, PrintString(s)) && h.live == old(h.live) + {out}
                && h.Refused() == old(h.Refused())
  {
    EscapeIsNulFree(s);
    EscapedLengthIsExact(s);
    var len := EscapedSize(str, s);
    out := h.Bytes(len + 3);
    if out != null {
      var ptr2 := PutLiteral(out, str, s);
      out[ptr2] := 0;
    }
  }
}
