/** An independent reading of a literal: a sequence of UTF-16 code units and plain bytes, decoded as
    section 2.2 of RFC 2781 says, and the proof that `parse_string` computes its UTF-8. */
module Utf16 {
  import opened Bytes
  import opened Unicode
  import opened Strings

  datatype Token =
    | Plain(b: byte)  // a byte that stands for itself, or a two-byte escape
    | Unit(u: nat)    // the code unit of one \u escape

  /** The literal whose body starts at `p`, escape by escape. */
  function Tokens(s: Text, p: nat): seq<Token>
    requires CompleteFrom(s, p)
    decreases |s| - p
  {
    if Stops(s, p) then []
    else if s[p] != BACKSLASH then [Plain(s[p])] + Tokens(s, p + 1)
    else if s[p + 1] != LOWER_U then [Plain(Unescaped(s[p + 1]))] + Tokens(s, p + 2)
    else SkipEscape(s, p); [Unit(Hex4(s, p + 2))] + Tokens(s, p + 6)
  }

  /** Surrogates come in pairs, high before low, and nothing else is a surrogate. */
  predicate WellFormed(t: seq<Token>) {
    if t == [] then true
    else if t[0].Plain? then WellFormed(t[1..])
    else if IsHigh(t[0].u) then |t| > 1 && t[1].Unit? && IsLow(t[1].u) && WellFormed(t[2..])
    else IsScalar(t[0].u) && WellFormed(t[1..])
  }

  /** The UTF-8 of well-formed UTF-16. U+0000 cannot stand in a C string and is left out. */
  function ToUtf8(t: seq<Token>): Text
    requires WellFormed(t)
  {
    if t == [] then []
    else if t[0].Plain? then [t[0].b] + ToUtf8(t[1..])
    else if IsHigh(t[0].u) then Utf8(Join(t[0].u, t[1].u)) + ToUtf8(t[2..])
    else (if t[0].u == 0 then [] else Utf8(t[0].u)) + ToUtf8(t[1..])
  }

  /** What is left of ill-formed UTF-16: a low surrogate on its own is dropped; so is a high one
      without a low one after it, together with the `\u` escape after it, if there is one. */
  function Repair(t: seq<Token>): seq<Token> {
    if t == [] then []
    else if t[0].Plain? || IsScalar(t[0].u) then [t[0]] + Repair(t[1..])
    else if !IsHigh(t[0].u) || |t| == 1 || t[1].Plain? then Repair(t[1..])
    else if IsLow(t[1].u) then [t[0], t[1]] + Repair(t[2..])
    else Repair(t[2..])
  }

  lemma {:induction false} RepairShortens(t: seq<Token>)
    ensures |Repair(t)| <= |t|
    decreases |t|
  {
    if t != [] {
      RepairShortens(t[1..]);
      if |t| > 1 {
        RepairShortens(t[2..]);
      }
    }
  }

  /** The repair always gives well-formed UTF-16. */
  lemma {:induction false} RepairIsWellFormed(t: seq<Token>)
    ensures WellFormed(Repair(t))
    decreases |t|
  {
    if t != [] {
      RepairIsWellFormed(t[1..]);
      if |t| > 1 {
        RepairIsWellFormed(t[2..]);
        assert ([t[0], t[1]] + Repair(t[2..]))[2..] == Repair(t[2..]);
      }
      assert ([t[0]] + Repair(t[1..]))[1..] == Repair(t[1..]);
    }
  }

  /** It changes nothing exactly when there is nothing to repair. */
  lemma {:induction false} RepairIsMinimal(t: seq<Token>)
    ensures Repair(t) == t <==> WellFormed(t)
    decreases |t|
  {
    if t != [] {
      RepairIsMinimal(t[1..]);
      RepairShortens(t[1..]);
      assert t == [t[0]] + t[1..];
      if |t| > 1 {
        RepairIsMinimal(t[2..]);
        RepairShortens(t[2..]);
        assert t == [t[0], t[1]] + t[2..];
        assert ([t[0], t[1]] + Repair(t[2..]))[2..] == Repair(t[2..]);
      }
      assert ([t[0]] + Repair(t[1..]))[1..] == Repair(t[1..]);
    }
  }

  /** The second scan of `parse_string` writes the UTF-8 of the decoded, repaired UTF-16. */
  lemma {:induction false} UnescapeIsUtf8(s: Text, p: nat)
    requires CompleteFrom(s, p)
    ensures WellFormed(Repair(Tokens(s, p)))
    ensures Unescape(s, p) == ToUtf8(Repair(Tokens(s, p)))
    decreases |s| - p
  {
    var t := Tokens(s, p);
    RepairIsWellFormed(t);
    if Stops(s, p) {
    } else if s[p] != BACKSLASH || s[p + 1] != LOWER_U {
      if s[p] == BACKSLASH {
        CompleteStep(s, p);
      }
      UnescapeIsUtf8(s, if s[p] == BACKSLASH then p + 2 else p + 1);
      assert t[1..] == Tokens(s, if s[p] == BACKSLASH then p + 2 else p + 1);
      assert ([t[0]] + Repair(t[1..]))[1..] == Repair(t[1..]);
    } else {
      CompleteJump(s, p);
      SkipEscape(s, p);
      UnescapeIsUtf8(s, UnicodeEscape(s, p).1);
      UnicodeEscapeIsUtf8(s, p);
    }
  }

  /** One code unit that does not take its neighbour along. */
  lemma RepairUnit(u: nat, t: seq<Token>)
    requires !IsHigh(u) || t == [] || t[0].Plain?
    ensures WellFormed(Repair([Unit(u)] + t)) && WellFormed(Repair(t))
    ensures ToUtf8(Repair([Unit(u)] + t)) == (if u > 0 && IsScalar(u) then Utf8(u) else []) + ToUtf8(Repair(t))
  {
    RepairIsWellFormed([Unit(u)] + t);
    RepairIsWellFormed(t);
    hide Utf8;
    assert ([Unit(u)] + t)[1..] == t && ([Unit(u)] + Repair(t))[1..] == Repair(t);
    assert [] + ToUtf8(Repair(t)) == ToUtf8(Repair(t));
  }

  /** A high surrogate and the code unit behind it. */
  lemma RepairPair(u: nat, v: nat, t: seq<Token>)
    requires IsHigh(u)
    ensures WellFormed(Repair([Unit(u)] + ([Unit(v)] + t))) && WellFormed(Repair(t))
    ensures ToUtf8(Repair([Unit(u)] + ([Unit(v)] + t)))
         == (if IsLow(v) then Utf8(Join(u, v)) else []) + ToUtf8(Repair(t))
  {
    var w := [Unit(u)] + ([Unit(v)] + t);
    RepairIsWellFormed(w);
    RepairIsWellFormed(t);
    hide Utf8, Join;
    assert w[2..] == t && ([Unit(u), Unit(v)] + Repair(t))[2..] == Repair(t);
    assert [] + ToUtf8(Repair(t)) == ToUtf8(Repair(t));
  }

  lemma UnicodeEscapeIsUtf8(s: Text, p: nat)
    requires CompleteFrom(s, p) && At(s, p) == BACKSLASH && At(s, p + 1) == LOWER_U
    requires CompleteFrom(s, UnicodeEscape(s, p).1)
    requires WellFormed(Repair(Tokens(s, UnicodeEscape(s, p).1)))
    requires WellFormed(Repair(Tokens(s, p)))
    ensures ToUtf8(Repair(Tokens(s, p)))
         == UnicodeEscape(s, p).0 + ToUtf8(Repair(Tokens(s, UnicodeEscape(s, p).1)))
  {
    hide Repair, ToUtf8, WellFormed, Hex4, Utf8, Join;
    SkipEscape(s, p);
    var t1 := Tokens(s, p + 6);
    var pair := At(s, p + 6) == BACKSLASH && At(s, p + 7) == LOWER_U;
    if pair {
      SkipEscape(s, p + 6);
    }
    assert pair <==> |t1| > 0 && t1[0].Unit?;
    if pair && IsHigh(Hex4(s, p + 2)) {
      RepairPair(Hex4(s, p + 2), Hex4(s, p + 8), Tokens(s, p + 12));
    } else {
      RepairUnit(Hex4(s, p + 2), t1);
    }
  }
}
