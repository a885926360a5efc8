/** The minifier keeps the meaning of every text that the parser accepts. */
module MinifyParse {
  import opened Bytes
  import opened Json
  import opened Numbers
  import opened Strings
  import opened Parser
  import opened Minifier

  /** Reading `m` from `p` on is reading what the minifier writes for `s` from `i` on. */
  ghost predicate Follows(s: Text, i: nat, m: Text, p: nat) {
    NulFree(s) && i <= |s| && Closed(s, i) && p <= |m| && m[p..] == Minify(s, i)
  }

  /** There is nothing to minify in `m` from `p` on. */
  ghost predicate Done(m: Text, p: nat) {
    Closed(m, p) && Tight(m, p)
  }

  // ----- Single steps ------------------------------------------------------

  lemma SliceAt(m: Text, p: nat, a: Text, rest: Text)
    requires p <= |m| && m[p..] == a + rest
    ensures p + |a| <= |m| && m[p..p + |a|] == a && m[p + |a|..] == rest
  {
    assert m[p..p + |a|] == m[p..][..|a|];
    assert m[p + |a|..] == m[p..][|a|..];
  }

  lemma StepCopied(s: Text, i: nat, m: Text, p: nat)
    requires Follows(s, i, m, p) && IsPlain(At(s, i))
    ensures Follows(s, i + 1, m, p + 1) && At(m, p) == At(s, i)
    ensures Done(m, p + 1) ==> Done(m, p)
  {
    SliceAt(m, p, [s[i]], Minify(s, i + 1));
    assert m[p] == m[p..p + 1][0];
  }

  lemma StepSpace(s: Text, i: nat, m: Text, p: nat)
    requires Follows(s, i, m, p) && IsSpace(At(s, i))
    ensures Follows(s, i + 1, m, p)
  {
  }

  lemma StepEnd(s: Text, i: nat, m: Text, p: nat)
    requires Follows(s, i, m, p)
    ensures At(s, i) == 0 ==> p == |m| && At(m, p) == 0 && Done(m, p)
    ensures At(s, i) > 32 && At(s, i) != SLASH ==> At(m, p) == At(s, i)
  {
    if At(s, i) == QUOTE {
      SliceAt(m, p, s[i..LiteralStop(s, i + 1)], Minify(s, LiteralStop(s, i + 1)));
      assert m[p] == m[p..][0] == s[i..LiteralStop(s, i + 1)][0];
    } else if At(s, i) > 32 && At(s, i) != SLASH {
      StepCopied(s, i, m, p);
    }
  }

  /** `skip` stops at corresponding positions, unless a comment follows. */
  lemma {:induction false} SkipKeeps(s: Text, i: nat, m: Text, p: nat)
    requires Follows(s, i, m, p) && At(s, Skip(s, i)) != SLASH
    ensures Follows(s, Skip(s, i), m, Skip(m, p))
    ensures At(m, Skip(m, p)) == At(s, Skip(s, i))
    ensures Done(m, Skip(m, p)) ==> Done(m, p)
    decreases |s| - i
  {
    hide Done, Follows;
    if IsSpace(At(s, i)) {
      StepSpace(s, i, m, p);
      SkipKeeps(s, i + 1, m, p);
    } else if 0 < At(s, i) <= 32 {
      StepCopied(s, i, m, p);
      SkipKeeps(s, i + 1, m, p + 1);
    } else {
      StepEnd(s, i, m, p);
    }
  }

  // ----- Words and numbers -------------------------------------------------

  lemma {:induction false} WordKeeps(s: Text, i: nat, w: Text, m: Text, p: nat)
    requires Follows(s, i, m, p) && StartsWith(s, i, w) && forall k :: 0 <= k < |w| ==> IsPlain(w[k])
    ensures Follows(s, i + |w|, m, p + |w|) && StartsWith(m, p, w)
    ensures Done(m, p + |w|) ==> Done(m, p)
    decreases |w|
  {
    hide Done, Follows;
    if w == [] {
      FollowsInside(s, i, m, p);
    } else {
      assert s[i] == s[i..i + |w|][0] == w[0];
      assert s[i + 1..i + |w|] == s[i..i + |w|][1..];
      StepCopied(s, i, m, p);
      WordKeeps(s, i + 1, w[1..], m, p + 1);
      assert m[p..p + |w|] == [m[p]] + m[p + 1..p + |w|];
    }
  }

  lemma FollowsInside(s: Text, i: nat, m: Text, p: nat)
    requires Follows(s, i, m, p)
    ensures i <= |s| && p <= |m|
  {
  }

  lemma OtherWord(s: Text, i: nat, w: Text, m: Text, p: nat)
    requires w != [] && At(s, i) != w[0] && At(s, i) == At(m, p)
    ensures !StartsWith(s, i, w) && !StartsWith(m, p, w)
  {
    assert i + |w| <= |s| ==> s[i..i + |w|][0] == s[i];
    assert p + |w| <= |m| ==> m[p..p + |w|][0] == m[p];
  }

  /** `n` bytes that are copied one by one. */
  ghost predicate PlainRun(s: Text, i: nat, n: nat)
    decreases n
  {
    n > 0 ==> IsPlain(At(s, i)) && PlainRun(s, i + 1, n - 1)
  }

  lemma {:induction false} JoinRuns(s: Text, i: nat, a: nat, b: nat)
    requires PlainRun(s, i, a) && PlainRun(s, i + a, b)
    ensures PlainRun(s, i, a + b)
    decreases a
  {
    if a > 0 {
      JoinRuns(s, i + 1, a - 1, b);
    }
  }

  lemma {:induction false} DigitsRun(s: Text, i: nat, acc: int)
    ensures PlainRun(s, i, ReadDigits(s, i, acc).1 - i)
    decreases |s| - i
  {
    if IsDigit(At(s, i)) {
      DigitsRun(s, i + 1, acc * 10 + (At(s, i) - 48));
    }
  }

  lemma {:induction false} MantissaRun(s: Text, i: nat, acc: real)
    ensures PlainRun(s, i, ReadMantissa(DOUBLES, s, i, acc).1 - i)
    decreases |s| - i
  {
    if IsDigit(At(s, i)) {
      MantissaRun(s, i + 1, DOUBLES.step(acc, At(s, i) - 48));
    }
  }

  lemma PartRuns(s: Text, i: nat, acc: real)
    ensures PlainRun(s, i, IntegerPart(DOUBLES, s, i).1 - i)
    ensures PlainRun(s, i, FractionPart(DOUBLES, s, i, acc).1 - i)
    ensures PlainRun(s, i, ExponentPart(s, i).1 - i)
  {
    MantissaRun(s, i, 0.0);
    MantissaRun(s, i + 1, 0.0);
    MantissaRun(s, i + 1, acc);
    DigitsRun(s, i + 1, 0);
    DigitsRun(s, i + 2, 0);
    hide ReadDigits, ReadMantissa;
    assert IsPlain(At(s, i)) ==> PlainRun(s, i, 1 + (ReadMantissa(DOUBLES, s, i + 1, acc).1 - (i + 1)));
  }

  lemma NumberRun(s: Text, i: nat)
    ensures PlainRun(s, i, ParseNumber(s, i).1 - i)
  {
    hide IntegerPart, FractionPart, ExponentPart;
    var i1 := if At(s, i) == MINUS then i + 1 else i;
    PartRuns(s, i1, 0.0);
    var w := IntegerPart(DOUBLES, s, i1);
    PartRuns(s, w.1, w.0);
    var f := FractionPart(DOUBLES, s, w.1, w.0);
    PartRuns(s, f.1, 0.0);
    assert PlainRun(s, i, i1 - i);
    JoinRuns(s, i, i1 - i, w.1 - i1);
    JoinRuns(s, i, w.1 - i, f.1 - w.1);
    JoinRuns(s, i, f.1 - i, ExponentPart(s, f.1).1 - f.1);
  }

  /** What stands after a value in a text that parses. */
  predicate IsDelimiter(b: byte) {
    b <= 32 || b == COMMA || b == RBRACKET || b == RBRACE
  }

  /** `s` from `i` and `m` from `p` agree up to a delimiter `n` bytes further on. */
  ghost predicate SameNumber(s: Text, i: nat, m: Text, p: nat, n: nat)
    decreases n
  {
    if n == 0 then IsDelimiter(At(s, i)) && IsDelimiter(At(m, p))
    else At(s, i) == At(m, p) && SameNumber(s, i + 1, m, p + 1, n - 1)
  }

  lemma {:induction false} RunKeeps(s: Text, i: nat, m: Text, p: nat, n: nat)
    requires Follows(s, i, m, p) && PlainRun(s, i, n)
    ensures Follows(s, i + n, m, p + n)
    ensures Done(m, p + n) ==> Done(m, p)
    ensures IsDelimiter(At(s, i + n)) && IsDelimiter(At(m, p + n)) ==> SameNumber(s, i, m, p, n)
    decreases n
  {
    hide Follows, Done, IsDelimiter;
    if n > 0 {
      StepCopied(s, i, m, p);
      RunKeeps(s, i + 1, m, p + 1, n - 1);
    }
  }

  lemma {:induction false} SameByte(s: Text, i: nat, m: Text, p: nat, n: nat, k: nat)
    requires SameNumber(s, i, m, p, n) && k <= n
    ensures if k < n then At(s, i + k) == At(m, p + k) else IsDelimiter(At(s, i + k)) && IsDelimiter(At(m, p + k))
    ensures SameNumber(s, i + k, m, p + k, n - k)
    decreases k
  {
    if k > 0 {
      SameByte(s, i + 1, m, p + 1, n - 1, k - 1);
    }
  }

  lemma {:induction false} DigitsKeep(s: Text, i: nat, m: Text, p: nat, n: nat, acc: int)
    requires SameNumber(s, i, m, p, n)
    ensures var r := ReadDigits(s, i, acc);
            r.1 <= i + n && ReadDigits(m, p, acc) == (r.0, p + (r.1 - i))
    decreases n
  {
    hide SameNumber;
    SameByte(s, i, m, p, n, 0);
    if n > 0 {
      SameByte(s, i, m, p, n, 1);
      if IsDigit(At(s, i)) {
        DigitsKeep(s, i + 1, m, p + 1, n - 1, acc * 10 + (At(s, i) - 48));
      }
    }
  }

  lemma {:induction false} MantissaKeeps(s: Text, i: nat, m: Text, p: nat, n: nat, acc: real)
    requires SameNumber(s, i, m, p, n)
    ensures var r := ReadMantissa(DOUBLES, s, i, acc);
            r.1 <= i + n && ReadMantissa(DOUBLES, m, p, acc) == (r.0, p + (r.1 - i))
    decreases n
  {
    hide SameNumber;
    SameByte(s, i, m, p, n, 0);
    if n > 0 {
      SameByte(s, i, m, p, n, 1);
      if IsDigit(At(s, i)) {
        MantissaKeeps(s, i + 1, m, p + 1, n - 1, DOUBLES.step(acc, At(s, i) - 48));
      }
    }
  }

  lemma IntegerKeeps(s: Text, i: nat, m: Text, p: nat, n: nat)
    requires SameNumber(s, i, m, p, n)
    ensures var r := IntegerPart(DOUBLES, s, i);
            r.1 <= i + n && IntegerPart(DOUBLES, m, p) == (r.0, p + (r.1 - i))
  {
    hide SameNumber, ReadMantissa;
    SameByte(s, i, m, p, n, 0);
    MantissaKeeps(s, i, m, p, n, 0.0);
    if n > 0 {
      SameByte(s, i, m, p, n, 1);
      MantissaKeeps(s, i + 1, m, p + 1, n - 1, 0.0);
    }
  }

  lemma FractionKeeps(s: Text, i: nat, m: Text, p: nat, n: nat, acc: real)
    requires SameNumber(s, i, m, p, n)
    ensures var r := FractionPart(DOUBLES, s, i, acc);
            r.1 <= i + n && FractionPart(DOUBLES, m, p, acc) == (r.0, p + (r.1 - i))
  {
    hide SameNumber, ReadMantissa;
    SameByte(s, i, m, p, n, 0);
    if n > 0 {
      SameByte(s, i, m, p, n, 1);
      MantissaKeeps(s, i + 1, m, p + 1, n - 1, acc);
    }
  }

  lemma ExponentKeeps(s: Text, i: nat, m: Text, p: nat, n: nat)
    requires SameNumber(s, i, m, p, n)
    ensures var r := ExponentPart(s, i);
            r.1 <= i + n && ExponentPart(m, p) == (r.0, p + (r.1 - i))
  {
    hide SameNumber, ReadDigits;
    SameByte(s, i, m, p, n, 0);
    if n > 0 {
      SameByte(s, i, m, p, n, 1);
      DigitsKeep(s, i + 1, m, p + 1, n - 1, 0);
      if n > 1 {
        SameByte(s, i, m, p, n, 2);
        DigitsKeep(s, i + 2, m, p + 2, n - 2, 0);
      }
    }
  }

  /** `parse_number` depends only on the bytes up to the delimiter. */
  lemma NumberLocal(s: Text, i: nat, m: Text, p: nat, n: nat)
    requires SameNumber(s, i, m, p, n) && n > 0
    ensures var r := ParseNumber(s, i);
            r.1 <= i + n && ParseNumber(m, p) == (r.0, p + (r.1 - i))
  {
    hide SameNumber, IntegerPart, FractionPart, ExponentPart;
    SameByte(s, i, m, p, n, 0);
    var d := if At(s, i) == MINUS then 1 else 0;
    SameByte(s, i, m, p, n, d);
    IntegerKeeps(s, i + d, m, p + d, n - d);
    var w := IntegerPart(DOUBLES, s, i + d);
    SameByte(s, i, m, p, n, w.1 - i);
    FractionKeeps(s, w.1, m, p + (w.1 - i), n - (w.1 - i), w.0);
    var f := FractionPart(DOUBLES, s, w.1, w.0);
    SameByte(s, i, m, p, n, f.1 - i);
    ExponentKeeps(s, f.1, m, p + (f.1 - i), n - (f.1 - i));
  }

  /** The value at `i` ends at `n`, and what stands next, blanks aside, is a delimiter. */
  predicate Delimited(s: Text, n: nat) {
    IsDelimiter(At(s, Skip(s, n)))
  }

  lemma DelimiterKeeps(s: Text, n: nat, m: Text, q: nat)
    requires Follows(s, n, m, q) && Delimited(s, n)
    ensures IsDelimiter(At(s, n)) && IsDelimiter(At(m, q))
  {
    hide Follows;
    SkipKeeps(s, n, m, q);
  }

  lemma NumberKeeps(s: Text, i: nat, m: Text, p: nat)
    requires Follows(s, i, m, p) && (At(s, i) == MINUS || IsDigit(At(s, i))) && Delimited(s, ParseNumber(s, i).1)
    ensures var r, q := ParseNumber(s, i), p + (ParseNumber(s, i).1 - i);
            && At(m, p) == At(s, i) && ParseNumber(m, p) == (r.0, q) && Follows(s, r.1, m, q)
            && (Done(m, q) ==> Done(m, p))
  {
    hide Follows, Done, ParseNumber, Delimited;
    var n := ParseNumber(s, i).1 - i;
    NumberRun(s, i);
    StepCopied(s, i, m, p);
    RunKeeps(s, i, m, p, n);
    DelimiterKeeps(s, i + n, m, p + n);
    NumberLocal(s, i, m, p, n);
  }

  // ----- Literals ----------------------------------------------------------

  /** `n` bytes of `s` at `p` stand in `m` at `q`. */
  ghost predicate SameText(s: Text, p: nat, m: Text, q: nat, n: nat)
    decreases n
  {
    n > 0 ==> p < |s| && q < |m| && s[p] == m[q] && SameText(s, p + 1, m, q + 1, n - 1)
  }

  lemma {:induction false} SameTextDrop(s: Text, p: nat, m: Text, q: nat, n: nat, k: nat)
    requires SameText(s, p, m, q, n) && k <= n
    ensures SameText(s, p + k, m, q + k, n - k)
    ensures k < n ==> At(s, p + k) == At(m, q + k)
    decreases k
  {
    if k > 0 {
      SameTextDrop(s, p + 1, m, q + 1, n - 1, k - 1);
    }
  }

  lemma {:induction false} SameSlice(s: Text, p: nat, m: Text, q: nat, n: nat)
    requires p + n <= |s| && q + n <= |m| && s[p..p + n] == m[q..q + n]
    ensures SameText(s, p, m, q, n)
    decreases n
  {
    if n > 0 {
      assert s[p] == s[p..p + n][0] == m[q..q + n][0] == m[q];
      assert s[p + 1..p + n] == s[p..p + n][1..] == m[q..q + n][1..] == m[q + 1..q + n];
      SameSlice(s, p + 1, m, q + 1, n - 1);
    }
  }

  /** A literal that is read ends at a quote exactly when it is closed. */
  lemma {:induction false} EndsAtQuoteExactly(s: Text, p: nat)
    requires CompleteFrom(s, p)
    ensures At(s, LiteralEnd(s, p)) == QUOTE <==> ClosedLiteral(s, p)
    decreases |s| - p
  {
    if Stops(s, p) {
    } else if s[p] == BACKSLASH {
      CompleteStep(s, p);
      EndsAtQuoteExactly(s, p + 2);
    } else {
      EndsAtQuoteExactly(s, p + 1);
    }
  }

  /** `parse_string` does not ask for the closing quote: it reads every complete literal, and one that is
      not closed up to the end of the text. */
  lemma UnclosedIsRead(s: Text, i: nat)
    requires NulFree(s) && At(s, i) == QUOTE && CompleteFrom(s, i + 1)
    ensures ParseString(s, i).Ok?
    ensures ParseString(s, i).next == if ClosedLiteral(s, i + 1) then LiteralEnd(s, i + 1) + 1 else |s|
    ensures ClosedLiteral(s, i + 1) <==> LiteralEnd(s, i + 1) < |s|
  {
    EndsAtQuoteExactly(s, i + 1);
  }

  /** A quote and one letter are such a literal. */
  lemma UnclosedLiteral()
    ensures ParseString([QUOTE, 97], 0) == Ok([97], 2) && !ClosedLiteral([QUOTE, 97], 1)
  {
    var s := [QUOTE, 97];
    assert Unescape(s, 2) == [] && Unescape(s, 1) == [97];
  }

  lemma {:induction false} StopsAgree(s: Text, p: nat)
    requires CompleteFrom(s, p) && ClosedLiteral(s, p)
    ensures LiteralStop(s, p) == LiteralEnd(s, p) + 1 == AfterLiteral(s, p)
    decreases |s| - p
  {
    if s[p] == BACKSLASH {
      CompleteStep(s, p);
      StopsAgree(s, p + 2);
    } else if s[p] != QUOTE {
      StopsAgree(s, p + 1);
    }
  }

  /** After a `\u` escape the literal is still closed, and ends at the same place. */
  lemma ClosedJump(s: Text, p: nat)
    requires CompleteFrom(s, p) && ClosedLiteral(s, p) && At(s, p) == BACKSLASH && At(s, p + 1) == LOWER_U
    ensures CompleteFrom(s, p + 6) && ClosedLiteral(s, p + 6) && LiteralStop(s, p + 6) == LiteralStop(s, p)
  {
    assert InBody(s, p + 2, 4) && InBody(s, p + 3, 3) && InBody(s, p + 4, 2) && InBody(s, p + 5, 1);
    assert ClosedLiteral(s, p + 2) && ClosedLiteral(s, p + 3) && ClosedLiteral(s, p + 4);
    assert LiteralStop(s, p) == LiteralStop(s, p + 2) == LiteralStop(s, p + 3) == LiteralStop(s, p + 4);
    assert ClosedLiteral(s, p + 5) && ClosedLiteral(s, p + 6);
    assert LiteralStop(s, p + 4) == LiteralStop(s, p + 5) == LiteralStop(s, p + 6);
  }

  lemma HexLocal(s: Text, p: nat, m: Text, q: nat, n: nat)
    requires SameText(s, p, m, q, n) && n >= 4
    ensures Hex4(m, q) == Hex4(s, p)
  {
    hide SameText, HexValue;
    SameTextDrop(s, p, m, q, n, 0);
    SameTextDrop(s, p, m, q, n, 1);
    SameTextDrop(s, p, m, q, n, 2);
    SameTextDrop(s, p, m, q, n, 3);
  }

  /** What a `\u` escape stands for depends on its digits, and on those of the escape behind it. */
  lemma SameEscape(s: Text, p: nat, m: Text, q: nat)
    requires Hex4(m, q + 2) == Hex4(s, p + 2)
    requires var pair := At(s, p + 6) == BACKSLASH && At(s, p + 7) == LOWER_U;
             && (pair <==> At(m, q + 6) == BACKSLASH && At(m, q + 7) == LOWER_U)
             && (pair ==> Hex4(m, q + 8) == Hex4(s, p + 8))
    ensures UnicodeEscape(m, q) == (UnicodeEscape(s, p).0, q + (UnicodeEscape(s, p).1 - p))
  {
    hide Hex4;
  }

  lemma EscapeLocal(s: Text, p: nat, m: Text, q: nat, n: nat)
    requires SameText(s, p, m, q, n) && CompleteFrom(s, p) && ClosedLiteral(s, p)
    requires At(s, p) == BACKSLASH && At(s, p + 1) == LOWER_U && LiteralStop(s, p) == p + n
    ensures var k := UnicodeEscape(s, p).1 - p;
            && k < n && UnicodeEscape(m, q) == (UnicodeEscape(s, p).0, q + k)
            && CompleteFrom(s, p + k) && ClosedLiteral(s, p + k) && LiteralStop(s, p + k) == p + n
  {
    hide Hex4, SameText, CompleteFrom, UnicodeEscape;
    ClosedJump(s, p);
    var pair := At(s, p + 6) == BACKSLASH && At(s, p + 7) == LOWER_U;
    SameTextDrop(s, p, m, q, n, 2);
    SameTextDrop(s, p, m, q, n, 6);
    HexLocal(s, p + 2, m, q + 2, n - 2);
    if pair {
      ClosedJump(s, p + 6);
      SameTextDrop(s, p, m, q, n, 8);
      HexLocal(s, p + 8, m, q + 8, n - 8);
    }
    if At(s, p + 6) == BACKSLASH {
      SameTextDrop(s, p, m, q, n, 7);
    }
    SameEscape(s, p, m, q);
  }

  lemma InBodyLocal(s: Text, p: nat, m: Text, q: nat, n: nat, k: nat)
    requires SameText(s, p, m, q, n) && InBody(s, p, k) && k <= n
    ensures InBody(m, q, k)
    decreases k
  {
    if k > 0 {
      InBodyLocal(s, p + 1, m, q + 1, n - 1, k - 1);
    }
  }

  /** A closed literal is read in the same way wherever it stands. */
  lemma {:induction false} LiteralLocal(s: Text, p: nat, m: Text, q: nat, n: nat)
    requires CompleteFrom(s, p) && ClosedLiteral(s, p) && LiteralStop(s, p) == p + n && SameText(s, p, m, q, n)
    ensures CompleteFrom(m, q) && ClosedLiteral(m, q) && LiteralStop(m, q) == q + n
    ensures Unescape(m, q) == Unescape(s, p)
    decreases n
  {
    hide SameText;
    SameTextDrop(s, p, m, q, n, 0);
    if s[p] == QUOTE {
    } else if s[p] != BACKSLASH {
      SameTextDrop(s, p, m, q, n, 1);
      LiteralLocal(s, p + 1, m, q + 1, n - 1);
    } else {
      SameTextDrop(s, p, m, q, n, 1);
      CompleteStep(s, p);
      SameTextDrop(s, p, m, q, n, 2);
      if s[p + 1] != LOWER_U {
        LiteralLocal(s, p + 2, m, q + 2, n - 2);
      } else {
        UnicodeLocal(s, p, m, q, n);
      }
    }
  }

  lemma {:induction false} UnicodeLocal(s: Text, p: nat, m: Text, q: nat, n: nat)
    requires CompleteFrom(s, p) && ClosedLiteral(s, p) && LiteralStop(s, p) == p + n && SameText(s, p, m, q, n)
    requires At(s, p) == BACKSLASH && At(s, p + 1) == LOWER_U
    ensures CompleteFrom(m, q) && ClosedLiteral(m, q) && LiteralStop(m, q) == q + n
    ensures Unescape(m, q) == Unescape(s, p)
    decreases n, 0
  {
    hide SameText, Unescape, UnicodeEscape;
    CompleteStep(s, p);
    ClosedJump(s, p);
    EscapeLocal(s, p, m, q, n);
    var k := UnicodeEscape(s, p).1 - p;
    SameTextDrop(s, p, m, q, n, 0);
    SameTextDrop(s, p, m, q, n, 1);
    SameTextDrop(s, p, m, q, n, 2);
    SameTextDrop(s, p, m, q, n, 6);
    SameTextDrop(s, p, m, q, n, k);
    LiteralLocal(s, p + 2, m, q + 2, n - 2);
    LiteralLocal(s, p + 6, m, q + 6, n - 6);
    LiteralLocal(s, p + k, m, q + k, n - k);
    InBodyLocal(s, p + 2, m, q + 2, n - 2, 4);
    UnescapeUnicode(s, p);
    UnescapeUnicode(m, q);
  }

  lemma UnescapeUnicode(s: Text, p: nat)
    requires CompleteFrom(s, p) && At(s, p) == BACKSLASH && At(s, p + 1) == LOWER_U
    requires CompleteFrom(s, UnicodeEscape(s, p).1)
    ensures Unescape(s, p) == UnicodeEscape(s, p).0 + Unescape(s, UnicodeEscape(s, p).1)
  {
    hide UnicodeEscape;
  }

  lemma StringRead(s: Text, i: nat)
    requires At(s, i) == QUOTE
    ensures ParseString(s, i).Ok? <==> CompleteFrom(s, i + 1)
    ensures CompleteFrom(s, i + 1) ==> ParseString(s, i) == Ok(Unescape(s, i + 1), AfterLiteral(s, i + 1))
  {
  }

  lemma FollowsClosed(s: Text, i: nat, m: Text, p: nat)
    requires Follows(s, i, m, p) && At(s, i) == QUOTE
    ensures ClosedLiteral(s, i + 1)
  {
  }

  lemma DoneOverLiteral(m: Text, p: nat, n: nat)
    requires At(m, p) == QUOTE && ClosedLiteral(m, p + 1) && LiteralStop(m, p + 1) == p + n
    ensures Done(m, p + n) ==> Done(m, p)
  {
  }

  lemma LiteralKeeps(s: Text, i: nat, m: Text, p: nat)
    requires Follows(s, i, m, p) && At(s, i) == QUOTE && ParseString(s, i).Ok?
    ensures var r, q := ParseString(s, i), p + (ParseString(s, i).next - i);
            && At(m, p) == QUOTE && ParseString(m, p) == Ok(r.value, q) && Follows(s, r.next, m, q)
            && (Done(m, q) ==> Done(m, p))
  {
    StringRead(s, i);
    hide Follows, Done, SameText, CompleteFrom, ClosedLiteral, LiteralStop, AfterLiteral, Unescape, Minify, ParseString;
    var n := AfterLiteral(s, i + 1) - i;
    FollowsClosed(s, i, m, p);
    StopsAgree(s, i + 1);
    LiteralCopied(s, i, m, p, n);
    LiteralLocal(s, i + 1, m, p + 1, n - 1);
    StopsAgree(m, p + 1);
    StringRead(m, p);
    DoneOverLiteral(m, p, n);
  }

  lemma LiteralCopied(s: Text, i: nat, m: Text, p: nat, n: nat)
    requires Follows(s, i, m, p) && At(s, i) == QUOTE && i + n == LiteralStop(s, i + 1)
    ensures ClosedLiteral(s, i + 1) && n > 0 && At(m, p) == QUOTE && Follows(s, i + n, m, p + n)
    ensures SameText(s, i + 1, m, p + 1, n - 1)
  {
    SliceAt(m, p, s[i..i + n], Minify(s, i + n));
    SameSlice(s, i, m, p, n);
    assert SameText(s, i + 1, m, p + 1, n - 1);
  }

  // ----- Values ------------------------------------------------------------

  /** What parsing at `i` of `s` and at `p` of `m` have in common, when the former succeeds. */
  ghost predicate Kept<T>(s: Text, m: Text, p: nat, r: Parsed<T>, r': Parsed<T>) {
    && r.Ok? && r'.Ok? && r'.value == r.value && Follows(s, r.next, m, r'.next)
    && (Done(m, r'.next) ==> Done(m, p))
  }

  lemma {:induction false} ValueKeeps(s: Text, i: nat, m: Text, p: nat)
    requires Follows(s, i, m, p) && ParseValue(s, i).Ok? && Delimited(s, ParseValue(s, i).next)
    ensures Kept(s, m, p, ParseValue(s, i), ParseValue(m, p))
    decreases |s| - i, 2
  {
    hide Follows, Done, Delimited;
    FollowsInside(s, i, m, p);
    if StartsWith(s, i, NULL_WORD) {
      WordKeeps(s, i, NULL_WORD, m, p);
    } else if StartsWith(s, i, FALSE_WORD) {
      WordKeeps(s, i, FALSE_WORD, m, p);
      FirstOfWord(s, i, m, p, FALSE_WORD);
    } else if StartsWith(s, i, TRUE_WORD) {
      WordKeeps(s, i, TRUE_WORD, m, p);
      FirstOfWord(s, i, m, p, TRUE_WORD);
    } else {
      NonWordKeeps(s, i, m, p);
    }
  }

  lemma FirstOfWord(s: Text, i: nat, m: Text, p: nat, w: Text)
    requires StartsWith(m, p, w) && w in {FALSE_WORD, TRUE_WORD}
    ensures !StartsWith(m, p, NULL_WORD)
    ensures w == TRUE_WORD ==> !StartsWith(m, p, FALSE_WORD)
  {
    assert m[p] == m[p..p + |w|][0] == w[0];
    OtherWord(m, p, NULL_WORD, m, p);
    if w == TRUE_WORD {
      OtherWord(m, p, FALSE_WORD, m, p);
    }
  }

  lemma {:induction false} NonWordKeeps(s: Text, i: nat, m: Text, p: nat)
    requires Follows(s, i, m, p) && ParseValue(s, i).Ok? && Delimited(s, ParseValue(s, i).next)
    requires !StartsWith(s, i, NULL_WORD) && !StartsWith(s, i, FALSE_WORD) && !StartsWith(s, i, TRUE_WORD)
    ensures Kept(s, m, p, ParseValue(s, i), ParseValue(m, p))
    decreases |s| - i, 1
  {
    hide Follows, Done, Delimited, StartsWith;
    StepEnd(s, i, m, p);
    OtherWord(s, i, NULL_WORD, m, p);
    OtherWord(s, i, FALSE_WORD, m, p);
    OtherWord(s, i, TRUE_WORD, m, p);
    if At(s, i) == QUOTE {
      LiteralKeeps(s, i, m, p);
    } else if At(s, i) == MINUS || IsDigit(At(s, i)) {
      NumberKeeps(s, i, m, p);
    } else if At(s, i) == LBRACKET {
      ArrayKeeps(s, i, m, p);
    } else {
      ObjectKeeps(s, i, m, p);
    }
  }

  lemma {:induction false} ArrayKeeps(s: Text, i: nat, m: Text, p: nat)
    requires Follows(s, i, m, p) && At(s, i) == LBRACKET == At(m, p) && ParseArray(s, i).Ok?
    ensures Kept(s, m, p, ParseArray(s, i), ParseArray(m, p))
    decreases |s| - i, 0
  {
    hide Follows, Done, ParseItems;
    var k, k' := Skip(s, i + 1), Skip(m, p + 1);
    StepCopied(s, i, m, p);
    if At(s, k) == RBRACKET {
      SkipKeeps(s, i + 1, m, p + 1);
      StepCopied(s, k, m, k');
    } else {
      ItemsKeep(s, i + 1, m, p + 1);
    }
  }

  lemma {:induction false} ItemsKeep(s: Text, i: nat, m: Text, p: nat)
    requires Follows(s, i, m, p) && ParseItems(s, i).Ok?
    ensures Kept(s, m, p, ParseItems(s, i), ParseItems(m, p))
    ensures At(s, Skip(s, i)) == At(m, Skip(m, p))
    decreases |s| - i, 3
  {
    hide Follows, Done, ParseValue, Skip;
    ValueStart(s, Skip(s, i));
    SkipKeeps(s, i, m, p);
    var v, v' := ParseValue(s, Skip(s, i)), ParseValue(m, Skip(m, p));
    var k, k' := Skip(s, v.next), if v'.Ok? then Skip(m, v'.next) else 0;
    ValueKeeps(s, Skip(s, i), m, Skip(m, p));
    SkipKeeps(s, v.next, m, v'.next);
    StepCopied(s, k, m, k');
    if At(s, k) == COMMA {
      ItemsKeep(s, k + 1, m, k' + 1);
    }
  }

  /** A value does not start with a slash. */
  lemma ValueStart(s: Text, i: nat)
    requires ParseValue(s, i).Ok?
    ensures At(s, i) != SLASH && At(s, i) != 0 && At(s, i) != RBRACKET
  {
    if StartsWith(s, i, NULL_WORD) {
      assert s[i] == s[i..i + 4][0];
    } else if StartsWith(s, i, FALSE_WORD) {
      assert s[i] == s[i..i + 5][0];
    } else if StartsWith(s, i, TRUE_WORD) {
      assert s[i] == s[i..i + 4][0];
    }
  }

  lemma {:induction false} ObjectKeeps(s: Text, i: nat, m: Text, p: nat)
    requires Follows(s, i, m, p) && At(s, i) == LBRACE == At(m, p) && ParseObject(s, i).Ok?
    ensures Kept(s, m, p, ParseObject(s, i), ParseObject(m, p))
    decreases |s| - i, 0
  {
    hide Follows, Done, ParseMembers;
    var k, k' := Skip(s, i + 1), Skip(m, p + 1);
    StepCopied(s, i, m, p);
    if At(s, k) == RBRACE {
      SkipKeeps(s, i + 1, m, p + 1);
      StepCopied(s, k, m, k');
    } else {
      MembersKeep(s, i + 1, m, p + 1);
    }
  }

  lemma {:induction false} MemberKeeps(s: Text, i: nat, m: Text, p: nat)
    requires Follows(s, i, m, p) && ParseMember(s, i).Ok? && Delimited(s, ParseMember(s, i).next)
    ensures Kept(s, m, p, ParseMember(s, i), ParseMember(m, p))
    ensures At(s, Skip(s, i)) == At(m, Skip(m, p))
    decreases |s| - i, 3
  {
    hide Follows, Done, ParseValue, ParseString, Delimited;
    StringStart(s, Skip(s, i));
    SkipKeeps(s, i, m, p);
    LiteralKeeps(s, Skip(s, i), m, Skip(m, p));
    var n, n' := ParseString(s, Skip(s, i)), ParseString(m, Skip(m, p));
    var k, k' := Skip(s, n.next), Skip(m, n'.next);
    SkipKeeps(s, n.next, m, n'.next);
    StepCopied(s, k, m, k');
    ValueStart(s, Skip(s, k + 1));
    SkipKeeps(s, k + 1, m, k' + 1);
    ValueKeeps(s, Skip(s, k + 1), m, Skip(m, k' + 1));
  }

  lemma StringStart(s: Text, i: nat)
    requires ParseString(s, i).Ok?
    ensures At(s, i) == QUOTE
  {
  }

  lemma {:induction false} MembersKeep(s: Text, i: nat, m: Text, p: nat)
    requires Follows(s, i, m, p) && ParseMembers(s, i).Ok?
    ensures Kept(s, m, p, ParseMembers(s, i), ParseMembers(m, p))
    ensures At(s, Skip(s, i)) == At(m, Skip(m, p))
    decreases |s| - i, 4
  {
    hide Follows, Done, ParseMember, Skip;
    var v, v' := ParseMember(s, i), ParseMember(m, p);
    var k, k' := Skip(s, v.next), if v'.Ok? then Skip(m, v'.next) else 0;
    MemberKeeps(s, i, m, p);
    SkipKeeps(s, v.next, m, v'.next);
    StepCopied(s, k, m, k');
    if At(s, k) == COMMA {
      MembersKeep(s, k + 1, m, k' + 1);
    }
  }

  // ----- The main result ---------------------------------------------------

  /** If a text without unclosed literals or comments parses as one value, so does its minified
      form, to the same value; and minifying again changes nothing. */
  lemma MinifyKeepsMeaning(s: Text)
    requires NulFree(s) && Closed(s, 0) && ParseWithOpts(s, true).Ok?
    ensures var m := Minify(s, 0);
            && ParseWithOpts(m, true) == Ok(ParseWithOpts(s, true).value, |m|)
            && Closed(m, 0) && Minify(m, 0) == m
  {
    var m := Minify(s, 0);
    var i, p := Skip(s, 0), Skip(m, 0);
    assert Follows(s, 0, m, 0);
    ValueStart(s, i);
    SkipKeeps(s, 0, m, 0);
    var v := ParseValue(s, i);
    assert Delimited(s, v.next);
    ValueKeeps(s, i, m, p);
    var v' := ParseValue(m, p);
    SkipKeeps(s, v.next, m, v'.next);
    StepEnd(s, Skip(s, v.next), m, Skip(m, v'.next));
    MinifiedIsNulFree(s, 0);
    MinifyFixedPoint(m);
  }

  lemma {:induction false} MinifiedIsNulFree(s: Text, i: nat)
    requires NulFree(s) && Closed(s, i)
    ensures NulFree(Minify(s, i))
    decreases |s| - i
  {
    if At(s, i) == 0 {
    } else if IsSpace(s[i]) {
      MinifiedIsNulFree(s, i + 1);
    } else if LineComment(s, i) {
      MinifiedIsNulFree(s, LineEnd(s, i));
    } else if BlockComment(s, i) {
      MinifiedIsNulFree(s, BlockEnd(s, i) + 2);
    } else if s[i] == QUOTE {
      MinifiedIsNulFree(s, LiteralStop(s, i + 1));
    } else {
      MinifiedIsNulFree(s, i + 1);
    }
  }
}
