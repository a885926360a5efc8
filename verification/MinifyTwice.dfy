/** Minifying twice: when the second pass has nothing to do. */
module MinifyTwice {
  import opened Bytes
  import opened Minifier
  import opened MinifyParse

  /** The first byte that is kept from position `i` on, or 0. */
  function NextKept(s: Text, i: nat): byte
    requires Closed(s, i)
    decreases |s| - i
  {
    if At(s, i) == 0 then 0
    else if IsSpace(s[i]) then NextKept(s, i + 1)
    else if LineComment(s, i) then NextKept(s, LineEnd(s, i))
    else if BlockComment(s, i) then NextKept(s, BlockEnd(s, i) + 2)
    else s[i]
  }

  /** Outside literals and comments, a slash is never followed by a slash or a star once what lies
      between them is removed. */
  predicate SlashesApart(s: Text, i: nat)
    requires Closed(s, i)
    decreases |s| - i
  {
    if At(s, i) == 0 then true
    else if IsSpace(s[i]) then SlashesApart(s, i + 1)
    else if LineComment(s, i) then SlashesApart(s, LineEnd(s, i))
    else if BlockComment(s, i) then SlashesApart(s, BlockEnd(s, i) + 2)
    else if s[i] == QUOTE then SlashesApart(s, LiteralStop(s, i + 1))
    else (s[i] == SLASH ==> NextKept(s, i + 1) !in {SLASH, STAR}) && SlashesApart(s, i + 1)
  }

  lemma {:induction false} FirstKept(s: Text, i: nat)
    requires NulFree(s) && Closed(s, i)
    ensures At(Minify(s, i), 0) == NextKept(s, i)
    decreases |s| - i
  {
    if At(s, i) != 0 {
      if IsSpace(s[i]) {
        FirstKept(s, i + 1);
      } else if LineComment(s, i) {
        FirstKept(s, LineEnd(s, i));
      } else if BlockComment(s, i) {
        FirstKept(s, BlockEnd(s, i) + 2);
      }
    }
  }

  /** A literal that was copied ends where it did. */
  lemma {:induction false} LiteralMoved(s: Text, p: nat, m: Text, q: nat, n: nat)
    requires ClosedLiteral(s, p) && LiteralStop(s, p) == p + n && SameText(s, p, m, q, n)
    ensures ClosedLiteral(m, q) && LiteralStop(m, q) == q + n
    decreases n
  {
    hide SameText;
    SameTextDrop(s, p, m, q, n, 0);
    if s[p] != QUOTE {
      SameTextDrop(s, p, m, q, n, 1);
      if s[p] == BACKSLASH {
        SameTextDrop(s, p, m, q, n, 2);
        LiteralMoved(s, p + 2, m, q + 2, n - 2);
      } else {
        LiteralMoved(s, p + 1, m, q + 1, n - 1);
      }
    }
  }

  lemma LiteralDone(s: Text, i: nat, m: Text, p: nat, n: nat)
    requires Follows(s, i, m, p) && At(s, i) == QUOTE && i + n == LiteralStop(s, i + 1)
    ensures Follows(s, i + n, m, p + n) && (Done(m, p) <==> Done(m, p + n))
  {
    LiteralCopied(s, i, m, p, n);
    hide Follows, SameText;
    LiteralMoved(s, i + 1, m, p + 1, n - 1);
  }

  /** One byte outside literals and comments. */
  lemma ByteDone(s: Text, i: nat, m: Text, p: nat)
    requires Follows(s, i, m, p) && At(s, i) != 0 && !IsSpace(s[i]) && s[i] != QUOTE
    requires !LineComment(s, i) && !BlockComment(s, i)
    ensures Follows(s, i + 1, m, p + 1)
    ensures Done(m, p) <==> (s[i] == SLASH ==> NextKept(s, i + 1) !in {SLASH, STAR}) && Done(m, p + 1)
  {
    FirstKept(s, i + 1);
    SliceAt(m, p, [s[i]], Minify(s, i + 1));
    assert m[p] == m[p..p + 1][0];
    assert At(m, p + 1) == At(m[p + 1..], 0);
  }

  lemma {:induction false} DoneExactly(s: Text, i: nat, m: Text, p: nat)
    requires Follows(s, i, m, p)
    ensures Done(m, p) <==> SlashesApart(s, i)
    decreases |s| - i
  {
    if At(s, i) == 0 {
      assert p == |m|;
    } else if IsSpace(s[i]) {
      DoneExactly(s, i + 1, m, p);
    } else if LineComment(s, i) {
      DoneExactly(s, LineEnd(s, i), m, p);
    } else if BlockComment(s, i) {
      DoneExactly(s, BlockEnd(s, i) + 2, m, p);
    } else if s[i] == QUOTE {
      var n := LiteralStop(s, i + 1) - i;
      LiteralDone(s, i, m, p, n);
      DoneExactly(s, i + n, m, p + n);
    } else {
      ByteDone(s, i, m, p);
      DoneExactly(s, i + 1, m, p + 1);
    }
  }

  /** The result of minifying is closed again and is not changed by a second pass exactly when removing
      blanks and comments brings no slash in front of a slash or a star. */
  lemma SecondPassExactly(s: Text)
    requires NulFree(s) && Closed(s, 0)
    ensures var m := Minify(s, 0);
            Closed(m, 0) && Minify(m, 0) == m <==> SlashesApart(s, 0)
  {
    var m := Minify(s, 0);
    MinifiedIsNulFree(s, 0);
    DoneExactly(s, 0, m, 0);
    if Closed(m, 0) {
      MinifyFixedPoint(m);
    }
  }

  /** Removing a blank can leave two slashes side by side: then the second pass removes them. */
  lemma SecondPassCanMatter() returns (s: Text)
    ensures NulFree(s) && Closed(s, 0) && Closed(Minify(s, 0), 0)
    ensures Minify(Minify(s, 0), 0) != Minify(s, 0)
  {
    s := [SLASH, SPACE, SLASH];
    assert Closed(s, 3) && Minify(s, 3) == [];
    assert Closed(s, 2) && Minify(s, 2) == [SLASH];
    assert Closed(s, 1) && Minify(s, 1) == [SLASH];
    assert Closed(s, 0) && Minify(s, 0) == [SLASH, SLASH];
    var m := [SLASH, SLASH];
    assert LineEnd(m, 2) == 2 && LineEnd(m, 1) == 2 && LineEnd(m, 0) == 2;
    assert Closed(m, 2) && Closed(m, 0) && Minify(m, 0) == Minify(m, 2) == [];
  }

  /** It can also leave the start of a comment that never ends: then the second pass runs past the
      end of the text. */
  lemma SecondPassCanOverrun() returns (s: Text)
    ensures NulFree(s) && Closed(s, 0) && !Closed(Minify(s, 0), 0)
  {
    s := [SLASH, SPACE, STAR];
    assert Closed(s, 3) && Minify(s, 3) == [];
    assert Closed(s, 2) && Minify(s, 2) == [STAR];
    assert Closed(s, 1) && Minify(s, 1) == [STAR];
    assert Closed(s, 0) && Minify(s, 0) == [SLASH, STAR];
    var m := [SLASH, STAR];
    assert BlockEnd(m, 2) == 2 && BlockEnd(m, 1) == 2 && BlockEnd(m, 0) == 2;
  }
}
