/** Bytes, C strings and the character classes that cJSON tests for. */
module Bytes {
  type byte = b: int | 0 <= b < 256

  /** The contents of a C string, that is, the bytes before its terminating NUL. */
  type Text = seq<byte>

  const TAB: byte := 9
  const LF: byte := 10
  const CR: byte := 13
  const SPACE: byte := 32
  const QUOTE: byte := 34
  const STAR: byte := 42
  const PLUS: byte := 43
  const COMMA: byte := 44
  const MINUS: byte := 45
  const DOT: byte := 46
  const SLASH: byte := 47
  const COLON: byte := 58
  const LBRACKET: byte := 91
  const BACKSLASH: byte := 92
  const RBRACKET: byte := 93
  const LOWER_U: byte := 117
  const LBRACE: byte := 123
  const RBRACE: byte := 125

  const NULL_WORD: Text := [110, 117, 108, 108]
  const FALSE_WORD: Text := [102, 97, 108, 115, 101]
  const TRUE_WORD: Text := [116, 114, 117, 101]

  /** The bytes of a C string literal. */
  function Ascii(t: string): Text {
    seq(|t|, i requires 0 <= i < |t| => t[i] as int % 256)
  }

  /** The characters that the constants stand for. */
  lemma Characters()
    ensures [TAB, LF, CR, SPACE, QUOTE, STAR, PLUS, COMMA, MINUS, DOT, SLASH, COLON] == Ascii("\t\n\r \"*+,-./:")
    ensures [LBRACKET, BACKSLASH, RBRACKET, LOWER_U, LBRACE, RBRACE] == Ascii("[\\]u{}")
    ensures NULL_WORD == Ascii("null") && FALSE_WORD == Ascii("false") && TRUE_WORD == Ascii("true")
  {
  }

  ghost predicate NulFree(s: Text) {
    forall i :: 0 <= i < |s| ==> s[i] != 0
  }

  /** What `s[i]` reads in C: the terminating NUL stands at index `|s|`. */
  function At(s: Text, i: nat): byte {
    if i < |s| then s[i] else 0
  }

  predicate IsDigit(b: byte) {
    48 <= b <= 57
  }

  /** The loop of `skip`: the first position at or after `i` that is not blank. */
  function Skip(s: Text, i: nat): (k: nat)
    ensures i <= k
    ensures i <= |s| ==> k <= |s|
    ensures At(s, k) == 0 || At(s, k) > 32
    decreases |s| - i
  {
    if 0 < At(s, i) <= 32 then Skip(s, i + 1) else i
  }

  /** Every control character is skipped like a space, and nothing else. */
  lemma {:induction false} SkipIs(s: Text, i: nat, k: nat)
    requires i <= k && (forall j :: i <= j < k ==> 0 < At(s, j) <= 32) && !(0 < At(s, k) <= 32)
    ensures Skip(s, i) == k
    decreases k - i
  {
    if i < k {
      SkipIs(s, i + 1, k);
    }
  }

  /** `strncmp(s + i, w, |w|) == 0` for a NUL-free `w`. */
  predicate StartsWith(s: Text, i: nat, w: Text) {
    i + |w| <= |s| && s[i..i + |w|] == w
  }

  /** Text `p` stands in `s` at index `i`. */
  ghost predicate Occurs(p: Text, s: Text, i: nat) {
    i + |p| <= |s| && forall k :: i <= k < i + |p| ==> s[k] == p[k - i]
  }

  lemma OccursSplit(a: Text, b: Text, s: Text, i: nat)
    requires Occurs(a + b, s, i)
    ensures Occurs(a, s, i) && Occurs(b, s, i + |a|)
  {
    forall k | i <= k < i + |a| ensures s[k] == a[k - i] {
      assert (a + b)[k - i] == a[k - i];
    }
    forall k | i + |a| <= k < i + |a| + |b| ensures s[k] == b[k - i - |a|] {
      assert (a + b)[k - i] == b[k - i - |a|];
    }
  }

  lemma OccursWhole(s: Text)
    ensures Occurs(s, s, 0)
  {
  }

  lemma Assoc(a: Text, b: Text, c: Text)
    ensures a + (b + c) == a + b + c
  {
  }

  lemma NulFreeJoin(a: Text, b: Text)
    requires NulFree(a) && NulFree(b)
    ensures NulFree(a + b)
  {
  }
}
