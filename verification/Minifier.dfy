/** `cJSON_Minify`: what it computes, and the loop that computes it in place. */
module Minifier {
  import opened Bytes

  predicate IsSpace(b: byte) {
    b == SPACE || b == TAB || b == CR || b == LF
  }

  /** A byte that is copied on its own, wherever it stands outside a literal. */
  predicate IsPlain(b: byte) {
    b != 0 && !IsSpace(b) && b != SLASH && b != QUOTE
  }

  /** The literal whose body starts at `p` has a closing quote. */
  predicate ClosedLiteral(s: Text, p: nat)
    decreases |s| - p
  {
    At(s, p) != 0 &&
    (At(s, p) == QUOTE ||
     if s[p] == BACKSLASH then At(s, p + 1) != 0 && ClosedLiteral(s, p + 2) else ClosedLiteral(s, p + 1))
  }

  /** Just after the closing quote. */
  function LiteralStop(s: Text, p: nat): (k: nat)
    requires ClosedLiteral(s, p)
    ensures p < k <= |s|
    decreases |s| - p
  {
    if s[p] == QUOTE then p + 1
    else if s[p] == BACKSLASH then LiteralStop(s, p + 2)
    else LiteralStop(s, p + 1)
  }

  /** The newline that ends a double-slash comment, or the NUL. */
  function LineEnd(s: Text, i: nat): (k: nat)
    ensures i <= k && (i <= |s| ==> k <= |s|)
    ensures At(s, k) == 0 || At(s, k) == LF
    ensures At(s, i) == SLASH ==> i < k
    decreases |s| - i
  {
    if At(s, i) == 0 || At(s, i) == LF then i else LineEnd(s, i + 1)
  }

  /** The star of the star-slash at or after `i`, or the NUL. */
  function BlockEnd(s: Text, i: nat): (k: nat)
    ensures i <= k && (i <= |s| ==> k <= |s|)
    ensures At(s, k) == 0 || k + 2 <= |s|
    decreases |s| - i
  {
    if At(s, i) == 0 || (At(s, i) == STAR && At(s, i + 1) == SLASH) then i else BlockEnd(s, i + 1)
  }

  predicate LineComment(s: Text, i: nat) {
    At(s, i) == SLASH && At(s, i + 1) == SLASH
  }

  predicate BlockComment(s: Text, i: nat) {
    At(s, i) == SLASH && At(s, i + 1) == STAR
  }

  /** From position `i`, outside a literal, every literal and every block comment is closed. This is
      what the source demands: its cursor otherwise runs past the NUL. */
  predicate Closed(s: Text, i: nat)
    decreases |s| - i
  {
    if At(s, i) == 0 then true
    else if LineComment(s, i) then Closed(s, LineEnd(s, i))
    else if BlockComment(s, i) then At(s, BlockEnd(s, i)) != 0 && Closed(s, BlockEnd(s, i) + 2)
    else if s[i] == QUOTE then ClosedLiteral(s, i + 1) && Closed(s, LiteralStop(s, i + 1))
    else Closed(s, i + 1)
  }

  /** What is written for the text from position `i` on. */
  function Minify(s: Text, i: nat): Text
    requires Closed(s, i)
    decreases |s| - i
  {
    if At(s, i) == 0 then []
    else if IsSpace(s[i]) then Minify(s, i + 1)
    else if LineComment(s, i) then Minify(s, LineEnd(s, i))
    else if BlockComment(s, i) then Minify(s, BlockEnd(s, i) + 2)
    else if s[i] == QUOTE then s[i..LiteralStop(s, i + 1)] + Minify(s, LiteralStop(s, i + 1))
    else [s[i]] + Minify(s, i + 1)
  }

  /** From `i` on there is nothing to remove: no space and no comment outside the literals. */
  predicate Tight(s: Text, i: nat)
    requires Closed(s, i)
    decreases |s| - i
  {
    if At(s, i) == 0 then true
    else if IsSpace(s[i]) || LineComment(s, i) || BlockComment(s, i) then false
    else if s[i] == QUOTE then Tight(s, LiteralStop(s, i + 1))
    else Tight(s, i + 1)
  }

  lemma {:induction false} MinifyShrinks(s: Text, i: nat)
    requires NulFree(s) && i <= |s| && Closed(s, i)
    ensures Tight(s, i) ==> Minify(s, i) == s[i..]
    ensures !Tight(s, i) ==> |Minify(s, i)| < |s| - i
    decreases |s| - i
  {
    if i < |s| {
      assert s[i] != 0;
      if IsSpace(s[i]) {
        MinifyShrinks(s, i + 1);
      } else if LineComment(s, i) {
        MinifyShrinks(s, LineEnd(s, i));
      } else if BlockComment(s, i) {
        MinifyShrinks(s, BlockEnd(s, i) + 2);
      } else if s[i] == QUOTE {
        MinifyShrinks(s, LiteralStop(s, i + 1));
        Join(s, i, LiteralStop(s, i + 1), |s|);
      } else {
        MinifyShrinks(s, i + 1);
      }
    }
  }

  lemma Snoc(s: Text, i: nat, j: nat)
    requires i <= j < |s|
    ensures s[i..j + 1] == s[i..j] + [s[j]]
  {
  }

  lemma Join(s: Text, i: nat, j: nat, k: nat)
    requires i <= j <= k <= |s|
    ensures s[i..j] + s[j..k] == s[i..k]
  {
  }

  /** The text never grows, and it stays as it is exactly when there is nothing to remove. */
  lemma MinifyFixedPoint(s: Text)
    requires NulFree(s) && Closed(s, 0)
    ensures |Minify(s, 0)| <= |s|
    ensures Minify(s, 0) == s <==> Tight(s, 0)
  {
    MinifyShrinks(s, 0);
  }

  // ----- What is removed, piece by piece -----------------------------------

  /** A line comment goes up to the next line break, which is blank. */
  lemma {:induction false} LineEndIs(s: Text, i: nat, k: nat)
    requires i <= k <= |s| && (k == |s| || s[k] == LF) && forall j :: i <= j < k ==> s[j] != LF && s[j] != 0
    ensures LineEnd(s, i) == k
    decreases k - i
  {
    if i < k {
      LineEndIs(s, i + 1, k);
    }
  }

  /** A block comment goes up to the first star-slash behind its slash. */
  lemma {:induction false} BlockEndIs(s: Text, i: nat, k: nat)
    requires i <= k && k + 2 <= |s| && s[k] == STAR && s[k + 1] == SLASH
    requires forall j :: i <= j < k ==> s[j] != 0 && !(s[j] == STAR && s[j + 1] == SLASH)
    ensures BlockEnd(s, i) == k
    decreases k - i
  {
    if i < k {
      BlockEndIs(s, i + 1, k);
    }
  }

  lemma LineCommentGoes(s: Text, i: nat, k: nat)
    requires NulFree(s) && i + 2 <= k <= |s| && s[i..i + 2] == Ascii("//")
    requires (k == |s| || s[k] == LF) && forall j :: i + 2 <= j < k ==> s[j] != LF
    ensures Closed(s, i) <==> Closed(s, k)
    ensures Closed(s, k) ==> Minify(s, i) == Minify(s, k)
    ensures k < |s| ==> (Closed(s, i) <==> Closed(s, k + 1)) && (Closed(s, i) ==> Minify(s, i) == Minify(s, k + 1))
    ensures k == |s| ==> Closed(s, i) && Minify(s, i) == []
  {
    assert s[i] == s[i..i + 2][0] && s[i + 1] == s[i..i + 2][1];
    LineEndIs(s, i, k);
  }

  lemma BlockCommentGoes(s: Text, i: nat, k: nat)
    requires NulFree(s) && i < k && k + 2 <= |s| && s[i..i + 2] == Ascii("/*") && s[k..k + 2] == Ascii("*/")
    requires forall j :: i < j < k ==> !(s[j] as char == '*' && s[j + 1] as char == '/')
    ensures Closed(s, i) <==> Closed(s, k + 2)
    ensures Closed(s, i) ==> Minify(s, i) == Minify(s, k + 2)
  {
    TwoBytes(s, i);
    TwoBytes(s, k);
    BlockEndIs(s, i, k);
  }

  lemma TwoBytes(s: Text, i: nat)
    requires i + 2 <= |s|
    ensures s[i..i + 2] == [s[i], s[i + 1]]
    ensures Ascii("/*") == [SLASH, STAR] && Ascii("*/") == [STAR, SLASH]
  {
  }

  /** The pieces of a text: blanks, comments, literals, and everything else byte by byte. A block comment
      starts with a slash in front of a star, which may already be the one that ends it. */
  datatype Piece =
    | Space(b: byte)
    | Line(comment: Text)
    | Block(comment: Text)
    | Literal(body: Text)
    | Other(b: byte)

  function PieceText(p: Piece): (r: Text)
    ensures |r| > 0
  {
    match p
    case Space(b) => [b]
    case Line(c) => Ascii("//") + c
    case Block(c) => Ascii("/") + c + Ascii("*/")
    case Literal(t) => Ascii("\"") + t + Ascii("\"")
    case Other(b) => [b]
  }

  function TextOf(ps: seq<Piece>): Text {
    if ps == [] then [] else PieceText(ps[0]) + TextOf(ps[1..])
  }

  /** What is kept: the literals and the other bytes. */
  function Kept(ps: seq<Piece>): Text {
    if ps == [] then []
    else (if ps[0].Literal? || ps[0].Other? then PieceText(ps[0]) else []) + Kept(ps[1..])
  }

  /** The body of a literal: a backslash takes the next byte along, and a quote needs one in front. */
  ghost predicate IsBody(t: Text) {
    t != [] ==>
      && t[0] as char != '\"'
      && if t[0] as char == '\\' then |t| > 1 && IsBody(t[2..]) else IsBody(t[1..])
  }

  /** A piece is what it looks like when `rest` follows it. */
  ghost predicate IsPiece(p: Piece, rest: Text) {
    match p
    case Space(b) => b as char in {' ', '\t', '\r', '\n'}
    case Line(c) => (forall k :: 0 <= k < |c| ==> c[k] as char != '\n') && (rest != [] ==> rest[0] as char == '\n')
    case Block(c) =>
      && (c != [] ==> c[0] as char == '*')
      && forall k :: 0 < k < |c| && c[k] as char == '/' ==> c[k - 1] as char != '*'
    case Literal(t) => IsBody(t)
    case Other(b) =>
      && b as char !in {' ', '\t', '\r', '\n', '\"'}
      && (b as char == '/' && rest != [] ==> rest[0] as char !in {'/', '*'})
  }

  ghost predicate ArePieces(ps: seq<Piece>) {
    ps != [] ==> IsPiece(ps[0], TextOf(ps[1..])) && ArePieces(ps[1..])
  }

  /** Any text that is put together from pieces loses its blanks and its comments, and nothing else. */
  lemma MinifyPieces(ps: seq<Piece>)
    requires ArePieces(ps) && NulFree(TextOf(ps))
    ensures Closed(TextOf(ps), 0) && Minify(TextOf(ps), 0) == Kept(ps)
  {
    MinifyPiecesFrom(ps, TextOf(ps), 0);
  }

  lemma {:induction false} MinifyPiecesFrom(ps: seq<Piece>, s: Text, i: nat)
    requires ArePieces(ps) && NulFree(s) && i <= |s| && s[i..] == TextOf(ps)
    ensures Closed(s, i) && Minify(s, i) == Kept(ps)
    decreases |ps|
  {
    hide IsPiece, NulFree, PieceText, Closed, Minify;
    if ps == [] {
      NothingToMinify([], s, i);
      assert [] + Minify(s, i) == Minify(s, i);
    } else {
      var p := PieceText(ps[0]);
      FirstPiece(s, i, p, TextOf(ps[1..]));
      MinifyPiecesFrom(ps[1..], s, i + |p|);
      hide TextOf;
      PieceGoes(ps[0], s, i);
    }
  }

  lemma FirstPiece(s: Text, i: nat, p: Text, rest: Text)
    requires i <= |s| && s[i..] == p + rest
    ensures i + |p| <= |s| && Occurs(p, s, i) && s[i + |p|..] == rest
  {
    forall k | i <= k < i + |p| ensures s[k] == p[k - i] {
      assert s[k] == s[i..][k - i] == (p + rest)[k - i];
    }
    assert s[i + |p|..] == s[i..][|p|..];
  }

  lemma PieceLength(p: Piece)
    ensures |PieceText(p)| == match p
                              case Space(_) => 1
                              case Line(c) => 2 + |c|
                              case Block(c) => 3 + |c|
                              case Literal(t) => 2 + |t|
                              case Other(_) => 1
  {
  }

  lemma PieceGoes(p: Piece, s: Text, i: nat)
    requires NulFree(s) && Occurs(PieceText(p), s, i)
    requires IsPiece(p, s[i + |PieceText(p)|..]) && Closed(s, i + |PieceText(p)|)
    ensures Closed(s, i)
    ensures Minify(s, i) == (if p.Literal? || p.Other? then PieceText(p) else []) + Minify(s, i + |PieceText(p)|)
  {
    var rest := s[i + |PieceText(p)|..];
    hide NulFree, Occurs, IsPiece, Closed, Minify, Ascii;
    PieceLength(p);
    match p
    case Space(b) => SpaceGoes(b, rest, s, i);
    case Line(c) => LineGoes(c, s, i);
    case Block(c) => BlockGoes(c, rest, s, i);
    case Literal(t) => LiteralStays(t, rest, s, i);
    case Other(b) => OtherStays(b, s, i);
  }

  lemma SpaceGoes(b: byte, rest: Text, s: Text, i: nat)
    requires IsPiece(Space(b), rest) && Occurs([b], s, i) && Closed(s, i + 1)
    ensures Closed(s, i) && Minify(s, i) == [] + Minify(s, i + 1)
  {
    assert s[i] == [b][0];
    assert [] + Minify(s, i + 1) == Minify(s, i + 1);
  }

  lemma OtherStays(b: byte, s: Text, i: nat)
    requires NulFree(s) && Occurs([b], s, i) && IsPiece(Other(b), s[i + 1..]) && Closed(s, i + 1)
    ensures Closed(s, i) && Minify(s, i) == [b] + Minify(s, i + 1)
  {
    assert s[i] == [b][0];
    assert i + 1 < |s| ==> s[i + 1] == s[i + 1..][0];
  }

  lemma LineGoes(c: Text, s: Text, i: nat)
    requires NulFree(s) && Occurs(Ascii("//") + c, s, i) && IsPiece(Line(c), s[i + 2 + |c|..])
    requires Closed(s, i + 2 + |c|)
    ensures Closed(s, i) && Minify(s, i) == [] + Minify(s, i + 2 + |c|)
  {
    var k := i + 2 + |c|;
    OccursSplit(Ascii("//"), c, s, i);
    assert s[i..i + 2] == Ascii("//");
    assert k < |s| ==> s[k] == s[k..][0];
    LineCommentGoes(s, i, k);
    assert [] + Minify(s, k) == Minify(s, k);
  }

  lemma BlockGoes(c: Text, rest: Text, s: Text, i: nat)
    requires NulFree(s) && Occurs(Ascii("/") + c + Ascii("*/"), s, i) && IsPiece(Block(c), rest)
    requires Closed(s, i + 3 + |c|)
    ensures Closed(s, i) && Minify(s, i) == [] + Minify(s, i + 3 + |c|)
  {
    var k := i + 1 + |c|;
    OccursSplit(Ascii("/") + c, Ascii("*/"), s, i);
    OccursSplit(Ascii("/"), c, s, i);
    assert s[i] == Ascii("/")[0] == SLASH && s[k..k + 2] == Ascii("*/");
    TwoBytes(s, i);
    TwoBytes(s, k);
    assert s[i + 1] == STAR by {
      if c != [] {
        assert s[i + 1] == c[0];
      }
    }
    hide Closed, Minify;
    forall j | i < j < k ensures !(s[j] as char == '*' && s[j + 1] as char == '/') {
      assert s[j] == c[j - i - 1];
      if j + 1 < k {
        assert s[j + 1] == c[j + 1 - i - 1];
      }
    }
    BlockCommentGoes(s, i, k);
    assert [] + Minify(s, k + 2) == Minify(s, k + 2);
  }

  lemma {:induction false} BodyIsClosed(t: Text, s: Text, p: nat)
    requires NulFree(s) && IsBody(t) && Occurs(t + Ascii("\""), s, p)
    ensures ClosedLiteral(s, p) && LiteralStop(s, p) == p + |t| + 1
    decreases |t|
  {
    OccursSplit(t, Ascii("\""), s, p);
    assert s[p + |t|] == Ascii("\"")[0] == QUOTE;
    if t != [] {
      assert s[p] == t[0] != 0;
      var n := if t[0] == BACKSLASH then 2 else 1;
      if n == 2 {
        assert s[p + 1] == t[1] != 0;
      }
      OccursSplit(t[..n], t[n..] + Ascii("\""), s, p) by {
        assert t + Ascii("\"") == t[..n] + (t[n..] + Ascii("\""));
      }
      BodyIsClosed(t[n..], s, p + n);
    }
  }

  lemma LiteralStays(t: Text, rest: Text, s: Text, i: nat)
    requires NulFree(s) && IsPiece(Literal(t), rest) && Occurs(Ascii("\"") + t + Ascii("\""), s, i)
    requires Closed(s, i + 2 + |t|)
    ensures Closed(s, i)
    ensures Minify(s, i) == Ascii("\"") + t + Ascii("\"") + Minify(s, i + 2 + |t|)
  {
    var q, l := Ascii("\""), Ascii("\"") + t + Ascii("\"");
    assert l == q + (t + q);
    OccursSplit(q, t + q, s, i);
    assert s[i] == q[0] == QUOTE;
    BodyIsClosed(t, s, i + 1);
    assert s[i..i + |l|] == l;
  }

  lemma {:induction false} WithinLine(s: Text, i: nat)
    requires i <= |s|
    ensures forall j :: i <= j < LineEnd(s, i) ==> s[j] != LF
    decreases |s| - i
  {
    if At(s, i) != 0 && s[i] != LF {
      WithinLine(s, i + 1);
    }
  }

  lemma {:induction false} WithinBlock(s: Text, i: nat)
    requires i <= |s| && At(s, BlockEnd(s, i)) != 0
    ensures var k := BlockEnd(s, i);
            && k + 2 <= |s| && s[k] == STAR && s[k + 1] == SLASH
            && forall j :: i <= j < k ==> !(s[j] == STAR && s[j + 1] == SLASH)
    decreases |s| - i
  {
    if At(s, i) != 0 && !(s[i] == STAR && At(s, i + 1) == SLASH) {
      WithinBlock(s, i + 1);
    }
  }

  lemma {:induction false} ClosedHasBody(s: Text, p: nat)
    requires NulFree(s) && ClosedLiteral(s, p)
    ensures var k := LiteralStop(s, p); IsBody(s[p..k - 1]) && s[k - 1] == QUOTE
    decreases |s| - p
  {
    var k := LiteralStop(s, p);
    var t := s[p..k - 1];
    if s[p] != QUOTE {
      var n := if s[p] == BACKSLASH then 2 else 1;
      ClosedHasBody(s, p + n);
      assert t[0] == s[p] && t[n..] == s[p + n..k - 1];
    }
  }

  /** The piece at position `i`, and where it ends. */
  lemma PieceAt(s: Text, i: nat) returns (p: Piece, k: nat)
    requires NulFree(s) && i < |s| && Closed(s, i)
    ensures i < k <= |s| && Closed(s, k) && s[i..k] == PieceText(p) && IsPiece(p, s[k..])
  {
    MinifyStep(s, i);
    if IsSpace(s[i]) {
      p, k := Space(s[i]), i + 1;
    } else if LineComment(s, i) {
      p, k := LineAt(s, i);
    } else if BlockComment(s, i) {
      p, k := BlockAt(s, i);
    } else if s[i] == QUOTE {
      p, k := LiteralAt(s, i);
    } else {
      p, k := Other(s[i]), i + 1;
      assert k < |s| ==> s[k..][0] == s[k];
    }
  }

  lemma LineAt(s: Text, i: nat) returns (p: Piece, k: nat)
    requires NulFree(s) && i < |s| && LineComment(s, i)
    ensures i < k <= |s| && k == LineEnd(s, i) && s[i..k] == PieceText(p) && IsPiece(p, s[k..])
  {
    k := LineEnd(s, i);
    WithinLine(s, i);
    p := Line(s[i + 2..k]);
    Join(s, i, i + 2, k);
    assert s[i..i + 2] == Ascii("//");
    assert k < |s| ==> s[k..][0] == s[k];
  }

  lemma BlockAt(s: Text, i: nat) returns (p: Piece, k: nat)
    requires NulFree(s) && i < |s| && BlockComment(s, i) && At(s, BlockEnd(s, i)) != 0
    ensures i < k <= |s| && k == BlockEnd(s, i) + 2 && s[i..k] == PieceText(p) && IsPiece(p, s[k..])
  {
    k := BlockEnd(s, i) + 2;
    WithinBlock(s, i);
    var c := s[i + 1..k - 2];
    p := Block(c);
    hide BlockEnd;
    assert forall j :: 0 <= j < |c| ==> c[j] == s[i + 1 + j];
    Join(s, i, i + 1, k - 2);
    Join(s, i, k - 2, k);
    TwoBytes(s, k - 2);
    assert s[i..i + 1] == Ascii("/");
  }

  lemma LiteralAt(s: Text, i: nat) returns (p: Piece, k: nat)
    requires NulFree(s) && i < |s| && s[i] == QUOTE && ClosedLiteral(s, i + 1)
    ensures i < k <= |s| && k == LiteralStop(s, i + 1) && s[i..k] == PieceText(p) && IsPiece(p, s[k..])
  {
    k := LiteralStop(s, i + 1);
    ClosedHasBody(s, i + 1);
    p := Literal(s[i + 1..k - 1]);
    Join(s, i, i + 1, k - 1);
    Join(s, i, k - 1, k);
    assert s[i..i + 1] == Ascii("\"") == s[k - 1..k];
  }

  /** Every text that the source can be given is put together from pieces. */
  lemma {:induction false} Pieces(s: Text, i: nat) returns (ps: seq<Piece>)
    requires NulFree(s) && i <= |s| && Closed(s, i)
    ensures ArePieces(ps) && TextOf(ps) == s[i..]
    decreases |s| - i
  {
    hide NulFree, Closed, IsPiece, PieceText;
    ps := [];
    if i < |s| {
      var p, k := PieceAt(s, i);
      ps := Pieces(s, k);
      Join(s, i, k, |s|);
      assert ([p] + ps)[1..] == ps;
      ps := [p] + ps;
    }
  }

  // ----- The loop ----------------------------------------------------------

  /** `buf` holds the text `s` and its NUL from index `from` on. */
  ghost predicate HoldsFrom(buf: array<byte>, s: Text, from: nat)
    reads buf
  {
    |s| < buf.Length && forall k :: from <= k <= |s| ==> buf[k] == At(s, k)
  }

  /** Nothing changed at or after index `from`. */
  twostate predicate SameFrom(buf: array<byte>, from: nat)
    reads buf
  {
    forall k :: from <= k < buf.Length ==> buf[k] == old(buf[k])
  }

  /** `*into++ = *json++`. */
  method CopyByte(buf: array<byte>, into: nat, json: nat, ghost s: Text)
    requires into <= json < |s| && HoldsFrom(buf, s, json)
    modifies buf
    ensures buf[..into + 1] == old(buf[..into]) + [s[json]]
    ensures SameFrom(buf, into + 1)
  {
    buf[into] := buf[json];
  }

  /** Copies one character of a literal: one byte, or a backslash and the byte after it. */
  method CopyCharacter(buf: array<byte>, into0: nat, json0: nat, ghost s: Text) returns (into: nat, json: nat)
    requires into0 <= json0 < |s| && HoldsFrom(buf, s, into0)
    requires s[json0] == BACKSLASH ==> json0 + 1 < |s|
    modifies buf
    ensures json == (if s[json0] == BACKSLASH then json0 + 2 else json0 + 1) && into == into0 + (json - json0)
    ensures buf[..into] == old(buf[..into0]) + s[json0..json]
    ensures SameFrom(buf, into)
  {
    into, json := into0, json0;
    ghost var out := buf[..into0];
    if buf[json] == BACKSLASH {
      CopyByte(buf, into, json, s);
      Snoc(s, json0, json);
      Assoc(out, [], [s[json]]);
      into, json := into + 1, json + 1;
      Assoc(out, s[json0..json], [s[json]]);
    }
    CopyByte(buf, into, json, s);
    Snoc(s, json0, json);
    into, json := into + 1, json + 1;
  }

  /** Copies the literal that starts at `json0`, quotes included. */
  method CopyLiteral(buf: array<byte>, into0: nat, json0: nat, ghost s: Text) returns (into: nat, json: nat)
    requires into0 <= json0 < |s| && HoldsFrom(buf, s, into0) && NulFree(s)
    requires s[json0] == QUOTE && ClosedLiteral(s, json0 + 1)
    modifies buf
    ensures json == LiteralStop(s, json0 + 1) && into == into0 + (json - json0)
    ensures buf[..into] == old(buf[..into0]) + s[json0..json]
    ensures SameFrom(buf, into)
  {
    CopyByte(buf, into0, json0, s);
    into, json := into0 + 1, json0 + 1;
    Snoc(s, json0, json0);
    while buf[json] != 0 && buf[json] != QUOTE
      invariant json0 < json < |s| && into == into0 + (json - json0)
      invariant ClosedLiteral(s, json) && LiteralStop(s, json) == LiteralStop(s, json0 + 1)
      invariant buf[..into] == old(buf[..into0]) + s[json0..json]
      invariant SameFrom(buf, into)
      decreases |s| - json
    {
      ghost var from, out := json, old(buf[..into0]);
      into, json := CopyCharacter(buf, into, json, s);
      Join(s, json0, from, json);
      Assoc(out, s[json0..from], s[from..json]);
    }
    CopyByte(buf, into, json, s);
    Snoc(s, json0, json);
    Assoc(old(buf[..into0]), s[json0..json], [s[json]]);
    into, json := into + 1, json + 1;
  }

  method SkipLine(buf: array<byte>, json0: nat, ghost s: Text) returns (json: nat)
    requires json0 <= |s| && HoldsFrom(buf, s, json0)
    ensures json == LineEnd(s, json0)
  {
    json := json0;
    while buf[json] != 0 && buf[json] != LF
      invariant json0 <= json <= |s| && LineEnd(s, json) == LineEnd(s, json0)
      decreases |s| - json
    {
      json := json + 1;
    }
  }

  method SkipBlock(buf: array<byte>, json0: nat, ghost s: Text) returns (json: nat)
    requires json0 < |s| && HoldsFrom(buf, s, json0) && NulFree(s)
    requires At(s, BlockEnd(s, json0)) != 0
    ensures json == BlockEnd(s, json0) + 2
  {
    json := json0;
    while buf[json] != 0 && !(buf[json] == STAR && buf[json + 1] == SLASH)
      invariant json0 <= json < |s| && BlockEnd(s, json) == BlockEnd(s, json0)
      decreases |s| - json
    {
      json := json + 1;
    }
    json := json + 2;
  }

  /** What the byte at `i` does. */
  lemma MinifyStep(s: Text, i: nat)
    requires i < |s| && s[i] != 0 && Closed(s, i)
    ensures IsSpace(s[i]) ==> Closed(s, i + 1) && Minify(s, i) == Minify(s, i + 1)
    ensures LineComment(s, i) ==> Closed(s, LineEnd(s, i)) && Minify(s, i) == Minify(s, LineEnd(s, i))
    ensures BlockComment(s, i) ==>
              var k := BlockEnd(s, i);
              At(s, k) != 0 && Closed(s, k + 2) && Minify(s, i) == Minify(s, k + 2)
    ensures s[i] == QUOTE ==>
              && ClosedLiteral(s, i + 1) && Closed(s, LiteralStop(s, i + 1))
              && Minify(s, i) == s[i..LiteralStop(s, i + 1)] + Minify(s, LiteralStop(s, i + 1))
    ensures !IsSpace(s[i]) && !LineComment(s, i) && !BlockComment(s, i) && s[i] != QUOTE ==>
              Closed(s, i + 1) && Minify(s, i) == [s[i]] + Minify(s, i + 1)
  {
  }

  lemma NothingToMinify(out: Text, s: Text, i: nat)
    requires At(s, i) == 0
    ensures Closed(s, i) && out + Minify(s, i) == out
  {
  }

  /** `cJSON_Minify` on a buffer that holds the text `s`: `into` bytes are left, then a NUL, and the
      rest of the buffer is as it was. */
  method MinifyInPlace(buf: array<byte>, ghost s: Text) returns (ghost into: nat)
    requires NulFree(s) && Closed(s, 0) && HoldsFrom(buf, s, 0)
    modifies buf
    ensures into <= |s| && buf[..into] == Minify(s, 0) && buf[into] == 0
    ensures forall ps :: ArePieces(ps) && TextOf(ps) == s ==> buf[..into] == Kept(ps)
    ensures SameFrom(buf, into + 1)
  {
    hide ClosedLiteral, LiteralStop, LineEnd, BlockEnd, NulFree, IsSpace, Closed, Minify;
    var w: nat, json: nat := 0, 0;
    while buf[json] != 0
      invariant w <= json <= |s| && Closed(s, json)
      invariant buf[..w] + Minify(s, json) == Minify(s, 0)
      invariant SameFrom(buf, w)
      decreases |s| - json
    {
      MinifyStep(s, json);
      if IsSpace(buf[json]) {
        json := json + 1;
      } else if buf[json] == SLASH && buf[json + 1] == SLASH {
        json := SkipLine(buf, json, s);
      } else if buf[json] == SLASH && buf[json + 1] == STAR {
        json := SkipBlock(buf, json, s);
      } else if buf[json] == QUOTE {
        ghost var out, from := buf[..w], json;
        w, json := CopyLiteral(buf, w, json, s);
        Assoc(out, s[from..json], Minify(s, json));
      } else {
        ghost var out := buf[..w];
        CopyByte(buf, w, json, s);
        Assoc(out, [s[json]], Minify(s, json + 1));
        w, json := w + 1, json + 1;
      }
    }
    NothingToMinify(buf[..w], s, json);
    buf[w] := 0;
    into := w;
    forall ps | ArePieces(ps) && TextOf(ps) == s ensures buf[..into] == Kept(ps) {
      MinifyPieces(ps);
    }
  }
}
