/** The texts of RFC 8259, however they are spelled, and what `cJSON_Parse` makes of them. */
module Grammar {
  import opened Bytes
  import opened Unicode
  import opened Json
  import opened Doubles
  import opened Numbers
  import F = Floats
  import opened Strings
  import opened Parser
  import opened RoundTrip
  import M = Minifier

  // ----- Strings: section 7 of RFC 8259 ------------------------------------

  /** A character of a literal: a byte as it is, a two-byte escape, one `\u` escape, or two of them
      that are a surrogate pair. */
  datatype Char =
    | Raw(b: byte)
    | Short(letter: char)
    | Unit(c: nat, digits: Text)
    | Surrogates(c: nat, high: Text, low: Text)

  /** The four hexadecimal digits of `u`, each in either case. */
  ghost predicate IsHex4(t: Text, u: nat) {
    && |t| == 4 && u < 0x1_0000
    && IsHex(t[0], u / 0x1000) && IsHex(t[1], u / 0x100 % 16) && IsHex(t[2], u / 16 % 16) && IsHex(t[3], u % 16)
  }

  /** `U+0000`, which no C string holds, is left out. Control characters and a backslash before any byte but
      `u` are no errors here, although the standard wants the former escaped and has eight of the latter. */
  ghost predicate IsChar(c: Char) {
    match c
    case Raw(b) => b != 0 && b as char != '\"' && b as char != '\\'
    case Short(l) => l != 'u' && 0 < l as int < 256
    case Unit(u, t) => IsScalar(u) && 0 < u && IsHex4(t, u)
    case Surrogates(u, h, l) =>
      && 0x1_0000 <= u <= 0x10_FFFF
      && IsHex4(h, 0xD800 + (u - 0x1_0000) / 0x400) && IsHex4(l, 0xDC00 + (u - 0x1_0000) % 0x400)
  }

  function CharText(c: Char): Text {
    match c
    case Raw(b) => [b]
    case Short(l) => Ascii("\\") + [l as int % 256]
    case Unit(_, t) => Ascii("\\u") + t
    case Surrogates(_, h, l) => Ascii("\\u") + h + (Ascii("\\u") + l)
  }

  /** The byte that a two-byte escape stands for: backspace, form feed, line feed, carriage return,
      tab, or the letter itself. */
  function ShortByte(letter: char): byte {
    match letter
    case 'b' => 8
    case 'f' => 12
    case 'n' => 10
    case 'r' => 13
    case 't' => 9
    case _ => letter as int % 256
  }

  function CharBytes(c: Char): Text
    requires (c.Unit? || c.Surrogates?) ==> IsScalar(c.c)
  {
    match c
    case Raw(b) => [b]
    case Short(l) => [ShortByte(l)]
    case Unit(u, _) => Utf8(u)
    case Surrogates(u, _, _) => Utf8(u)
  }

  ghost predicate AreChars(cs: seq<Char>) {
    forall i :: 0 <= i < |cs| ==> IsChar(cs[i])
  }

  function CharsText(cs: seq<Char>): Text {
    if cs == [] then [] else CharText(cs[0]) + CharsText(cs[1..])
  }

  /** The string that the characters spell. */
  ghost function Spelled(cs: seq<Char>): Text
    requires AreChars(cs)
  {
    if cs == [] then [] else CharBytes(cs[0]) + Spelled(cs[1..])
  }

  function StringText(cs: seq<Char>): Text {
    Ascii("\"") + (CharsText(cs) + Ascii("\""))
  }

  lemma Marks()
    ensures Ascii("\"") == [QUOTE] && Ascii("\\") == [BACKSLASH] && Ascii("\\u") == [BACKSLASH, LOWER_U]
  {
  }

  lemma OccursAt(t: Text, s: Text, i: nat, k: nat)
    requires Occurs(t, s, i) && k < |t|
    ensures At(s, i + k) == t[k]
  {
    assert s[i + k] == t[i + k - i];
  }

  lemma HexByte(b: byte, d: nat)
    requires IsHex(b, d)
    ensures b != 0 && b != QUOTE && b != BACKSLASH
  {
  }

  ghost predicate Ordinary(s: Text, k: nat) {
    At(s, k) != 0 && At(s, k) != QUOTE && At(s, k) != BACKSLASH
  }

  lemma FourInBody(s: Text, p: nat)
    requires Ordinary(s, p) && Ordinary(s, p + 1) && Ordinary(s, p + 2) && Ordinary(s, p + 3)
    ensures InBody(s, p, 4) && p + 4 <= |s|
  {
    assert At(s, p + 3) != 0;
    assert InBody(s, p + 3, 1);
    assert InBody(s, p + 2, 2);
    assert InBody(s, p + 1, 3);
  }

  lemma HexInBody(t: Text, u: nat, s: Text, p: nat)
    requires IsHex4(t, u) && Occurs(t, s, p)
    ensures InBody(s, p, 4) && p + 4 <= |s| && Hex4(s, p) == u
  {
    HexAt(t, u, s, p, 0);
    HexAt(t, u, s, p, 1);
    HexAt(t, u, s, p, 2);
    HexAt(t, u, s, p, 3);
    HexIs(t, u, s, p);
    hide Hex4, IsHex4, Occurs, InBody, Ordinary;
    FourInBody(s, p);
  }

  lemma HexIs(t: Text, u: nat, s: Text, p: nat)
    requires IsHex4(t, u) && Occurs(t, s, p)
    ensures Hex4(s, p) == u
  {
    OccursAt(t, s, p, 0);
    OccursAt(t, s, p, 1);
    OccursAt(t, s, p, 2);
    OccursAt(t, s, p, 3);
    hide Hex4, IsHex, Occurs;
    Hex4Reads(s, p, u);
  }

  lemma HexAt(t: Text, u: nat, s: Text, p: nat, k: nat)
    requires IsHex4(t, u) && Occurs(t, s, p) && k < 4
    ensures Ordinary(s, p + k)
  {
    OccursAt(t, s, p, k);
    hide Occurs;
    var d := [u / 0x1000, u / 0x100 % 16, u / 16 % 16, u % 16];
    HexByte(t[k], d[k]);
  }

  lemma ReadRaw(b: byte, s: Text, p: nat)
    requires IsChar(Raw(b)) && Occurs([b], s, p) && CompleteFrom(s, p + 1)
    ensures CompleteFrom(s, p) && LiteralEnd(s, p) == LiteralEnd(s, p + 1)
    ensures Unescape(s, p) == [b] + Unescape(s, p + 1)
  {
    OccursAt([b], s, p, 0);
  }

  lemma ReadShort(l: char, s: Text, p: nat)
    requires IsChar(Short(l)) && Occurs(CharText(Short(l)), s, p) && CompleteFrom(s, p + 2)
    ensures CompleteFrom(s, p) && LiteralEnd(s, p) == LiteralEnd(s, p + 2)
    ensures Unescape(s, p) == [ShortByte(l)] + Unescape(s, p + 2)
  {
    Marks();
    OccursAt(CharText(Short(l)), s, p, 0);
    OccursAt(CharText(Short(l)), s, p, 1);
  }

  /** One `\u` escape, with the cursor at its backslash. */
  lemma ReadUnit(t: Text, u: nat, s: Text, p: nat)
    requires IsHex4(t, u) && Occurs(Ascii("\\u") + t, s, p) && CompleteFrom(s, p + 6)
    ensures CompleteFrom(s, p) && At(s, p) == BACKSLASH && At(s, p + 1) == LOWER_U && Hex4(s, p + 2) == u
    ensures LiteralEnd(s, p) == LiteralEnd(s, p + 6)
  {
    Marks();
    OccursSplit(Ascii("\\u"), t, s, p);
    OccursAt(Ascii("\\u"), s, p, 0);
    OccursAt(Ascii("\\u"), s, p, 1);
    HexInBody(t, u, s, p + 2);
    hide Hex4, InBody, IsHex4;
    SkipEscape(s, p);
  }

  lemma UnescapeUnit(s: Text, p: nat)
    requires CompleteFrom(s, p) && At(s, p) == BACKSLASH && At(s, p + 1) == LOWER_U
    ensures var u := UnicodeEscape(s, p);
            CompleteFrom(s, u.1) && Unescape(s, p) == u.0 + Unescape(s, u.1)
  {
    hide UnicodeEscape;
    CompleteJump(s, p);
  }

  lemma ReadScalar(t: Text, u: nat, s: Text, p: nat)
    requires IsChar(Unit(u, t)) && Occurs(Ascii("\\u") + t, s, p) && CompleteFrom(s, p + 6)
    ensures CompleteFrom(s, p) && LiteralEnd(s, p) == LiteralEnd(s, p + 6)
    ensures Unescape(s, p) == Utf8(u) + Unescape(s, p + 6)
  {
    ReadUnit(t, u, s, p);
    UnescapeUnit(s, p);
    hide Hex4, Utf8, Unescape, CompleteFrom, LiteralEnd;
  }

  lemma SurrogatesJoin(u: nat)
    requires 0x1_0000 <= u <= 0x10_FFFF
    ensures var h, l := 0xD800 + (u - 0x1_0000) / 0x400, 0xDC00 + (u - 0x1_0000) % 0x400;
            IsHigh(h) && IsLow(l) && Join(h, l) == u
  {
  }

  lemma HexLength(t: Text, u: nat)
    requires IsHex4(t, u)
    ensures |Ascii("\\u") + t| == 6
  {
  }

  lemma ReadSurrogates(u: nat, h: Text, l: Text, s: Text, p: nat)
    requires 0x1_0000 <= u <= 0x10_FFFF
    requires IsHex4(h, 0xD800 + (u - 0x1_0000) / 0x400) && IsHex4(l, 0xDC00 + (u - 0x1_0000) % 0x400)
    requires Occurs(Ascii("\\u") + h + (Ascii("\\u") + l), s, p) && CompleteFrom(s, p + 12)
    ensures CompleteFrom(s, p) && LiteralEnd(s, p) == LiteralEnd(s, p + 12)
    ensures Unescape(s, p) == Utf8(u) + Unescape(s, p + 12)
  {
    var hi, lo := 0xD800 + (u - 0x1_0000) / 0x400, 0xDC00 + (u - 0x1_0000) % 0x400;
    hide Hex4, Utf8, Join, LiteralEnd, Unescape, CompleteFrom, Ascii, Occurs, IsHex4;
    SurrogatesJoin(u);
    HexLength(h, hi);
    OccursSplit(Ascii("\\u") + h, Ascii("\\u") + l, s, p);
    ReadUnit(l, lo, s, p + 6);
    ReadUnit(h, hi, s, p);
    UnescapeUnit(s, p);
  }

  lemma IsEscape(s: Text, p: nat)
    requires At(s, p) == BACKSLASH && At(s, p + 1) == LOWER_U
    ensures Occurs(Ascii("\\u"), s, p)
  {
    Marks();
    assert Occurs([BACKSLASH, LOWER_U], s, p);
  }

  lemma UnescapeNothing(s: Text, p: nat, k: nat)
    requires CompleteFrom(s, p) && At(s, p) == BACKSLASH && At(s, p + 1) == LOWER_U && UnicodeEscape(s, p) == ([], k)
    ensures CompleteFrom(s, k) && Unescape(s, p) == Unescape(s, k)
  {
    UnescapeUnit(s, p);
    hide UnicodeEscape, Unescape, CompleteFrom;
    assert [] + Unescape(s, k) == Unescape(s, k);
  }

  /** What is no character is dropped: `U+0000`, a low surrogate without a high one before it, and a
      high one without a low one behind it, together with the `\u` escape that stands there instead, if one does. */
  lemma NoCharacter(t: Text, u: nat, s: Text, p: nat)
    requires IsHex4(t, u) && Occurs(Ascii("\\u") + t, s, p) && CompleteFrom(s, p + 6)
    ensures CompleteFrom(s, p) && LiteralEnd(s, p) == LiteralEnd(s, p + 6)
    ensures u == 0 || 0xDC00 <= u <= 0xDFFF ==> Unescape(s, p) == Unescape(s, p + 6)
    ensures 0xD800 <= u <= 0xDBFF && !Occurs(Ascii("\\u"), s, p + 6) ==> Unescape(s, p) == Unescape(s, p + 6)
  {
    ReadUnit(t, u, s, p);
    hide Hex4, Utf8, Unescape, CompleteFrom, LiteralEnd, IsHex4, Ascii, Occurs;
    if At(s, p + 6) == BACKSLASH && At(s, p + 7) == LOWER_U {
      IsEscape(s, p + 6);
    }
    if UnicodeEscape(s, p) == ([], p + 6) {
      UnescapeNothing(s, p, p + 6);
    }
  }

  lemma NoPair(t: Text, u: nat, t': Text, v: nat, s: Text, p: nat)
    requires IsHex4(t, u) && 0xD800 <= u <= 0xDBFF && IsHex4(t', v) && !(0xDC00 <= v <= 0xDFFF)
    requires Occurs(Ascii("\\u") + t, s, p) && Occurs(Ascii("\\u") + t', s, p + 6) && CompleteFrom(s, p + 12)
    ensures CompleteFrom(s, p) && Unescape(s, p) == Unescape(s, p + 12)
  {
    ReadUnit(t', v, s, p + 6);
    ReadUnit(t, u, s, p);
    hide Hex4, Utf8, Unescape, CompleteFrom, LiteralEnd, IsHex4, Ascii, Occurs;
    UnescapeNothing(s, p, p + 12);
  }

  lemma CharLength(c: Char)
    requires IsChar(c)
    ensures |CharText(c)| == if c.Raw? then 1 else if c.Short? then 2 else if c.Unit? then 6 else 12
  {
    hide IsHex;
  }

  lemma ReadChar(c: Char, s: Text, p: nat)
    requires IsChar(c) && Occurs(CharText(c), s, p) && CompleteFrom(s, p + |CharText(c)|)
    ensures CompleteFrom(s, p) && LiteralEnd(s, p) == LiteralEnd(s, p + |CharText(c)|)
    ensures Unescape(s, p) == CharBytes(c) + Unescape(s, p + |CharText(c)|)
  {
    hide CompleteFrom, LiteralEnd, Unescape, Occurs, Utf8, IsHex4, Ascii;
    CharLength(c);
    match c
    case Raw(b) => ReadRaw(b, s, p);
    case Short(l) => ReadShort(l, s, p);
    case Unit(u, t) => ReadScalar(t, u, s, p);
    case Surrogates(u, h, l) => ReadSurrogates(u, h, l, s, p);
  }

  lemma NoChars(s: Text, p: nat)
    requires Occurs([] + Ascii("\""), s, p)
    ensures CompleteFrom(s, p) && LiteralEnd(s, p) == p && Unescape(s, p) == [] && At(s, p) == QUOTE
  {
    Marks();
    OccursAt([] + Ascii("\""), s, p, 0);
  }

  lemma {:induction false} ReadChars(cs: seq<Char>, s: Text, p: nat)
    requires AreChars(cs) && Occurs(CharsText(cs) + Ascii("\""), s, p)
    ensures CompleteFrom(s, p) && Unescape(s, p) == Spelled(cs)
    ensures LiteralEnd(s, p) == p + |CharsText(cs)| && At(s, p + |CharsText(cs)|) == QUOTE
    decreases |cs|
  {
    hide IsChar, CharText, CharBytes, CompleteFrom, LiteralEnd, Unescape, Occurs;
    if cs == [] {
      NoChars(s, p);
    } else {
      var c, rest := CharText(cs[0]), CharsText(cs[1..]);
      Assoc(c, rest, Ascii("\""));
      OccursSplit(c, rest + Ascii("\""), s, p);
      ReadChars(cs[1..], s, p + |c|);
      ReadChar(cs[0], s, p);
    }
  }

  lemma ReadLiteral(cs: seq<Char>, s: Text, i: nat)
    requires AreChars(cs) && Occurs(StringText(cs), s, i)
    ensures At(s, i) == QUOTE && ParseString(s, i) == Ok(Spelled(cs), i + |StringText(cs)|)
  {
    hide CompleteFrom, LiteralEnd, Unescape, Occurs, CharsText, Spelled;
    Marks();
    OccursSplit(Ascii("\""), CharsText(cs) + Ascii("\""), s, i);
    OccursAt(Ascii("\""), s, i, 0);
    ReadChars(cs, s, i + 1);
  }

  // ----- Numbers: section 6 of RFC 8259 ------------------------------------

  /** A number: its sign, the digits before and behind the point, and the exponent. */
  datatype Numeral = Numeral(negative: bool, whole: Text, fraction: Text, exponent: Exponent)

  datatype Exponent = NoExponent | Exponent(letter: char, sign: Sign, digits: Text)

  datatype Sign = NoSign | PlusSign | MinusSign

  ghost predicate AreDigits(t: Text) {
    forall i :: 0 <= i < |t| ==> '0' <= t[i] as char <= '9'
  }

  ghost predicate IsExponent(e: Exponent) {
    e.Exponent? ==> e.letter in {'e', 'E'} && AreDigits(e.digits) && e.digits != []
  }

  ghost predicate IsNumeral(n: Numeral) {
    && AreDigits(n.whole) && AreDigits(n.fraction) && IsExponent(n.exponent)
    && n.whole != [] && (n.whole[0] as char == '0' ==> |n.whole| == 1)
  }

  function SignText(s: Sign): Text {
    match s
    case NoSign => []
    case PlusSign => Ascii("+")
    case MinusSign => Ascii("-")
  }

  function ExponentText(e: Exponent): Text {
    match e
    case NoExponent => []
    case Exponent(l, s, t) => Ascii([l]) + (SignText(s) + t)
  }

  function FractionText(t: Text): Text {
    if t == [] then [] else Ascii(".") + t
  }

  function NumeralText(n: Numeral): Text {
    (if n.negative then Ascii("-") else []) + (n.whole + (FractionText(n.fraction) + ExponentText(n.exponent)))
  }

  /** The number that decimal digits denote. */
  function DigitsValue(t: Text): int {
    if t == [] then 0 else (t[0] - '0' as int) * Pow10(|t| - 1) + DigitsValue(t[1..])
  }

  /** The mantissa that the digits give, one step for each of them. */
  function DigitsIn(a: Arithmetic, t: Text, acc: real): real {
    if t == [] then acc else DigitsIn(a, t[1..], a.step(acc, t[0] - '0' as int))
  }

  /** The digits behind a sole zero start from nothing. */
  function MantissaIn(a: Arithmetic, n: Numeral): real {
    DigitsIn(a, n.fraction, if n.whole == Ascii("0") then 0.0 else DigitsIn(a, n.whole, 0.0))
  }

  function ExponentValue(e: Exponent): int {
    match e
    case NoExponent => 0
    case Exponent(_, s, t) => if s == MinusSign then -DigitsValue(t) else DigitsValue(t)
  }

  function ValueIn(a: Arithmetic, n: Numeral): real {
    a.scale(if n.negative then -MantissaIn(a, n) else MantissaIn(a, n), ExponentValue(n.exponent) - |n.fraction|)
  }

  lemma MoreDigits(acc: int, d: int, p: int, v: int)
    ensures (acc * 10 + d) * p + v == acc * (10 * p) + (d * p + v)
  {
  }

  lemma RestOccurs(t: Text, s: Text, i: nat)
    requires t != [] && Occurs(t, s, i)
    ensures At(s, i) == t[0] && i < |s| && Occurs(t[1..], s, i + 1)
  {
    OccursAt(t, s, i, 0);
    assert forall k :: i + 1 <= k < i + |t| ==> s[k] == t[k - i] == t[1..][k - (i + 1)];
  }

  lemma {:induction false} ReadRun(t: Text, s: Text, i: nat, acc: int)
    requires AreDigits(t) && Occurs(t, s, i) && !IsDigit(At(s, i + |t|))
    ensures ReadDigits(s, i, acc) == (acc * Pow10(|t|) + DigitsValue(t), i + |t|)
    decreases |t|
  {
    if t != [] {
      RestOccurs(t, s, i);
      var d, p, v := t[0] - 48, Pow10(|t| - 1), DigitsValue(t[1..]);
      assert DigitsValue(t) == d * p + v && Pow10(|t|) == 10 * p;
      hide Occurs, DigitsValue, Pow10;
      ReadRun(t[1..], s, i + 1, acc * 10 + d);
      MoreDigits(acc, d, p, v);
    }
  }

  lemma {:induction false} ReadMantissaRun(a: Arithmetic, t: Text, s: Text, i: nat, acc: real)
    requires AreDigits(t) && Occurs(t, s, i) && !IsDigit(At(s, i + |t|))
    ensures ReadMantissa(a, s, i, acc) == (DigitsIn(a, t, acc), i + |t|)
    decreases |t|
  {
    if t != [] {
      RestOccurs(t, s, i);
      hide Occurs;
      ReadMantissaRun(a, t[1..], s, i + 1, a.step(acc, t[0] - 48));
    }
  }

  lemma ReadWhole(a: Arithmetic, t: Text, s: Text, i: nat)
    requires AreDigits(t) && t != [] && (t[0] as char == '0' ==> |t| == 1)
    requires Occurs(t, s, i) && !IsDigit(At(s, i + |t|))
    ensures At(s, i) == t[0] && IsDigit(t[0])
    ensures IntegerPart(a, s, i) == (if t == Ascii("0") then 0.0 else DigitsIn(a, t, 0.0), i + |t|)
  {
    RestOccurs(t, s, i);
    if t[0] == 48 {
      assert t == [48] == Ascii("0");
    } else {
      assert t != Ascii("0");
      ReadMantissaRun(a, t, s, i, 0.0);
    }
  }

  lemma ReadFraction(a: Arithmetic, t: Text, s: Text, i: nat, n: real)
    requires AreDigits(t) && Occurs(FractionText(t), s, i) && !IsDigit(At(s, i + |FractionText(t)|))
    requires t == [] ==> At(s, i) != DOT
    ensures FractionPart(a, s, i, n) == (DigitsIn(a, t, n), i + |FractionText(t)|)
  {
    if t != [] {
      assert Ascii(".") == [DOT];
      OccursSplit(Ascii("."), t, s, i);
      OccursAt(Ascii("."), s, i, 0);
      RestOccurs(t, s, i + 1);
      ReadMantissaRun(a, t, s, i + 1, n);
    }
  }

  lemma ReadSign(g: Sign, s: Text, i: nat)
    requires Occurs(SignText(g), s, i)
    ensures match g
            case NoSign => |SignText(g)| == 0
            case PlusSign => At(s, i) == PLUS && |SignText(g)| == 1
            case MinusSign => At(s, i) == MINUS && |SignText(g)| == 1
  {
    if g != NoSign {
      OccursAt(SignText(g), s, i, 0);
    }
  }

  lemma ReadNumber(t: Text, s: Text, i: nat)
    requires AreDigits(t) && t != [] && Occurs(t, s, i) && !IsDigit(At(s, i + |t|))
    ensures ReadDigits(s, i, 0) == (DigitsValue(t), i + |t|) && IsDigit(At(s, i))
  {
    RestOccurs(t, s, i);
    hide Occurs, DigitsValue;
    ReadRun(t, s, i, 0);
    assert 0 * Pow10(|t|) == 0;
  }

  lemma ExponentIs(s: Text, i: nat, g: Sign, v: int, end: nat)
    requires At(s, i) as char == 'e' || At(s, i) as char == 'E'
    requires match g
             case NoSign => IsDigit(At(s, i + 1)) && ReadDigits(s, i + 1, 0) == (v, end)
             case PlusSign => At(s, i + 1) == PLUS && ReadDigits(s, i + 2, 0) == (v, end)
             case MinusSign => At(s, i + 1) == MINUS && ReadDigits(s, i + 2, 0) == (v, end)
    ensures ExponentPart(s, i) == (if g == MinusSign then -v else v, end)
  {
    hide ReadDigits;
  }

  lemma ReadExponent(x: Exponent, s: Text, i: nat)
    requires IsExponent(x) && Occurs(ExponentText(x), s, i) && EndsNumber(At(s, i + |ExponentText(x)|))
    ensures ExponentPart(s, i) == (ExponentValue(x), i + |ExponentText(x)|)
    ensures !IsDigit(At(s, i)) && At(s, i) != DOT
  {
    if x.Exponent? {
      var letter, sign := Ascii([x.letter]), SignText(x.sign);
      LetterIs(x.letter);
      hide Ascii, Occurs, SignText, ReadDigits, DigitsValue, ExponentPart;
      OccursSplit(letter, sign + x.digits, s, i);
      OccursSplit(sign, x.digits, s, i + 1);
      OccursAt(letter, s, i, 0);
      ReadSign(x.sign, s, i + 1);
      ReadNumber(x.digits, s, i + 1 + |sign|);
      ExponentIs(s, i, x.sign, DigitsValue(x.digits), i + |ExponentText(x)|);
    }
  }

  lemma LetterIs(c: char)
    requires c in {'e', 'E'}
    ensures Ascii([c]) == [c as int]
  {
  }

  lemma MinusText(negative: bool, s: Text, i: nat)
    requires Occurs(if negative then Ascii("-") else [], s, i)
    ensures negative ==> At(s, i) == MINUS && |Ascii("-")| == 1
  {
    if negative {
      OccursAt(Ascii("-"), s, i, 0);
    }
  }

  lemma SplitNumeral(n: Numeral, s: Text, i: nat)
    requires Occurs(NumeralText(n), s, i)
    ensures var k := if n.negative then i + 1 else i;
            var f, e := k + |n.whole|, k + |n.whole| + |FractionText(n.fraction)|;
            && (n.negative ==> At(s, i) == MINUS) && Occurs(n.whole, s, k)
            && Occurs(FractionText(n.fraction), s, f) && Occurs(ExponentText(n.exponent), s, e)
            && i + |NumeralText(n)| == e + |ExponentText(n.exponent)|
  {
    hide Occurs, FractionText, ExponentText, Ascii;
    var m, w := if n.negative then Ascii("-") else [], n.whole;
    var x, e := FractionText(n.fraction), ExponentText(n.exponent);
    OccursSplit(m, w + (x + e), s, i);
    MinusText(n.negative, s, i);
    OccursSplit(w, x + e, s, i + |m|);
    OccursSplit(x, e, s, i + |m| + |w|);
  }

  lemma PointBehind(t: Text, s: Text, i: nat)
    requires Occurs(FractionText(t), s, i)
    ensures t != [] ==> At(s, i) == DOT
  {
    if t != [] {
      OccursAt(FractionText(t), s, i, 0);
      assert Ascii(".") == [DOT];
    }
  }

  lemma Assemble(a: Arithmetic, s: Text, i: nat, w: real, f: nat, m: real, e: nat, x: int, end: nat)
    requires IntegerPart(a, s, if At(s, i) == MINUS then i + 1 else i) == (w, f)
    requires FractionPart(a, s, f, w) == (m, e) && ExponentPart(s, e) == (x, end)
    ensures ParseNumberIn(a, s, i)
         == (a.scale(if At(s, i) == MINUS then -m else m, (if e == f then 0 else f + 1 - e) + x), end)
  {
    hide IntegerPart, FractionPart, ExponentPart;
  }

  lemma ReadMantissaParts(a: Arithmetic, n: Numeral, s: Text, k: nat)
    requires IsNumeral(n) && Occurs(n.whole, s, k) && Occurs(FractionText(n.fraction), s, k + |n.whole|)
    requires var b := At(s, k + |n.whole| + |FractionText(n.fraction)|); !IsDigit(b) && b != DOT
    ensures var f := k + |n.whole|;
            var w := if n.whole == Ascii("0") then 0.0 else DigitsIn(a, n.whole, 0.0);
            && IsDigit(At(s, k)) && IntegerPart(a, s, k) == (w, f)
            && FractionPart(a, s, f, w) == (MantissaIn(a, n), f + |FractionText(n.fraction)|)
  {
    var f := k + |n.whole|;
    hide Occurs, DigitsIn, IntegerPart, FractionPart, Ascii, FractionText;
    PointBehind(n.fraction, s, f);
    NoFraction(n.fraction);
    ReadWhole(a, n.whole, s, k);
    ReadFraction(a, n.fraction, s, f, if n.whole == Ascii("0") then 0.0 else DigitsIn(a, n.whole, 0.0));
  }

  lemma NoFraction(t: Text)
    ensures |FractionText(t)| == if t == [] then 0 else 1 + |t|
  {
  }

  /** A number is read with one step for each of its digits, and scaled once. */
  lemma ReadNumeral(a: Arithmetic, n: Numeral, s: Text, i: nat)
    requires IsNumeral(n) && Occurs(NumeralText(n), s, i) && EndsNumber(At(s, i + |NumeralText(n)|))
    ensures ParseNumberIn(a, s, i) == (ValueIn(a, n), i + |NumeralText(n)|)
    ensures At(s, i) == MINUS || IsDigit(At(s, i))
  {
    hide NumeralText, MantissaIn, Occurs, DigitsIn, IntegerPart, FractionPart, ExponentPart, ExponentText;
    hide ParseNumberIn, Ascii, FractionText, ExponentValue;
    SplitNumeral(n, s, i);
    NoFraction(n.fraction);
    var k := if n.negative then i + 1 else i;
    var f, e := k + |n.whole|, k + |n.whole| + |FractionText(n.fraction)|;
    ReadExponent(n.exponent, s, e);
    ReadMantissaParts(a, n, s, k);
    Assemble(a, s, i, if n.whole == Ascii("0") then 0.0 else DigitsIn(a, n.whole, 0.0), f, MantissaIn(a, n), e,
             ExponentValue(n.exponent), i + |NumeralText(n)|);
  }

  // ----- What the digits denote --------------------------------------------

  lemma {:induction false} ExactDigits(t: Text, acc: int)
    ensures DigitsIn(EXACT, t, acc as real) == (acc * Pow10(|t|) + DigitsValue(t)) as real
    decreases |t|
  {
    if t != [] {
      var d := t[0] - '0' as int;
      ExactDigits(t[1..], acc * 10 + d);
      MoreDigits(acc, d, Pow10(|t| - 1), DigitsValue(t[1..]));
    }
  }

  lemma {:induction false} DigitsJoin(t: Text, u: Text)
    ensures DigitsValue(t + u) == DigitsValue(t) * Pow10(|u|) + DigitsValue(u)
    decreases |t|
  {
    if t == [] {
      assert t + u == u;
    } else {
      assert (t + u)[1..] == t[1..] + u;
      DigitsJoin(t[1..], u);
      F.Pow10Sum(|t| - 1, |u|);
      var d := t[0] - '0' as int;
      Distribute(d, Pow10(|t| - 1), DigitsValue(t[1..]), Pow10(|u|));
    }
  }

  lemma Distribute(d: int, p: int, v: int, q: int)
    ensures (d * p + v) * q == d * (p * q) + v * q
  {
  }

  /** Without rounding, a number gives what its digits denote: all of them as one integer, times ten to
      the power of the exponent less the digits behind the point. */
  lemma NumeralDenotes(n: Numeral)
    requires IsNumeral(n)
    ensures var m, e := DigitsValue(n.whole + n.fraction) as real, ExponentValue(n.exponent) - |n.fraction|;
            ValueIn(EXACT, n) == (if n.negative then -m else m) * Power(e)
  {
    ZeroDenotes();
    ExactDigits(n.whole, 0);
    ExactDigits(n.fraction, DigitsValue(n.whole));
    DigitsJoin(n.whole, n.fraction);
    hide DigitsIn, DigitsValue, Power, ExponentValue, Ascii;
  }

  lemma ZeroDenotes()
    ensures DigitsValue(Ascii("0")) == 0
  {
  }

  lemma AtLeast(x: int, p: int)
    requires x >= 0 && p >= 1
    ensures x <= x * p
  {
  }

  lemma {:induction false} DigitsArePositive(t: Text)
    requires AreDigits(t)
    ensures DigitsValue(t) >= 0
    decreases |t|
  {
    if t != [] {
      DigitsArePositive(t[1..]);
      var d := t[0] - '0' as int;
      AtLeast(d, Pow10(|t| - 1));
    }
  }

  /** On doubles the mantissa is not rounded if it has at most 53 bits. */
  lemma {:induction false} SmallDigits(t: Text, acc: nat)
    requires AreDigits(t) && acc * Pow10(|t|) + DigitsValue(t) <= TWO_53
    ensures DigitsIn(DOUBLES, t, acc as real) == (acc * Pow10(|t|) + DigitsValue(t)) as real
    decreases |t|
  {
    hide DoubleStep;
    if t != [] {
      var d: nat, p, v := t[0] - '0' as int, Pow10(|t| - 1), DigitsValue(t[1..]);
      DigitsArePositive(t[1..]);
      MoreDigits(acc, d, p, v);
      assert Pow10(|t|) == 10 * p && DigitsValue(t) == d * p + v;
      AtLeast(acc * 10 + d, p);
      hide DigitsValue, Pow10;
      assert DOUBLES.step(acc as real, d) == (acc * 10 + d) as real by {
        DoubleStepsExactly(acc, d);
      }
      SmallDigits(t[1..], acc * 10 + d);
    }
  }

  lemma SmallFromNothing(t: Text)
    requires AreDigits(t) && DigitsValue(t) <= TWO_53
    ensures DigitsIn(DOUBLES, t, 0.0) == DigitsValue(t) as real
  {
    hide DigitsIn, DigitsValue, Pow10;
    assert 0 * Pow10(|t|) == 0;
    SmallDigits(t, 0);
  }

  lemma SmallMantissa(n: Numeral)
    requires IsNumeral(n) && DigitsValue(n.whole + n.fraction) <= TWO_53
    ensures MantissaIn(DOUBLES, n) == DigitsValue(n.whole + n.fraction) as real
  {
    hide DigitsIn, DigitsValue, Pow10, Ascii, AreDigits;
    ZeroDenotes();
    DigitsJoin(n.whole, n.fraction);
    DigitsArePositive(n.whole);
    DigitsArePositive(n.fraction);
    AtLeast(DigitsValue(n.whole), Pow10(|n.fraction|));
    SmallFromNothing(n.whole);
    SmallDigits(n.fraction, DigitsValue(n.whole));
  }

  lemma ValueIs(a: Arithmetic, n: Numeral, m: real)
    requires MantissaIn(a, n) == m
    ensures ValueIn(a, n) == a.scale(if n.negative then -m else m, ExponentValue(n.exponent) - |n.fraction|)
  {
  }

  lemma ScaleIs(x: real, e: int)
    ensures DOUBLES.scale(x, e) == Times(x, Nearest(Power(e)))
  {
    hide Nearest, Times;
  }

  /** Then the number is rounded twice: the power of ten, and the product with it. */
  lemma SmallNumeral(n: Numeral)
    requires IsNumeral(n) && DigitsValue(n.whole + n.fraction) <= TWO_53
    ensures var m, e := DigitsValue(n.whole + n.fraction) as real, ExponentValue(n.exponent) - |n.fraction|;
            var x := if n.negative then -m else m;
            ValueIn(DOUBLES, n) == Times(x, Nearest(Power(e)))
  {
    var m := DigitsValue(n.whole + n.fraction) as real;
    SmallMantissa(n);
    ValueIs(DOUBLES, n, m);
    hide ValueIn, MantissaIn, DigitsValue, Power, ExponentValue, Nearest, Times;
    ScaleIs(if n.negative then -m else m, ExponentValue(n.exponent) - |n.fraction|);
  }

  // ----- Values: sections 2 to 5 of RFC 8259 -------------------------------

  /** A value as it is spelled, with the blanks between its tokens. */
  datatype Spelling =
    | NullWord
    | FalseWord
    | TrueWord
    | Num(numeral: Numeral)
    | Str(chars: seq<Char>)
    | Arr(gap: Text, items: seq<Slot>)
    | Obj(gap: Text, members: seq<Pair>)

  /** A value and the blanks around it. */
  datatype Slot = Slot(before: Text, value: Spelling, after: Text)

  /** A name, the blanks around it, and its value behind the colon. */
  datatype Pair = Pair(before: Text, name: seq<Char>, after: Text, value: Slot)

  ghost predicate IsSpelling(v: Spelling) {
    match v
    case Num(n) => IsNumeral(n)
    case Str(cs) => AreChars(cs)
    case Arr(b, items) => Blank(b) && AreSlots(items)
    case Obj(b, members) => Blank(b) && ArePairs(members)
    case _ => true
  }

  ghost predicate IsSlot(x: Slot) {
    Blank(x.before) && Blank(x.after) && IsSpelling(x.value)
  }

  ghost predicate AreSlots(items: seq<Slot>) {
    items != [] ==> IsSlot(items[0]) && AreSlots(items[1..])
  }

  ghost predicate IsPair(m: Pair) {
    Blank(m.before) && AreChars(m.name) && Blank(m.after) && IsSlot(m.value)
  }

  ghost predicate ArePairs(members: seq<Pair>) {
    members != [] ==> IsPair(members[0]) && ArePairs(members[1..])
  }

  function SpellingText(v: Spelling): (r: Text) {
    match v
    case NullWord => Ascii("null")
    case FalseWord => Ascii("false")
    case TrueWord => Ascii("true")
    case Num(n) => NumeralText(n)
    case Str(cs) => StringText(cs)
    case Arr(b, items) => Ascii("[") + ((if items == [] then b else SlotsText(items)) + Ascii("]"))
    case Obj(b, members) => Ascii("{") + ((if members == [] then b else PairsText(members)) + Ascii("}"))
  }

  function SlotText(x: Slot): Text {
    x.before + (SpellingText(x.value) + x.after)
  }

  function SlotsText(items: seq<Slot>): Text
    requires items != []
  {
    if |items| == 1 then SlotText(items[0]) else SlotText(items[0]) + (Ascii(",") + SlotsText(items[1..]))
  }

  function PairText(m: Pair): Text {
    m.before + (StringText(m.name) + (m.after + (Ascii(":") + SlotText(m.value))))
  }

  function PairsText(members: seq<Pair>): Text
    requires members != []
  {
    if |members| == 1 then PairText(members[0]) else PairText(members[0]) + (Ascii(",") + PairsText(members[1..]))
  }

  /** The value that is spelled, in the arithmetic of doubles. */
  ghost function Meaning(v: Spelling): Json
    requires IsSpelling(v)
  {
    match v
    case NullWord => Null
    case FalseWord => False
    case TrueWord => True
    case Num(n) => Number(ValueIn(DOUBLES, n))
    case Str(cs) => String(Spelled(cs))
    case Arr(_, items) => Array(Meanings(items))
    case Obj(_, members) => Object(MembersMeant(members))
  }

  ghost function SlotMeaning(x: Slot): Json
    requires IsSlot(x)
  {
    Meaning(x.value)
  }

  ghost function Meanings(items: seq<Slot>): seq<Json>
    requires AreSlots(items)
  {
    if items == [] then [] else [SlotMeaning(items[0])] + Meanings(items[1..])
  }

  ghost function MembersMeant(members: seq<Pair>): seq<Member>
    requires ArePairs(members)
  {
    if members == [] then []
    else [PairMeaning(members[0])] + MembersMeant(members[1..])
  }

  ghost function PairMeaning(m: Pair): Member
    requires IsPair(m)
  {
    Member(Spelled(m.name), SlotMeaning(m.value))
  }

  // ----- Reading a value ---------------------------------------------------

  lemma Brackets()
    ensures Ascii("[") == [LBRACKET] && Ascii("]") == [RBRACKET] && Ascii("{") == [LBRACE] && Ascii("}") == [RBRACE]
    ensures Ascii(",") == [COMMA] && Ascii(":") == [COLON]
  {
  }

  /** A byte that a value may start with. */
  ghost predicate Starts(b: byte) {
    b > 32 && b != RBRACKET && b != RBRACE
  }

  lemma {:induction false} ReadSpelling(v: Spelling, s: Text, i: nat)
    requires IsSpelling(v) && Occurs(SpellingText(v), s, i)
    requires v.Num? ==> EndsNumber(At(s, i + |SpellingText(v)|))
    ensures ParseValue(s, i) == Ok(Meaning(v), i + |SpellingText(v)|) && Starts(At(s, i))
    decreases v, 3
  {
    match v
    case NullWord => ReadNull(s, i);
    case FalseWord => ReadFalse(s, i);
    case TrueWord => ReadTrue(s, i);
    case Num(n) => ReadNum(n, s, i);
    case Str(cs) => ReadStr(cs, s, i);
    case Arr(b, items) => ReadArr(b, items, s, i);
    case Obj(b, members) => ReadObj(b, members, s, i);
  }

  lemma ReadNull(s: Text, i: nat)
    requires Occurs(Ascii("null"), s, i)
    ensures ParseValue(s, i) == Ok(Null, i + 4) && Starts(At(s, i))
  {
    Characters();
    OccursFirst(NULL_WORD, s, i);
    ReadWord(NULL_WORD, s, i);
  }

  lemma ReadFalse(s: Text, i: nat)
    requires Occurs(Ascii("false"), s, i)
    ensures ParseValue(s, i) == Ok(False, i + 5) && Starts(At(s, i))
  {
    Characters();
    OccursFirst(FALSE_WORD, s, i);
    ReadWord(FALSE_WORD, s, i);
  }

  lemma ReadTrue(s: Text, i: nat)
    requires Occurs(Ascii("true"), s, i)
    ensures ParseValue(s, i) == Ok(True, i + 4) && Starts(At(s, i))
  {
    Characters();
    OccursFirst(TRUE_WORD, s, i);
    ReadWord(TRUE_WORD, s, i);
  }

  lemma ReadNum(n: Numeral, s: Text, i: nat)
    requires IsNumeral(n) && Occurs(NumeralText(n), s, i) && EndsNumber(At(s, i + |NumeralText(n)|))
    ensures ParseValue(s, i) == Ok(Number(ValueIn(DOUBLES, n)), i + |NumeralText(n)|) && Starts(At(s, i))
  {
    ReadNumeral(DOUBLES, n, s, i);
    hide ParseNumberIn, ValueIn, NumeralText, Occurs, IsNumeral;
    NoWords(s, i);
    hide StartsWith;
  }

  lemma ReadStr(cs: seq<Char>, s: Text, i: nat)
    requires AreChars(cs) && Occurs(StringText(cs), s, i)
    ensures ParseValue(s, i) == Ok(String(Spelled(cs)), i + |StringText(cs)|) && Starts(At(s, i))
  {
    ReadLiteral(cs, s, i);
    hide ParseString, StringText, Occurs, AreChars;
    NoWords(s, i);
    hide StartsWith;
  }

  lemma IsArray(s: Text, i: nat)
    requires At(s, i) == LBRACKET
    ensures ParseValue(s, i) == ParseArray(s, i)
  {
    NoWords(s, i);
    hide StartsWith, ParseArray;
  }

  lemma IsObject(s: Text, i: nat)
    requires At(s, i) == LBRACE
    ensures ParseValue(s, i) == ParseObject(s, i)
  {
    NoWords(s, i);
    hide StartsWith, ParseObject;
  }

  lemma EmptyArray(b: Text, s: Text, i: nat)
    requires Blank(b) && At(s, i) == LBRACKET && Occurs(b, s, i + 1) && At(s, i + 1 + |b|) == RBRACKET
    ensures ParseArray(s, i) == Ok(Array([]), i + 1 + |b| + 1)
  {
    SkipBlanks(b, s, i + 1);
    SkipNothing(s, i + 1 + |b|);
  }

  lemma EmptyObject(b: Text, s: Text, i: nat)
    requires Blank(b) && At(s, i) == LBRACE && Occurs(b, s, i + 1) && At(s, i + 1 + |b|) == RBRACE
    ensures ParseObject(s, i) == Ok(Object([]), i + 1 + |b| + 1)
  {
    SkipBlanks(b, s, i + 1);
    SkipNothing(s, i + 1 + |b|);
  }

  /** A text between two brackets. */
  lemma Between(open: Text, t: Text, close: Text, s: Text, i: nat)
    requires Occurs(open + (t + close), s, i) && |open| == |close| == 1
    ensures At(s, i) == open[0] && Occurs(t, s, i + 1) && At(s, i + 1 + |t|) == close[0]
  {
    OccursSplit(open, t + close, s, i);
    OccursSplit(t, close, s, i + 1);
    OccursFirst(open, s, i);
    OccursFirst(close, s, i + 1 + |t|);
  }

  lemma {:induction false} ReadArr(b: Text, items: seq<Slot>, s: Text, i: nat)
    requires Blank(b) && AreSlots(items) && Occurs(SpellingText(Arr(b, items)), s, i)
    ensures ParseValue(s, i) == Ok(Array(Meanings(items)), i + |SpellingText(Arr(b, items))|) && Starts(At(s, i))
    decreases items, 3
  {
    hide Occurs, Skip, ParseValue, ParseArray, ParseItems, SlotsText, Meanings, Ascii;
    Brackets();
    var t := if items == [] then b else SlotsText(items);
    Between(Ascii("["), t, Ascii("]"), s, i);
    IsArray(s, i);
    if items == [] {
      EmptyArray(b, s, i);
      assert Meanings(items) == [] by {
        NoMeanings(items);
      }
    } else {
      ReadSlots(items, s, i + 1);
      ParseFullArray(s, i, Meanings(items), i + 1 + |t| + 1);
    }
  }

  lemma NoMeanings(items: seq<Slot>)
    requires items == []
    ensures AreSlots(items) && Meanings(items) == []
  {
  }

  lemma OneMeaning(items: seq<Slot>)
    requires |items| == 1 && AreSlots(items)
    ensures Meanings(items) == [SlotMeaning(items[0])]
  {
    assert items[1..] == [];
    hide IsSlot, SlotMeaning;
  }

  lemma OneMemberMeant(members: seq<Pair>)
    requires |members| == 1 && ArePairs(members)
    ensures MembersMeant(members) == [PairMeaning(members[0])]
  {
    assert members[1..] == [];
    hide IsPair, PairMeaning;
  }

  lemma NoMembersMeant(members: seq<Pair>)
    requires members == []
    ensures ArePairs(members) && MembersMeant(members) == []
  {
  }

  lemma {:induction false} ReadObj(b: Text, members: seq<Pair>, s: Text, i: nat)
    requires Blank(b) && ArePairs(members) && Occurs(SpellingText(Obj(b, members)), s, i)
    ensures ParseValue(s, i) == Ok(Object(MembersMeant(members)), i + |SpellingText(Obj(b, members))|)
    ensures Starts(At(s, i))
    decreases members, 3
  {
    hide Occurs, Skip, ParseValue, ParseObject, ParseMembers, PairsText, MembersMeant, Ascii;
    Brackets();
    var t := if members == [] then b else PairsText(members);
    Between(Ascii("{"), t, Ascii("}"), s, i);
    IsObject(s, i);
    if members == [] {
      EmptyObject(b, s, i);
      assert MembersMeant(members) == [] by {
        NoMembersMeant(members);
      }
    } else {
      ReadPairs(members, s, i + 1);
      ParseFullObject(s, i, MembersMeant(members), i + 1 + |t| + 1);
    }
  }

  /** What is behind the slot does not go on with its number. */
  ghost predicate Ends(x: Slot, b: byte) {
    x.value.Num? && x.after == [] ==> EndsNumber(b)
  }

  lemma BlankEndsNumber(b: Text, s: Text, i: nat)
    requires Blank(b) && Occurs(b, s, i)
    ensures b != [] || EndsNumber(At(s, i + |b|)) ==> EndsNumber(At(s, i))
    ensures Skip(s, i) == Skip(s, i + |b|)
  {
    if b != [] {
      OccursFirst(b, s, i);
    }
    SkipBlanks(b, s, i);
  }

  /** A value with blanks around it. */
  lemma {:induction false} ReadSlot(x: Slot, s: Text, i: nat) returns (n: nat)
    requires IsSlot(x) && Occurs(SlotText(x), s, i) && Ends(x, At(s, i + |SlotText(x)|))
    ensures ParseValue(s, Skip(s, i)) == Ok(SlotMeaning(x), n) && Skip(s, n) == Skip(s, i + |SlotText(x)|)
    ensures n + |x.after| == i + |SlotText(x)|
    ensures Starts(At(s, Skip(s, i)))
    decreases x, 4
  {
    hide Occurs, Skip, ParseValue, SpellingText, Meaning, EndsNumber, Blank;
    var v := SpellingText(x.value);
    OccursSplit(x.before, v + x.after, s, i);
    OccursSplit(v, x.after, s, i + |x.before|);
    n := i + |x.before| + |v|;
    BlankEndsNumber(x.after, s, n);
    SkipBlanks(x.before, s, i);
    ReadSpelling(x.value, s, i + |x.before|);
    SkipNothing(s, i + |x.before|);
  }

  lemma DelimiterEnds(s: Text, k: nat)
    requires At(s, k) == COMMA || At(s, k) == RBRACKET || At(s, k) == RBRACE
    ensures EndsNumber(At(s, k)) && Skip(s, k) == k
  {
  }

  lemma {:induction false} ReadSlots(items: seq<Slot>, s: Text, i: nat)
    requires items != [] && AreSlots(items) && Occurs(SlotsText(items), s, i)
    requires At(s, i + |SlotsText(items)|) == RBRACKET
    ensures ParseItems(s, i) == Ok(Meanings(items), i + |SlotsText(items)| + 1)
    ensures At(s, Skip(s, i)) != RBRACKET
    decreases items, 2
  {
    hide Occurs, Skip, ParseValue, ParseItems, SlotText, SlotMeaning, EndsNumber, Ascii, IsSlot;
    var x := SlotText(items[0]);
    var k := i + |x|;
    if |items| > 1 {
      SplitSlots(items, s, i);
    }
    DelimiterEnds(s, k);
    var n := ReadSlot(items[0], s, i);
    if |items| == 1 {
      ParseLastItem(s, i, SlotMeaning(items[0]), n);
      OneMeaning(items);
    } else {
      ReadSlots(items[1..], s, k + 1);
      ParseNextItem(s, i, SlotMeaning(items[0]), n, Meanings(items[1..]), i + |SlotsText(items)| + 1);
    }
  }

  lemma SplitSlots(items: seq<Slot>, s: Text, i: nat)
    requires |items| > 1 && Occurs(SlotsText(items), s, i)
    ensures var k := i + |SlotText(items[0])|;
            && Occurs(SlotText(items[0]), s, i) && At(s, k) == COMMA && Occurs(SlotsText(items[1..]), s, k + 1)
            && i + |SlotsText(items)| == k + 1 + |SlotsText(items[1..])|
  {
    hide Occurs, SlotText, Ascii;
    Brackets();
    var x, rest := SlotText(items[0]), SlotsText(items[1..]);
    OccursSplit(x, Ascii(",") + rest, s, i);
    OccursSplit(Ascii(","), rest, s, i + |x|);
    OccursFirst(Ascii(","), s, i + |x|);
  }

  lemma SplitPair(m: Pair, s: Text, i: nat)
    requires Blank(m.before) && Blank(m.after) && Occurs(PairText(m), s, i)
    ensures var k := i + |m.before|;
            var e := k + |StringText(m.name)|;
            && Occurs(StringText(m.name), s, k) && Skip(s, i) == Skip(s, k) && Skip(s, e) == Skip(s, e + |m.after|)
            && At(s, e + |m.after|) == COLON && Occurs(SlotText(m.value), s, e + |m.after| + 1)
            && i + |PairText(m)| == e + |m.after| + 1 + |SlotText(m.value)|
  {
    hide Occurs, SlotText, StringText, Ascii, Blank, Skip;
    Brackets();
    var b, n, a, c, v := m.before, StringText(m.name), m.after, Ascii(":"), SlotText(m.value);
    OccursSplit(b, n + (a + (c + v)), s, i);
    OccursSplit(n, a + (c + v), s, i + |b|);
    OccursSplit(a, c + v, s, i + |b| + |n|);
    OccursSplit(c, v, s, i + |b| + |n| + |a|);
    OccursFirst(c, s, i + |b| + |n| + |a|);
    SkipBlanks(b, s, i);
    SkipBlanks(a, s, i + |b| + |n|);
  }

  lemma {:induction false} ReadMemberAt(m: Pair, s: Text, i: nat) returns (n: nat)
    requires IsPair(m) && Occurs(PairText(m), s, i) && Ends(m.value, At(s, i + |PairText(m)|))
    ensures ParseMember(s, i) == Ok(PairMeaning(m), n)
    ensures Skip(s, n) == Skip(s, i + |PairText(m)|) && At(s, Skip(s, i)) == QUOTE
    decreases m, 5
  {
    hide Occurs, Skip, ParseValue, ParseString, ParseMember, SlotText, StringText, PairText, SlotMeaning, EndsNumber;
    hide IsSlot, AreChars, Spelled, Blank;
    SplitPair(m, s, i);
    var k := i + |m.before|;
    var e := k + |StringText(m.name)|;
    ReadLiteral(m.name, s, k);
    SkipNothing(s, k);
    SkipNothing(s, e + |m.after|);
    n := ReadSlot(m.value, s, e + |m.after| + 1);
    ParseOneMember(s, i, Spelled(m.name), e, SlotMeaning(m.value), n);
  }

  lemma {:induction false} ReadPairs(members: seq<Pair>, s: Text, i: nat)
    requires members != [] && ArePairs(members) && Occurs(PairsText(members), s, i)
    requires At(s, i + |PairsText(members)|) == RBRACE
    ensures ParseMembers(s, i) == Ok(MembersMeant(members), i + |PairsText(members)| + 1)
    ensures At(s, Skip(s, i)) != RBRACE
    decreases members, 2
  {
    hide Occurs, Skip, ParseMember, ParseMembers, PairText, PairMeaning, EndsNumber, Ascii, IsPair;
    var x := PairText(members[0]);
    var k := i + |x|;
    var m := PairMeaning(members[0]);
    if |members| > 1 {
      SplitPairs(members, s, i);
    }
    DelimiterEnds(s, k);
    var n := ReadMemberAt(members[0], s, i);
    if |members| == 1 {
      ParseLastMember(s, i, m, n);
      OneMemberMeant(members);
    } else {
      ReadPairs(members[1..], s, k + 1);
      ParseNextMember(s, i, m, n, MembersMeant(members[1..]), i + |PairsText(members)| + 1);
    }
  }

  lemma SplitPairs(members: seq<Pair>, s: Text, i: nat)
    requires |members| > 1 && Occurs(PairsText(members), s, i)
    ensures var k := i + |PairText(members[0])|;
            && Occurs(PairText(members[0]), s, i) && At(s, k) == COMMA && Occurs(PairsText(members[1..]), s, k + 1)
            && i + |PairsText(members)| == k + 1 + |PairsText(members[1..])|
  {
    hide Occurs, PairText, Ascii;
    Brackets();
    var x, rest := PairText(members[0]), PairsText(members[1..]);
    OccursSplit(x, Ascii(",") + rest, s, i);
    OccursSplit(Ascii(","), rest, s, i + |x|);
    OccursFirst(Ascii(","), s, i + |x|);
  }

  // ----- The main result ---------------------------------------------------

  lemma AtEnd(s: Text)
    ensures EndsNumber(At(s, |s|)) && Skip(s, |s|) == |s|
  {
  }

  /** Every JSON text is read as the value that it spells, up to its end, or up to the end of the value
      if trailing text is allowed. */
  lemma JsonIsAccepted(x: Slot)
    requires IsSlot(x)
    ensures ParseWithOpts(SlotText(x), true) == Ok(SlotMeaning(x), |SlotText(x)|)
    ensures ParseWithOpts(SlotText(x), false) == Ok(SlotMeaning(x), |SlotText(x)| - |x.after|)
  {
    var s := SlotText(x);
    OccursWhole(s);
    AtEnd(s);
    hide Occurs, Skip, ParseValue, SlotMeaning, EndsNumber, Ascii, IsSlot;
    var n := ReadSlot(x, s, 0);
  }

  /** A JSON text with comments in it, which the parser refuses, can be parsed when it has been minified: what
      is left are the literals and the other bytes among its pieces. */
  lemma CommentsAreStripped(ps: seq<M.Piece>, x: Slot)
    requires M.ArePieces(ps) && NulFree(M.TextOf(ps)) && IsSlot(x) && M.Kept(ps) == SlotText(x)
    ensures M.Closed(M.TextOf(ps), 0)
    ensures ParseWithOpts(M.Minify(M.TextOf(ps), 0), true) == Ok(SlotMeaning(x), |SlotText(x)|)
  {
    M.MinifyPieces(ps);
    JsonIsAccepted(x);
  }

  // ----- Texts that are no JSON --------------------------------------------

  /** The beginning of a text up to the first byte that cannot follow: a value is missing, or an item
      or a member breaks off. */
  datatype Broken =
    | NoValue
    | InItem(items: seq<Slot>, before: Text, rest: Broken)
    | BehindItem(items: seq<Slot>, last: Slot)
    | NoName(members: seq<Pair>, before: Text)
    | NoColon(members: seq<Pair>, before: Text, name: seq<Char>, after: Text)
    | InMember(members: seq<Pair>, before: Text, name: seq<Char>, after: Text, gap: Text, rest: Broken)
    | BehindMember(members: seq<Pair>, final: Pair)

  /** Items with a comma behind each of them. */
  function ItemsBefore(items: seq<Slot>): Text {
    if items == [] then [] else SlotText(items[0]) + (Ascii(",") + ItemsBefore(items[1..]))
  }

  function MembersBefore(members: seq<Pair>): Text {
    if members == [] then [] else PairText(members[0]) + (Ascii(",") + MembersBefore(members[1..]))
  }

  function ItemHead(items: seq<Slot>, g: Text): Text {
    Ascii("[") + (ItemsBefore(items) + g)
  }

  function MemberHead(members: seq<Pair>, g: Text, n: seq<Char>, a: Text, c: Text): Text {
    Ascii("{") + (MembersBefore(members) + (g + (StringText(n) + (a + (Ascii(":") + c)))))
  }

  function BrokenText(b: Broken): Text {
    match b
    case NoValue => []
    case InItem(items, g, rest) => ItemHead(items, g) + BrokenText(rest)
    case BehindItem(items, last) => Ascii("[") + (ItemsBefore(items) + SlotText(last))
    case NoName(members, g) => Ascii("{") + (MembersBefore(members) + g)
    case NoColon(members, g, n, a) => Ascii("{") + (MembersBefore(members) + (g + (StringText(n) + a)))
    case InMember(members, g, n, a, c, rest) => MemberHead(members, g, n, a, c) + BrokenText(rest)
    case BehindMember(members, final) => Ascii("{") + (MembersBefore(members) + PairText(final))
  }

  /** A byte that `skip` stops at, other than `b` and `c`. */
  ghost predicate Neither(x: byte, b: char, c: char) {
    !(0 < x <= 32) && x as char != b && x as char != c
  }

  /** No value starts here. */
  ghost predicate NothingAt(s: Text, k: nat) {
    && Neither(At(s, k), '\"', '-') && Neither(At(s, k), '[', '{') && !('0' <= At(s, k) as char <= '9')
    && !StartsWith(s, k, Ascii("null")) && !StartsWith(s, k, Ascii("false")) && !StartsWith(s, k, Ascii("true"))
  }

  /** What is at `k` cannot follow. */
  ghost predicate Fails(b: Broken, s: Text, k: nat) {
    match b
    case NoValue => NothingAt(s, k)
    case InItem(items, g, rest) =>
      && AreSlots(items) && Blank(g) && Fails(rest, s, k)
      && (items == [] && rest.NoValue? ==> At(s, k) as char != ']')
    case BehindItem(items, last) =>
      AreSlots(items) && IsSlot(last) && Ends(last, At(s, k)) && Neither(At(s, k), ',', ']')
    case NoName(members, g) =>
      && ArePairs(members) && Blank(g) && Neither(At(s, k), '\"', '\"')
      && (members == [] ==> At(s, k) as char != '}')
    case NoColon(members, g, n, a) =>
      && ArePairs(members) && Blank(g) && AreChars(n) && Blank(a) && Neither(At(s, k), ':', ':')
    case InMember(members, g, n, a, c, rest) =>
      ArePairs(members) && Blank(g) && AreChars(n) && Blank(a) && Blank(c) && Fails(rest, s, k)
    case BehindMember(members, final) =>
      ArePairs(members) && IsPair(final) && Ends(final.value, At(s, k)) && Neither(At(s, k), ',', '}')
  }

  lemma StopsAt(s: Text, k: nat, b: char, c: char)
    requires Neither(At(s, k), b, c)
    ensures Skip(s, k) == k
  {
  }

  /** The items that are there are read, and the error is behind them. */
  lemma {:induction false} PastItems(items: seq<Slot>, s: Text, i: nat, k: nat)
    requires AreSlots(items) && Occurs(ItemsBefore(items), s, i)
    requires ParseItems(s, i + |ItemsBefore(items)|) == Error(k)
    ensures ParseItems(s, i) == Error(k) && (items != [] ==> At(s, Skip(s, i)) != RBRACKET)
    decreases |items|
  {
    hide Occurs, Skip, ParseValue, ParseItems, SlotText, SlotMeaning, EndsNumber, Ascii, IsSlot;
    if items != [] {
      var x, rest := SlotText(items[0]), ItemsBefore(items[1..]);
      Brackets();
      OccursSplit(x, Ascii(",") + rest, s, i);
      OccursSplit(Ascii(","), rest, s, i + |x|);
      OccursFirst(Ascii(","), s, i + |x|);
      DelimiterEnds(s, i + |x|);
      var n := ReadSlot(items[0], s, i);
      PastItems(items[1..], s, i + |x| + 1, k);
      ItemFails(s, i, SlotMeaning(items[0]), n, k);
    }
  }

  lemma ItemFails(s: Text, i: nat, v: Json, n: nat, k: nat)
    requires ParseValue(s, Skip(s, i)) == Ok(v, n)
    requires if At(s, Skip(s, n)) == COMMA then ParseItems(s, Skip(s, n) + 1) == Error(k)
             else At(s, Skip(s, n)) != RBRACKET && k == Skip(s, n)
    ensures ParseItems(s, i) == Error(k)
  {
    hide ParseValue, Skip;
  }

  lemma ItemBreaks(s: Text, i: nat, k: nat)
    requires ParseValue(s, Skip(s, i)) == Error(k)
    ensures ParseItems(s, i) == Error(k)
  {
    hide ParseValue, Skip;
  }

  lemma ArrayFails(s: Text, i: nat, k: nat)
    requires At(s, i) == LBRACKET && At(s, Skip(s, i + 1)) != RBRACKET && ParseItems(s, i + 1) == Error(k)
    ensures ParseValue(s, i) == Error(k)
  {
    IsArray(s, i);
    hide ParseItems, Skip;
  }

  lemma {:induction false} PastMembers(members: seq<Pair>, s: Text, i: nat, k: nat)
    requires ArePairs(members) && Occurs(MembersBefore(members), s, i)
    requires ParseMembers(s, i + |MembersBefore(members)|) == Error(k)
    ensures ParseMembers(s, i) == Error(k) && (members != [] ==> At(s, Skip(s, i)) != RBRACE)
    decreases |members|
  {
    hide Occurs, Skip, ParseMember, ParseMembers, PairText, PairMeaning, EndsNumber, Ascii, IsPair;
    if members != [] {
      var x, rest := PairText(members[0]), MembersBefore(members[1..]);
      Brackets();
      OccursSplit(x, Ascii(",") + rest, s, i);
      OccursSplit(Ascii(","), rest, s, i + |x|);
      OccursFirst(Ascii(","), s, i + |x|);
      DelimiterEnds(s, i + |x|);
      var n := ReadMemberAt(members[0], s, i);
      PastMembers(members[1..], s, i + |x| + 1, k);
      MembersFail(s, i, PairMeaning(members[0]), n, k);
    }
  }

  lemma MembersFail(s: Text, i: nat, m: Member, n: nat, k: nat)
    requires ParseMember(s, i) == Ok(m, n)
    requires if At(s, Skip(s, n)) == COMMA then ParseMembers(s, Skip(s, n) + 1) == Error(k)
             else At(s, Skip(s, n)) != RBRACE && k == Skip(s, n)
    ensures ParseMembers(s, i) == Error(k)
  {
    hide ParseMember, Skip;
  }

  lemma MemberBreaks(s: Text, i: nat, k: nat)
    requires ParseMember(s, i) == Error(k)
    ensures ParseMembers(s, i) == Error(k)
  {
    hide ParseMember, Skip;
  }

  lemma ObjectFails(s: Text, i: nat, k: nat)
    requires At(s, i) == LBRACE && At(s, Skip(s, i + 1)) != RBRACE && ParseMembers(s, i + 1) == Error(k)
    ensures ParseValue(s, i) == Error(k)
  {
    IsObject(s, i);
    hide ParseMembers, Skip;
  }

  lemma NothingIsRead(s: Text, k: nat)
    requires NothingAt(s, k)
    ensures ParseValue(s, k) == Error(k) && Skip(s, k) == k
  {
    Characters();
  }

  lemma Opened(open: Text, t: Text, s: Text, i: nat)
    requires Occurs(open + t, s, i) && |open| == 1
    ensures At(s, i) == open[0] && Occurs(t, s, i + 1)
  {
    OccursSplit(open, t, s, i);
    OccursFirst(open, s, i);
  }

  /** Where a broken text starts. */
  lemma BrokenStarts(b: Broken, s: Text, i: nat)
    requires Occurs(BrokenText(b), s, i) && Fails(b, s, i + |BrokenText(b)|)
    ensures Skip(s, i) == i
    ensures b != NoValue ==> At(s, i) == LBRACKET || At(s, i) == LBRACE
  {
    hide ItemsBefore, MembersBefore, SlotText, PairText, StringText, Occurs, Ascii;
    Brackets();
    if b == NoValue {
      NothingIsRead(s, i);
    } else {
      hide Fails;
      OccursFirst(BrokenText(b), s, i);
      SkipNothing(s, i);
    }
  }

  /** `k` is where the value of the next item fails, and `p` is where it starts. */
  lemma InItemFails(items: seq<Slot>, g: Text, s: Text, i: nat, p: nat, k: nat)
    requires AreSlots(items) && Blank(g) && Occurs(ItemHead(items, g), s, i) && p == i + |ItemHead(items, g)|
    requires ParseValue(s, p) == Error(k) && Skip(s, p) == p && (items == [] ==> At(s, p) != RBRACKET)
    ensures ParseValue(s, i) == Error(k)
  {
    hide Occurs, Skip, ParseValue, ParseItems, ItemsBefore, AreSlots, Ascii, Blank;
    Brackets();
    var before := ItemsBefore(items);
    Opened(Ascii("["), before + g, s, i);
    OccursSplit(before, g, s, i + 1);
    SkipBlanks(g, s, i + 1 + |before|);
    ItemBreaks(s, i + 1 + |before|, k);
    PastItems(items, s, i + 1, k);
    NoItemsBefore(items);
    ArrayFails(s, i, k);
  }

  lemma NoItemsBefore(items: seq<Slot>)
    ensures items == [] ==> ItemsBefore(items) == []
  {
  }

  lemma NoMembersBefore(members: seq<Pair>)
    ensures members == [] ==> MembersBefore(members) == []
  {
  }

  lemma BehindItemFails(items: seq<Slot>, last: Slot, s: Text, i: nat)
    requires var b := BehindItem(items, last);
             Occurs(BrokenText(b), s, i) && Fails(b, s, i + |BrokenText(b)|)
    ensures ParseValue(s, i) == Error(i + |BrokenText(BehindItem(items, last))|)
  {
    hide Occurs, Skip, ParseValue, ParseItems, ItemsBefore, AreSlots, IsSlot, SlotText, SlotMeaning, Ascii;
    Brackets();
    Characters();
    var before, x := ItemsBefore(items), SlotText(last);
    var j := i + 1 + |before|;
    Opened(Ascii("["), before + x, s, i);
    OccursSplit(before, x, s, i + 1);
    StopsAt(s, j + |x|, ',', ']');
    var n := ReadSlot(last, s, j);
    ItemFails(s, j, SlotMeaning(last), n, j + |x|);
    PastItems(items, s, i + 1, j + |x|);
    NoItemsBefore(items);
    ArrayFails(s, i, j + |x|);
  }

  lemma MemberHasNoName(s: Text, j: nat, k: nat)
    requires Skip(s, j) == k && At(s, k) != QUOTE
    ensures ParseMember(s, j) == Error(k)
  {
    hide Skip, ParseValue;
  }

  lemma MemberHasNoColon(s: Text, j: nat, name: Text, n: nat, k: nat)
    requires ParseString(s, Skip(s, j)) == Ok(name, n) && Skip(s, n) == k && At(s, k) != COLON
    ensures ParseMember(s, j) == Error(k)
  {
    hide Skip, ParseValue, ParseString;
  }

  lemma MemberHasNoValue(s: Text, j: nat, name: Text, n: nat, k: nat)
    requires ParseString(s, Skip(s, j)) == Ok(name, n) && At(s, Skip(s, n)) == COLON
    requires ParseValue(s, Skip(s, Skip(s, n) + 1)) == Error(k)
    ensures ParseMember(s, j) == Error(k)
  {
    hide Skip, ParseValue, ParseString;
  }

  lemma NoNameFails(members: seq<Pair>, g: Text, s: Text, i: nat)
    requires var b := NoName(members, g);
             Occurs(BrokenText(b), s, i) && Fails(b, s, i + |BrokenText(b)|)
    ensures ParseValue(s, i) == Error(i + |BrokenText(NoName(members, g))|)
  {
    hide Occurs, Skip, ParseValue, ParseMembers, ParseMember, MembersBefore, ArePairs, Ascii, Blank;
    Brackets();
    Characters();
    var before := MembersBefore(members);
    var j := i + 1 + |before|;
    Opened(Ascii("{"), before + g, s, i);
    OccursSplit(before, g, s, i + 1);
    SkipBlanks(g, s, j);
    StopsAt(s, j + |g|, '\"', '\"');
    MemberHasNoName(s, j, j + |g|);
    MemberBreaks(s, j, j + |g|);
    PastMembers(members, s, i + 1, j + |g|);
    NoMembersBefore(members);
    ObjectFails(s, i, j + |g|);
  }

  /** A name with blanks around it. */
  lemma ReadName(g: Text, n: seq<Char>, a: Text, s: Text, j: nat)
    requires Blank(g) && AreChars(n) && Blank(a) && Occurs(g, s, j) && Occurs(StringText(n), s, j + |g|)
    requires Occurs(a, s, j + |g| + |StringText(n)|)
    ensures var e := j + |g| + |StringText(n)|;
            ParseString(s, Skip(s, j)) == Ok(Spelled(n), e) && Skip(s, e) == Skip(s, e + |a|)
    ensures At(s, Skip(s, j)) == QUOTE
  {
    hide Occurs, Skip, ParseString, AreChars, StringText, Spelled, Blank;
    ReadLiteral(n, s, j + |g|);
    SkipBlanks(g, s, j);
    SkipNothing(s, j + |g|);
    SkipBlanks(a, s, j + |g| + |StringText(n)|);
  }

  lemma NoColonFails(members: seq<Pair>, g: Text, n: seq<Char>, a: Text, s: Text, i: nat)
    requires var b := NoColon(members, g, n, a);
             Occurs(BrokenText(b), s, i) && Fails(b, s, i + |BrokenText(b)|)
    ensures ParseValue(s, i) == Error(i + |BrokenText(NoColon(members, g, n, a))|)
  {
    hide Occurs, Skip, ParseValue, ParseMembers, ParseMember, MembersBefore, ArePairs, Ascii, Blank, AreChars;
    hide StringText, Spelled;
    Brackets();
    var before, name := MembersBefore(members), StringText(n);
    var j := i + 1 + |before|;
    var k := j + |g| + |name| + |a|;
    Opened(Ascii("{"), before + (g + (name + a)), s, i);
    OccursSplit(before, g + (name + a), s, i + 1);
    OccursSplit(g, name + a, s, j);
    OccursSplit(name, a, s, j + |g|);
    ReadName(g, n, a, s, j);
    StopsAt(s, k, ':', ':');
    MemberHasNoColon(s, j, Spelled(n), j + |g| + |name|, k);
    MemberBreaks(s, j, k);
    PastMembers(members, s, i + 1, k);
    NoMembersBefore(members);
    ObjectFails(s, i, k);
  }

  lemma SplitHead(members: seq<Pair>, g: Text, n: seq<Char>, a: Text, c: Text, s: Text, i: nat)
    requires Occurs(MemberHead(members, g, n, a, c), s, i)
    ensures var j := i + 1 + |MembersBefore(members)|;
            var e := j + |g| + |StringText(n)|;
            && At(s, i) == LBRACE && Occurs(MembersBefore(members), s, i + 1) && Occurs(g, s, j)
            && Occurs(StringText(n), s, j + |g|) && Occurs(a, s, e) && At(s, e + |a|) == COLON
            && Occurs(c, s, e + |a| + 1) && i + |MemberHead(members, g, n, a, c)| == e + |a| + 1 + |c|
  {
    hide Occurs, MembersBefore, StringText, Ascii;
    Brackets();
    var before, name := MembersBefore(members), StringText(n);
    var j := i + 1 + |before|;
    var e := j + |g| + |name|;
    Opened(Ascii("{"), before + (g + (name + (a + (Ascii(":") + c)))), s, i);
    OccursSplit(before, g + (name + (a + (Ascii(":") + c))), s, i + 1);
    OccursSplit(g, name + (a + (Ascii(":") + c)), s, j);
    OccursSplit(name, a + (Ascii(":") + c), s, j + |g|);
    OccursSplit(a, Ascii(":") + c, s, e);
    Opened(Ascii(":"), c, s, e + |a|);
  }

  lemma InMemberFails(members: seq<Pair>, g: Text, n: seq<Char>, a: Text, c: Text, s: Text, i: nat, p: nat, k: nat)
    requires ArePairs(members) && Blank(g) && AreChars(n) && Blank(a) && Blank(c)
    requires Occurs(MemberHead(members, g, n, a, c), s, i) && p == i + |MemberHead(members, g, n, a, c)|
    requires ParseValue(s, p) == Error(k) && Skip(s, p) == p
    ensures ParseValue(s, i) == Error(k)
  {
    hide Occurs, Skip, ParseValue, ParseMembers, ParseMember, ParseString, MembersBefore, ArePairs, Ascii, Blank;
    hide AreChars, StringText, Spelled, MemberHead;
    SplitHead(members, g, n, a, c, s, i);
    var j := i + 1 + |MembersBefore(members)|;
    var e := j + |g| + |StringText(n)|;
    ReadName(g, n, a, s, j);
    SkipNothing(s, e + |a|);
    SkipBlanks(c, s, e + |a| + 1);
    MemberHasNoValue(s, j, Spelled(n), e, k);
    MemberBreaks(s, j, k);
    PastMembers(members, s, i + 1, k);
    NoMembersBefore(members);
    ObjectFails(s, i, k);
  }

  lemma BehindMemberFails(members: seq<Pair>, final: Pair, s: Text, i: nat)
    requires var b := BehindMember(members, final);
             Occurs(BrokenText(b), s, i) && Fails(b, s, i + |BrokenText(b)|)
    ensures ParseValue(s, i) == Error(i + |BrokenText(BehindMember(members, final))|)
  {
    hide Occurs, Skip, ParseValue, ParseMembers, ParseMember, MembersBefore, ArePairs, IsPair, PairText, PairMeaning;
    hide Ascii;
    Brackets();
    Characters();
    var before, x := MembersBefore(members), PairText(final);
    var j := i + 1 + |before|;
    Opened(Ascii("{"), before + x, s, i);
    OccursSplit(before, x, s, i + 1);
    StopsAt(s, j + |x|, ',', '}');
    var n := ReadMemberAt(final, s, j);
    MembersFail(s, j, PairMeaning(final), n, j + |x|);
    PastMembers(members, s, i + 1, j + |x|);
    NoMembersBefore(members);
    ObjectFails(s, i, j + |x|);
  }

  lemma NoValueFails(s: Text, i: nat)
    requires Fails(NoValue, s, i + |BrokenText(NoValue)|)
    ensures ParseValue(s, i) == Error(i + |BrokenText(NoValue)|)
  {
    NothingIsRead(s, i);
    hide ParseValue;
  }

  /** The parser stops at the first byte that cannot follow. */
  lemma {:induction false} BrokenFails(b: Broken, s: Text, i: nat)
    requires Occurs(BrokenText(b), s, i) && Fails(b, s, i + |BrokenText(b)|)
    ensures ParseValue(s, i) == Error(i + |BrokenText(b)|)
    decreases b, 0
  {
    hide BrokenText, Fails, ParseValue, Occurs;
    match b
    case NoValue => NoValueFails(s, i);
    case InItem(items, g, rest) => ItemFailsAt(items, g, rest, s, i);
    case BehindItem(items, last) => BehindItemFails(items, last, s, i);
    case NoName(members, g) => NoNameFails(members, g, s, i);
    case NoColon(members, g, n, a) => NoColonFails(members, g, n, a, s, i);
    case InMember(members, g, n, a, c, rest) => MemberFailsAt(members, g, n, a, c, rest, s, i);
    case BehindMember(members, final) => BehindMemberFails(members, final, s, i);
  }

  lemma {:induction false} ItemFailsAt(items: seq<Slot>, g: Text, rest: Broken, s: Text, i: nat)
    requires var b := InItem(items, g, rest);
             Occurs(BrokenText(b), s, i) && Fails(b, s, i + |BrokenText(b)|)
    ensures ParseValue(s, i) == Error(i + |BrokenText(InItem(items, g, rest))|)
    decreases rest, 1
  {
    var p, k := i + |ItemHead(items, g)|, i + |BrokenText(InItem(items, g, rest))|;
    hide ParseValue, Occurs, ItemHead, AreSlots, Skip, Blank, NothingAt;
    Brackets();
    OccursSplit(ItemHead(items, g), BrokenText(rest), s, i);
    NoBroken(rest);
    hide BrokenText;
    BrokenStarts(rest, s, p);
    BrokenFails(rest, s, p);
    hide Fails;
    InItemFails(items, g, s, i, p, k);
  }

  lemma NoBroken(b: Broken)
    ensures b == NoValue ==> BrokenText(b) == []
  {
  }

  lemma FailsInMember(members: seq<Pair>, g: Text, n: seq<Char>, a: Text, c: Text, rest: Broken, s: Text, k: nat)
    requires Fails(InMember(members, g, n, a, c, rest), s, k)
    ensures ArePairs(members) && Blank(g) && AreChars(n) && Blank(a) && Blank(c) && Fails(rest, s, k)
  {
  }

  lemma {:induction false} MemberFailsAt(members: seq<Pair>, g: Text, n: seq<Char>, a: Text, c: Text, rest: Broken,
                                         s: Text, i: nat)
    requires var b := InMember(members, g, n, a, c, rest);
             Occurs(BrokenText(b), s, i) && Fails(b, s, i + |BrokenText(b)|)
    ensures ParseValue(s, i) == Error(i + |BrokenText(InMember(members, g, n, a, c, rest))|)
    decreases rest, 1
  {
    hide ParseValue, Occurs, MemberHead, ArePairs, AreChars, Skip, Blank, NothingAt, Fails;
    var head := MemberHead(members, g, n, a, c);
    var p, k := i + |head|, i + |BrokenText(InMember(members, g, n, a, c, rest))|;
    FailsInMember(members, g, n, a, c, rest, s, k);
    OccursSplit(head, BrokenText(rest), s, i);
    hide BrokenText;
    BrokenStarts(rest, s, p);
    BrokenFails(rest, s, p);
    InMemberFails(members, g, n, a, c, s, i, p, k);
  }

  /** A text that is no JSON is refused, and the error pointer is at the first byte that cannot follow:
      in place of a value, of a name, of a colon, or behind an item or a member. */
  lemma BrokenIsRefused(gap: Text, b: Broken, s: Text, requireNullTerminated: bool)
    requires Blank(gap) && Occurs(gap + BrokenText(b), s, 0) && Fails(b, s, |gap + BrokenText(b)|)
    ensures ParseWithOpts(s, requireNullTerminated) == Error(|gap + BrokenText(b)|)
  {
    hide ParseValue, Skip, BrokenText, Fails, Occurs;
    OccursSplit(gap, BrokenText(b), s, 0);
    SkipBlanks(gap, s, 0);
    BrokenStarts(b, s, |gap|);
    BrokenFails(b, s, |gap|);
  }

  /** Behind a value, anything but blanks is refused when the end of the text is asked for. */
  lemma TrailingIsRefused(x: Slot, s: Text)
    requires IsSlot(x) && Occurs(SlotText(x), s, 0) && Ends(x, At(s, |SlotText(x)|)) && At(s, |SlotText(x)|) > 32
    ensures ParseWithOpts(s, true) == Error(|SlotText(x)|)
    ensures ParseWithOpts(s, false) == Ok(SlotMeaning(x), |SlotText(x)| - |x.after|)
  {
    hide Occurs, Skip, ParseValue, SlotMeaning, SlotText, EndsNumber, Ascii, IsSlot;
    SkipNothing(s, |SlotText(x)|);
    var n := ReadSlot(x, s, 0);
  }
}
