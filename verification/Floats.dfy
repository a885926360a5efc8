/** `print_number`: the text of any number, printed from its exact value, and how it is read back. */
module Floats {
  import opened Bytes
  import opened Doubles
  import opened Numbers

  // ----- The numbers -------------------------------------------------------

  const MILLION: nat := 1000000

  /** `DBL_EPSILON`, two to the power of -52. */
  const EPSILON: real := 1.0 / 4503599627370496.0

  /** The doubles `1.0e-6` and `1.0e60`, which are a little less than these powers of ten. */
  const TEN_TO_MINUS_6: real := 4722366482869645.0 / 4722366482869645213696.0
  const TEN_TO_60: real := 999999999999999949387135297074018866963645011013410073083904.0

  /** The formats of `print_number`: `%lld`, `%.0f`, `%f` and `%e`. */
  datatype Format = Lld | F0 | F6 | E

  /** The format for an item with `valueint` `n` and `valuedouble` `v`. */
  function FormatBy(n: int, v: real): Format {
    if Abs(n as real - v) <= EPSILON && INT_MIN as real <= v <= INT_MAX as real then Lld
    else if Abs(v.Floor as real - v) <= EPSILON && Abs(v) < TEN_TO_60 then F0
    else if Abs(v) < TEN_TO_MINUS_6 || Abs(v) > 1000000000.0 then E
    else F6
  }

  /** The format if the fields agree. */
  function FormatOf(v: real): Format {
    FormatBy(Truncate(v), v)
  }

  /** Zero is not printed with a fraction. */
  lemma ZeroIsWhole(n: int)
    ensures FormatBy(n, 0.0) in {Lld, F0}
  {
  }

  // ----- Digits ------------------------------------------------------------

  lemma PowerStep(e: int)
    ensures Power(e + 1) == 10.0 * Power(e)
  {
    if e < 0 {
      assert Pow10(-e) == 10 * Pow10(-e - 1);
    }
  }

  lemma SixSteps(e: int)
    ensures Power(e) == MILLION as real * Power(e - 6)
  {
    PowerStep(e - 1);
    PowerStep(e - 2);
    PowerStep(e - 3);
    PowerStep(e - 4);
    PowerStep(e - 5);
    PowerStep(e - 6);
  }

  lemma {:induction false} DecimalBounds(n: nat)
    requires n > 0
    ensures Pow10(|Decimal(n)| - 1) <= n < Pow10(|Decimal(n)|)
  {
    if n >= 10 {
      DecimalBounds(n / 10);
    }
  }

  lemma TenfoldShrinks(a: real)
    requires 0.0 < a < 1.0
    ensures 10.0 * a < 1.0 ==> (1.0 / (10.0 * a)).Floor < (1.0 / a).Floor
    ensures (1.0 / a).Floor >= 1
  {
  }

  /** The position of the first digit of `a` that is not 0. */
  function Exponent(a: real): (e: int)
    requires a > 0.0
    ensures Power(e) <= a < Power(e + 1)
    decreases if a < 1.0 then (1.0 / a).Floor else 0
  {
    if a >= 1.0 then
      DecimalBounds(a.Floor);
      |Decimal(a.Floor)| - 1
    else
      TenfoldShrinks(a);
      PowerStep(Exponent(10.0 * a) - 1);
      PowerStep(Exponent(10.0 * a));
      Exponent(10.0 * a) - 1
  }

  /** Seven digits of `a` before rounding, as a number between a million and ten millions. */
  function Leading(a: real): (x: real)
    requires a > 0.0
    ensures MILLION as real <= x < (10 * MILLION) as real
  {
    var e := Exponent(a);
    PowerStep(e);
    LeadingBounds(a, Power(e));
    MILLION as real * a / Power(e)
  }

  lemma LeadingBounds(a: real, p: real)
    requires 0.0 < p <= a < 10.0 * p
    ensures MILLION as real <= MILLION as real * a / p < (10 * MILLION) as real
  {
    var x := MILLION as real * a / p;
    assert x * p == MILLION as real * a;
  }

  /** The seven digits and the exponent that `%e` prints: rounding up may add a digit. */
  function Scientific(a: real): (r: (nat, int))
    requires a > 0.0
    ensures MILLION <= r.0 < 10 * MILLION
  {
    var m := Round(Leading(a));
    if m == 10 * MILLION then (MILLION, Exponent(a) + 1) else (m, Exponent(a))
  }

  /** A finite number of the range of `double`. */
  predicate IsFinite(v: real) {
    v == 0.0 || -324 <= Exponent(Abs(v)) <= 308
  }

  // ----- The texts ---------------------------------------------------------

  /** The last `w` digits of `n`. */
  function Padded(n: nat, w: nat): (r: Text)
    ensures |r| == w && forall k :: 0 <= k < w ==> IsDigit(r[k])
  {
    if w == 0 then [] else Padded(n / 10, w - 1) + [48 + n % 10]
  }

  /** `q` millionths. */
  function FixedText(q: nat): (r: Text)
    ensures |r| > 0 && IsDigit(r[0])
  {
    Decimal(q / MILLION) + ([DOT] + Padded(q % MILLION, 6))
  }

  /** An exponent has at least two digits. */
  function ExponentText(e: int): (r: Text)
    ensures |r| > 0
  {
    var n: nat := if e < 0 then -e else e;
    [101, if e < 0 then MINUS else PLUS] + (if n < 10 then [48] else []) + Decimal(n)
  }

  function Signed(negative: bool, t: Text): Text {
    if negative then [MINUS] + t else t
  }

  function Sign(negative: bool, x: real): real {
    if negative then -x else x
  }

  /** What `print_number` prints for a number without its sign. */
  function Magnitude(f: Format, a: real): (r: Text)
    requires a >= 0.0 && f != Lld && (f == E ==> a > 0.0)
    ensures |r| > 0 && IsDigit(r[0])
  {
    match f
    case F0 => Decimal(Round(a))
    case F6 => FixedText(Round(MILLION as real * a))
    case E => FixedText(Scientific(a).0) + ExponentText(Scientific(a).1)
  }

  /** What is printed for an item with these fields. */
  function NumberText(n: int, v: real): (r: Text)
    ensures |r| > 0 && (r[0] == MINUS || IsDigit(r[0]))
  {
    ZeroIsWhole(n);
    if FormatBy(n, v) == Lld then PrintInt(n) else Signed(v < 0.0, Magnitude(FormatBy(n, v), Abs(v)))
  }

  /** What is printed for a number if the fields agree. */
  function PrintNumber(v: real): (r: Text)
    ensures |r| > 0 && (r[0] == MINUS || IsDigit(r[0]))
  {
    NumberText(Truncate(v), v)
  }

  // ----- Reading back what was printed -------------------------------------

  /** What the text of a number gives when it is read in the arithmetic `a`. */
  function RereadIn(a: Arithmetic, n: int, v: real): real {
    ZeroIsWhole(n);
    match FormatBy(n, v)
    case Lld => a.scale(Sign(n < 0, WholeMantissa(a, if n < 0 then -n else n)), 0)
    case F0 => a.scale(Sign(v < 0.0, WholeMantissa(a, Round(Abs(v)))), 0)
    case F6 => a.scale(Sign(v < 0.0, Round(MILLION as real * Abs(v)) as real), -6)
    case E => a.scale(Sign(v < 0.0, Scientific(Abs(v)).0 as real), Scientific(Abs(v)).1 - 6)
  }

  /** What `parse_number` gives for the text of a number. */
  function RereadNumber(v: real): real {
    RereadIn(DOUBLES, Truncate(v), v)
  }

  lemma {:induction false} ReadPadded(a: Arithmetic, n: nat, w: nat, s: Text, i: nat, acc: nat)
    requires KeepsIntegers(a) && Occurs(Padded(n, w), s, i) && n < Pow10(w) && acc * Pow10(w) + n <= TWO_53
    ensures ReadMantissa(a, s, i, acc as real) == ReadMantissa(a, s, i + w, (acc * Pow10(w) + n) as real)
    decreases w
  {
    if w > 0 {
      OccursSplit(Padded(n / 10, w - 1), [48 + n % 10], s, i);
      LastDigit(acc, Pow10(w - 1), n);
      ReadPadded(a, n / 10, w - 1, s, i, acc);
      assert s[i + w - 1] == [48 + n % 10][0];
      assert StepsExactly(a, acc * Pow10(w - 1) + n / 10, n % 10);
    }
  }

  lemma LastDigit(acc: nat, p: nat, n: nat)
    ensures 10 * (acc * p + n / 10) + n % 10 == acc * (10 * p) + n
  {
  }

  lemma FixedParts(q: nat, s: Text, i: nat)
    requires Occurs(FixedText(q), s, i)
    ensures var k := i + |Decimal(q / MILLION)|;
            && Occurs(Decimal(q / MILLION), s, i) && At(s, k) == DOT && IsDigit(At(s, k + 1))
            && Occurs(Padded(q % MILLION, 6), s, k + 1) && k + 7 == i + |FixedText(q)|
  {
    var p, k := Padded(q % MILLION, 6), i + |Decimal(q / MILLION)|;
    OccursSplit(Decimal(q / MILLION), [DOT] + p, s, i);
    OccursSplit([DOT], p, s, k);
    assert At(s, k) == [DOT][0];
    assert At(s, k + 1) == p[0];
  }

  lemma NoDigits(a: Arithmetic, s: Text, i: nat, acc: real)
    requires !IsDigit(At(s, i))
    ensures ReadMantissa(a, s, i, acc) == (acc, i)
  {
  }

  lemma ReadFixed(a: Arithmetic, q: nat, s: Text, i: nat)
    requires KeepsIntegers(a) && q <= TWO_53 && Occurs(FixedText(q), s, i) && !IsDigit(At(s, i + |FixedText(q)|))
    ensures At(s, i) != MINUS
    ensures var whole := IntegerPart(a, s, i);
            && whole.1 + 7 == i + |FixedText(q)|
            && FractionPart(a, s, whole.1, whole.0) == (q as real, i + |FixedText(q)|)
  {
    hide KeepsIntegers, Mantissa, FixedText, Occurs, Decimal, Padded, IntegerPart, ReadMantissa;
    var n := q / MILLION;
    var k := i + |Decimal(n)|;
    FixedParts(q, s, i);
    ReadInteger(a, n, s, i);
    MantissaIsExact(a, n);
    SixDigits();
    assert n * MILLION + q % MILLION == q;
    ReadPadded(a, q % MILLION, 6, s, k + 1, n);
    NoDigits(a, s, k + 7, q as real);
  }

  lemma SixDigits()
    ensures Pow10(6) == MILLION
  {
    assert Pow10(3) == 1000;
  }

  lemma ExponentParts(e: int, s: Text, i: nat)
    requires Occurs(ExponentText(e), s, i)
    ensures var n: nat := if e < 0 then -e else e;
            var k := i + if n < 10 then 3 else 2;
            && At(s, i) == 101 && At(s, i + 1) == (if e < 0 then MINUS else PLUS) && (n < 10 ==> At(s, i + 2) == 48)
            && Occurs(Decimal(n), s, k) && k + |Decimal(n)| == i + |ExponentText(e)|
  {
    var n: nat := if e < 0 then -e else e;
    var sign: byte, zero: Text := if e < 0 then MINUS else PLUS, if n < 10 then [48] else [];
    hide Decimal;
    OccursSplit([101, sign] + zero, Decimal(n), s, i);
    OccursSplit([101, sign], zero, s, i);
    assert s[i] == [101, sign][0] && s[i + 1] == [101, sign][1];
    if n < 10 {
      assert s[i + 2] == zero[0];
    }
  }

  lemma ReadExponent(e: int, s: Text, i: nat)
    requires Occurs(ExponentText(e), s, i) && !IsDigit(At(s, i + |ExponentText(e)|))
    ensures ExponentPart(s, i) == (e, i + |ExponentText(e)|)
  {
    hide Occurs, Decimal, ExponentText;
    ExponentParts(e, s, i);
    var n: nat := if e < 0 then -e else e;
    ReadDecimal(n, s, if n < 10 then i + 3 else i + 2);
  }

  /** A sign and what follows it. */
  lemma ReadSign(negative: bool, t: Text, s: Text, i: nat)
    requires Occurs(Signed(negative, t), s, i) && t != [] && t[0] != MINUS
    ensures var k := if negative then i + 1 else i;
            Occurs(t, s, k) && (At(s, i) == MINUS <==> negative) && i + |Signed(negative, t)| == k + |t|
  {
    if negative {
      OccursSplit([MINUS], t, s, i);
      assert At(s, i) == [MINUS][0];
    } else {
      assert At(s, i) == t[0];
    }
  }

  lemma ParseWhole(a: Arithmetic, negative: bool, n: nat, s: Text, i: nat)
    requires Occurs(Signed(negative, Decimal(n)), s, i) && EndsNumber(At(s, i + |Signed(negative, Decimal(n))|))
    ensures ParseNumberIn(a, s, i)
         == (a.scale(Sign(negative, WholeMantissa(a, n)), 0), i + |Signed(negative, Decimal(n))|)
  {
    ReadSign(negative, Decimal(n), s, i);
    hide Occurs, Decimal, IntegerPart, ReadMantissa, WholeMantissa;
    ReadInteger(a, n, s, if negative then i + 1 else i);
  }

  lemma ParseF6(a: Arithmetic, negative: bool, q: nat, s: Text, i: nat)
    requires KeepsIntegers(a) && q <= TWO_53
    requires Occurs(Signed(negative, FixedText(q)), s, i) && EndsNumber(At(s, i + |Signed(negative, FixedText(q))|))
    ensures ParseNumberIn(a, s, i) == (a.scale(Sign(negative, q as real), -6), i + |Signed(negative, FixedText(q))|)
  {
    ReadSign(negative, FixedText(q), s, i);
    hide Occurs, FixedText, IntegerPart, FractionPart, KeepsIntegers;
    ReadFixed(a, q, s, if negative then i + 1 else i);
  }

  lemma ParseE(a: Arithmetic, negative: bool, m: nat, e: int, s: Text, i: nat)
    requires KeepsIntegers(a) && m <= TWO_53 && Occurs(Signed(negative, FixedText(m) + ExponentText(e)), s, i)
    requires EndsNumber(At(s, i + |Signed(negative, FixedText(m) + ExponentText(e))|))
    ensures ParseNumberIn(a, s, i)
         == (a.scale(Sign(negative, m as real), e - 6), i + |Signed(negative, FixedText(m) + ExponentText(e))|)
  {
    var k := if negative then i + 1 else i;
    ReadSign(negative, FixedText(m) + ExponentText(e), s, i);
    OccursSplit(FixedText(m), ExponentText(e), s, k);
    assert At(s, k + |FixedText(m)|) == ExponentText(e)[0] == 101;
    hide Occurs, FixedText, ExponentText, IntegerPart, FractionPart, ExponentPart, KeepsIntegers;
    ReadFixed(a, m, s, k);
    ReadExponent(e, s, k + |FixedText(m)|);
  }

  lemma SignedInt(n: int)
    ensures PrintInt(n) == Signed(n < 0, Decimal(if n < 0 then -n else n))
  {
  }

  /** `parse_number` of what `print_number` printed, with any rounding that is exact on integers of at
      most 53 bits: the digits that `%f` and `%e` print are always read without loss, and then scaled. */
  lemma ParsePrintNumber(a: Arithmetic, n: int, v: real, s: Text, i: nat)
    requires KeepsIntegers(a) && Occurs(NumberText(n, v), s, i) && EndsNumber(At(s, i + |NumberText(n, v)|))
    ensures ParseNumberIn(a, s, i) == (RereadIn(a, n, v), i + |NumberText(n, v)|)
  {
    ZeroIsWhole(n);
    FewMillionths(n, v);
    SignedInt(n);
    hide PrintInt, ParseNumberIn, Occurs, EndsNumber, Decimal, FixedText, ExponentText, FormatBy, Signed, Round;
    hide KeepsIntegers;
    match FormatBy(n, v)
    case Lld => ParseWhole(a, n < 0, if n < 0 then -n else n, s, i);
    case F0 => ParseWhole(a, v < 0.0, Round(Abs(v)), s, i);
    case F6 => ParseF6(a, v < 0.0, Round(MILLION as real * Abs(v)), s, i);
    case E => ParseE(a, v < 0.0, Scientific(Abs(v)).0, Scientific(Abs(v)).1, s, i);
  }

  lemma FewMillionths(n: int, v: real)
    ensures FormatBy(n, v) == F6 ==> Round(MILLION as real * Abs(v)) <= TWO_53
  {
  }

  // ----- What the parser makes of the text ---------------------------------

  /** `parse_number` of what `print_number` printed. */
  lemma ReadNumber(v: real, s: Text, i: nat)
    requires Occurs(PrintNumber(v), s, i) && EndsNumber(At(s, i + |PrintNumber(v)|))
    ensures ParseNumber(s, i) == (RereadNumber(v), i + |PrintNumber(v)|)
  {
    hide ParseNumberIn, RereadIn, NumberText, KeepsIntegers, Occurs;
    DoublesKeepIntegers();
    ParsePrintNumber(DOUBLES, Truncate(v), v, s, i);
  }

  /** Integers of at most 53 bits are read back, and of the other numbers that are printed without a
      fraction none is, with any rounding that is exact on these integers. */
  lemma WholeIsReread(a: Arithmetic, v: real)
    requires KeepsIntegers(a) && Abs(v) <= TWO_53 as real && FormatOf(v) in {Lld, F0}
    ensures RereadIn(a, Truncate(v), v) == v <==> IsWhole(v)
  {
    var n: nat := if FormatOf(v) == F0 then Round(Abs(v)) else if v < 0.0 then -Truncate(v) else Truncate(v);
    assert n <= TWO_53;
    var k: int := if v < 0.0 then 0 - n else n;
    MantissaIsExact(a, n);
    assert KeepsExactly(a, k);
    if FormatOf(v) == F0 {
      RoundedExactly(v);
    } else {
      TruncatedExactly(v);
    }
  }

  lemma WholeFormat(v: real)
    requires IsWhole(v) && Abs(v) <= TWO_53 as real
    ensures FormatOf(v) in {Lld, F0}
  {
  }

  /** A double comes back. Its digits are read without loss unless it is an integer of more than 53
      bits; then the loop over its digits must give it, and else one product of its printed digits. */
  predicate NumberSurvives(v: real) {
    ZeroIsWhole(Truncate(v));
    match FormatOf(v)
    case Lld => IsWhole(v)
    case F0 => if Abs(v) <= TWO_53 as real then IsWhole(v) else Mantissa(DOUBLES, Round(Abs(v))) == Abs(v)
    case F6 => DoubleScale(Round(MILLION as real * Abs(v)) as real, -6) == Abs(v)
    case E => DoubleScale(Scientific(Abs(v)).0 as real, Scientific(Abs(v)).1 - 6) == Abs(v)
  }

  lemma MinusTimes(x: real, p: real)
    ensures (-x) * p == -(x * p)
  {
  }

  lemma DoubleScaleNegates(x: real, e: int)
    ensures DoubleScale(-x, e) == -DoubleScale(x, e)
  {
    NearestNegates(x * Nearest(Power(e)));
    MinusTimes(x, Nearest(Power(e)));
  }

  lemma DoubleTimesOne(x: real)
    ensures DoubleScale(x, 0) == Nearest(x)
  {
    WholeIsDouble(1);
    assert Power(0) == 1 as real;
    hide Nearest;
    assert x * 1.0 == x;
  }

  /** A mantissa is a double, and so is not rounded again. */
  lemma MantissaIsDouble(n: nat)
    ensures DoubleScale(Mantissa(DOUBLES, n), 0) == Mantissa(DOUBLES, n)
  {
    var m := if n < 10 then 0.0 else Mantissa(DOUBLES, n / 10);
    assert Mantissa(DOUBLES, n) == DoubleStep(m, n % 10) == Nearest(Times(m, 10.0) + (n % 10) as real);
    hide Nearest, Mantissa, Times, DoubleStep;
    RoundedOnce(Times(m, 10.0) + (n % 10) as real);
    DoubleTimesOne(Mantissa(DOUBLES, n));
  }

  /** Exactly which numbers come back when they are printed and parsed. */
  lemma RereadExactly(v: real)
    ensures RereadNumber(v) == v <==> NumberSurvives(v)
  {
    ZeroIsWhole(Truncate(v));
    DoublesKeepIntegers();
    var a := Abs(v);
    if FormatOf(v) in {Lld, F0} && a <= TWO_53 as real {
      WholeIsReread(DOUBLES, v);
    } else {
      LargeIsF0(v);
      hide DoubleScale, Mantissa, Round, FormatBy, Truncate;
      match FormatOf(v)
      case Lld =>
      case F0 =>
        MantissaIsDouble(Round(a));
        DoubleScaleNegates(Mantissa(DOUBLES, Round(a)), 0);
      case F6 =>
        DoubleScaleNegates(Round(MILLION as real * a) as real, -6);
      case E =>
        DoubleScaleNegates(Scientific(a).0 as real, Scientific(a).1 - 6);
    }
  }

  lemma LargeIsF0(v: real)
    ensures Abs(v) > TWO_53 as real ==> FormatOf(v) != Lld && Round(Abs(v)) > 0
  {
  }

  // ----- Three numbers -----------------------------------------------------

  /** The constants of `print_number` are the doubles nearest to these powers of ten. */
  lemma MillionthIsDouble()
    ensures Nearest(Power(-6)) == TEN_TO_MINUS_6
  {
    SixDigits();
    SomePowers();
    assert Up(Power(-6), 72) == 73786976294838206464.0 / 15625.0;
    AfterDoublings(Power(-6), 72);
  }

  lemma TenTo60IsDouble()
    ensures Nearest(Power(60)) == TEN_TO_60
  {
    SixtyDigits();
    SomePowers();
    assert Down(Power(60), 147) == 867361737988403547205962240695953369140625.0 / 154742504910672534362390528.0;
    AfterHalvings(Power(60), 147);
  }

  lemma SeventeenDigits()
    ensures Mantissa(DOUBLES, 28823037615171174) == 28823037615171172.0
  {
    DoublesKeepIntegers();
    MantissaIsExact(DOUBLES, 2882303761517117);
    assert Pow2(2) == 4;
    AfterHalvings(28823037615171170.0, 2);
    AfterHalvings(28823037615171172.0, 2);
    hide Nearest, KeepsIntegers;
    assert Times(2882303761517117.0, 10.0) == 28823037615171168.0;
    assert DoubleStep(2882303761517117.0, 4) == 28823037615171172.0;
  }

  lemma EighteenDigits()
    ensures Mantissa(DOUBLES, 288230376151711744) == 288230376151711712.0
  {
    SeventeenDigits();
    hide Mantissa;
    assert Pow2(5) == 32;
    AfterHalvings(288230376151711720.0, 5);
    AfterHalvings(288230376151711716.0, 5);
    hide Nearest, Pow2;
    assert Times(28823037615171172.0, 10.0) == 288230376151711712.0;
    assert DoubleStep(28823037615171172.0, 4) == 288230376151711712.0;
    LastStep(288230376151711744);
  }

  lemma LastStep(n: nat)
    requires n >= 10
    ensures Mantissa(DOUBLES, n) == DoubleStep(Mantissa(DOUBLES, n / 10), n % 10)
  {
    hide DoubleStep;
  }

  /** Two to the power of 58 has more than 53 bits. All its digits are printed, but the loop that reads
      them rounds. */
  lemma LargeIntegerIsLost()
    ensures IsExact(288230376151711744.0) && RereadNumber(288230376151711744.0) == 288230376151711712.0
  {
    var n := 288230376151711744;
    EighteenDigits();
    MantissaIsDouble(n);
    hide Mantissa, Nearest;
    assert FormatOf(n as real) == F0 && Round(n as real) == n;
  }

  /** The double nearest to 0.3 is not a multiple of a millionth, but it comes back. */
  lemma ThreeTenthsSurvive()
    ensures var v := 5404319552844595.0 / 18014398509481984.0;
            !IsExact(v) && RereadNumber(v) == v
  {
    var v := 5404319552844595.0 / 18014398509481984.0;
    assert FormatOf(v) == F6 && Round(MILLION as real * v) == 300000;
    MillionthIsDouble();
    SomePowers();
    var x := 300000.0 * TEN_TO_MINUS_6;
    assert Up(x, 54) == 44272185776902921875.0 / 8192.0;
    AfterDoublings(x, 54);
  }

  /** The double nearest to 0.1 is read back as the next smaller one. */
  lemma OneTenthIsLost()
    ensures RereadNumber(7205759403792794.0 / 72057594037927936.0) == 7205759403792793.0 / 72057594037927936.0
  {
    var v := 7205759403792794.0 / 72057594037927936.0;
    assert FormatOf(v) == F6 && Round(MILLION as real * v) == 100000;
    MillionthIsDouble();
    SomePowers();
    var x := 100000.0 * TEN_TO_MINUS_6;
    assert Up(x, 56) == 14757395258967640625.0 / 2048.0;
    AfterDoublings(x, 56);
  }

  // ----- What the text denotes ---------------------------------------------

  /** The value that the text of a number denotes. */
  function Printed(v: real): real {
    ZeroIsWhole(Truncate(v));
    match FormatOf(v)
    case Lld => Truncate(v) as real
    case F0 => Sign(v < 0.0, Round(Abs(v)) as real)
    case F6 => ExactScale(Sign(v < 0.0, Round(MILLION as real * Abs(v)) as real), -6)
    case E => ExactScale(Sign(v < 0.0, Scientific(Abs(v)).0 as real), Scientific(Abs(v)).1 - 6)
  }

  lemma ExactWhole(negative: bool, n: nat)
    ensures EXACT.scale(Sign(negative, WholeMantissa(EXACT, n)), 0) == Sign(negative, n as real)
  {
    ExactMantissa(n);
    hide Mantissa;
    assert Power(0) == 1.0;
  }

  lemma ExactReread(v: real)
    ensures RereadIn(EXACT, Truncate(v), v) == Printed(v)
  {
    var n := Truncate(v);
    ZeroIsWhole(n);
    ExactWhole(n < 0, if n < 0 then -n else n);
    ExactWhole(v < 0.0, Round(Abs(v)));
    hide Mantissa, WholeMantissa, Round, Scientific, FormatBy, Truncate, Power;
  }

  /** That is: what the text gives when it is read without rounding. */
  lemma PrintedIsDenoted(v: real, s: Text, i: nat)
    requires Occurs(PrintNumber(v), s, i) && EndsNumber(At(s, i + |PrintNumber(v)|))
    ensures ParseNumberIn(EXACT, s, i) == (Printed(v), i + |PrintNumber(v)|)
  {
    hide KeepsIntegers, RereadIn, ParseNumberIn, NumberText, Occurs;
    ExactKeepsIntegers();
    ParsePrintNumber(EXACT, Truncate(v), v, s, i);
    ExactReread(v);
  }

  /** The text shows all digits of the number. */
  predicate IsExact(v: real) {
    ZeroIsWhole(Truncate(v));
    match FormatOf(v)
    case Lld => IsWhole(v)
    case F0 => IsWhole(v)
    case F6 => IsWhole(MILLION as real * v)
    case E => IsWhole(Leading(Abs(v)))
  }

  lemma ScaleSixDown(x: real)
    ensures ExactScale(x, -6) == x / MILLION as real
  {
    SixDigits();
  }

  lemma CancelPower(a: real, x: real, big: real, p: real)
    requires p > 0.0 && big == MILLION as real * p && x == MILLION as real * a / big
    ensures a == x * p
  {
    assert x * big == MILLION as real * a;
    assert x * big == MILLION as real * (x * p);
  }

  lemma LeadingIs(a: real)
    requires a > 0.0
    ensures Leading(a) == MILLION as real * a / Power(Exponent(a))
  {
    hide Exponent, Power;
  }

  /** What `%e` keeps of a number: its leading digits, rounded. */
  lemma ScientificValue(a: real)
    requires a > 0.0
    ensures var p := Power(Exponent(a) - 6);
            && a == Leading(a) * p
            && ExactScale(Scientific(a).0 as real, Scientific(a).1 - 6) == Round(Leading(a)) as real * p
  {
    hide Exponent, Power, Leading, Round;
    var e := Exponent(a);
    SixSteps(e);
    PowerStep(e - 6);
    LeadingIs(a);
    CancelPower(a, Leading(a), Power(e), Power(e - 6));
  }

  lemma SignedScale(negative: bool, x: real, e: int)
    ensures ExactScale(Sign(negative, x), e) == Sign(negative, ExactScale(x, e))
  {
    hide Power;
  }

  /** The text of a number denotes the number exactly if it shows all its digits. */
  lemma PrintedExactly(v: real)
    ensures Printed(v) == v <==> IsExact(v)
  {
    ZeroIsWhole(Truncate(v));
    hide FormatBy, ExactScale, Round, Scientific, Leading, IsWhole, Truncate;
    match FormatOf(v)
    case Lld => TruncatedExactly(v);
    case F0 => RoundedExactly(v);
    case F6 => MillionthsExactly(v);
    case E => ScientificExactly(v);
  }

  lemma WholeNegates(x: real)
    ensures IsWhole(-x) <==> IsWhole(x)
  {
    assert -x == (-x.Floor) as real <==> IsWhole(x);
    assert x == (-(-x).Floor) as real <==> IsWhole(-x);
  }

  lemma TruncatedExactly(v: real)
    ensures Truncate(v) as real == v <==> IsWhole(v)
  {
    WholeNegates(v);
  }

  lemma RoundedExactly(v: real)
    ensures Sign(v < 0.0, Round(Abs(v)) as real) == v <==> IsWhole(v)
  {
    hide Round;
    WholeNegates(v);
  }

  /** A `double` whose text shows less: of 1/128 the last digit is rounded away. */
  lemma DigitsAreLost()
    ensures Printed(0.0078125) == 0.007812
  {
    assert FormatOf(0.0078125) == F6;
    assert Round(7812.5) == 7812;
    ScaleSixDown(7812.0);
  }

  lemma MillionthsExactly(v: real)
    ensures ExactScale(Sign(v < 0.0, Round(MILLION as real * Abs(v)) as real), -6) == v
            <==> IsWhole(MILLION as real * v)
  {
    hide ExactScale, Round, IsWhole;
    var n := Round(MILLION as real * Abs(v));
    ScaleSixDown(n as real);
    SignedScale(v < 0.0, n as real, -6);
    WholeNegates(MILLION as real * v);
    RoundIsWhole(MILLION as real * Abs(v));
  }

  lemma RoundIsWhole(x: real)
    requires x >= 0.0
    ensures Round(x) as real == x <==> IsWhole(x)
  {
  }

  lemma ScientificExactly(v: real)
    requires v != 0.0
    ensures ExactScale(Sign(v < 0.0, Scientific(Abs(v)).0 as real), Scientific(Abs(v)).1 - 6) == v
            <==> IsWhole(Leading(Abs(v)))
  {
    hide ExactScale, Round, Scientific, Leading, Exponent, Power, IsWhole;
    var a := Abs(v);
    var x := Leading(a);
    ScientificValue(a);
    SignedScale(v < 0.0, Scientific(a).0 as real, Scientific(a).1 - 6);
    RoundIsWhole(x);
    SameFactor(Round(x) as real, x, Power(Exponent(a) - 6));
  }

  lemma SameFactor(x: real, y: real, p: real)
    requires p > 0.0
    ensures x * p == y * p <==> x == y
  {
  }

  /** The text is off by at most half a unit of its last digit: of the sixth behind the point, or of the
      seventh one in all with `%e`. */
  lemma PrintedIsClose(v: real)
    ensures Abs(Printed(v) - v) <= 0.0000005 * if FormatOf(v) == E then Abs(v) else 1.0
  {
    ZeroIsWhole(Truncate(v));
    match FormatOf(v)
    case Lld =>
    case F0 =>
    case F6 => MillionthsAreClose(v);
    case E => ScientificIsClose(v);
  }

  lemma MillionthsAreClose(v: real)
    ensures Abs(ExactScale(Sign(v < 0.0, Round(MILLION as real * Abs(v)) as real), -6) - v) <= 0.0000005
  {
    hide ExactScale, Round;
    var n := Round(MILLION as real * Abs(v));
    ScaleSixDown(n as real);
    SignedScale(v < 0.0, n as real, -6);
  }

  lemma SignedError(v: real, y: real)
    ensures Abs(Sign(v < 0.0, y) - v) == Abs(y - Abs(v))
  {
  }

  lemma ScientificError(a: real)
    requires a > 0.0
    ensures Abs(ExactScale(Scientific(a).0 as real, Scientific(a).1 - 6) - a) <= 0.0000005 * a
  {
    hide ExactScale, Round, Scientific, Leading, Exponent, Power;
    ScientificValue(a);
    HalfAUnit(Round(Leading(a)) as real, Leading(a), Power(Exponent(a) - 6));
  }

  lemma ScientificIsClose(v: real)
    requires v != 0.0
    ensures Abs(ExactScale(Sign(v < 0.0, Scientific(Abs(v)).0 as real), Scientific(Abs(v)).1 - 6) - v)
            <= 0.0000005 * Abs(v)
  {
    hide ExactScale, Scientific, Exponent;
    var a := Abs(v);
    ScientificError(a);
    SignedScale(v < 0.0, Scientific(a).0 as real, Scientific(a).1 - 6);
    SignedError(v, ExactScale(Scientific(a).0 as real, Scientific(a).1 - 6));
  }

  lemma HalfAUnit(n: real, x: real, p: real)
    requires Abs(n - x) <= 0.5 && x >= MILLION as real && p > 0.0
    ensures Abs(n * p - x * p) <= 0.0000005 * (x * p)
  {
    assert n * p - x * p == (n - x) * p;
    assert MILLION as real * p <= x * p;
    assert -0.5 * p <= (n - x) * p <= 0.5 * p;
  }

  // ----- The size of the text ----------------------------------------------

  lemma {:induction false} Pow10Sum(a: nat, b: nat)
    ensures Pow10(a + b) == Pow10(a) * Pow10(b)
    decreases a
  {
    if a > 0 {
      Pow10Sum(a - 1, b);
    }
  }

  lemma SixtyDigits()
    ensures Pow10(60) == 1000000000000000000000000000000000000000000000000000000000000
  {
    assert Pow10(10) == 10000000000;
    Pow10Sum(10, 10);
    Pow10Sum(20, 20);
    Pow10Sum(40, 20);
  }

  lemma FixedIsShort(q: nat, digits: nat)
    requires digits > 0 && q / MILLION < Pow10(digits)
    ensures |FixedText(q)| <= digits + 7
  {
    DecimalIsShort(q / MILLION, digits);
  }

  lemma ExponentIsShort(e: int)
    requires -1000 < e < 1000
    ensures |ExponentText(e)| <= 6
  {
    assert Pow10(3) == 1000;
    DecimalIsShort(if e < 0 then -e else e, 3);
  }

  /** A C `int` takes at most eleven characters. */
  lemma IntIsShort(n: int)
    requires INT_MIN <= n <= INT_MAX
    ensures |PrintInt(n)| <= 11
  {
    assert Pow10(5) == 100000;
    Pow10Sum(5, 5);
    DecimalIsShort(if n < 0 then -n else n, 10);
  }

  /** The text of a finite number fits into the buffer of 21 or 64 bytes that is allocated for it. */
  lemma PrintedIsShort(n: int, v: real)
    requires IsFinite(v)
    ensures |NumberText(n, v)| < if FormatBy(n, v) == Lld then 21 else 64
  {
    ZeroIsWhole(n);
    var a := Abs(v);
    match FormatBy(n, v)
    case Lld => IntIsShort(n);
    case F0 =>
      SixtyDigits();
      DecimalIsShort(Round(a), 61);
    case F6 =>
      assert Pow10(5) == 100000;
      Pow10Sum(5, 5);
      FixedIsShort(Round(MILLION as real * a), 10);
    case E =>
      assert Pow10(1) == 10;
      FixedIsShort(Scientific(a).0, 1);
      ExponentIsShort(Scientific(a).1);
  }

  /** The bytes of a printed number. */
  predicate InNumber(b: byte) {
    IsDigit(b) || b == MINUS || b == PLUS || b == DOT || b == 101
  }

  lemma NumberBytes(n: int, v: real)
    ensures forall k :: 0 <= k < |NumberText(n, v)| ==> InNumber(NumberText(n, v)[k])
  {
  }

  // ----- The look of the text ----------------------------------------------

  lemma NoPoint(t: Text)
    requires forall k :: 0 <= k < |t| ==> IsDigit(t[k]) || t[k] == MINUS || t[k] == PLUS
    ensures DOT !in t && 101 !in t
  {
  }

  lemma OnePoint(q: nat)
    ensures DOT in FixedText(q) && 101 !in FixedText(q)
  {
    NoPoint(Decimal(q / MILLION));
    NoPoint(Padded(q % MILLION, 6));
    hide Decimal, Padded;
    assert FixedText(q)[|Decimal(q / MILLION)|] == DOT;
  }

  lemma IntegerLook(n: int)
    ensures DOT !in PrintInt(n) && 101 !in PrintInt(n)
  {
    NoPoint(PrintInt(n));
  }

  lemma SignedLook(negative: bool, t: Text)
    ensures DOT in Signed(negative, t) <==> DOT in t
    ensures 101 in Signed(negative, t) <==> 101 in t
  {
  }

  lemma ExponentLook(t: Text, e: int)
    ensures DOT in t ==> DOT in t + ExponentText(e)
    ensures 101 in t + ExponentText(e)
  {
    assert (t + ExponentText(e))[|t|] == 101;
  }

  lemma FormatLook(n: int, v: real)
    ensures DOT in NumberText(n, v) <==> FormatBy(n, v) in {F6, E}
    ensures 101 in NumberText(n, v) <==> FormatBy(n, v) == E
  {
    ZeroIsWhole(n);
    hide PrintInt, Decimal, FixedText, ExponentText, FormatBy, Signed, Round, Scientific;
    var a, f := Abs(v), FormatBy(n, v);
    if f == Lld {
      IntegerLook(n);
    } else {
      SignedLook(v < 0.0, Magnitude(f, a));
      match f {
        case F0 => NoPoint(Decimal(Round(a)));
        case F6 => OnePoint(Round(MILLION as real * a));
        case E =>
          OnePoint(Scientific(a).0);
          ExponentLook(FixedText(Scientific(a).0), Scientific(a).1);
      }
    }
  }

  /** Which texts show a point, and which an exponent: what is an integer, give or take an epsilon,
      shows neither if it is an `int` or less than 1e60, and an exponent is shown below 1e-6 and above 1e9. */
  lemma Look(n: int, v: real)
    ensures var lld := Abs(n as real - v) <= Twos(-52) && -2147483648.0 <= v <= 2147483647.0;
            var f0 := Abs(v.Floor as real - v) <= Twos(-52) && Abs(v) < Nearest(Power(60));
            && ('.' as byte in NumberText(n, v) <==> !lld && !f0)
            && ('e' as byte in NumberText(n, v) <==>
                  !lld && !f0 && (Abs(v) < Nearest(Power(-6)) || Abs(v) > 1000000000.0))
  {
    FormatLook(n, v);
    EpsilonIs();
    MillionthIsDouble();
    TenTo60IsDouble();
    hide NumberText, Nearest, Power, Twos;
  }

  lemma EpsilonIs()
    ensures Twos(-52) == EPSILON
  {
    assert Pow2(4) == 16;
    Pow2Product(4, 4, 16, 16);
    Pow2Product(8, 4, 256, 16);
    Pow2Product(12, 12, 4096, 4096);
    Pow2Product(24, 24, 16777216, 16777216);
    Pow2Product(48, 4, 281474976710656, 16);
  }

  /** Six digits stand behind a point, and at least two behind the sign of an exponent. */
  lemma Shapes(q: nat, e: int)
    ensures var t := FixedText(q);
            |t| >= 8 && t[|t| - 7] as char == '.' && IsDigit(t[|t| - 1])
    ensures var t := ExponentText(e);
            && |t| >= 4 && t[0] as char == 'e' && t[1] as char == (if e < 0 then '-' else '+')
            && (-100 < e < 100 ==> |t| == 4)
  {
    assert Pow10(1) == 10 && Pow10(2) == 100;
    var n: nat := if e < 0 then -e else e;
    if n >= 10 {
      DecimalBounds(n);
      if n < 100 {
        DecimalIsShort(n, 2);
      }
    }
  }
}
