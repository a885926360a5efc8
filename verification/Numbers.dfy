/** `parse_number`, and the integers of `print_number`. */
module Numbers {
  import opened Bytes
  import opened Doubles

  const INT_MAX: int := 0x7fff_ffff
  const INT_MIN: int := -0x8000_0000

  // ----- Printing ----------------------------------------------------------

  /** Decimal digits, most significant first, without leading zeros. */
  function Decimal(n: nat): (r: Text)
    ensures |r| > 0
    ensures forall k :: 0 <= k < |r| ==> IsDigit(r[k])
    ensures n > 0 ==> r[0] != 48
    ensures n == 0 ==> r == [48]
  {
    if n < 10 then [48 + n] else Decimal(n / 10) + [48 + n % 10]
  }

  /** What `sprintf("%lld", n)` and `sprintf("%d", n)` write. */
  function PrintInt(n: int): (r: Text)
    ensures |r| > 0
    ensures r[0] == MINUS || IsDigit(r[0])
  {
    if n < 0 then [MINUS] + Decimal(-n) else Decimal(n)
  }

  // ----- Arithmetic --------------------------------------------------------

  function Pow10(e: nat): (r: int)
    ensures r >= 1
  {
    if e == 0 then 1 else 10 * Pow10(e - 1)
  }

  /** Ten to the power of `e`. */
  function Power(e: int): (r: real)
    ensures r > 0.0
  {
    if e >= 0 then Pow10(e) as real else 1.0 / Pow10(-e) as real
  }

  /** How a mantissa is extended by a digit, and how it is scaled by a power of ten. */
  datatype Arithmetic = Arithmetic(step: (real, int) -> real, scale: (real, int) -> real)

  /** `n * 10.0 + d`, each operation rounded. */
  function DoubleStep(n: real, d: int): real {
    Plus(Times(n, 10.0), d as real)
  }

  /** `n * pow(10.0, e)`, with `pow` rounded correctly. */
  function DoubleScale(n: real, e: int): real {
    Times(n, Nearest(Power(e)))
  }

  function ExactStep(n: real, d: int): real {
    n * 10.0 + d as real
  }

  function ExactScale(n: real, e: int): real {
    n * Power(e)
  }

  /** What the source computes with. */
  const DOUBLES := Arithmetic(DoubleStep, DoubleScale)

  /** The value that the digits denote. */
  const EXACT := Arithmetic(ExactStep, ExactScale)

  /** Integers of at most 53 bits are computed exactly, however other numbers are rounded. */
  ghost predicate KeepsIntegers(a: Arithmetic) {
    (forall n: nat, d: nat :: StepsExactly(a, n, d)) && (forall k: int :: KeepsExactly(a, k))
  }

  predicate StepsExactly(a: Arithmetic, n: nat, d: nat) {
    10 * n + d <= TWO_53 ==> a.step(n as real, d) == (10 * n + d) as real
  }

  predicate KeepsExactly(a: Arithmetic, k: int) {
    -(TWO_53 as int) <= k <= TWO_53 ==> a.scale(k as real, 0) == k as real
  }

  lemma DoublesKeepIntegers()
    ensures KeepsIntegers(DOUBLES)
  {
    forall n: nat, d: nat ensures StepsExactly(DOUBLES, n, d) {
      DoubleStepsExactly(n, d);
    }
    forall k: int ensures KeepsExactly(DOUBLES, k) {
      DoubleKeepsExactly(k);
    }
  }

  lemma DoubleStepsExactly(n: nat, d: nat)
    ensures StepsExactly(DOUBLES, n, d)
  {
    if 10 * n + d <= TWO_53 {
      hide Nearest;
      WholeIsDouble(10 * n);
      WholeIsDouble(10 * n + d);
      assert n as real * 10.0 == (10 * n) as real;
    }
  }

  lemma DoubleKeepsExactly(k: int)
    ensures KeepsExactly(DOUBLES, k)
  {
    if -(TWO_53 as int) <= k <= TWO_53 {
      hide Nearest;
      WholeIsDouble(1);
      WholeIsDouble(k);
      assert Power(0) == 1 as real;
    }
  }

  lemma ExactKeepsIntegers()
    ensures KeepsIntegers(EXACT)
  {
  }

  // ----- Parsing -----------------------------------------------------------

  /** A run of digits read into an `int`: the value and the position after the run. */
  function ReadDigits(s: Text, i: nat, acc: int): (r: (int, nat))
    ensures i <= r.1 && (i <= |s| ==> r.1 <= |s|)
    ensures !IsDigit(At(s, r.1))
    decreases |s| - i
  {
    if IsDigit(At(s, i)) then ReadDigits(s, i + 1, acc * 10 + (At(s, i) - 48)) else (acc, i)
  }

  /** A run of digits read into a mantissa. */
  function ReadMantissa(a: Arithmetic, s: Text, i: nat, acc: real): (r: (real, nat))
    ensures i <= r.1 && (i <= |s| ==> r.1 <= |s|)
    ensures !IsDigit(At(s, r.1))
    decreases |s| - i
  {
    if IsDigit(At(s, i)) then ReadMantissa(a, s, i + 1, a.step(acc, At(s, i) - 48)) else (acc, i)
  }

  /** `(long long) d`: C drops the fraction. */
  function Truncate(d: real): int {
    if d >= 0.0 then d.Floor else -((-d).Floor)
  }

  lemma TruncateIs(d: real)
    ensures d >= 0.0 ==> 0.0 <= Truncate(d) as real <= d < Truncate(d) as real + 1.0
    ensures d <= 0.0 ==> Truncate(d) as real - 1.0 < d <= Truncate(d) as real <= 0.0
  {
  }

  function IntegerPart(a: Arithmetic, s: Text, i: nat): (r: (real, nat))
    ensures i <= r.1 && (i <= |s| ==> r.1 <= |s|)
  {
    var i1 := if At(s, i) == 48 then i + 1 else i;
    if 49 <= At(s, i1) <= 57 then ReadMantissa(a, s, i1, 0.0) else (0.0, i1)
  }

  /** The digits after a dot continue the mantissa; a dot without a digit is left unread. */
  function FractionPart(a: Arithmetic, s: Text, i: nat, n: real): (r: (real, nat))
    ensures i <= r.1 && (i <= |s| ==> r.1 <= |s|)
  {
    if At(s, i) == DOT && IsDigit(At(s, i + 1)) then ReadMantissa(a, s, i + 1, n) else (n, i)
  }

  function ExponentPart(s: Text, i: nat): (r: (int, nat))
    ensures i <= r.1 && (i <= |s| ==> r.1 <= |s|)
  {
    if At(s, i) == 101 || At(s, i) == 69 then
      if At(s, i + 1) == MINUS then
        var r := ReadDigits(s, i + 2, 0);
        (-r.0, r.1)
      else
        ReadDigits(s, if At(s, i + 1) == PLUS then i + 2 else i + 1, 0)
    else
      (0, i)
  }

  /** The value of the number at `i` in the given arithmetic, and the position where reading stops. */
  function ParseNumberIn(a: Arithmetic, s: Text, i: nat): (r: (real, nat))
    ensures i <= r.1 && (i <= |s| ==> r.1 <= |s|)
    ensures At(s, i) == MINUS || IsDigit(At(s, i)) ==> i < r.1
  {
    var i1 := if At(s, i) == MINUS then i + 1 else i;
    var whole := IntegerPart(a, s, i1);
    var frac := FractionPart(a, s, whole.1, whole.0);
    var exp := ExponentPart(s, frac.1);
    var scale := if frac.1 == whole.1 then 0 else whole.1 + 1 - frac.1;
    (a.scale(if At(s, i) == MINUS then -frac.0 else frac.0, scale + exp.0), exp.1)
  }

  /** `parse_number`. */
  function ParseNumber(s: Text, i: nat): (r: (real, nat))
    ensures i <= r.1 && (i <= |s| ==> r.1 <= |s|)
    ensures At(s, i) == MINUS || IsDigit(At(s, i)) ==> i < r.1
  {
    ParseNumberIn(DOUBLES, s, i)
  }

  lemma {:induction false} DecimalIsShort(n: nat, digits: nat)
    requires digits > 0 && n < Pow10(digits)
    ensures |Decimal(n)| <= digits
    decreases digits
  {
    assert Pow10(0) == 1 && Pow10(digits) == 10 * Pow10(digits - 1);
    if n >= 10 {
      DecimalIsShort(n / 10, digits - 1);
    }
  }

  lemma ParseNumberIs(s: Text, i: nat)
    ensures var whole := IntegerPart(DOUBLES, s, if At(s, i) == MINUS then i + 1 else i);
            var frac := FractionPart(DOUBLES, s, whole.1, whole.0);
            var exp := ExponentPart(s, frac.1);
            var e := exp.0 + if frac.1 == whole.1 then 0 else whole.1 + 1 - frac.1;
            ParseNumber(s, i) == (DoubleScale(if At(s, i) == MINUS then -frac.0 else frac.0, e), exp.1)
  {
    hide IntegerPart, FractionPart, ExponentPart, DoubleScale, DoubleStep;
  }

  // ----- Reading back what was printed -------------------------------------

  /** A byte that can follow a number without being read as part of it. */
  predicate EndsNumber(b: byte) {
    !IsDigit(b) && b != DOT && b != 101 && b != 69
  }

  lemma {:induction false} ReadDecimal(n: nat, s: Text, i: nat)
    requires Occurs(Decimal(n), s, i)
    ensures ReadDigits(s, i, 0) == ReadDigits(s, i + |Decimal(n)|, n)
  {
    if n < 10 {
      assert s[i] == Decimal(n)[0];
    } else {
      OccursSplit(Decimal(n / 10), [48 + n % 10], s, i);
      ReadDecimal(n / 10, s, i);
      var k := i + |Decimal(n / 10)|;
      assert s[k] == 48 + n % 10;
    }
  }

  /** The mantissa that the digits of `n` give, one step for each of them. */
  function Mantissa(a: Arithmetic, n: nat): real {
    a.step(if n < 10 then 0.0 else Mantissa(a, n / 10), n % 10)
  }

  lemma {:induction false} ReadsMantissa(a: Arithmetic, n: nat, s: Text, i: nat)
    requires Occurs(Decimal(n), s, i)
    ensures ReadMantissa(a, s, i, 0.0) == ReadMantissa(a, s, i + |Decimal(n)|, Mantissa(a, n))
  {
    if n < 10 {
      assert s[i] == Decimal(n)[0];
    } else {
      OccursSplit(Decimal(n / 10), [48 + n % 10], s, i);
      ReadsMantissa(a, n / 10, s, i);
      var k := i + |Decimal(n / 10)|;
      assert s[k] == 48 + n % 10;
    }
  }

  /** No digit of an integer of at most 53 bits is lost, as all its beginnings are smaller. */
  lemma {:induction false} MantissaIsExact(a: Arithmetic, n: nat)
    requires KeepsIntegers(a) && n <= TWO_53
    ensures Mantissa(a, n) == n as real
  {
    var m: nat := 0;
    if n >= 10 {
      m := n / 10;
      MantissaIsExact(a, m);
    }
    assert 10 * m + n % 10 == n;
    assert StepsExactly(a, m, n % 10);
  }

  /** In exact arithmetic no digit of any integer is lost. */
  lemma {:induction false} ExactMantissa(n: nat)
    ensures Mantissa(EXACT, n) == n as real
  {
    if n >= 10 {
      ExactMantissa(n / 10);
    }
  }

  /** The mantissa of an integer that is printed; of zero it is never computed. */
  function WholeMantissa(a: Arithmetic, n: nat): real {
    if n == 0 then 0.0 else Mantissa(a, n)
  }

  lemma ReadInteger(a: Arithmetic, n: nat, s: Text, i: nat)
    requires Occurs(Decimal(n), s, i) && !IsDigit(At(s, i + |Decimal(n)|))
    ensures IntegerPart(a, s, i) == (WholeMantissa(a, n), i + |Decimal(n)|) && At(s, i) != MINUS
  {
    assert At(s, i) == Decimal(n)[0];
    ReadsMantissa(a, n, s, i);
  }
}
