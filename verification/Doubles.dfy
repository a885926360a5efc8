/** `double`: rounding to 53 bits, to the nearest, and to the even one of two. The range of the
    exponent is unlimited. */
module Doubles {
  const TWO_52: nat := 4503599627370496
  const TWO_53: nat := 9007199254740992

  function Abs(v: real): real {
    if v < 0.0 then -v else v
  }

  predicate IsWhole(x: real) {
    x.Floor as real == x
  }

  /** To the nearest integer, and to the even one if two are equally near. */
  function Round(x: real): (n: nat)
    requires x >= 0.0
    ensures Abs(n as real - x) <= 0.5
    ensures n as real == x <==> IsWhole(x)
  {
    var f := x.Floor;
    var d := x - f as real;
    if d < 0.5 || (d == 0.5 && f % 2 == 0) then f else f + 1
  }

  /** A number of at least 53 bits before the point: halved until it has that many. */
  function RoundLarge(a: real): (r: real)
    requires a >= TWO_52 as real
    ensures r >= TWO_52 as real
    decreases a.Floor
  {
    if a < TWO_53 as real then Round(a) as real else 2.0 * RoundLarge(a / 2.0)
  }

  /** Any positive number: doubled until it has 53 bits before the point. */
  function RoundPositive(a: real): (r: real)
    requires a > 0.0
    ensures r > 0.0
    decreases if a < TWO_52 as real then (TWO_53 as real / a).Floor else 0
  {
    if a >= TWO_52 as real then RoundLarge(a)
    else
      DoublingShrinks(a);
      RoundPositive(2.0 * a) / 2.0
  }

  lemma DoublingShrinks(a: real)
    requires 0.0 < a < TWO_52 as real
    ensures (TWO_53 as real / (2.0 * a)).Floor < (TWO_53 as real / a).Floor && (TWO_53 as real / a).Floor >= 2
  {
    var x := TWO_53 as real / a;
    assert x * a == TWO_53 as real;
    assert x > 2.0;
    assert TWO_53 as real / (2.0 * a) == x / 2.0;
  }

  /** The `double` nearest to a number: the result of each operation on doubles. */
  function Nearest(x: real): real {
    if x == 0.0 then 0.0 else if x < 0.0 then -RoundPositive(-x) else RoundPositive(x)
  }

  /** The operations `*` and `+` on doubles. */
  function Times(x: real, y: real): real {
    Nearest(x * y)
  }

  function Plus(x: real, y: real): real {
    Nearest(x + y)
  }

  // ----- What rounding keeps -----------------------------------------------

  lemma {:induction false} WholeRoundsToItself(n: nat)
    requires 0 < n <= TWO_53
    ensures RoundPositive(n as real) == n as real
    decreases if n < TWO_52 then TWO_52 - n else 0
  {
    if n == TWO_53 {
      assert RoundLarge(TWO_52 as real) == TWO_52 as real;
    } else if n < TWO_52 {
      assert 2.0 * n as real == (2 * n) as real;
      WholeRoundsToItself(2 * n);
    }
  }

  /** Integers of at most 53 bits are doubles. */
  lemma WholeIsDouble(k: int)
    requires -(TWO_53 as int) <= k <= TWO_53
    ensures Nearest(k as real) == k as real
  {
    if k != 0 {
      WholeRoundsToItself(if k < 0 then -k else k);
    }
  }

  // ----- The nearest double ------------------------------------------------

  function Pow2(k: nat): (r: nat)
    ensures r >= 1
  {
    if k == 0 then 1 else 2 * Pow2(k - 1)
  }

  /** Two to the power of `k`. */
  function Twos(k: int): (r: real)
    ensures r > 0.0
  {
    if k >= 0 then Pow2(k) as real else 1.0 / Pow2(-k) as real
  }

  lemma TwosStep(k: int)
    ensures Twos(k) == 2.0 * Twos(k - 1)
  {
    if k <= 0 {
      assert Pow2(1 - k) == 2 * Pow2(-k);
    }
  }

  /** An integer times a power of two. */
  function Value(m: int, k: int): real {
    m as real * Twos(k)
  }

  lemma ValueStep(m: int, k: int)
    ensures Value(m, k) == 2.0 * Value(m, k - 1)
  {
    TwosStep(k);
    hide Twos;
  }

  /** A double is an integer of at most 53 bits times a power of two. */
  lemma {:induction false} LargeIsDouble(a: real) returns (m: nat, k: int)
    requires a >= TWO_52 as real
    ensures TWO_52 <= m <= TWO_53 && RoundLarge(a) == Value(m, k)
    decreases a.Floor
  {
    hide Value, Round;
    if a < TWO_53 as real {
      m, k := Round(a), 0;
      WholeValue(m, 0);
    } else {
      m, k := LargeIsDouble(a / 2.0);
      ValueStep(m, k + 1);
      k := k + 1;
    }
  }

  lemma {:induction false} PositiveIsDouble(a: real) returns (m: nat, k: int)
    requires a > 0.0
    ensures TWO_52 <= m <= TWO_53 && RoundPositive(a) == Value(m, k)
    decreases if a < TWO_52 as real then (TWO_53 as real / a).Floor else 0
  {
    hide Value, RoundLarge;
    if a >= TWO_52 as real {
      m, k := LargeIsDouble(a);
    } else {
      DoublingShrinks(a);
      m, k := PositiveIsDouble(2.0 * a);
      ValueStep(m, k);
      k := k - 1;
    }
  }

  lemma WholeValue(m: nat, k: nat)
    ensures Value(m, k) == (m * Pow2(k)) as real
    ensures k == 0 ==> Value(m, k) == m as real
  {
  }

  lemma SmallValue(m: nat, k: int)
    requires m <= TWO_53 && k < 0
    ensures Value(m, k) <= TWO_52 as real
  {
    var p := Pow2(-k);
    assert p >= 2;
    assert Value(m, k) * p as real == m as real;
    assert Value(m, k) * 2.0 <= Value(m, k) * p as real;
  }

  lemma SignOfValue(m: int, k: int)
    ensures Value(0, k) == 0.0 && Value(-m, k) == -Value(m, k)
    ensures m >= 0 ==> Value(m, k) >= 0.0
  {
    hide Twos;
  }

  /** `x` is at most as far from `a` as `y`. */
  predicate NoFarther(x: real, y: real, a: real) {
    Abs(x - a) <= Abs(y - a)
  }

  lemma WholeIsNoNearer(a: real, z: int)
    requires a >= 0.0
    ensures NoFarther(Round(a) as real, z as real, a)
  {
    var f := a.Floor;
    if z <= f {
      assert z as real <= f as real <= a;
    } else {
      assert z as real >= (f + 1) as real >= a;
    }
  }

  lemma Beyond(x: real, z: real, y: real, a: real)
    requires NoFarther(x, z, a) && y <= z <= a
    ensures NoFarther(x, y, a)
  {
  }

  lemma Twice(x: real, y: real, b: real)
    requires NoFarther(x, y, b)
    ensures NoFarther(2.0 * x, 2.0 * y, 2.0 * b)
  {
  }

  lemma Half(x: real, y: real, b: real)
    requires NoFarther(x, y, b)
    ensures NoFarther(x / 2.0, y / 2.0, b / 2.0)
  {
  }

  lemma {:induction false} NoneIsNearerToLarge(a: real, m: nat, k: int)
    requires a >= TWO_52 as real && m <= TWO_53
    ensures NoFarther(RoundLarge(a), Value(m, k), a)
    decreases a.Floor
  {
    hide Value, Round, NoFarther;
    if a >= TWO_53 as real {
      var b := a / 2.0;
      NoneIsNearerToLarge(b, m, k - 1);
      ValueStep(m, k);
      Twice(RoundLarge(b), Value(m, k - 1), b);
    } else if k >= 0 {
      WholeValue(m, k);
      WholeIsNoNearer(a, m * Pow2(k));
    } else {
      SmallValue(m, k);
      WholeIsNoNearer(a, TWO_52);
      Beyond(RoundLarge(a), TWO_52 as real, Value(m, k), a);
    }
  }

  lemma {:induction false} NoneIsNearerToPositive(a: real, m: nat, k: int)
    requires a > 0.0 && m <= TWO_53
    ensures NoFarther(RoundPositive(a), Value(m, k), a)
    decreases if a < TWO_52 as real then (TWO_53 as real / a).Floor else 0
  {
    hide Value, RoundLarge, NoFarther;
    if a >= TWO_52 as real {
      NoneIsNearerToLarge(a, m, k);
    } else {
      DoublingShrinks(a);
      NoneIsNearerToPositive(2.0 * a, m, k + 1);
      ValueStep(m, k + 1);
      Half(RoundPositive(2.0 * a), Value(m, k + 1), 2.0 * a);
    }
  }

  /** The result of rounding is a double: an integer of at most 53 bits times a power of two. */
  lemma NearestIsDouble(x: real) returns (m: int, k: int)
    ensures -(TWO_53 as int) <= m <= TWO_53 && Nearest(x) == Value(m, k)
  {
    m, k := 0, 0;
    SignOfValue(0, 0);
    hide Value, RoundPositive;
    if x != 0.0 {
      m, k := PositiveIsDouble(Abs(x));
      SignOfValue(m, k);
      m := if x < 0.0 then -m else m;
    }
  }

  /** No double is nearer to a number than the one it is rounded to. */
  lemma NoneIsNearer(x: real, m: int, k: int)
    requires -(TWO_53 as int) <= m <= TWO_53
    ensures NoFarther(Nearest(x), Value(m, k), x)
  {
    hide Value, RoundPositive;
    SignOfValue(m, k);
    SignOfValue(-m, k);
    if x > 0.0 {
      NoneIsNearerToPositive(x, if m >= 0 then m else 0, k);
    } else if x < 0.0 {
      NoneIsNearerToPositive(-x, if m <= 0 then -m else 0, k);
    }
  }

  /** A double is kept. */
  lemma DoubleIsKept(m: int, k: int)
    requires -(TWO_53 as int) <= m <= TWO_53
    ensures Nearest(Value(m, k)) == Value(m, k)
  {
    hide Value, Nearest;
    NoneIsNearer(Value(m, k), m, k);
  }

  lemma RoundedOnce(x: real)
    ensures Nearest(Nearest(x)) == Nearest(x)
  {
    var m, k := NearestIsDouble(x);
    hide Value, Nearest;
    DoubleIsKept(m, k);
  }

  lemma NearestNegates(x: real)
    ensures Nearest(-x) == -Nearest(x)
  {
    hide RoundPositive;
  }

  lemma NearestScales(x: real)
    ensures Nearest(2.0 * x) == 2.0 * Nearest(x)
  {
    if x != 0.0 {
      PositiveScales(Abs(x));
      assert Abs(2.0 * x) == 2.0 * Abs(x);
    }
  }

  lemma PositiveScales(a: real)
    requires a > 0.0
    ensures RoundPositive(2.0 * a) == 2.0 * RoundPositive(a)
  {
    hide Round;
  }

  /** Half way between two neighbours, the even one is taken: `f` and `f + 1` have 53 bits, and `x` is
      the number between them. */
  lemma {:induction false} TieGoesToEven(f: nat, k: int)
    requires TWO_52 <= f < TWO_53
    ensures var x := (Value(f, k) + Value(f + 1, k)) / 2.0;
            Nearest(x) == Value(if f % 2 == 0 then f else f + 1, k)
    decreases if k < 0 then -k else k
  {
    var x := (Value(f, k) + Value(f + 1, k)) / 2.0;
    hide Value, Nearest;
    if k == 0 {
      TieInRange(f);
    } else if k > 0 {
      TieGoesToEven(f, k - 1);
      ValueStep(f, k);
      ValueStep(f + 1, k);
      NearestScales(x / 2.0);
    } else {
      TieGoesToEven(f, k + 1);
      ValueStep(f, k + 1);
      ValueStep(f + 1, k + 1);
      NearestScales(x);
    }
  }

  lemma TieInRange(f: nat)
    requires TWO_52 <= f < TWO_53
    ensures Nearest((Value(f, 0) + Value(f + 1, 0)) / 2.0) == Value(if f % 2 == 0 then f else f + 1, 0)
  {
    WholeValue(f, 0);
    WholeValue(f + 1, 0);
    hide Value;
    var x := f as real + 0.5;
    assert x.Floor == f;
    NearestInRange(x);
  }

  // ----- Rounding a given number -------------------------------------------

  /** `k` doublings. */
  function Up(a: real, k: nat): real {
    a * Pow2(k) as real
  }

  /** `k` halvings. */
  function Down(a: real, k: nat): real {
    a / Pow2(k) as real
  }

  lemma NoSteps(a: real)
    ensures Up(a, 0) == a == Down(a, 0)
  {
    assert Pow2(0) == 1;
  }

  lemma OneStep(a: real, k: nat)
    requires k > 0
    ensures Up(a, k) == Up(2.0 * a, k - 1) == 2.0 * Up(a, k - 1)
    ensures Down(a, k) == Down(a / 2.0, k - 1) == Down(a, k - 1) / 2.0
  {
    var p := Pow2(k - 1) as real;
    assert Pow2(k) as real == 2.0 * p;
    assert a * (2.0 * p) == (2.0 * a) * p == 2.0 * (a * p);
    assert a / (2.0 * p) == a / 2.0 / p == a / p / 2.0;
  }

  lemma UpIsLarger(a: real, k: nat)
    requires Up(a, k) > 0.0
    ensures 0.0 < a <= Up(a, k)
  {
    if a > 0.0 {
      assert a * 1.0 <= a * Pow2(k) as real;
    }
  }

  lemma DownIsSmaller(a: real, k: nat)
    requires Down(a, k) > 0.0
    ensures Down(a, k) <= a
  {
    var x := Down(a, k);
    assert x * Pow2(k) as real == a;
    assert x * 1.0 <= x * Pow2(k) as real;
  }

  lemma NearestOfTwice(a: real)
    requires 0.0 < a < TWO_52 as real
    ensures Nearest(a) == Nearest(2.0 * a) / 2.0
  {
    hide RoundLarge;
  }

  lemma NearestOfHalf(a: real)
    requires a >= TWO_53 as real
    ensures Nearest(a) == 2.0 * Nearest(a / 2.0)
  {
  }

  lemma NearestInRange(a: real)
    requires TWO_52 as real <= a < TWO_53 as real
    ensures Nearest(a) == Round(a) as real
  {
  }

  /** A number with 53 bits before the point after `k` doublings. */
  lemma {:induction false} AfterDoublings(a: real, k: nat)
    requires TWO_52 as real <= Up(a, k) < TWO_53 as real
    ensures Nearest(a) == Down(Round(Up(a, k)) as real, k)
    decreases k
  {
    hide Up, Down, Round, Nearest;
    if k == 0 {
      NoSteps(a);
      NoSteps(Round(a) as real);
      NearestInRange(a);
    } else {
      OneStep(a, k);
      OneStep(Round(Up(a, k)) as real, k);
      UpIsLarger(2.0 * a, k - 1);
      AfterDoublings(2.0 * a, k - 1);
      NearestOfTwice(a);
    }
  }

  /** A number with 53 bits before the point after `k` halvings. */
  lemma {:induction false} AfterHalvings(a: real, k: nat)
    requires TWO_52 as real <= Down(a, k) < TWO_53 as real
    ensures Nearest(a) == Up(Round(Down(a, k)) as real, k)
    decreases k
  {
    hide Up, Down, Round, Nearest;
    if k == 0 {
      NoSteps(a);
      NoSteps(Round(a) as real);
      NearestInRange(a);
    } else {
      OneStep(a, k);
      OneStep(Round(Down(a, k)) as real, k);
      DownIsSmaller(a / 2.0, k - 1);
      AfterHalvings(a / 2.0, k - 1);
      NearestOfHalf(a);
    }
  }

  lemma {:induction false} Pow2Sum(a: nat, b: nat)
    ensures Pow2(a + b) == Pow2(a) * Pow2(b)
    decreases a
  {
    if a > 0 {
      Pow2Sum(a - 1, b);
    }
  }

  /** The power of a sum, when the powers are known. */
  lemma Pow2Product(a: nat, b: nat, x: nat, y: nat)
    requires Pow2(a) == x && Pow2(b) == y
    ensures Pow2(a + b) == x * y
  {
    Pow2Sum(a, b);
  }

  lemma SomePowers()
    ensures Pow2(54) == 18014398509481984 && Pow2(56) == 72057594037927936
    ensures Pow2(72) == 4722366482869645213696 && Pow2(147) == 178405961588244985132285746181186892047843328
  {
    assert Pow2(2) == 4 && Pow2(3) == 8 && Pow2(9) == 512;
    hide Pow2;
    Pow2Product(9, 9, 512, 512);
    Pow2Product(18, 18, 262144, 262144);
    Pow2Product(36, 18, 68719476736, 262144);
    Pow2Product(54, 2, 18014398509481984, 4);
    Pow2Product(36, 36, 68719476736, 68719476736);
    Pow2Product(72, 72, 4722366482869645213696, 4722366482869645213696);
    Pow2Product(144, 3, 22300745198530623141535718272648361505980416, 8);
  }
}
