/** Python's integer and power operators, written out over Dafny's unbounded
    `int` and `real`. Dafny's `/` and `%` on `int` are Euclidean, so the two
    Python operators the schedules use are defined explicitly here:
    - `a % m` (floor modulo: the remainder takes the sign of the divisor);
    - `int(a / d)` (true division followed by truncation toward zero);
    and `x ** e` for a real base and an integer exponent of either sign. */
module PyArith {

  function Abs(a: int): nat {
    if a < 0 then -a else a
  }

  /** Python's `a // d`: the quotient rounded toward negative infinity. (For a
      positive divisor Dafny's `/` already rounds down; a negative divisor
      is handled by negating both operands, which leaves the quotient as it
      is.) */
  function FloorDiv(a: int, d: int): (q: int)
    requires d != 0
    ensures d > 0 ==> d * q <= a < d * q + d
    ensures d < 0 ==> d * q + d < a <= d * q
  {
    if d > 0 then a / d else (-a) / (-d)
  }

  /** Python's `a % m`: the remainder left by `FloorDiv`, which lies between 0
      and the divisor and has the divisor's sign. */
  function FloorMod(a: int, m: int): (r: int)
    requires m != 0
    ensures m > 0 ==> 0 <= r < m
    ensures m < 0 ==> m < r <= 0
    ensures a == m * FloorDiv(a, m) + r
  {
    a - m * FloorDiv(a, m)
  }

  /** `int(a / d)` for a positive divisor: the magnitude is rounded down, the
      sign kept. */
  function TruncDivPos(a: int, d: int): (q: int)
    requires d > 0
    ensures a >= 0 ==> q >= 0
    ensures a <= 0 ==> q <= 0
    ensures Abs(a) < d ==> q == 0
  {
    DivNonneg(Abs(a), d);
    DivSmall(Abs(a), d);
    if a >= 0 then a / d else -((-a) / d)
  }

  /** Python's `int(a / d)` for integers `a` and `d`: the exact quotient
      truncated toward zero. */
  function TruncDiv(a: int, d: int): (q: int)
    requires d != 0
    ensures (a >= 0) == (d > 0) ==> q >= 0
    ensures (a <= 0) == (d > 0) ==> q <= 0
    ensures Abs(a) < Abs(d) ==> q == 0
  {
    if d > 0 then TruncDivPos(a, d) else -TruncDivPos(a, -d)
  }

  // Small facts of integer and real arithmetic that the solver does not find
  // on its own.

  lemma MulNonneg(x: int, y: int)
    requires x >= 0 && y >= 0
    ensures x * y >= 0
  {
  }

  lemma MulSign(d: int, x: int)
    requires d > 0
    ensures x > 0 ==> d * x >= d
    ensures x < 0 ==> d * x <= -d
  {
    if x > 0 {
      MulNonneg(d, x - 1);
      assert d * x == d * (x - 1) + d;
    } else if x < 0 {
      MulNonneg(d, -x - 1);
      assert d * x == -(d * (-x - 1)) - d;
    }
  }

  /** Euclidean division by a positive divisor is determined by its
      defining equation. */
  lemma DivUnique(a: int, d: int, q: int, r: int)
    requires d > 0 && a == d * q + r && 0 <= r < d
    ensures a / d == q && a % d == r
  {
    var q', r' := a / d, a % d;
    assert a == d * q' + r' && 0 <= r' < d;
    assert d * (q - q') == r' - r;
    MulSign(d, q - q');
  }

  lemma DivMonotone(a: int, b: int, d: int)
    requires d > 0 && a <= b
    ensures a / d <= b / d
  {
    var qa, qb := a / d, b / d;
    assert d * qa + a % d == a && d * qb + b % d == b;
    assert d * (qa - qb) == d * qa - d * qb;
    MulSign(d, qa - qb);
  }

  lemma DivSmall(a: int, d: int)
    requires d > 0
    ensures 0 <= a < d ==> a / d == 0
  {
    if 0 <= a < d {
      DivUnique(a, d, 0, a);
    }
  }

  lemma DivNonneg(a: int, d: int)
    requires d > 0 && a >= 0
    ensures a / d >= 0
  {
    DivUnique(0, d, 0, 0);
    DivMonotone(0, a, d);
  }

  lemma MulNonnegReal(x: real, y: real)
    requires x >= 0.0 && y >= 0.0
    ensures x * y >= 0.0
  {
  }

  lemma MulMonotoneReal(c: real, x: real, y: real)
    requires c >= 0.0 && x <= y
    ensures c * x <= c * y
  {
    MulNonnegReal(c, y - x);
    assert c * y - c * x == c * (y - x);
  }

  lemma ScaleDown(x: real, y: real)
    requires 0.0 <= x <= 1.0 && y >= 0.0
    ensures x * y <= y
  {
    MulNonnegReal(1.0 - x, y);
    assert y - x * y == (1.0 - x) * y;
  }

  lemma RecipAntitone(p1: real, p2: real)
    requires 0.0 < p1 <= p2
    ensures 1.0 / p2 <= 1.0 / p1
  {
    var i1, i2 := 1.0 / p1, 1.0 / p2;
    assert i1 * p1 == 1.0 && i2 * p2 == 1.0;
    MulNonnegReal(i2, p2 - p1);
    assert (i1 - i2) * p1 >= 0.0;
    MulNonnegReal((i1 - i2) * p1, i1);
    assert i1 - i2 == ((i1 - i2) * p1) * i1;
  }

  // Python's `%`

  /** For a positive divisor Python's `%` and Dafny's `%` agree. */
  lemma FloorModPositive(a: int, m: int)
    requires m > 0
    ensures FloorMod(a, m) == a % m
  {
  }

  lemma DivShift(a: int, j: int, m: int)
    requires m > 0
    ensures (a + j * m) / m == a / m + j
  {
    var q, r := a / m, a % m;
    assert a == m * q + r;
    assert a + j * m == m * (q + j) + r;
    DivUnique(a + j * m, m, q + j, r);
  }

  /** Adding a whole number of periods adds as much to the floor quotient. */
  lemma FloorDivShift(a: int, j: int, m: int)
    requires m != 0
    ensures FloorDiv(a + j * m, m) == FloorDiv(a, m) + j
  {
    if m > 0 {
      DivShift(a, j, m);
    } else {
      var n := -m;
      assert -(a + j * m) == -a + j * n;
      DivShift(-a, j, n);
    }
  }

  /** Adding a whole number of periods does not change the floor remainder. */
  lemma FloorModShift(a: int, j: int, m: int)
    requires m != 0
    ensures FloorMod(a + j * m, m) == FloorMod(a, m)
  {
    var q := FloorDiv(a, m);
    FloorDivShift(a, j, m);
    assert m * (q + j) == m * q + j * m;
  }

  // Python's `int(a / d)`

  /** For a positive divisor, truncation leaves a remainder smaller than the
      divisor and of the sign of the dividend. */
  lemma TruncDivPosRemainder(a: int, d: int)
    requires d > 0
    ensures var r := a - TruncDivPos(a, d) * d;
      (a >= 0 ==> 0 <= r < d) && (a <= 0 ==> -d < r <= 0)
  {
    var t := TruncDivPos(a, d);
    if a >= 0 {
      var q, s := a / d, a % d;
      assert t == q;
      assert a == d * q + s && 0 <= s < d;
      assert t * d == d * q;
    } else {
      var q, s := (-a) / d, (-a) % d;
      assert t == -q;
      assert -a == d * q + s && 0 <= s < d;
      assert t * d == -(d * q);
    }
  }

  /** Truncation rounds toward zero: the remainder `a - TruncDiv(a, d) * d`
      is smaller in magnitude than the divisor and never of the opposite sign
      to `a`. */
  lemma TruncDivRemainder(a: int, d: int)
    requires d != 0
    ensures var r := a - TruncDiv(a, d) * d;
      Abs(r) < Abs(d) && (a >= 0 ==> r >= 0) && (a <= 0 ==> r <= 0)
  {
    if d > 0 {
      TruncDivPosRemainder(a, d);
    } else {
      TruncDivPosRemainder(a, -d);
      assert TruncDiv(a, d) * d == TruncDivPos(a, -d) * (-d);
    }
  }

  lemma TruncDivVersusFloorDivPos(a: int, d: int)
    requires d > 0
    ensures a >= 0 || FloorMod(a, d) == 0 ==> TruncDiv(a, d) == FloorDiv(a, d)
    ensures a < 0 && FloorMod(a, d) != 0 ==> TruncDiv(a, d) == FloorDiv(a, d) + 1
  {
    var f, r := FloorDiv(a, d), FloorMod(a, d);
    assert f == a / d && r == a % d;
    if a < 0 {
      assert TruncDiv(a, d) == -((-a) / d);
      DivOfNegated(-a, d);
    }
  }

  /** Euclidean division of a negated dividend by a positive divisor: exact
      quotients are negated, inexact ones are negated and lowered by one. */
  lemma DivOfNegated(n: int, d: int)
    requires d > 0
    ensures n % d == 0 ==> (-n) / d == -(n / d) && (-n) % d == 0
    ensures n % d != 0 ==> (-n) / d == -(n / d) - 1 && (-n) % d == d - n % d
  {
    var q, s := n / d, n % d;
    assert n == d * q + s && 0 <= s < d;
    if s == 0 {
      assert -n == d * (-q) + 0;
      DivUnique(-n, d, -q, 0);
    } else {
      assert -n == d * (-q - 1) + (d - s);
      DivUnique(-n, d, -q - 1, d - s);
    }
  }

  /** Truncation and flooring agree when the quotient is exact or not
      negative; for a negative inexact quotient truncation is one above the
      floor. This is where Python's `int(a / d)` and Dafny's `a / d` (the
      floor, for a positive divisor) part ways. */
  lemma TruncDivVersusFloorDiv(a: int, d: int)
    requires d != 0
    ensures FloorMod(a, d) == 0 || (a >= 0) == (d > 0) ==> TruncDiv(a, d) == FloorDiv(a, d)
    ensures FloorMod(a, d) != 0 && (a >= 0) != (d > 0) ==> TruncDiv(a, d) == FloorDiv(a, d) + 1
  {
    if d > 0 {
      TruncDivVersusFloorDivPos(a, d);
    } else {
      NegateBoth(a, d);
      TruncDivVersusFloorDivPos(-a, -d);
    }
  }

  /** Negating both operands changes neither quotient and negates the floor
      remainder. */
  lemma NegateBoth(a: int, d: int)
    requires d < 0
    ensures TruncDiv(a, d) == TruncDiv(-a, -d)
    ensures FloorDiv(a, d) == FloorDiv(-a, -d)
    ensures FloorMod(a, d) == -FloorMod(-a, -d)
  {
    if a == 0 {
      DivUnique(0, -d, 0, 0);
    }
  }

  /** Truncating division by a positive divisor is monotone in the dividend. */
  lemma TruncDivMonotone(a: int, b: int, d: int)
    requires d > 0 && a <= b
    ensures TruncDiv(a, d) <= TruncDiv(b, d)
  {
    if a >= 0 {
      assert TruncDiv(a, d) == a / d && TruncDiv(b, d) == b / d;
      DivMonotone(a, b, d);
    } else if b < 0 {
      assert TruncDiv(a, d) == -((-a) / d) && TruncDiv(b, d) == -((-b) / d);
      DivMonotone(-b, -a, d);
    } else {
      assert TruncDiv(a, d) == -((-a) / d) && TruncDiv(b, d) == b / d;
      DivNonneg(-a, d);
      DivNonneg(b, d);
    }
  }

  // Python's `**`

  /** `x ** e` for a natural exponent. */
  function NatPow(x: real, e: nat): (p: real)
    ensures x != 0.0 ==> p != 0.0
    ensures x > 0.0 ==> p > 0.0
  {
    if e == 0 then 1.0 else x * NatPow(x, e - 1)
  }

  /** A base in [0, 1] raised to a natural power stays in [0, 1]. */
  lemma {:induction false} NatPowUnit(x: real, e: nat)
    requires 0.0 <= x <= 1.0
    ensures 0.0 <= NatPow(x, e) <= 1.0
  {
    if e > 0 {
      NatPowUnit(x, e - 1);
      ScaleDown(x, NatPow(x, e - 1));
      MulNonnegReal(x, NatPow(x, e - 1));
    }
  }

  /** Python's `x ** e` for an integer exponent: a negative exponent divides,
      so a zero base with a negative exponent raises ZeroDivisionError. */
  function Pow(x: real, e: int): (p: real)
    requires e >= 0 || x != 0.0
    ensures e >= 0 ==> p == NatPow(x, e)
    ensures x != 0.0 ==> p != 0.0
    ensures x > 0.0 ==> p > 0.0
  {
    if e >= 0 then NatPow(x, e) else 1.0 / NatPow(x, -e)
  }

  /** A negative power is the reciprocal of the corresponding positive one. */
  lemma PowNegative(x: real, e: int)
    requires x != 0.0 && e < 0
    ensures Pow(x, e) * Pow(x, -e) == 1.0
  {
  }

  /** For a base in (0, 1], raising to a larger natural exponent never
      increases the value. */
  lemma {:induction false} NatPowAntitone(x: real, e1: nat, e2: nat)
    requires 0.0 < x <= 1.0 && e1 <= e2
    ensures NatPow(x, e2) <= NatPow(x, e1)
  {
    if e1 < e2 {
      NatPowAntitone(x, e1, e2 - 1);
      NatPowStep(x, e2 - 1);
    }
  }

  lemma NatPowStep(x: real, e: nat)
    requires 0.0 < x <= 1.0
    ensures NatPow(x, e + 1) <= NatPow(x, e)
  {
    ScaleDown(x, NatPow(x, e));
  }

  /** The same over all integer exponents: for a base in (0, 1] the power is
      non-increasing in the exponent, through the negative exponents too. */
  lemma PowAntitone(x: real, e1: int, e2: int)
    requires 0.0 < x <= 1.0 && e1 <= e2
    ensures Pow(x, e2) <= Pow(x, e1)
  {
    if e1 >= 0 {
      NatPowAntitone(x, e1, e2);
    } else if e2 >= 0 {
      NatPowUnit(x, e2);
      NatPowUnit(x, -e1);
      RecipAntitone(NatPow(x, -e1), 1.0);
    } else {
      NatPowAntitone(x, -e2, -e1);
      RecipAntitone(NatPow(x, -e1), NatPow(x, -e2));
    }
  }

  /** A non-negative multiple of such a power is non-increasing in the
      exponent as well. */
  lemma ScaledPowAntitone(c: real, x: real, e1: int, e2: int)
    requires c >= 0.0 && 0.0 < x <= 1.0 && e1 <= e2
    ensures ScaledPow(c, x, e2) <= ScaledPow(c, x, e1)
  {
    PowAntitone(x, e1, e2);
    ScaledPowMonotone(c, x, e1, e2);
  }

  /** Scaling by a non-negative rate keeps the order of two powers. */
  lemma ScaledPowMonotone(c: real, x: real, e1: int, e2: int)
    requires c >= 0.0 && (e1 >= 0 || x != 0.0) && (e2 >= 0 || x != 0.0)
    requires Pow(x, e2) <= Pow(x, e1)
    ensures ScaledPow(c, x, e2) <= ScaledPow(c, x, e1)
  {
    var lo, hi := Pow(x, e2), Pow(x, e1);
    MulMonotoneReal(c, lo, hi);
    OrderByEquals(ScaledPow(c, x, e2), ScaledPow(c, x, e1), c * lo, c * hi);
  }

  /** Two values equal to an ordered pair are ordered the same way. */
  lemma OrderByEquals(a: real, b: real, a': real, b': real)
    requires a == a' && b == b' && a' <= b'
    ensures a <= b
  {
  }

  /** `c * x ** e`: a rate `c` decayed `e` times by the factor `x`. For a
      non-negative rate and a factor in (0, 1], decaying a natural number of
      times keeps it between 0 and `c`; a positive rate decayed by a positive
      factor stays positive. */
  function ScaledPow(c: real, x: real, e: int): (r: real)
    requires e >= 0 || x != 0.0
    ensures c >= 0.0 && 0.0 < x <= 1.0 && e >= 0 ==> 0.0 <= r <= c
    ensures c > 0.0 && x > 0.0 ==> r > 0.0
  {
    ScaledPowBounds(c, x, e);
    c * Pow(x, e)
  }

  lemma ScaledPowBounds(c: real, x: real, e: int)
    requires e >= 0 || x != 0.0
    ensures c >= 0.0 && 0.0 < x <= 1.0 && e >= 0 ==> 0.0 <= c * Pow(x, e) <= c
    ensures c > 0.0 && x > 0.0 ==> c * Pow(x, e) > 0.0
  {
    if c >= 0.0 && 0.0 < x <= 1.0 && e >= 0 {
      PowAntitone(x, 0, e);
      MulMonotoneReal(c, Pow(x, e), 1.0);
      MulNonnegReal(c, Pow(x, e));
    }
    if c > 0.0 && x > 0.0 {
      MulPositiveReal(c, Pow(x, e));
    }
  }

  lemma MulPositiveReal(x: real, y: real)
    requires x > 0.0 && y > 0.0
    ensures x * y > 0.0
  {
  }

  /** One more decay multiplies a scaled power by the factor once. */
  lemma ScaledPowStep(c: real, x: real, e: nat)
    ensures ScaledPow(c, x, e + 1) == ScaledPow(c, x, e) * x
  {
    var p := NatPow(x, e);
    assert Pow(x, e + 1) == x * p;
    assert c * (x * p) == (c * p) * x;
  }

  /** One negative power of a factor in (0, 1) raises a positive rate above
      itself. */
  lemma ScaledPowNegativeOne(c: real, x: real)
    requires c > 0.0 && 0.0 < x < 1.0
    ensures ScaledPow(c, x, -1) > c
  {
    var p := Pow(x, -1);
    PowNegative(x, -1);
    assert Pow(x, 1) == x * NatPow(x, 0);
    assert p * x == 1.0;
    assert p > 1.0;
    MulPositiveReal(c, p - 1.0);
    assert c * p - c == c * (p - 1.0);
  }
}
