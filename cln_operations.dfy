/**
 * The exact number helpers of carl's cln adaption (`adaption_cln/operations.h`):
 * integrality and bit size of rationals, exact and truncating integer
 * division, gcd and lcm, floor and ceiling, and the decimal-string parser.
 * A cln rational `cl_RA` is a numerator and a positive denominator in lowest terms.
 */
module ClnOperations {
  import opened Integers
  import opened Wrappers

  datatype Rational = Rational(num: int, den: int)

  /** The representation invariant of `cl_RA`: positive denominator, lowest terms. */
  predicate Canonical(r: Rational)
  {
    r.den > 0 && Gcd(r.num, r.den) == 1
  }

  /** `a` and `b` denote the same rational number. */
  predicate SameValue(a: Rational, b: Rational)
  {
    a.num * b.den == b.num * a.den
  }

  lemma GcdWithOne(n: int)
    ensures Gcd(n, 1) == 1
  {
    DividesOne(Gcd(n, 1));
  }

  /** The rational with integer value `n`. */
  function FromInt(n: int): (r: Rational)
    ensures Canonical(r) && r.den == 1
    ensures SameValue(r, Rational(n, 1))
  {
    GcdWithOne(n);
    Rational(n, 1)
  }

  /** Dividing by a positive divisor keeps the sign. */
  lemma ExactQuotientSign(d: int, g: int)
    requires g > 0 && Divides(g, d)
    ensures d > 0 ==> d / g > 0
    ensures d < 0 ==> d / g < 0
  {
    DividesGivesWitness(g, d);
    var q := d / g;
    if d > 0 && q <= 0 {
      MulAbs(g, q);
    }
    if d < 0 && q >= 0 {
      MulAbs(g, q);
    }
  }

  lemma GcdNegBoth(a: int, b: int)
    ensures Gcd(-a, -b) == Gcd(a, b)
  {
    GcdNeg(a, -b);
    GcdSymmetric(a, -b);
    GcdNeg(b, a);
    GcdSymmetric(b, a);
  }

  /** `n / d` and `(n / g) / (d / g)` have the same value when `g` divides both. */
  lemma CrossMultiply(n: int, d: int, g: int)
    requires g != 0 && Divides(g, n) && Divides(g, d)
    ensures (n / g) * d == n * (d / g)
  {
    DividesGivesWitness(g, n);
    DividesGivesWitness(g, d);
    var n', d' := n / g, d / g;
    calc {
      n' * d;
      n' * (g * d');
      (g * n') * d';
      n * d';
    }
  }

  /** The canonical rational with value `n / d`, as cln normalises every quotient. */
  function MakeRational(n: int, d: int): (r: Rational)
    requires d != 0
    ensures Canonical(r)
    ensures r.num * d == n * r.den
  {
    var g := Gcd(n, d);
    ExactQuotientSign(d, g);
    GcdOfQuotients(n, d);
    CrossMultiply(n, d, g);
    if d > 0 then
      Rational(n / g, d / g)
    else
      GcdNegBoth(n / g, d / g);
      Rational(-(n / g), -(d / g))
  }

  lemma MulCancel(x: int, y: int, k: int)
    requires k != 0 && x * k == y * k
    ensures x == y
  {
    assert (x - y) * k == 0;
  }

  lemma Rearrange(x: int, y: int, z: int, u: int, v: int, w: int)
    requires x * (y * z) == (u * v) * w
    ensures (x * z) * y == u * (w * v)
  {
  }

  /** Two canonical rationals with the same value are identical. */
  lemma CanonicalUnique(a: Rational, b: Rational)
    requires Canonical(a) && Canonical(b) && SameValue(a, b)
    ensures a == b
  {
    assert Divides(a.den, b.den) by {
      DividesByWitness(a.den, b.num * a.den, b.num);
      GcdSymmetric(a.num, a.den);
      CoprimeDividesProduct(a.num, a.den, b.den);
    }
    assert Divides(b.den, a.den) by {
      DividesByWitness(b.den, a.num * b.den, a.num);
      GcdSymmetric(b.num, b.den);
      CoprimeDividesProduct(b.num, b.den, a.den);
    }
    DividesAntisymmetric(a.den, b.den);
    assert a.num * a.den == b.num * a.den;
    MulCancel(a.num, b.num, a.den);
  }

  /** Sum of two rationals (`cl_RA + cl_RA`). */
  function Add(a: Rational, b: Rational): (r: Rational)
    requires Canonical(a) && Canonical(b)
    ensures Canonical(r)
    ensures r.num * (a.den * b.den) == (a.num * b.den + b.num * a.den) * r.den
  {
    MakeRational(a.num * b.den + b.num * a.den, a.den * b.den)
  }

  /**
   * Quotient of two rationals (`div`, `div_assign` and `quotient` on `cl_RA`);
   * cln refuses division by zero.
   */
  function RationalDiv(a: Rational, b: Rational): (r: Rational)
    requires Canonical(a) && Canonical(b) && b.num != 0
    ensures Canonical(r)
    ensures SameValue(Rational(r.num * b.num, r.den * b.den), a)
  {
    var r := MakeRational(a.num * b.den, a.den * b.num);
    Rearrange(r.num, a.den, b.num, a.num, b.den, r.den);
    r
  }

  /** `div_assign` on rationals: overwrites `a` with `a / b`. */
  method RationalDivAssign(a: Rational, b: Rational) returns (a': Rational)
    requires Canonical(a) && Canonical(b) && b.num != 0
    ensures a' == RationalDiv(a, b)
  {
    a' := RationalDiv(a, b);
  }

  /** `isInteger` on a rational: the denominator is one. */
  predicate IsInteger(r: Rational)
  {
    r.den == 1
  }

  /** For a canonical rational, a denominator of one means an integral value. */
  lemma IsIntegerMeansIntegral(r: Rational)
    requires Canonical(r)
    ensures IsInteger(r) <==> Divides(r.den, r.num)
  {
    if Divides(r.den, r.num) {
      DividesSelf(r.den);
      GcdGreatest(r.num, r.den, r.den);
      DividesBound(r.den, 1);
    }
    if IsInteger(r) {
      OneDivides(r.num);
    }
  }

  /** `toInt<cl_I>`: the integer value of an integral rational. */
  function ToInt(r: Rational): (n: int)
    requires Canonical(r) && IsInteger(r)
    ensures FromInt(n) == r
  {
    r.num
  }

  function Pow(base: int, k: nat): int
  {
    if k == 0 then 1 else base * Pow(base, k - 1)
  }

  /** Exponents add: `base^(j + k) == base^j * base^k`. */
  lemma {:induction false} PowAdd(base: int, j: nat, k: nat)
    ensures Pow(base, j + k) == Pow(base, j) * Pow(base, k)
    decreases k
  {
    if k > 0 {
      PowAdd(base, j, k - 1);
      assert Pow(base, j + k) == base * Pow(base, j + (k - 1));
      assert base * (Pow(base, j) * Pow(base, k - 1)) == Pow(base, j) * (base * Pow(base, k - 1));
    }
  }

  lemma PowPositive(base: int, k: nat)
    requires base > 0
    ensures Pow(base, k) > 0
  {
    if k > 0 {
      PowPositive(base, k - 1);
      MulAtLeast(Pow(base, k - 1), base);
    }
  }

  /**
   * `cln::integer_length`: the least `len` such that `-2^len <= n < 2^len`,
   * the number of bits of `n` without its sign.
   */
  function IntegerLength(n: int): (len: nat)
    ensures -Pow(2, len) <= n < Pow(2, len)
    ensures len > 0 ==> n < -Pow(2, len - 1) || Pow(2, len - 1) <= n
    decreases Abs(n)
  {
    if n < 0 then
      IntegerLength(-n - 1)
    else if n == 0 then
      0
    else
      var len := 1 + IntegerLength(n / 2);
      PowPositive(2, len - 1);
      len
  }

  /** `bitsize` of an integer. */
  function IntegerBitSize(n: int): (b: nat)
    ensures -Pow(2, b) <= n < Pow(2, b)
    ensures b > 0 ==> n < -Pow(2, b - 1) || Pow(2, b - 1) <= n
  {
    IntegerLength(n)
  }

  /** `bitsize` of a rational: the lengths of numerator and denominator together. */
  function BitSize(r: Rational): (b: nat)
    requires Canonical(r)
    ensures b == IntegerLength(r.num) + IntegerLength(r.den)
    ensures b >= IntegerLength(r.num) + 1
    ensures -Pow(2, b) <= r.num < Pow(2, b)
    ensures r.den < Pow(2, b)
  {
    var len := IntegerLength(r.num);
    PowMonotone(2, len, len + IntegerLength(r.den));
    PowMonotone(2, IntegerLength(r.den), len + IntegerLength(r.den));
    len + IntegerLength(r.den)
  }

  lemma PowMonotone(base: int, j: nat, k: nat)
    requires base > 1 && j <= k
    ensures Pow(base, j) <= Pow(base, k)
    decreases k
  {
    if j < k {
      PowMonotone(base, j, k - 1);
      PowPositive(base, k - 1);
      MulAtLeast(Pow(base, k - 1), base);
    }
  }

  /** An integral rational needs one bit more than its integer value: the denominator 1. */
  lemma BitSizeOfInteger(n: int)
    ensures BitSize(FromInt(n)) == IntegerBitSize(n) + 1
  {
    assert IntegerLength(1) == 1;
  }

  /** `floor` of an integer is the integer: the greatest integer not above it. */
  function FloorInt(n: int): (r: int)
    ensures r <= n < r + 1
  {
    n
  }

  /** `ceil` of an integer is the integer: the least integer not below it. */
  function CeilInt(n: int): (r: int)
    ensures r - 1 < n <= r
  {
    n
  }

  /** `floor` of a rational (`cln::floor1`). */
  function FloorRational(r: Rational): (f: int)
    requires Canonical(r)
    ensures f * r.den <= r.num < (f + 1) * r.den
  {
    r.num / r.den
  }

  /** `ceil` of a rational (`cln::ceiling1`). */
  function CeilRational(r: Rational): (c: int)
    requires Canonical(r)
    ensures (c - 1) * r.den < r.num <= c * r.den
  {
    -((-r.num) / r.den)
  }

  /** On integral rationals the rational floor and ceiling agree with the integer ones. */
  lemma FloorCeilOfInteger(n: int)
    ensures FloorRational(FromInt(n)) == FloorInt(n)
    ensures CeilRational(FromInt(n)) == CeilInt(n)
  {
  }

  /** `gcd_assign` on integers: overwrites `a` with `gcd(a, b)`. */
  method GcdAssign(a: int, b: int) returns (a': int)
    ensures a' == Gcd(a, b)
  {
    a' := Gcd(a, b);
  }

  /** `gcd` of two integral rationals, computed on the numerators. */
  function RationalGcd(a: Rational, b: Rational): (r: Rational)
    requires Canonical(a) && Canonical(b) && IsInteger(a) && IsInteger(b)
    ensures Canonical(r) && IsInteger(r) && r.num >= 0
    ensures Divides(r.num, a.num) && Divides(r.num, b.num)
    ensures forall d :: Divides(d, a.num) && Divides(d, b.num) ==> Divides(d, r.num)
  {
    var g := Gcd(a.num, b.num);
    forall d | Divides(d, a.num) && Divides(d, b.num)
      ensures Divides(d, g)
    {
      GcdGreatest(a.num, b.num, d);
    }
    FromInt(g)
  }

  /** `gcd_assign` on integral rationals: overwrites `a` with their gcd. */
  method RationalGcdAssign(a: Rational, b: Rational) returns (a': Rational)
    requires Canonical(a) && Canonical(b) && IsInteger(a) && IsInteger(b)
    ensures a' == RationalGcd(a, b)
  {
    a' := FromInt(Gcd(ToInt(a), ToInt(b)));
  }

  lemma DividesAbs(d: int, n: int)
    requires Divides(d, n)
    ensures Divides(d, Abs(n))
  {
    DividesNeg(d, n);
  }

  lemma LcmFacts(a: int, b: int)
    requires a != 0 && b != 0
    ensures Gcd(a, b) > 0 && Divides(Gcd(a, b), Abs(a * b))
    ensures var l := Abs(a * b) / Gcd(a, b); Divides(a, l) && Divides(b, l) && l * Gcd(a, b) == Abs(a * b)
  {
    var g := Gcd(a, b);
    DividesGivesWitness(g, b);
    DividesGivesWitness(g, a);
    var a', b' := a / g, b / g;
    var x, y := a * b', a' * b;
    assert a * b == g * x by {
      assert a * b == a * (g * b');
    }
    assert a * b == g * y by {
      assert a * b == (g * a') * b;
    }
    MulAbs(g, x);
    MulAbs(g, y);
    assert Abs(a * b) == g * Abs(x);
    DividesByWitness(g, Abs(a * b), Abs(x));
    DividesByWitness(g, Abs(a * b), Abs(y));
    var l := Abs(a * b) / g;
    assert l == Abs(x) && l == Abs(y);
    DividesByWitness(a, x, b');
    DividesAbs(a, x);
    DividesByWitness(b, y, a');
    DividesAbs(b, y);
  }

  /** `lcm` of two integers (`cln::lcm`): non-negative, zero when either argument is zero. */
  function Lcm(a: int, b: int): (l: nat)
    ensures Divides(a, l) && Divides(b, l)
    ensures l * Gcd(a, b) == Abs(a * b)
  {
    if a == 0 || b == 0 then
      DividesZero(a);
      DividesZero(b);
      0
    else
      LcmFacts(a, b);
      Abs(a * b) / Gcd(a, b)
  }

  /** `lcm` of two integral rationals, computed on the numerators. */
  function RationalLcm(a: Rational, b: Rational): (r: Rational)
    requires Canonical(a) && Canonical(b) && IsInteger(a) && IsInteger(b)
    ensures Canonical(r) && IsInteger(r)
    ensures Divides(a.num, r.num) && Divides(b.num, r.num)
    ensures r.num * Gcd(a.num, b.num) == Abs(a.num * b.num)
  {
    FromInt(Lcm(a.num, b.num))
  }

  lemma NatModFacts(n: nat, m: nat)
    requires m > 0
    ensures 0 <= n % m < m && n % m <= n
    ensures n == (n / m) * m + n % m
  {
  }

  /** `cln::rem`: the remainder of division truncated towards zero. */
  function Remainder(a: int, b: int): (r: int)
    requires b != 0
    ensures Abs(r) < Abs(b)
    ensures r == 0 || (r < 0 <==> a < 0)
    ensures Abs(r) <= Abs(a)
    ensures Divides(b, a - r)
  {
    var m := Abs(b);
    var n: nat := Abs(a);
    NatModFacts(n, m);
    var r := if a >= 0 then n % m else -(n % m);
    assert Divides(m, a - r) by {
      if a >= 0 {
        DividesByWitness(m, a - r, n / m);
      } else {
        DividesByWitness(m, a - r, -(n / m));
      }
    }
    DividesOfAbsDivisor(b, a - r);
    r
  }

  /** `quotient` on integers: exact division of `a - rem(a, b)` by `b`. */
  function Quotient(a: int, b: int): (q: int)
    requires b != 0
    ensures q * b + Remainder(a, b) == a
  {
    var d := a - Remainder(a, b);
    DividesGivesWitness(b, d);
    d / b
  }

  /** A multiple of `b` smaller than `b` in magnitude is zero. */
  lemma SmallMultiple(t: int, b: int, x: int)
    requires b != 0 && t * b == x && Abs(x) < Abs(b)
    ensures t == 0
  {
    MulAbs(t, b);
    if t != 0 {
      MulAtLeast(Abs(b), Abs(t));
    }
  }

  /** Truncating division is determined by the division equation and the remainder's bound and sign. */
  lemma TruncatedDivisionUnique(a: int, b: int, q: int, r: int)
    requires b != 0 && q * b + r == a
    requires Abs(r) < Abs(b) && (r == 0 || (r < 0 <==> a < 0))
    ensures q == Quotient(a, b) && r == Remainder(a, b)
  {
    var q0, r0 := Quotient(a, b), Remainder(a, b);
    assert (q - q0) * b == r0 - r by {
      assert q * b - q0 * b == r0 - r;
    }
    SmallMultiple(q - q0, b, r0 - r);
  }

  /** `operator/` on cln integers is `quotient`: it rounds towards zero. */
  function TruncatingDivide(a: int, b: int): (q: int)
    requires b != 0
    ensures q * b + Remainder(a, b) == a
    ensures Abs(q * b) <= Abs(a)
  {
    var q := Quotient(a, b);
    var t := q * b;
    assert t == a - Remainder(a, b);
    q
  }

  /** `div` on integers: exact division, which requires `b` to divide `a`. */
  function Div(a: int, b: int): (q: int)
    requires b != 0 && Divides(b, a)
    ensures q * b == a
  {
    DividesGivesWitness(b, a);
    a / b
  }

  /** `div_assign` on integers: overwrites `a` with the exact quotient `a / b`. */
  method DivAssign(a: int, b: int) returns (a': int)
    requires b != 0 && Divides(b, a)
    ensures a' * b == a
    ensures a' == Div(a, b)
  {
    a' := Div(a, b);
  }

  /** Exact division agrees with truncating division when it applies. */
  lemma DivIsQuotient(a: int, b: int)
    requires b != 0 && Divides(b, a)
    ensures Div(a, b) == Quotient(a, b) && Remainder(a, b) == 0
  {
    TruncatedDivisionUnique(a, b, Div(a, b), 0);
  }
}
