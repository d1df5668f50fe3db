/**
 * Exact integer arithmetic shared by the polynomial core and the cln adaption:
 * absolute value, sign, divisibility and the non-negative gcd of GMP and cln.
 */
module Integers {

  function Abs(x: int): nat
  {
    if x < 0 then -x else x
  }

  /** The sign of an integer: -1, 0 or 1. */
  function Sign(x: int): int
  {
    if x < 0 then -1 else if x == 0 then 0 else 1
  }

  /** `d` divides `n`; zero divides only zero. */
  predicate Divides(d: int, n: int)
  {
    if d == 0 then n == 0 else n % d == 0
  }

  lemma MulAbs(x: int, y: int)
    ensures Abs(x * y) == Abs(x) * Abs(y)
  {
    if x < 0 && y < 0 {
      assert x * y == (-x) * (-y);
    } else if x < 0 {
      assert -(x * y) == (-x) * y;
    } else if y < 0 {
      assert -(x * y) == x * (-y);
    }
  }

  lemma MulAtLeast(x: nat, y: nat)
    requires y >= 1
    ensures x * y >= x
  {
    assert x * y == x * (y - 1) + x;
  }

  /** A product `d * k` is divisible by `d`, and the quotient is `k`. */
  lemma DividesByWitness(d: int, n: int, k: int)
    requires n == d * k
    ensures Divides(d, n)
    ensures d != 0 ==> n / d == k
  {
    if d != 0 {
      var q, r := n / d, n % d;
      assert n == d * q + r;
      var t := k - q;
      assert d * t == r by {
        assert d * k - d * q == r;
        assert d * k - d * q == d * (k - q);
      }
      MulAbs(d, t);
      if t != 0 {
        MulAtLeast(Abs(d), Abs(t));
      }
    }
  }

  /** A multiple of `d` is `d` times its quotient. */
  lemma DividesGivesWitness(d: int, n: int)
    requires Divides(d, n) && d != 0
    ensures n == d * (n / d)
  {
  }

  lemma DividesSelf(n: int)
    ensures Divides(n, n)
  {
    DividesByWitness(n, n, 1);
  }

  lemma DividesZero(d: int)
    ensures Divides(d, 0)
  {
    DividesByWitness(d, 0, 0);
  }

  lemma OneDivides(n: int)
    ensures Divides(1, n) && Divides(-1, n)
  {
    DividesByWitness(1, n, n);
    DividesByWitness(-1, n, -n);
  }

  /** Divisibility is closed under `x * k + y`. */
  lemma DividesLinear(d: int, x: int, y: int, k: int)
    requires Divides(d, x) && Divides(d, y)
    ensures Divides(d, x * k + y)
  {
    if d != 0 {
      var p, q := x / d, y / d;
      DividesGivesWitness(d, x);
      DividesGivesWitness(d, y);
      assert x * k + y == d * (p * k + q) by {
        assert x * k == d * p * k;
      }
      DividesByWitness(d, x * k + y, p * k + q);
    }
  }

  lemma DividesNeg(d: int, n: int)
    requires Divides(d, n)
    ensures Divides(d, -n) && Divides(-d, n) && Divides(Abs(d), n)
  {
    if d != 0 {
      DividesGivesWitness(d, n);
      var q := n / d;
      DividesByWitness(d, -n, -q);
      DividesByWitness(-d, n, -q);
      DividesByWitness(Abs(d), n, if d < 0 then -q else q);
    }
  }

  lemma DividesOfAbs(d: int, n: int)
    requires Divides(d, Abs(n))
    ensures Divides(d, n)
  {
    if n < 0 {
      DividesNeg(d, Abs(n));
    }
  }

  lemma DividesOfAbsDivisor(d: int, n: int)
    requires Divides(Abs(d), n)
    ensures Divides(d, n)
  {
    if d < 0 {
      DividesNeg(Abs(d), n);
    }
  }

  lemma DividesTransitive(a: int, b: int, c: int)
    requires Divides(a, b) && Divides(b, c)
    ensures Divides(a, c)
  {
    if a == 0 {
    } else if b == 0 {
      DividesZero(a);
    } else {
      DividesGivesWitness(a, b);
      DividesGivesWitness(b, c);
      var p, q := b / a, c / b;
      assert c == a * (p * q) by {
        assert c == b * q;
        assert b * q == a * p * q;
      }
      DividesByWitness(a, c, p * q);
    }
  }

  lemma DividesMul(d: int, n: int, k: int)
    requires Divides(d, n)
    ensures Divides(d, n * k) && Divides(d * k, n * k)
  {
    DividesZero(d);
    DividesLinear(d, n, 0, k);
    if d != 0 {
      DividesGivesWitness(d, n);
      var q := n / d;
      assert n * k == (d * k) * q;
      DividesByWitness(d * k, n * k, q);
    }
  }

  /** A divisor of a non-zero number is no larger in magnitude. */
  lemma DividesBound(d: int, n: int)
    requires Divides(d, n) && n != 0
    ensures Abs(d) <= Abs(n)
  {
    DividesGivesWitness(d, n);
    var q := n / d;
    MulAbs(d, q);
    assert q != 0;
    MulAtLeast(Abs(d), Abs(q));
  }

  /** The divisors of 1 are 1 and -1. */
  lemma DividesOne(d: int)
    requires Divides(d, 1)
    ensures d == 1 || d == -1
  {
    DividesBound(d, 1);
  }

  /** Two numbers that divide each other agree in magnitude. */
  lemma DividesAntisymmetric(a: int, b: int)
    requires Divides(a, b) && Divides(b, a)
    ensures Abs(a) == Abs(b)
  {
    if a != 0 && b != 0 {
      DividesBound(a, b);
      DividesBound(b, a);
    }
  }

  lemma DividesRemainder(g: int, a: nat, b: nat)
    requires b != 0 && Divides(g, b)
    ensures Divides(g, a % b) <==> Divides(g, a)
  {
    assert a == b * (a / b) + a % b;
    if Divides(g, a % b) {
      DividesLinear(g, b, a % b, a / b);
    }
    if Divides(g, a) {
      DividesNeg(g, b);
      var nb: int := -(b as int);
      DividesLinear(g, nb, a, a / b);
      assert nb * (a / b) + a == a % b;
    }
  }

  /** Euclid's algorithm on natural numbers; every common divisor divides the result. */
  function GcdNat(a: nat, b: nat): (g: nat)
    ensures Divides(g, a) && Divides(g, b)
    ensures g == 0 <==> a == 0 && b == 0
    decreases b
  {
    if b == 0 then
      DividesSelf(a);
      DividesZero(a);
      a
    else
      var g := GcdNat(b, a % b);
      DividesRemainder(g, a, b);
      g
  }

  lemma {:induction false} GcdNatGreatest(a: nat, b: nat, d: int)
    requires Divides(d, a) && Divides(d, b)
    ensures Divides(d, GcdNat(a, b))
    decreases b
  {
    if b != 0 {
      DividesRemainder(d, a, b);
      GcdNatGreatest(b, a % b, d);
    }
  }

  /**
   * The greatest common divisor of two integers as GMP's `mpz_gcd` and
   * cln's `gcd` compute it: never negative, and `Gcd(0, 0) == 0`.
   */
  function Gcd(a: int, b: int): (g: nat)
    ensures Divides(g, a) && Divides(g, b)
    ensures g == 0 <==> a == 0 && b == 0
  {
    var g := GcdNat(Abs(a), Abs(b));
    DividesOfAbs(g, a);
    DividesOfAbs(g, b);
    g
  }

  /** Every common divisor of `a` and `b` divides `Gcd(a, b)`. */
  lemma GcdGreatest(a: int, b: int, d: int)
    requires Divides(d, a) && Divides(d, b)
    ensures Divides(d, Gcd(a, b))
  {
    DividesNeg(d, a);
    DividesNeg(d, b);
    GcdNatGreatest(Abs(a), Abs(b), d);
  }

  /** Reference characterisation: a non-negative common divisor that every common divisor divides is the gcd. */
  lemma GcdUnique(a: int, b: int, g: nat)
    requires Divides(g, a) && Divides(g, b)
    requires forall d :: Divides(d, a) && Divides(d, b) ==> Divides(d, g)
    ensures g == Gcd(a, b)
  {
    GcdGreatest(a, b, g);
    assert Divides(Gcd(a, b), g);
    DividesAntisymmetric(g, Gcd(a, b));
  }

  lemma GcdSymmetric(a: int, b: int)
    ensures Gcd(a, b) == Gcd(b, a)
  {
    GcdGreatest(a, b, Gcd(b, a));
    GcdGreatest(b, a, Gcd(a, b));
    DividesAntisymmetric(Gcd(a, b), Gcd(b, a));
  }

  /** The gcd ignores signs. */
  lemma GcdNeg(a: int, b: int)
    ensures Gcd(-a, b) == Gcd(a, b)
  {
    DividesNeg(Gcd(a, b), a);
    GcdGreatest(-a, b, Gcd(a, b));
    assert -(-a) == a;
    DividesNeg(Gcd(-a, b), -a);
    GcdGreatest(a, b, Gcd(-a, b));
    DividesAntisymmetric(Gcd(a, b), Gcd(-a, b));
  }

  /** Multiplying by a unit twice gives the number back. */
  lemma UnitSquare(u: int, g: int)
    requires u == 1 || u == -1
    ensures u * (u * g) == g
  {
  }

  /** A number that leaves a nonzero number's absolute value unchanged when multiplied in is a unit. */
  lemma UnitFactor(h: int, g: int)
    requires g != 0 && Abs(g) == Abs(h) * Abs(g)
    ensures Abs(h) == 1
  {
    assert 1 * Abs(g) == Abs(h) * Abs(g);
  }

  /** A nonzero `g` with `g == h * g * k` forces `h * k == 1`. */
  lemma CancelFactor(g: int, h: int, k: int)
    requires g != 0 && g == h * g * k
    ensures h * k == 1
  {
    assert h * g * k == g * (h * k);
    assert g * (h * k - 1) == 0;
  }

  /** After dividing out their gcd, two numbers (not both zero) are coprime. */
  lemma GcdOfQuotients(a: int, b: int)
    requires a != 0 || b != 0
    ensures Gcd(a / Gcd(a, b), b / Gcd(a, b)) == 1
  {
    var g := Gcd(a, b);
    var a', b' := a / g, b / g;
    var h := Gcd(a', b');
    DividesGivesWitness(g, a);
    DividesGivesWitness(g, b);
    DividesMul(h, a', g);
    DividesMul(h, b', g);
    assert a' * g == a && b' * g == b;
    assert h != 0;
    GcdGreatest(a, b, h * g);
    assert Divides(h * g, g * 1);
    DividesByWitness(h * g, h * g, 1);
    assert Divides(h, 1) by {
      DividesGivesWitness(h * g, g);
      var k := g / (h * g);
      CancelFactor(g, h, k);
      DividesByWitness(h, 1, k);
    }
    DividesOne(h);
  }

  /** Euclidean division is determined by the quotient-remainder equation. */
  lemma EuclideanUnique(n: int, d: int, q: int, r: int)
    requires d != 0 && n == d * q + r && 0 <= r < Abs(d)
    ensures n / d == q && n % d == r
  {
    var t := q - n / d;
    assert d * t == n % d - r by {
      assert n == d * (n / d) + n % d;
      assert d * q - d * (n / d) == d * t;
    }
    MulAbs(d, t);
    if t != 0 {
      MulAtLeast(Abs(d), Abs(t));
    }
  }

  lemma ModScale(a: nat, b: nat, c: nat)
    requires b > 0 && c > 0
    ensures (a * c) % (b * c) == (a % b) * c
  {
    var q, r := a / b, a % b;
    assert a * c == (b * c) * q + r * c by {
      assert a == b * q + r;
      assert a * c == (b * q + r) * c;
    }
    assert r * c < b * c by {
      assert b * c - r * c == (b - r) * c;
      MulAtLeast(c, b - r);
    }
    EuclideanUnique(a * c, b * c, q, r * c);
  }

  /** Euclid's algorithm commutes with scaling: gcd(a c, b c) = gcd(a, b) c. */
  lemma {:induction false} GcdNatScale(a: nat, b: nat, c: nat)
    ensures GcdNat(a * c, b * c) == GcdNat(a, b) * c
    decreases b
  {
    if c == 0 {
    } else if b == 0 {
    } else {
      assert b * c > 0 by { MulAtLeast(c, b); }
      ModScale(a, b, c);
      GcdNatScale(b, a % b, c);
    }
  }

  /** Euclid's lemma: a number coprime to `a` that divides `a c` divides `c`. */
  lemma CoprimeDividesProduct(a: int, b: int, c: int)
    requires Gcd(a, b) == 1 && Divides(b, a * c)
    ensures Divides(b, c)
  {
    GcdNatScale(Abs(a), Abs(b), Abs(c));
    MulAbs(a, c);
    MulAbs(b, c);
    DividesNeg(b, a * c);
    DividesOfAbs(b, Abs(a * c));
    assert Divides(b, Abs(a) * Abs(c)) by {
      if a * c < 0 {
        DividesNeg(b, a * c);
      }
    }
    assert Divides(b, Abs(b) * Abs(c)) by {
      DividesSelf(b);
      DividesNeg(b, b);
      DividesMul(b, Abs(b), Abs(c));
    }
    GcdNatGreatest(Abs(a) * Abs(c), Abs(b) * Abs(c), b);
    DividesOfAbs(b, c);
  }
}
