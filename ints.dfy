/**
 * Integer helpers shared by the rational arithmetic and the std::ratio model:
 * absolute value and sign, C++'s truncating division and remainder, divisibility,
 * and Euclid's greatest common divisor with the facts the normal forms rest on.
 */
module Ints {

  function Abs(x: int): (r: nat)
    ensures r == x || r == -x
  {
    if x < 0 then -x else x
  }

  function Sign(x: int): (r: int)
    ensures r * Abs(x) == x
  {
    if x < 0 then -1 else if x == 0 then 0 else 1
  }

  /** C++ integer division `a / b`: the quotient is truncated toward zero. */
  function Quot(a: int, b: int): int
    requires b != 0
  {
    if (a >= 0) == (b > 0) then Abs(a) / Abs(b) else -(Abs(a) / Abs(b))
  }

  /** C++ integer remainder `a % b`: it takes the sign of `a`. */
  function Rem(a: int, b: int): int
    requires b != 0
  {
    a - b * Quot(a, b)
  }

  /** `d` divides `n` (Dafny's own Euclidean `%`). */
  predicate Divides(d: int, n: int)
  {
    d != 0 && n % d == 0
  }

  /** The exact value of the fraction n/d. */
  ghost function Fraction(n: int, d: int): real
    requires d != 0
  {
    n as real / d as real
  }

  /** Euclid's algorithm. */
  function Gcd(a: nat, b: nat): nat
    decreases b
  {
    if b == 0 then a else Gcd(b, a % b)
  }

  // ---------------------------------------------------------------------------
  // Divisibility

  lemma MultipleMod(d: int, k: int)
    requires d != 0
    ensures (d * k) % d == 0 && (d * k) / d == k
  {
    var q, r := (d * k) / d, (d * k) % d;
    assert d * k == d * q + r && 0 <= r < Abs(d);
    assert d * (k - q) == r;
    if k - q >= 1 {
      MulAtLeast(Abs(d), k - q);
      assert Abs(d * (k - q)) == Abs(d) * (k - q) by { AbsMul(d, k - q); }
    } else if k - q <= -1 {
      MulAtLeast(Abs(d), q - k);
      assert Abs(d * (k - q)) == Abs(d) * (q - k) by { AbsMul(d, k - q); }
    }
  }

  lemma MulAtLeast(a: nat, k: int)
    requires k >= 1
    ensures a * k >= a
  {
    assert a * k == a + a * (k - 1);
  }

  lemma AbsMul(x: int, y: int)
    ensures Abs(x * y) == Abs(x) * Abs(y)
  {
    if x < 0 && y < 0 {
      assert x * y == (-x) * (-y);
    } else if x < 0 {
      assert x * y == -((-x) * y);
    } else if y < 0 {
      assert x * y == -(x * (-y));
    }
  }

  /** The sign of a product of two non-zero factors: positive exactly when the signs agree. */
  lemma SignOfProduct(x: int, c: int)
    requires x != 0 && c != 0
    ensures x * c != 0
    ensures x * c > 0 <==> ((x > 0) == (c > 0))
  {
    if x > 0 && c > 0 {
      MulAtLeast(x, c);
    } else if x < 0 && c < 0 {
      MulAtLeast(-x, -c);
      assert x * c == (-x) * (-c);
    } else if x > 0 {
      MulAtLeast(x, -c);
      assert x * c == -(x * (-c));
    } else {
      MulAtLeast(-x, c);
      assert x * c == -((-x) * c);
    }
  }

  /** Divisibility witnessed by a cofactor. */
  lemma DividesWitness(d: int, n: int, k: int)
    requires d != 0 && n == d * k
    ensures Divides(d, n) && n / d == k
  {
    MultipleMod(d, k);
  }

  lemma DividesCofactor(d: int, n: int)
    requires Divides(d, n)
    ensures n == d * (n / d)
  {
  }

  lemma DividesRefl(d: int)
    requires d != 0
    ensures Divides(d, d) && Divides(d, 0)
  {
    DividesWitness(d, d, 1);
    DividesWitness(d, 0, 0);
  }

  lemma DividesCombination(d: int, a: int, b: int, x: int, y: int)
    requires Divides(d, a) && Divides(d, b)
    ensures Divides(d, a * x + b * y)
  {
    var p, q := a / d, b / d;
    DividesCofactor(d, a);
    DividesCofactor(d, b);
    assert a * x + b * y == d * (p * x + q * y) by {
      assert a * x == d * p * x;
      assert b * y == d * q * y;
    }
    DividesWitness(d, a * x + b * y, p * x + q * y);
  }

  lemma DividesMul(d: int, a: int, k: int)
    requires Divides(d, a)
    ensures Divides(d, a * k)
  {
    DividesCombination(d, a, a, k, 0);
  }

  lemma DividesLe(d: int, n: int)
    requires Divides(d, n) && d > 0 && n > 0
    ensures d <= n
  {
    var k := n / d;
    DividesCofactor(d, n);
    assert k >= 1;
    MulAtLeast(d, k);
  }

  lemma DividesAbs(d: int, n: int)
    ensures Divides(d, n) <==> Divides(Abs(d), Abs(n))
  {
    if Divides(d, n) {
      var k := n / d;
      DividesCofactor(d, n);
      AbsMul(d, k);
      DividesWitness(Abs(d), Abs(n), Abs(k));
    }
    if Divides(Abs(d), Abs(n)) {
      var k := Abs(n) / Abs(d);
      DividesCofactor(Abs(d), Abs(n));
      var s := Sign(d) * Sign(n);
      assert n == d * (s * k) by {
        assert Abs(n) == Abs(d) * k;
        assert Sign(n) * Abs(n) == n;
        assert Sign(d) * Abs(d) == d;
        assert Sign(d) * Sign(d) == 1;
        calc {
          d * (s * k);
          Sign(d) * Abs(d) * (Sign(d) * Sign(n) * k);
          (Sign(d) * Sign(d)) * Sign(n) * (Abs(d) * k);
          Sign(n) * Abs(n);
        }
      }
      DividesWitness(d, n, s * k);
    }
  }

  lemma DividesOne(d: int)
    requires Divides(d, 1) && d > 0
    ensures d == 1
  {
    DividesLe(d, 1);
  }

  /** The C++ remainder vanishes exactly when the divisor divides. */
  lemma RemZero(a: int, b: int)
    requires b != 0
    ensures Rem(a, b) == 0 <==> Divides(b, a)
  {
    var q, r := Abs(a) / Abs(b), Abs(a) % Abs(b);
    assert Abs(a) == Abs(b) * q + r;
    assert Rem(a, b) == r || Rem(a, b) == -r by {
      if a >= 0 && b > 0 {
        assert Rem(a, b) == Abs(a) - Abs(b) * q;
      } else if a >= 0 {
        assert b * Quot(a, b) == Abs(b) * q;
      } else if b > 0 {
        assert b * Quot(a, b) == -(Abs(b) * q);
      } else {
        assert b * Quot(a, b) == -(Abs(b) * q);
      }
    }
    DividesAbs(b, a);
  }

  /** Dividing by an exact divisor, with truncation, loses nothing. */
  lemma QuotExact(a: int, b: int)
    requires Divides(b, a)
    ensures Quot(a, b) * b == a
  {
    RemZero(a, b);
  }

  // ---------------------------------------------------------------------------
  // Greatest common divisor

  lemma GcdZero(b: nat)
    ensures Gcd(0, b) == b
  {
    if b > 0 {
      assert Gcd(0, b) == Gcd(b, 0);
    }
  }

  lemma {:induction false} GcdDivides(a: nat, b: nat)
    requires a > 0 || b > 0
    ensures Gcd(a, b) > 0 && Divides(Gcd(a, b), a) && Divides(Gcd(a, b), b)
    decreases b
  {
    if b == 0 {
      DividesRefl(a);
    } else {
      GcdDivides(b, a % b);
      var g := Gcd(a, b);
      assert a == b * (a / b) + (a % b);
      DividesCombination(g, b, a % b, a / b, 1);
    }
  }

  /** Bezout's identity: the gcd is an integer combination of its arguments. */
  lemma {:induction false} GcdBezout(a: nat, b: nat) returns (x: int, y: int)
    ensures Gcd(a, b) == a * x + b * y
    decreases b
  {
    if b == 0 {
      x, y := 1, 0;
    } else {
      var x', y' := GcdBezout(b, a % b);
      var q := a / b;
      assert a % b == a - b * q;
      x, y := y', x' - q * y';
      calc {
        Gcd(a, b);
        b * x' + (a % b) * y';
        b * x' + (a - b * q) * y';
        a * y' + b * (x' - q * y');
      }
    }
  }

  /** Every common divisor divides the gcd. */
  lemma GcdGreatest(a: nat, b: nat, c: int)
    requires Divides(c, a) && Divides(c, b)
    ensures Divides(c, Gcd(a, b))
  {
    var x, y := GcdBezout(a, b);
    DividesCombination(c, a, b, x, y);
  }

  lemma {:induction false} GcdComm(a: nat, b: nat)
    ensures Gcd(a, b) == Gcd(b, a)
  {
    if a == 0 && b == 0 {
    } else {
      GcdDivides(a, b);
      GcdDivides(b, a);
      GcdGreatest(a, b, Gcd(b, a));
      GcdGreatest(b, a, Gcd(a, b));
      DividesLe(Gcd(a, b), Gcd(b, a));
      DividesLe(Gcd(b, a), Gcd(a, b));
    }
  }

  /** Dividing both arguments by their gcd leaves coprime numbers. */
  lemma GcdDivideOut(a: nat, b: nat) returns (a': nat, b': nat)
    requires a > 0 || b > 0
    ensures Gcd(a, b) > 0 && a == Gcd(a, b) * a' && b == Gcd(a, b) * b'
    ensures a' == a / Gcd(a, b) && b' == b / Gcd(a, b)
    ensures Gcd(a', b') == 1
  {
    GcdDivides(a, b);
    var g := Gcd(a, b);
    a' := Cofactor(g, a);
    b' := Cofactor(g, b);
    Coprime(a, b, g, a', b');
  }

  /** The cofactor of a positive divisor of a natural number. */
  lemma Cofactor(g: int, n: nat) returns (k: nat)
    requires Divides(g, n) && g > 0
    ensures k == n / g && n == g * k && (n > 0 ==> k > 0)
  {
    DividesCofactor(g, n);
    k := n / g;
  }

  lemma Coprime(a: nat, b: nat, g: int, a': nat, b': nat)
    requires g == Gcd(a, b) && g > 0 && a == g * a' && b == g * b' && (a' > 0 || b' > 0)
    ensures Gcd(a', b') == 1
  {
    var x, y := GcdBezout(a, b);
    CancelCombination(g, a, b, a', b', x, y);
    GcdDivides(a', b');
    DividesCombination(Gcd(a', b'), a', b', x, y);
    DividesOne(Gcd(a', b'));
  }

  lemma CancelCombination(g: int, a: int, b: int, a': int, b': int, x: int, y: int)
    requires g > 0 && a == g * a' && b == g * b' && g == a * x + b * y
    ensures a' * x + b' * y == 1
  {
    var t := a' * x + b' * y;
    assert a * x + b * y == g * t by {
      assert a * x == g * (a' * x);
      assert b * y == g * (b' * y);
    }
  }

  lemma ScaleCombination(a: int, b: int, c: int, u: int, v: int)
    requires a * u + b * v == 1
    ensures c == a * (c * u) + (b * c) * v
  {
    calc {
      c;
      c * (a * u + b * v);
      c * (a * u) + c * (b * v);
      a * (c * u) + (b * c) * v;
    }
  }

  lemma SignedCoefficient(a: int, x: int) returns (u: int)
    ensures a * u == Abs(a) * x
  {
    if a < 0 {
      u := -x;
      assert a * u == (-a) * x;
    } else {
      u := x;
    }
  }

  /** Euclid's lemma: a divisor of a product that is coprime to one factor divides the other. */
  lemma EuclidLemma(a: int, b: int, c: int)
    requires Divides(a, b * c) && Gcd(Abs(a), Abs(b)) == 1
    ensures Divides(a, c)
  {
    var x, y := GcdBezout(Abs(a), Abs(b));
    var u := SignedCoefficient(a, x);
    var v := SignedCoefficient(b, y);
    assert a * u + b * v == 1;
    ScaleCombination(a, b, c, u, v);
    DividesRefl(a);
    DividesCombination(a, a, b * c, c * u, v);
  }

  // ---------------------------------------------------------------------------
  // Fractions

  /** Two fractions have the same value exactly when their cross products agree. */
  lemma FractionEq(n: int, d: int, n': int, d': int)
    requires d != 0 && d' != 0
    ensures Fraction(n, d) == Fraction(n', d') <==> n * d' == n' * d
  {
    var x, y, x', y' := n as real, d as real, n' as real, d' as real;
    assert (n * d') as real == x * y' && (n' * d) as real == x' * y;
    assert x / y == x' / y' <==> x * y' == x' * y;
  }
}
