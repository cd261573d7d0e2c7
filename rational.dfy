/**
 * Compile-time rational numbers (src/rational.hpp): a fraction is a pair of
 * integers kept exactly as written, a linear highest-common-factor search
 * reduces it, and the four operations cross-multiply without reducing.
 */
module Rationals {
  import opened Ints
  import Lists

  /** `Rational<A,B>`; the denominator defaults to 1 in the source. */
  datatype Rational = Rational(numerator: int, denominator: int)

  /** The exact value of a rational whose denominator is not zero. */
  ghost function Value(r: Rational): real
    requires r.denominator != 0
  {
    Fraction(r.numerator, r.denominator)
  }

  /** `static_min<A,B>`. */
  function StaticMin(a: int, b: int): (r: int)
    ensures r <= a && r <= b && (r == a || r == b)
  {
    if a < b then a else b
  }

  /**
   * `is_common_factor<A,B,C>`: both C++ remainders vanish; the `<A,B,0>`
   * specialisation makes 0 a common factor of nothing.
   */
  predicate IsCommonFactor(a: int, b: int, c: int)
  {
    c != 0 && Rem(a, c) == 0 && Rem(b, c) == 0
  }

  /**
   * `_hcf<A,B,N,found>`: stop at N when `found`, otherwise try N-1. At N = -1
   * every number has the common factor -1, so the search always stops.
   */
  function HcfSearch(a: int, b: int, n: int, found: bool): int
    requires found == IsCommonFactor(a, b, n)
    requires n >= -1
    decreases n + 1
  {
    if found then n
    else
      MinusOneIsCommonFactor(a, b);
      HcfSearch(a, b, n - 1, IsCommonFactor(a, b, n - 1))
  }

  /**
   * `highest_common_factor<A,B>`: search down from min(|A|,|B|); the `<0,B>`
   * specialisation answers B so that 0/B reduces to 0/1.
   */
  function HighestCommonFactor(a: int, b: int): int
  {
    if a == 0 then b
    else
      var a', b' := Abs(a), Abs(b);
      var m := StaticMin(a', b');
      HcfSearch(a', b', m, IsCommonFactor(a', b', m))
  }

  /** `simplify<R>`: divide numerator and denominator by their HCF (C++ `/`). */
  function Simplify(r: Rational): Rational
    requires r.numerator != 0 || r.denominator != 0
  {
    var h := HighestCommonFactor(r.numerator, r.denominator);
    HcfNonZero(r.numerator, r.denominator);
    Rational(Quot(r.numerator, h), Quot(r.denominator, h))
  }

  /** `add_Rational`: cross-multiplied, not reduced. */
  function Add(r1: Rational, r2: Rational): Rational
  {
    Rational(r1.numerator * r2.denominator + r2.numerator * r1.denominator, r1.denominator * r2.denominator)
  }

  /** `sub_Rational`: cross-multiplied, not reduced. */
  function Sub(r1: Rational, r2: Rational): Rational
  {
    Rational(r1.numerator * r2.denominator - r2.numerator * r1.denominator, r1.denominator * r2.denominator)
  }

  /** `mult_Rational`: not reduced. */
  function Mult(r1: Rational, r2: Rational): Rational
  {
    Rational(r1.numerator * r2.numerator, r1.denominator * r2.denominator)
  }

  /** `div_Rational`: not reduced; the divisor's numerator becomes a denominator factor. */
  function Div(r1: Rational, r2: Rational): Rational
  {
    Rational(r1.numerator * r2.denominator, r1.denominator * r2.numerator)
  }

  // ---------------------------------------------------------------------------
  // The common-factor test and the HCF search

  lemma MinusOneIsCommonFactor(a: int, b: int)
    ensures IsCommonFactor(a, b, -1)
  {
    assert Quot(a, -1) == -a && Quot(b, -1) == -b;
  }

  lemma OneIsCommonFactor(a: int, b: int)
    ensures IsCommonFactor(a, b, 1)
  {
    assert Quot(a, 1) == a && Quot(b, 1) == b;
  }

  /** C is a common factor of A and B exactly when it is non-zero and divides both. */
  lemma IsCommonFactorMeaning(a: int, b: int, c: int)
    ensures IsCommonFactor(a, b, c) <==> c != 0 && Divides(c, a) && Divides(c, b)
    ensures !IsCommonFactor(a, b, 0)
  {
    if c != 0 {
      RemZero(a, c);
      RemZero(b, c);
    }
  }

  /** Started at n >= 1, the search returns the largest common factor in 1..n. */
  lemma {:induction false} HcfSearchFindsLargest(a: int, b: int, n: int)
    requires n >= 1
    ensures var r := HcfSearch(a, b, n, IsCommonFactor(a, b, n));
      1 <= r <= n && IsCommonFactor(a, b, r) &&
      forall c :: r < c <= n ==> !IsCommonFactor(a, b, c)
    decreases n
  {
    OneIsCommonFactor(a, b);
    if !IsCommonFactor(a, b, n) {
      HcfSearchFindsLargest(a, b, n - 1);
    }
  }

  /**
   * For non-zero A and B the HCF is a common divisor in 1..min(|A|,|B|) and
   * no common divisor exceeds it.
   */
  lemma HighestCommonFactorIsGreatest(a: int, b: int)
    requires a != 0 && b != 0
    ensures var r := HighestCommonFactor(a, b);
      1 <= r <= StaticMin(Abs(a), Abs(b)) && Divides(r, a) && Divides(r, b) &&
      forall c :: Divides(c, a) && Divides(c, b) ==> c <= r
  {
    var a', b' := Abs(a), Abs(b);
    var m := StaticMin(a', b');
    var r := HighestCommonFactor(a, b);
    HcfSearchFindsLargest(a', b', m);
    IsCommonFactorMeaning(a', b', r);
    DividesAbs(r, a);
    DividesAbs(r, b);
    forall c | Divides(c, a) && Divides(c, b)
      ensures c <= r
    {
      if c > 0 {
        DividesAbs(c, a);
        DividesAbs(c, b);
        DividesLe(c, a');
        DividesLe(c, b');
        IsCommonFactorMeaning(a', b', c);
      }
    }
  }

  /** `highest_common_factor<0,B>` is B itself. */
  lemma HcfOfZero(b: int)
    ensures HighestCommonFactor(0, b) == b
  {
  }

  /** With a zero second argument the search runs past 0 and answers -1. */
  lemma HcfOfZeroSecond(a: int)
    requires a != 0
    ensures HighestCommonFactor(a, 0) == -1
  {
    assert !IsCommonFactor(Abs(a), 0, 0);
    MinusOneIsCommonFactor(Abs(a), 0);
  }

  lemma HcfNonZero(a: int, b: int)
    requires a != 0 || b != 0
    ensures HighestCommonFactor(a, b) != 0
  {
    if a != 0 && b != 0 {
      HighestCommonFactorIsGreatest(a, b);
    } else if a != 0 {
      HcfOfZeroSecond(a);
    }
  }

  /** The linear search agrees with Euclid's algorithm on non-zero arguments. */
  lemma HcfIsGcd(a: int, b: int)
    requires a != 0 && b != 0
    ensures HighestCommonFactor(a, b) == Gcd(Abs(a), Abs(b))
  {
    var r := HighestCommonFactor(a, b);
    var g := Gcd(Abs(a), Abs(b));
    HighestCommonFactorIsGreatest(a, b);
    GcdDivides(Abs(a), Abs(b));
    DividesAbs(g, a);
    DividesAbs(g, b);
    DividesAbs(r, a);
    DividesAbs(r, b);
    GcdGreatest(Abs(a), Abs(b), r);
    DividesLe(r, g);
  }

  // ---------------------------------------------------------------------------
  // simplify

  /** The HCF divides both parts of every rational that simplify accepts. */
  lemma HcfDividesBoth(n: int, d: int)
    requires n != 0 || d != 0
    ensures Divides(HighestCommonFactor(n, d), n) && Divides(HighestCommonFactor(n, d), d)
  {
    if n == 0 {
      DividesRefl(d);
    } else if d == 0 {
      HcfOfZeroSecond(n);
      DividesWitness(-1, n, -n);
      DividesWitness(-1, 0, 0);
    } else {
      HighestCommonFactorIsGreatest(n, d);
    }
  }

  /** The parts of simplify's result times the HCF give back the input. */
  lemma SimplifyScales(r: Rational)
    requires r.numerator != 0 || r.denominator != 0
    ensures var h, s := HighestCommonFactor(r.numerator, r.denominator), Simplify(r);
      s.numerator * h == r.numerator && s.denominator * h == r.denominator
  {
    HcfDividesBoth(r.numerator, r.denominator);
    var h := HighestCommonFactor(r.numerator, r.denominator);
    QuotExact(r.numerator, h);
    QuotExact(r.denominator, h);
  }

  /** simplify keeps the value: the cross products agree. */
  lemma SimplifyPreservesValue(r: Rational)
    requires r.numerator != 0 || r.denominator != 0
    ensures var s := Simplify(r);
      s.numerator * r.denominator == r.numerator * s.denominator &&
      (r.denominator != 0 ==> s.denominator != 0 && Value(s) == Value(r))
  {
    var s := Simplify(r);
    SimplifyScales(r);
    CrossScaled(s.numerator, s.denominator, HighestCommonFactor(r.numerator, r.denominator));
    if r.denominator != 0 {
      FractionEq(s.numerator, s.denominator, r.numerator, r.denominator);
    }
  }

  lemma CrossScaled(p: int, q: int, h: int)
    ensures p * (q * h) == (p * h) * q
  {
  }

  lemma MulAtMostOne(x: int, h: int)
    requires h >= 1 && x >= 1 && x * h <= h
    ensures x == 1
  {
    assert (x - 1) * h == x * h - h;
  }

  /** A common divisor of the reduced parts, times the HCF, divides the original parts. */
  lemma ScaledCommonDivisor(n: int, d: int, h: int, sn: int, sd: int, h': int)
    requires h >= 1 && h' >= 1 && sn * h == n && sd * h == d && Divides(h', sn) && Divides(h', sd)
    ensures h' * h >= 1 && Divides(h' * h, n) && Divides(h' * h, d)
  {
    var p, q := sn / h', sd / h';
    DividesCofactor(h', sn);
    DividesCofactor(h', sd);
    assert n == (h' * h) * p by {
      calc { n; sn * h; (h' * p) * h; (h' * h) * p; }
    }
    assert d == (h' * h) * q by {
      calc { d; sd * h; (h' * q) * h; (h' * h) * q; }
    }
    MulAtLeast(h', h);
    DividesWitness(h' * h, n, p);
    DividesWitness(h' * h, d, q);
  }

  /** For a non-zero numerator and denominator the result is in lowest terms. */
  lemma SimplifyLowestTerms(r: Rational)
    requires r.numerator != 0 && r.denominator != 0
    ensures var s := Simplify(r);
      s.numerator != 0 && s.denominator != 0 &&
      HighestCommonFactor(s.numerator, s.denominator) == 1 &&
      Gcd(Abs(s.numerator), Abs(s.denominator)) == 1
  {
    var n, d := r.numerator, r.denominator;
    var h, s := HighestCommonFactor(n, d), Simplify(r);
    HighestCommonFactorIsGreatest(n, d);
    SimplifyScales(r);
    NonZeroFactor(s.numerator, h, n);
    NonZeroFactor(s.denominator, h, d);
    var h' := HighestCommonFactor(s.numerator, s.denominator);
    HighestCommonFactorIsGreatest(s.numerator, s.denominator);
    ScaledCommonDivisor(n, d, h, s.numerator, s.denominator, h');
    MulAtMostOne(h', h);
    HcfIsGcd(s.numerator, s.denominator);
  }

  lemma NonZeroFactor(x: int, h: int, n: int)
    requires x * h == n && n != 0
    ensures x != 0
  {
  }

  /**
   * simplify divides by a positive factor when numerator and denominator are
   * non-zero, so each keeps its sign; a negative denominator stays negative.
   */
  lemma SimplifyKeepsSigns(r: Rational)
    requires r.numerator != 0 && r.denominator != 0
    ensures var s := Simplify(r);
      (s.numerator > 0 <==> r.numerator > 0) && (s.numerator < 0 <==> r.numerator < 0) &&
      (s.denominator > 0 <==> r.denominator > 0) && (s.denominator < 0 <==> r.denominator < 0)
  {
    var h := HighestCommonFactor(r.numerator, r.denominator);
    HighestCommonFactorIsGreatest(r.numerator, r.denominator);
    SimplifyScales(r);
    NonZeroFactor(Simplify(r).numerator, h, r.numerator);
    NonZeroFactor(Simplify(r).denominator, h, r.denominator);
    SignOfProduct(Simplify(r).numerator, h);
    SignOfProduct(Simplify(r).denominator, h);
  }

  /** A zero numerator over a non-zero denominator becomes 0/1. */
  lemma SimplifyZero(b: int)
    requires b != 0
    ensures Simplify(Rational(0, b)) == Rational(0, 1)
  {
    assert Quot(b, b) == 1;
  }

  /** Whenever the denominator is non-zero, simplifying a second time changes nothing. */
  lemma SimplifyIdempotent(r: Rational)
    requires r.denominator != 0
    ensures Simplify(r).denominator != 0 && Simplify(Simplify(r)) == Simplify(r)
  {
    SimplifyPreservesValue(r);
    var s := Simplify(r);
    if r.numerator == 0 {
      SimplifyZero(r.denominator);
      assert HighestCommonFactor(0, 1) == 1;
      assert Quot(0, 1) == 0 && Quot(1, 1) == 1;
    } else {
      SimplifyLowestTerms(r);
      assert Quot(s.numerator, 1) == s.numerator && Quot(s.denominator, 1) == s.denominator;
    }
  }

  /** Over a zero denominator the HCF is -1, so each application flips the numerator's sign. */
  lemma SimplifyZeroDenominatorFlips(a: int)
    requires a != 0
    ensures Simplify(Rational(a, 0)) == Rational(-a, 0)
    ensures Simplify(Simplify(Rational(a, 0))) == Rational(a, 0)
  {
    HcfOfZeroSecond(a);
    HcfOfZeroSecond(-a);
    assert Quot(a, -1) == -a && Quot(0, -1) == 0 && Quot(-a, -1) == a;
  }

  // ---------------------------------------------------------------------------
  // The four operations

  /** add_Rational computes the exact sum. */
  lemma AddValue(r1: Rational, r2: Rational)
    requires r1.denominator != 0 && r2.denominator != 0
    ensures Add(r1, r2).denominator != 0 && Value(Add(r1, r2)) == Value(r1) + Value(r2)
  {
    var a, b, c, d := r1.numerator as real, r1.denominator as real, r2.numerator as real, r2.denominator as real;
    assert Add(r1, r2).numerator as real == a * d + c * b;
    assert Add(r1, r2).denominator as real == b * d;
    assert (a * d + c * b) / (b * d) == a / b + c / d;
  }

  /** sub_Rational computes the exact difference. */
  lemma SubValue(r1: Rational, r2: Rational)
    requires r1.denominator != 0 && r2.denominator != 0
    ensures Sub(r1, r2).denominator != 0 && Value(Sub(r1, r2)) == Value(r1) - Value(r2)
  {
    var a, b, c, d := r1.numerator as real, r1.denominator as real, r2.numerator as real, r2.denominator as real;
    assert Sub(r1, r2).numerator as real == a * d - c * b;
    assert Sub(r1, r2).denominator as real == b * d;
    assert (a * d - c * b) / (b * d) == a / b - c / d;
  }

  /** mult_Rational computes the exact product. */
  lemma MultValue(r1: Rational, r2: Rational)
    requires r1.denominator != 0 && r2.denominator != 0
    ensures Mult(r1, r2).denominator != 0 && Value(Mult(r1, r2)) == Value(r1) * Value(r2)
  {
    var a, b, c, d := r1.numerator as real, r1.denominator as real, r2.numerator as real, r2.denominator as real;
    assert Mult(r1, r2).numerator as real == a * c;
    assert Mult(r1, r2).denominator as real == b * d;
    assert (a * c) / (b * d) == (a / b) * (c / d);
  }

  /** div_Rational has a non-zero denominator exactly when R1's denominator and R2's numerator are non-zero. */
  lemma DivDenominator(r1: Rational, r2: Rational)
    ensures Div(r1, r2).denominator != 0 <==> r1.denominator != 0 && r2.numerator != 0
  {
  }

  /** When it is a valid rational, div_Rational computes the exact quotient. */
  lemma DivValue(r1: Rational, r2: Rational)
    requires r1.denominator != 0 && r2.denominator != 0 && r2.numerator != 0
    ensures Div(r1, r2).denominator != 0 && Value(Div(r1, r2)) == Value(r1) / Value(r2)
  {
    var a, b, c, d := r1.numerator as real, r1.denominator as real, r2.numerator as real, r2.denominator as real;
    assert Div(r1, r2).numerator as real == a * d;
    assert Div(r1, r2).denominator as real == b * c;
    assert (a * d) / (b * c) == (a / b) / (c / d);
  }

  /** The values worked out in the repository's example program. */
  lemma Examples()
    ensures IsCommonFactor(10, 8, 2)
    ensures HighestCommonFactor(10, 5) == 5 && HighestCommonFactor(10, 8) == 2
    ensures Add(Rational(1, 2), Rational(3, 4)) == Rational(10, 8)
    ensures Simplify(Rational(10, 8)) == Rational(5, 4)
    ensures Simplify(Rational(10, 5)) == Rational(2, 1)
    ensures Simplify(Rational(-2, 4)) == Rational(-1, 2)
    ensures Simplify(Rational(1, -2)) == Rational(1, -2)
  {
    HighestCommonFactorIsGreatest(10, 5);
    HighestCommonFactorIsGreatest(10, 8);
    HighestCommonFactorIsGreatest(-2, 4);
    HighestCommonFactorIsGreatest(1, -2);
  }

  function AddPair(rs: seq<Rational>): Rational
    requires |rs| == 2
  {
    Add(rs[0], rs[1])
  }

  /** `operate<add_Rational, list1, list2>` on [1, 2] and [2, 4] adds pairwise: [3, 6]. */
  lemma OperateAddExample()
    ensures Lists.Elements(Lists.Operate(AddPair, [
              Lists.StaticList([Rational(1, 1), Rational(2, 1)]),
              Lists.StaticList([Rational(2, 1), Rational(4, 1)])]))
            == [Rational(3, 1), Rational(6, 1)]
  {
    var ls := [Lists.StaticList([Rational(1, 1), Rational(2, 1)]), Lists.StaticList([Rational(2, 1), Rational(4, 1)])];
    Lists.OperateColumns(AddPair, ls);
    var e := Lists.Elements(Lists.Operate(AddPair, ls));
    var c0, c1 := Lists.Column(ls, 0), Lists.Column(ls, 1);
    assert c0 == [Rational(1, 1), Rational(2, 1)];
    assert c1 == [Rational(2, 1), Rational(4, 1)];
    assert e[0] == AddPair(c0) && e[1] == AddPair(c1);
    assert AddPair(c0) == Rational(3, 1) && AddPair(c1) == Rational(6, 1);
    assert |e| == 2;
  }
}
