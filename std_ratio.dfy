/**
 * The compile-time rationals of <ratio> that the dimension exponents are made
 * of. By section 20.10.3 [ratio.ratio] of ISO/IEC 14882:2011, `std::ratio<N, D>`
 * has `num` and `den` equal to N and D divided by sign(D) * gcd(|N|, |D|), so
 * every ratio type is in normal form: `den > 0` and `gcd(|num|, den) == 1`.
 * `ratio_add` and `ratio_multiply` (section 20.10.4) are `std::ratio` of the
 * cross-multiplied numerator and denominator.
 */
module StdRatio {
  import opened Ints

  datatype Ratio = Ratio(num: int, den: int)

  /** The normal form every `std::ratio` type has. */
  predicate Normal(r: Ratio)
  {
    r.den > 0 && Gcd(Abs(r.num), r.den) == 1
  }

  type StdRatio = r: Ratio | Normal(r) witness Ratio(0, 1)

  ghost function Value(r: Ratio): real
    requires r.den != 0
  {
    Fraction(r.num, r.den)
  }

  /** `std::ratio<N, D>`; D == 0 does not compile. */
  function RatioOf(n: int, d: int): (r: StdRatio)
    requires d != 0
    ensures r.num * d == n * r.den
  {
    var g := Gcd(Abs(n), Abs(d));
    ReducedIsNormal(n, d);
    Ratio(if d > 0 then n / g else -(n / g), Abs(d) / g)
  }

  /** `std::ratio<N>`: the denominator defaults to 1. */
  function IntRatio(n: int): (r: StdRatio)
    ensures r.num == n && r.den == 1
  {
    GcdOne(Abs(n));
    Ratio(n, 1)
  }

  /** `ratio_add<R1, R2>`. */
  function RatioAdd(a: StdRatio, b: StdRatio): (r: StdRatio)
    ensures Value(r) == Value(a) + Value(b)
  {
    var r := RatioOf(a.num * b.den + b.num * a.den, a.den * b.den);
    AddValue(a, b, r);
    r
  }

  /** `ratio_multiply<R1, R2>`. */
  function RatioMultiply(a: StdRatio, b: StdRatio): (r: StdRatio)
    ensures Value(r) == Value(a) * Value(b)
  {
    var r := RatioOf(a.num * b.num, a.den * b.den);
    MultiplyValue(a, b, r);
    r
  }

  /** `ratio_negate<R>` of `inv_Dimension`: `std::ratio<-R::num, R::den>`. */
  function RatioNegate(a: StdRatio): (r: StdRatio)
    ensures Value(r) == -Value(a)
  {
    var r := RatioOf(-a.num, a.den);
    NegateValue(a, r);
    r
  }

  // ---------------------------------------------------------------------------
  // The normal form

  lemma GcdOne(a: nat)
    ensures Gcd(a, 1) == 1
  {
    assert a % 1 == 0;
    assert Gcd(1, a % 1) == Gcd(1, 0) == 1;
  }

  /** Dividing N and D by sign(D) * gcd yields the normal form, with the same value. */
  lemma ReducedIsNormal(n: int, d: int)
    requires d != 0
    ensures Gcd(Abs(n), Abs(d)) > 0
    ensures Normal(Ratio(if d > 0 then n / Gcd(Abs(n), Abs(d)) else -(n / Gcd(Abs(n), Abs(d))),
                         Abs(d) / Gcd(Abs(n), Abs(d))))
    ensures (if d > 0 then n / Gcd(Abs(n), Abs(d)) else -(n / Gcd(Abs(n), Abs(d)))) * d
            == n * (Abs(d) / Gcd(Abs(n), Abs(d)))
  {
    var g := Gcd(Abs(n), Abs(d));
    var a', b' := GcdDivideOut(Abs(n), Abs(d));
    DividesWitness(g, Abs(n), a');
    DividesAbs(g, n);
    DividesCofactor(g, n);
    var k := n / g;
    AbsMul(g, k);
    DividesWitness(g, Abs(n), Abs(k));
    assert Abs(k) == a';
    var num := if d > 0 then k else -k;
    assert Abs(num) == a';
    SignedCross(n, d, g, k, b');
  }

  lemma SignedCross(n: int, d: int, g: int, k: int, b: int)
    requires n == g * k && Abs(d) == g * b
    ensures (if d > 0 then k else -k) * d == n * b
  {
    if d > 0 {
      assert k * d == k * (g * b) == (g * k) * b;
    } else {
      assert -k * d == k * (g * b) == (g * k) * b;
    }
  }

  /** Two normal ratios with the same cross products are the same ratio. */
  lemma NormalUnique(r: StdRatio, s: StdRatio)
    requires r.num * s.den == s.num * r.den
    ensures r == s
  {
    NormalDenominatorDivides(r, s);
    NormalDenominatorDivides(s, r);
    DividesLe(r.den, s.den);
    DividesLe(s.den, r.den);
    CancelRight(r.num, s.num, r.den);
  }

  lemma NormalDenominatorDivides(r: StdRatio, s: StdRatio)
    requires r.num * s.den == s.num * r.den
    ensures Divides(r.den, s.den)
  {
    DividesWitness(r.den, r.num * s.den, s.num);
    GcdComm(Abs(r.num), r.den);
    EuclidLemma(r.den, r.num, s.den);
  }

  lemma CancelRight(x: int, y: int, c: int)
    requires c > 0 && x * c == y * c
    ensures x == y
  {
    MultipleMod(c, x);
    MultipleMod(c, y);
    assert c * x == c * y;
  }

  /** Two normal ratios with the same value are the same ratio. */
  lemma ValueUnique(r: StdRatio, s: StdRatio)
    requires Value(r) == Value(s)
    ensures r == s
  {
    FractionEq(r.num, r.den, s.num, s.den);
    NormalUnique(r, s);
  }

  /** `std::ratio<N, D>` is the one normal ratio whose value is N/D. */
  lemma {:induction false} RatioOfCharacterised(n: int, d: int, r: StdRatio)
    requires d != 0
    ensures r == RatioOf(n, d) <==> Value(r) == Fraction(n, d)
  {
    var q := RatioOf(n, d);
    FractionEq(q.num, q.den, n, d);
    if Value(r) == Fraction(n, d) {
      ValueUnique(r, q);
    }
  }

  /** `std::ratio<R::num, R::den>` is R again: a `std::ratio` type is already simplified. */
  lemma RatioOfNormal(r: StdRatio)
    ensures RatioOf(r.num, r.den) == r
  {
    RatioOfCharacterised(r.num, r.den, r);
  }

  lemma AddValue(a: StdRatio, b: StdRatio, r: StdRatio)
    requires r == RatioOf(a.num * b.den + b.num * a.den, a.den * b.den)
    ensures Value(r) == Value(a) + Value(b)
  {
    RatioOfCharacterised(a.num * b.den + b.num * a.den, a.den * b.den, r);
    FractionAdd(a.num, a.den, b.num, b.den);
  }

  lemma MultiplyValue(a: StdRatio, b: StdRatio, r: StdRatio)
    requires r == RatioOf(a.num * b.num, a.den * b.den)
    ensures Value(r) == Value(a) * Value(b)
  {
    RatioOfCharacterised(a.num * b.num, a.den * b.den, r);
    FractionMultiply(a.num, a.den, b.num, b.den);
  }

  lemma NegateValue(a: StdRatio, r: StdRatio)
    requires r == RatioOf(-a.num, a.den)
    ensures Value(r) == -Value(a)
  {
    RatioOfCharacterised(-a.num, a.den, r);
    FractionNegate(a.num, a.den);
  }

  lemma FractionNegate(p: int, q: int)
    requires q != 0
    ensures Fraction(-p, q) == -Fraction(p, q)
  {
    assert (-p) as real == -(p as real);
  }

  lemma FractionAdd(p: int, q: int, u: int, v: int)
    requires q != 0 && v != 0
    ensures q * v != 0 && Fraction(p * v + u * q, q * v) == Fraction(p, q) + Fraction(u, v)
  {
    var p', q', u', v' := p as real, q as real, u as real, v as real;
    assert (p * v + u * q) as real == p' * v' + u' * q';
    assert (q * v) as real == q' * v';
    assert (p' * v' + u' * q') / (q' * v') == p' / q' + u' / v';
  }

  lemma FractionMultiply(p: int, q: int, u: int, v: int)
    requires q != 0 && v != 0
    ensures q * v != 0 && Fraction(p * u, q * v) == Fraction(p, q) * Fraction(u, v)
  {
    var p', q', u', v' := p as real, q as real, u as real, v as real;
    assert (p * u) as real == p' * u';
    assert (q * v) as real == q' * v';
    assert (p' * u') / (q' * v') == (p' / q') * (u' / v');
  }

  // ---------------------------------------------------------------------------
  // The algebra of ratio_add and ratio_multiply

  lemma AddCommutative(a: StdRatio, b: StdRatio)
    ensures RatioAdd(a, b) == RatioAdd(b, a)
  {
    ValueUnique(RatioAdd(a, b), RatioAdd(b, a));
  }

  lemma AddAssociative(a: StdRatio, b: StdRatio, c: StdRatio)
    ensures RatioAdd(RatioAdd(a, b), c) == RatioAdd(a, RatioAdd(b, c))
  {
    ValueUnique(RatioAdd(RatioAdd(a, b), c), RatioAdd(a, RatioAdd(b, c)));
  }

  /** `std::ratio<0>` is the identity of `ratio_add`. */
  lemma AddZero(a: StdRatio)
    ensures RatioAdd(a, IntRatio(0)) == a
  {
    ValueUnique(RatioAdd(a, IntRatio(0)), a);
  }

  /** Adding the negation gives `std::ratio<0>`. */
  lemma AddNegate(a: StdRatio)
    ensures RatioAdd(a, RatioNegate(a)) == IntRatio(0)
  {
    ValueUnique(RatioAdd(a, RatioNegate(a)), IntRatio(0));
  }

  lemma MultiplyCommutative(a: StdRatio, b: StdRatio)
    ensures RatioMultiply(a, b) == RatioMultiply(b, a)
  {
    ValueUnique(RatioMultiply(a, b), RatioMultiply(b, a));
  }

  lemma MultiplyAssociative(a: StdRatio, b: StdRatio, c: StdRatio)
    ensures RatioMultiply(RatioMultiply(a, b), c) == RatioMultiply(a, RatioMultiply(b, c))
  {
    var x, y, z := Value(a), Value(b), Value(c);
    assert (x * y) * z == x * (y * z);
    ValueUnique(RatioMultiply(RatioMultiply(a, b), c), RatioMultiply(a, RatioMultiply(b, c)));
  }

  /** `ratio_multiply` distributes over `ratio_add`. */
  lemma MultiplyDistributes(a: StdRatio, b: StdRatio, c: StdRatio)
    ensures RatioMultiply(RatioAdd(a, b), c) == RatioAdd(RatioMultiply(a, c), RatioMultiply(b, c))
  {
    var x, y, z := Value(a), Value(b), Value(c);
    assert (x + y) * z == x * z + y * z;
    ValueUnique(RatioMultiply(RatioAdd(a, b), c), RatioAdd(RatioMultiply(a, c), RatioMultiply(b, c)));
  }

  /** Negation is ratio_multiply by `std::ratio<-1>`. */
  lemma NegateIsMultiplyMinusOne(a: StdRatio)
    ensures RatioNegate(a) == RatioMultiply(a, IntRatio(-1))
  {
    ValueUnique(RatioNegate(a), RatioMultiply(a, IntRatio(-1)));
  }
}
