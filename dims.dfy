/**
 * Dimensional analysis (src/dims.hpp). A dimension is a non-empty type-level
 * list of `std::ratio` exponents, one per base quantity (mass, length, time
 * in the named dimensions). Multiplying quantities adds exponents, raising to
 * a rational power multiplies them, and the inverse negates them; each is an
 * `operate` over the lists followed by `ratio_simplify`. A `quantity` pairs a
 * run-time value with a dimension fixed at compile time.
 */
module Dims {
  import Lists
  import opened Ints
  import opened StdRatio

  type Dimension = d: Lists.List<StdRatio> | Lists.Length(d) >= 1
    witness Lists.Element(IntRatio(0), Lists.End)

  /** `Dimension<Rs...>`: the exponents Rs in order. */
  function MakeDimension(rs: seq<StdRatio>): (d: Dimension)
    requires |rs| >= 1
    ensures Lists.Elements(d) == rs
  {
    Lists.StaticList(rs)
  }

  /** `IntDim<Is...>`: integer exponents, each `std::ratio<I>`. */
  function IntDim(xs: seq<int>): (d: Dimension)
    requires |xs| >= 1
    ensures Lists.Length(d) == |xs|
    ensures forall i :: 0 <= i < |xs| ==> Lists.Elements(d)[i] == IntRatio(xs[i])
  {
    MakeDimension(seq(|xs|, i requires 0 <= i < |xs| => IntRatio(xs[i])))
  }

  // The named dimensions: exponents of mass, length and time.
  const Number: Dimension := IntDim([0, 0, 0])
  const Mass: Dimension := IntDim([1, 0, 0])
  const Length: Dimension := IntDim([0, 1, 0])
  const Time: Dimension := IntDim([0, 0, 1])
  const Velocity: Dimension := IntDim([0, 1, -1])
  const Acceleration: Dimension := IntDim([0, 1, -2])
  const Force: Dimension := IntDim([1, 1, -2])
  const Work: Dimension := IntDim([1, 2, -2])
  const Area: Dimension := IntDim([0, 2, 0])
  const Volume: Dimension := IntDim([0, 3, 0])
  const Frequency: Dimension := IntDim([0, 0, -1])

  /** `make_list_from_type<N, std::ratio<0>>`: the dimensionless list of N exponents. */
  function Dimensionless(n: int): (d: Dimension)
    requires n >= 1
    ensures Lists.Length(d) == n
    ensures forall i :: 0 <= i < n ==> Lists.Elements(d)[i] == IntRatio(0)
  {
    Lists.MakeListFromType(n, IntRatio(0))
  }

  /** `ratio_simplify<R>`: `std::ratio<R::num, R::den>`, which is R itself. */
  function RatioSimplify(r: StdRatio): (s: StdRatio)
    ensures s == r
  {
    RatioOfNormal(r);
    RatioOf(r.num, r.den)
  }

  // The class templates handed to `operate`, as functions of the heads.

  function AddOp(rs: seq<StdRatio>): StdRatio
    requires |rs| == 2
  {
    RatioAdd(rs[0], rs[1])
  }

  function MultiplyOp(rs: seq<StdRatio>): StdRatio
    requires |rs| == 2
  {
    RatioMultiply(rs[0], rs[1])
  }

  function NegateOp(rs: seq<StdRatio>): StdRatio
    requires |rs| == 1
  {
    RatioNegate(rs[0])
  }

  function SimplifyOp(rs: seq<StdRatio>): StdRatio
    requires |rs| == 1
  {
    RatioSimplify(rs[0])
  }

  /**
   * `mult_Dimension<Dim1, Dim2>`: exponents added pairwise. `operate` stops at
   * the end of Dim1, so Dim2 must be at least as long; its extra exponents are
   * dropped.
   */
  function MultDimension(d1: Dimension, d2: Dimension): (m: Dimension)
    requires Lists.Length(d2) >= Lists.Length(d1)
    ensures Lists.Length(m) == Lists.Length(d1)
    ensures forall i :: 0 <= i < Lists.Length(d1) ==>
      Lists.Elements(m)[i] == RatioAdd(Lists.Elements(d1)[i], Lists.Elements(d2)[i])
  {
    Lists.OperateColumns(AddOp, [d1, d2]);
    var s := Lists.Operate(AddOp, [d1, d2]);
    Lists.OperateColumns(SimplifyOp, [s]);
    Lists.Operate(SimplifyOp, [s])
  }

  /** `pow_Dimension<Dim, R>`: every exponent multiplied by R. */
  function PowDimension(d: Dimension, r: StdRatio): (p: Dimension)
    ensures Lists.Length(p) == Lists.Length(d)
    ensures forall i :: 0 <= i < Lists.Length(d) ==>
      Lists.Elements(p)[i] == RatioMultiply(Lists.Elements(d)[i], r)
  {
    var rs := Lists.MakeListFromType(Lists.Length(d), r);
    Lists.OperateColumns(MultiplyOp, [d, rs]);
    var s := Lists.Operate(MultiplyOp, [d, rs]);
    Lists.OperateColumns(SimplifyOp, [s]);
    Lists.Operate(SimplifyOp, [s])
  }

  /** `inv_Dimension<Dim>`: every exponent negated. */
  function InvDimension(d: Dimension): (v: Dimension)
    ensures Lists.Length(v) == Lists.Length(d)
    ensures forall i :: 0 <= i < Lists.Length(d) ==>
      Lists.Elements(v)[i] == RatioNegate(Lists.Elements(d)[i])
  {
    Lists.OperateColumns(NegateOp, [d]);
    var s := Lists.Operate(NegateOp, [d]);
    Lists.OperateColumns(SimplifyOp, [s]);
    Lists.Operate(SimplifyOp, [s])
  }

  /** `sqrt_Dimension<Dim>`: `pow_Dimension<Dim, std::ratio<1,2>>`. */
  function SqrtDimension(d: Dimension): (q: Dimension)
    ensures Lists.Length(q) == Lists.Length(d)
    ensures forall i :: 0 <= i < Lists.Length(d) ==>
      Value(Lists.Elements(q)[i]) == Value(Lists.Elements(d)[i]) / 2.0
  {
    var half := RatioOf(1, 2);
    RatioOfCharacterised(1, 2, half);
    PowDimension(d, half)
  }

  // ---------------------------------------------------------------------------
  // The algebra of dimensions

  /** Dimensions with the same exponents are the same dimension. */
  lemma DimensionEq(d1: Dimension, d2: Dimension)
    requires Lists.Length(d1) == Lists.Length(d2)
    requires forall i :: 0 <= i < Lists.Length(d1) ==> Lists.Elements(d1)[i] == Lists.Elements(d2)[i]
    ensures d1 == d2
  {
    assert Lists.Elements(d1) == Lists.Elements(d2);
    Lists.ElementsInjective(d1, d2);
  }

  lemma MultCommutative(d1: Dimension, d2: Dimension)
    requires Lists.Length(d1) == Lists.Length(d2)
    ensures MultDimension(d1, d2) == MultDimension(d2, d1)
  {
    forall i | 0 <= i < Lists.Length(d1)
      ensures Lists.Elements(MultDimension(d1, d2))[i] == Lists.Elements(MultDimension(d2, d1))[i]
    {
      AddCommutative(Lists.Elements(d1)[i], Lists.Elements(d2)[i]);
    }
    DimensionEq(MultDimension(d1, d2), MultDimension(d2, d1));
  }

  lemma MultAssociative(d1: Dimension, d2: Dimension, d3: Dimension)
    requires Lists.Length(d1) == Lists.Length(d2) == Lists.Length(d3)
    ensures MultDimension(MultDimension(d1, d2), d3) == MultDimension(d1, MultDimension(d2, d3))
  {
    var l, r := MultDimension(MultDimension(d1, d2), d3), MultDimension(d1, MultDimension(d2, d3));
    forall i | 0 <= i < Lists.Length(d1)
      ensures Lists.Elements(l)[i] == Lists.Elements(r)[i]
    {
      AddAssociative(Lists.Elements(d1)[i], Lists.Elements(d2)[i], Lists.Elements(d3)[i]);
    }
    DimensionEq(l, r);
  }

  /** A dimensionless factor leaves a dimension unchanged. */
  lemma MultDimensionless(d: Dimension)
    ensures MultDimension(d, Dimensionless(Lists.Length(d))) == d
  {
    var m := MultDimension(d, Dimensionless(Lists.Length(d)));
    forall i | 0 <= i < Lists.Length(d)
      ensures Lists.Elements(m)[i] == Lists.Elements(d)[i]
    {
      AddZero(Lists.Elements(d)[i]);
    }
    DimensionEq(m, d);
  }

  /** `number` is the identity of `mult_Dimension` on three-exponent dimensions. */
  lemma MultNumber(d: Dimension)
    requires Lists.Length(d) == 3
    ensures MultDimension(d, Number) == d
    ensures MultDimension(Number, d) == d
  {
    NumberIsDimensionless();
    MultDimensionless(d);
    MultCommutative(d, Number);
  }

  /** On three-exponent dimensions, a dimension times its inverse is `number`. */
  lemma MultInverseIsNumber(d: Dimension)
    requires Lists.Length(d) == 3
    ensures MultDimension(d, InvDimension(d)) == Number
  {
    NumberIsDimensionless();
    MultInverse(d);
  }

  /**
   * Every exponent is a normalised `std::ratio`, so dimensions whose exponents
   * have the same values are the same list: the `is_same` checks compare values.
   */
  lemma SameValuesSameDimension(d1: Dimension, d2: Dimension)
    requires Lists.Length(d1) == Lists.Length(d2)
    requires forall i :: 0 <= i < Lists.Length(d1) ==> Value(Lists.Elements(d1)[i]) == Value(Lists.Elements(d2)[i])
    ensures d1 == d2
  {
    forall i | 0 <= i < Lists.Length(d1)
      ensures Lists.Elements(d1)[i] == Lists.Elements(d2)[i]
    {
      ValueUnique(Lists.Elements(d1)[i], Lists.Elements(d2)[i]);
    }
    DimensionEq(d1, d2);
  }

  /** A dimension times its inverse is dimensionless. */
  lemma MultInverse(d: Dimension)
    ensures MultDimension(d, InvDimension(d)) == Dimensionless(Lists.Length(d))
  {
    var m, z := MultDimension(d, InvDimension(d)), Dimensionless(Lists.Length(d));
    MultInverseExponents(d);
    assert Lists.Length(m) == Lists.Length(z);
    forall i | 0 <= i < Lists.Length(d)
      ensures Lists.Elements(m)[i] == Lists.Elements(z)[i]
    {
    }
    DimensionEq(m, z);
  }

  lemma MultInverseExponents(d: Dimension)
    ensures forall i :: 0 <= i < Lists.Length(d) ==>
      Lists.Elements(MultDimension(d, InvDimension(d)))[i] == IntRatio(0)
  {
    var v := InvDimension(d);
    var m := MultDimension(d, v);
    forall i | 0 <= i < Lists.Length(d)
      ensures Lists.Elements(m)[i] == IntRatio(0)
    {
      var e := Lists.Elements(d)[i];
      assert Lists.Elements(v)[i] == RatioNegate(e);
      AddNegate(e);
    }
  }

  lemma InvInvolution(d: Dimension)
    ensures InvDimension(InvDimension(d)) == d
  {
    var v := InvDimension(InvDimension(d));
    forall i | 0 <= i < Lists.Length(d)
      ensures Lists.Elements(v)[i] == Lists.Elements(d)[i]
    {
      ValueUnique(Lists.Elements(v)[i], Lists.Elements(d)[i]);
    }
    DimensionEq(v, d);
  }

  /** The inverse is the power -1. */
  lemma InvIsPowMinusOne(d: Dimension)
    ensures InvDimension(d) == PowDimension(d, IntRatio(-1))
  {
    forall i | 0 <= i < Lists.Length(d)
      ensures Lists.Elements(InvDimension(d))[i] == Lists.Elements(PowDimension(d, IntRatio(-1)))[i]
    {
      NegateIsMultiplyMinusOne(Lists.Elements(d)[i]);
    }
    DimensionEq(InvDimension(d), PowDimension(d, IntRatio(-1)));
  }

  lemma PowOne(d: Dimension)
    ensures PowDimension(d, IntRatio(1)) == d
  {
    var p := PowDimension(d, IntRatio(1));
    forall i | 0 <= i < Lists.Length(d)
      ensures Lists.Elements(p)[i] == Lists.Elements(d)[i]
    {
      ValueUnique(Lists.Elements(p)[i], Lists.Elements(d)[i]);
    }
    DimensionEq(p, d);
  }

  lemma PowCompose(d: Dimension, a: StdRatio, b: StdRatio)
    ensures PowDimension(PowDimension(d, a), b) == PowDimension(d, RatioMultiply(a, b))
  {
    var l, r := PowDimension(PowDimension(d, a), b), PowDimension(d, RatioMultiply(a, b));
    forall i | 0 <= i < Lists.Length(d)
      ensures Lists.Elements(l)[i] == Lists.Elements(r)[i]
    {
      MultiplyAssociative(Lists.Elements(d)[i], a, b);
    }
    DimensionEq(l, r);
  }

  /** A power of a product is the product of the powers. */
  lemma PowDistributes(d1: Dimension, d2: Dimension, r: StdRatio)
    requires Lists.Length(d1) == Lists.Length(d2)
    ensures PowDimension(MultDimension(d1, d2), r) == MultDimension(PowDimension(d1, r), PowDimension(d2, r))
  {
    var l, m := PowDimension(MultDimension(d1, d2), r), MultDimension(PowDimension(d1, r), PowDimension(d2, r));
    forall i | 0 <= i < Lists.Length(d1)
      ensures Lists.Elements(l)[i] == Lists.Elements(m)[i]
    {
      MultiplyDistributes(Lists.Elements(d1)[i], Lists.Elements(d2)[i], r);
    }
    DimensionEq(l, m);
  }

  /** The square root undoes squaring. */
  lemma SqrtOfSquare(d: Dimension)
    ensures SqrtDimension(MultDimension(d, d)) == d
  {
    var q := SqrtDimension(MultDimension(d, d));
    forall i | 0 <= i < Lists.Length(d)
      ensures Lists.Elements(q)[i] == Lists.Elements(d)[i]
    {
      ValueUnique(Lists.Elements(q)[i], Lists.Elements(d)[i]);
    }
    DimensionEq(q, d);
  }

  // ---------------------------------------------------------------------------
  // Integer dimensions

  lemma IntRatioAdd(a: int, b: int)
    ensures RatioAdd(IntRatio(a), IntRatio(b)) == IntRatio(a + b)
  {
    FractionAddInt(a, b);
    ValueUnique(RatioAdd(IntRatio(a), IntRatio(b)), IntRatio(a + b));
  }

  lemma FractionAddInt(a: int, b: int)
    ensures Fraction(a + b, 1) == Fraction(a, 1) + Fraction(b, 1)
  {
  }

  lemma IntRatioNegate(a: int)
    ensures RatioNegate(IntRatio(a)) == IntRatio(-a)
  {
    ValueUnique(RatioNegate(IntRatio(a)), IntRatio(-a));
  }

  lemma IntRatioMultiply(a: int, b: int)
    ensures RatioMultiply(IntRatio(a), IntRatio(b)) == IntRatio(a * b)
  {
    FractionMultiplyInt(a, b);
    ValueUnique(RatioMultiply(IntRatio(a), IntRatio(b)), IntRatio(a * b));
  }

  lemma FractionMultiplyInt(a: int, b: int)
    ensures Fraction(a * b, 1) == Fraction(a, 1) * Fraction(b, 1)
  {
  }

  /** Multiplying integer dimensions adds the integer exponents. */
  lemma IntDimMult(xs: seq<int>, ys: seq<int>, zs: seq<int>)
    requires |xs| == |ys| == |zs| >= 1
    requires forall i :: 0 <= i < |xs| ==> zs[i] == xs[i] + ys[i]
    ensures MultDimension(IntDim(xs), IntDim(ys)) == IntDim(zs)
  {
    forall i | 0 <= i < |xs|
      ensures Lists.Elements(MultDimension(IntDim(xs), IntDim(ys)))[i] == Lists.Elements(IntDim(zs))[i]
    {
      IntRatioAdd(xs[i], ys[i]);
    }
    DimensionEq(MultDimension(IntDim(xs), IntDim(ys)), IntDim(zs));
  }

  /** Inverting an integer dimension negates the integer exponents. */
  lemma IntDimInv(xs: seq<int>, zs: seq<int>)
    requires |xs| == |zs| >= 1
    requires forall i :: 0 <= i < |xs| ==> zs[i] == -xs[i]
    ensures InvDimension(IntDim(xs)) == IntDim(zs)
  {
    forall i | 0 <= i < |xs|
      ensures Lists.Elements(InvDimension(IntDim(xs)))[i] == Lists.Elements(IntDim(zs))[i]
    {
      IntRatioNegate(xs[i]);
    }
    DimensionEq(InvDimension(IntDim(xs)), IntDim(zs));
  }

  /** An integer power of an integer dimension multiplies the integer exponents. */
  lemma IntDimPow(xs: seq<int>, n: int, zs: seq<int>)
    requires |xs| == |zs| >= 1
    requires forall i :: 0 <= i < |xs| ==> zs[i] == xs[i] * n
    ensures PowDimension(IntDim(xs), IntRatio(n)) == IntDim(zs)
  {
    forall i | 0 <= i < |xs|
      ensures Lists.Elements(PowDimension(IntDim(xs), IntRatio(n)))[i] == Lists.Elements(IntDim(zs))[i]
    {
      IntRatioMultiply(xs[i], n);
    }
    DimensionEq(PowDimension(IntDim(xs), IntRatio(n)), IntDim(zs));
  }

  // The relations between the named dimensions that the library's examples rely on.

  lemma WorkIsLengthTimesForce()
    ensures MultDimension(Length, Force) == Work
  {
    IntDimMult([0, 1, 0], [1, 1, -2], [1, 2, -2]);
  }

  /** `quantity<force> f2 = a*m` for an acceleration a and a mass m. */
  lemma ForceIsMassTimesAcceleration()
    ensures MultDimension(Mass, Acceleration) == Force
    ensures MultDimension(Acceleration, Mass) == Force
  {
    IntDimMult([1, 0, 0], [0, 1, -2], [1, 1, -2]);
    IntDimMult([0, 1, -2], [1, 0, 0], [1, 1, -2]);
  }

  lemma FrequencyIsInverseTime()
    ensures InvDimension(Time) == Frequency
  {
    IntDimInv([0, 0, 1], [0, 0, -1]);
  }

  lemma VelocityIsLengthPerTime()
    ensures MultDimension(Length, InvDimension(Time)) == Velocity
  {
    FrequencyIsInverseTime();
    IntDimMult([0, 1, 0], [0, 0, -1], [0, 1, -1]);
  }

  lemma AccelerationIsVelocityPerTime()
    ensures MultDimension(Velocity, InvDimension(Time)) == Acceleration
  {
    FrequencyIsInverseTime();
    IntDimMult([0, 1, -1], [0, 0, -1], [0, 1, -2]);
  }

  lemma AreaIsLengthSquared()
    ensures MultDimension(Length, Length) == Area
  {
    IntDimMult([0, 1, 0], [0, 1, 0], [0, 2, 0]);
  }

  /** `quantity<length> L = sqrt(A)` for `quantity<area> A`. */
  lemma SqrtAreaIsLength()
    ensures SqrtDimension(Area) == Length
  {
    AreaIsLengthSquared();
    SqrtOfSquare(Length);
  }

  /** `quantity<volume> V = pow(L, ratio<3,1>())` for `quantity<length> L`. */
  lemma CubeOfLengthIsVolume()
    ensures PowDimension(Length, RatioOf(3, 1)) == Volume
  {
    RatioOfNormal(IntRatio(3));
    IntDimPow([0, 1, 0], 3, [0, 3, 0]);
  }

  /** `number` is the dimensionless dimension of three exponents. */
  lemma NumberIsDimensionless()
    ensures Number == Dimensionless(3)
  {
    DimensionEq(Number, Dimensionless(3));
  }

  // ---------------------------------------------------------------------------
  // quantity<Dim, T>

  /**
   * `quantity<Dim, T>` with T = double, its value modelled as a real: the
   * dimension is part of the type and never changes, the value is the one
   * field the operators update.
   */
  class Quantity {
    const dims: Dimension
    var val: real

    /** `quantity()`: the value is value-initialised to zero. */
    constructor Zero(d: Dimension)
      ensures dims == d && val == 0.0
    {
      dims := d;
      val := 0.0;
    }

    /** `quantity(T val)`, and the forwarding constructor with one argument. */
    constructor (d: Dimension, v: real)
      ensures dims == d && val == v
    {
      dims := d;
      val := v;
    }

    /** The copy constructor from `quantity<Dim2, T>`: Dim2 must equal Dim. */
    constructor Copy(d: Dimension, rhs: Quantity)
      requires rhs.dims == d
      ensures dims == d && val == rhs.val
    {
      dims := d;
      val := rhs.val;
    }

    /** `operator=`: the dimensions must agree; only the value is copied. */
    method Assign(rhs: Quantity)
      requires rhs.dims == dims
      modifies this
      ensures val == old(rhs.val)
    {
      val := rhs.val;
    }

    /** `operator*`: values multiply, dimensions combine by `mult_Dimension`. */
    method Mul(rhs: Quantity) returns (r: Quantity)
      requires Lists.Length(rhs.dims) >= Lists.Length(dims)
      ensures fresh(r)
      ensures r.dims == MultDimension(dims, rhs.dims) && r.val == val * rhs.val
    {
      r := new Quantity(MultDimension(dims, rhs.dims), val * rhs.val);
    }

    /** `operator/`: values divide, the dimension is multiplied by the inverse of rhs's. */
    method Div(rhs: Quantity) returns (r: Quantity)
      requires Lists.Length(rhs.dims) >= Lists.Length(dims) && rhs.val != 0.0
      ensures fresh(r)
      ensures r.dims == MultDimension(dims, InvDimension(rhs.dims)) && r.val == val / rhs.val
    {
      r := new Quantity(MultDimension(dims, InvDimension(rhs.dims)), val / rhs.val);
    }

    /** `operator*=`: only by a dimensionless rhs; the dimension is unchanged. */
    method MulAssign(rhs: Quantity)
      requires rhs.dims == Dimensionless(Lists.Length(dims))
      modifies this
      ensures val == old(val) * old(rhs.val)
    {
      val := val * rhs.val;
    }

    /** `operator/=`: only by a dimensionless rhs. */
    method DivAssign(rhs: Quantity)
      requires rhs.dims == Dimensionless(Lists.Length(dims)) && rhs.val != 0.0
      modifies this
      ensures val == old(val) / old(rhs.val)
    {
      val := val / rhs.val;
    }

    /** `operator+`: only between quantities of the same dimension. */
    method Add(rhs: Quantity) returns (r: Quantity)
      requires rhs.dims == dims
      ensures fresh(r)
      ensures r.dims == dims && r.val == val + rhs.val
    {
      r := new Quantity(dims, val + rhs.val);
    }

    /** `operator-` as written: it adds the values. */
    method SubAsWritten(rhs: Quantity) returns (r: Quantity)
      requires rhs.dims == dims
      ensures fresh(r)
      ensures r.dims == dims && r.val == val + rhs.val
    {
      r := new Quantity(dims, val + rhs.val);
    }

    /** `operator-` as intended: the difference of the values. */
    method Sub(rhs: Quantity) returns (r: Quantity)
      requires rhs.dims == dims
      ensures fresh(r)
      ensures r.dims == dims && r.val == val - rhs.val
    {
      r := new Quantity(dims, val - rhs.val);
    }

    /** `operator+=`. */
    method AddAssign(rhs: Quantity)
      requires rhs.dims == dims
      modifies this
      ensures val == old(val) + old(rhs.val)
    {
      val := val + rhs.val;
    }

    /** `operator-=`. */
    method SubAssign(rhs: Quantity)
      requires rhs.dims == dims
      modifies this
      ensures val == old(val) - old(rhs.val)
    {
      val := val - rhs.val;
    }
  }

  /** `sqrt(quantity)`: `root` stands for `::sqrt(qty.val)`; the dimension is halved. */
  method Sqrt(qty: Quantity, root: real) returns (r: Quantity)
    ensures fresh(r)
    ensures r.dims == SqrtDimension(qty.dims) && r.val == root
  {
    r := new Quantity(SqrtDimension(qty.dims), root);
  }

  /** `pow(quantity, std::ratio<A,B>)`: `power` stands for `::pow(qty.val, A/B)`. */
  method Pow(qty: Quantity, e: StdRatio, power: real) returns (r: Quantity)
    ensures fresh(r)
    ensures r.dims == PowDimension(qty.dims, e) && r.val == power
  {
    r := new Quantity(PowDimension(qty.dims, e), power);
  }

  /** `operator-` as written on 3 and 1 of the same dimension yields 4, not 2. */
  method SubAsWrittenCounterexample() returns (d: real)
    ensures d == 4.0 && d != 3.0 - 1.0
  {
    var a := new Quantity(Length, 3.0);
    var b := new Quantity(Length, 1.0);
    var c := a.SubAsWritten(b);
    d := c.val;
  }

  /** Adding then subtracting the same quantity restores the value; with the written `operator-` it does not. */
  method AddThenSub(a: Quantity, b: Quantity) returns (r: real, w: real)
    requires a.dims == b.dims
    ensures r == a.val
    ensures w == a.val + 2.0 * b.val
  {
    var s := a.Add(b);
    var t := s.Sub(b);
    var u := s.SubAsWritten(b);
    r := t.val;
    w := u.val;
  }

  /** Work is length times force: `quantity<work> w = l*f` type-checks. */
  method WorkExample() returns (w: Quantity)
    ensures w.dims == Work && w.val == 2.0
  {
    var l := new Quantity(Length, 1.0);
    var f := new Quantity(Force, 2.0);
    WorkIsLengthTimesForce();
    w := l.Mul(f);
  }
}
