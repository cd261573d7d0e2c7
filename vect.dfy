/**
 * Fixed-size vectors (src/vect.hpp): `nvect<N, T>` wraps a `std::array<T, N>`
 * that its operators fill element by element. The model fixes T = int, so `/`
 * is C++'s truncating division.
 */
module Vect {
  import opened Ints

  /** The sum of a sequence, accumulated from the front as `sum()` does. */
  function SumSeq(a: seq<int>): int
  {
    if |a| == 0 then 0 else SumSeq(a[..|a| - 1]) + a[|a| - 1]
  }

  /** The dot product, the reference for `dot()`. */
  function DotSeq(a: seq<int>, b: seq<int>): int
    requires |a| == |b|
  {
    if |a| == 0 then 0 else DotSeq(a[..|a| - 1], b[..|b| - 1]) + a[|a| - 1] * b[|b| - 1]
  }

  class NVect {
    /** The template parameter N. */
    const n: nat
    /** The `std::array<T, N>` member `values`. */
    const values: array<int>

    /** `static_assert(N > 0)`, and the array has N elements. */
    predicate Valid()
    {
      n >= 1 && values.Length == n
    }

    /** `nvect()`: the elements of an `int` array are left indeterminate. */
    constructor Default(n: nat)
      requires n >= 1
      ensures Valid() && this.n == n && fresh(values)
    {
      this.n := n;
      values := new int[n];
    }

    /** `nvect(std::array<T,N>&& vals)`. */
    constructor FromArray(n: nat, vals: seq<int>)
      requires n >= 1 && |vals| == n
      ensures Valid() && this.n == n && fresh(values)
      ensures values[..] == vals
    {
      this.n := n;
      values := new int[n](i requires 0 <= i < n => vals[i]);
    }

    /** `nvect(T t, Ts&&... vs)`: exactly N - 1 further arguments. */
    constructor FromValues(n: nat, t: int, vs: seq<int>)
      requires n >= 1 && |vs| == n - 1
      ensures Valid() && this.n == n && fresh(values)
      ensures values[..] == [t] + vs
    {
      this.n := n;
      var all := [t] + vs;
      values := new int[n](i requires 0 <= i < n => all[i]);
    }

    /** The copy constructor: a fresh array with the same elements. */
    constructor Copy(v: NVect)
      requires v.Valid()
      ensures Valid() && n == v.n && fresh(values)
      ensures values[..] == v.values[..]
    {
      n := v.n;
      var vals := v.values[..];
      values := new int[v.n](i requires 0 <= i < v.n => vals[i]);
    }

    /** `operator=`: copy v's elements into this vector's array. */
    method Assign(v: NVect)
      requires Valid() && v.Valid() && v.n == n
      modifies values
      ensures values[..] == old(v.values[..])
    {
      forall i | 0 <= i < n {
        values[i] := v.values[i];
      }
    }

    /** `operator[]` read through the returned reference; no bounds check, so i < N is required. */
    method Get(i: nat) returns (x: int)
      requires Valid() && i < n
      ensures x == values[i]
    {
      x := values[i];
    }

    /** `operator[]` written through the returned reference. */
    method Set(i: nat, x: int)
      requires Valid() && i < n
      modifies values
      ensures values[..] == old(values[..])[i := x]
    {
      values[i] := x;
    }

    /** `operator*(const this_type&)`: element-wise product in a new vector. */
    method Mul(v: NVect) returns (out: NVect)
      requires Valid() && v.Valid() && v.n == n
      ensures fresh(out) && fresh(out.values) && out.Valid() && out.n == n
      ensures forall i :: 0 <= i < n ==> out.values[i] == values[i] * v.values[i]
    {
      out := new NVect.Default(n);
      var i := 0;
      while i < n
        invariant 0 <= i <= n
        invariant forall j :: 0 <= j < i ==> out.values[j] == values[j] * v.values[j]
      {
        out.values[i] := values[i] * v.values[i];
        i := i + 1;
      }
    }

    /** `operator*(T scalar)`: every element times the scalar. */
    method Scale(scalar: int) returns (out: NVect)
      requires Valid()
      ensures fresh(out) && fresh(out.values) && out.Valid() && out.n == n
      ensures forall i :: 0 <= i < n ==> out.values[i] == values[i] * scalar
    {
      out := new NVect.Default(n);
      var i := 0;
      while i < n
        invariant 0 <= i <= n
        invariant forall j :: 0 <= j < i ==> out.values[j] == values[j] * scalar
      {
        out.values[i] := values[i] * scalar;
        i := i + 1;
      }
    }

    /** `operator/(T scalar)`: every element divided, truncating toward zero; a zero scalar is undefined. */
    method Divide(scalar: int) returns (out: NVect)
      requires Valid() && scalar != 0
      ensures fresh(out) && fresh(out.values) && out.Valid() && out.n == n
      ensures forall i :: 0 <= i < n ==> out.values[i] == Quot(values[i], scalar)
    {
      out := new NVect.Default(n);
      var i := 0;
      while i < n
        invariant 0 <= i <= n
        invariant forall j :: 0 <= j < i ==> out.values[j] == Quot(values[j], scalar)
      {
        out.values[i] := Quot(values[i], scalar);
        i := i + 1;
      }
    }

    /**
     * `sum()` as written: `T out;` leaves an `int` (or `double`) accumulator
     * indeterminate, so the result is whatever it held plus the elements;
     * `garbage` stands for that value.
     */
    method SumAsWritten(garbage: int) returns (s: int)
      requires Valid()
      ensures s == garbage + SumSeq(values[..])
    {
      s := garbage;
      var i := 0;
      while i < n
        invariant 0 <= i <= n
        invariant s == garbage + SumSeq(values[..i])
      {
        assert values[..i + 1][..i] == values[..i];
        s := s + values[i];
        i := i + 1;
      }
      assert values[..n] == values[..];
    }

    /** `sum()` with the accumulator value-initialised to zero. */
    method Sum() returns (s: int)
      requires Valid()
      ensures s == SumSeq(values[..])
    {
      s := 0;
      var i := 0;
      while i < n
        invariant 0 <= i <= n
        invariant s == SumSeq(values[..i])
      {
        assert values[..i + 1][..i] == values[..i];
        s := s + values[i];
        i := i + 1;
      }
      assert values[..n] == values[..];
    }

    /** `dot(vect)`: `(vect * (*this)).sum()`. */
    method Dot(v: NVect) returns (d: int)
      requires Valid() && v.Valid() && v.n == n
      ensures d == DotSeq(values[..], v.values[..])
    {
      var p := v.Mul(this);
      d := p.Sum();
      SumOfProducts(values[..], v.values[..], p.values[..]);
    }

    /** `operator<`: every element strictly smaller. */
    method Less(v: NVect) returns (out: bool)
      requires Valid() && v.Valid() && v.n == n
      ensures out <==> forall i :: 0 <= i < n ==> values[i] < v.values[i]
    {
      out := true;
      var i := 0;
      while i < n
        invariant 0 <= i <= n
        invariant out <==> forall j :: 0 <= j < i ==> values[j] < v.values[j]
      {
        out := out && values[i] < v.values[i];
        i := i + 1;
      }
    }

    /** `operator<=`: every element smaller or equal. */
    method LessEq(v: NVect) returns (out: bool)
      requires Valid() && v.Valid() && v.n == n
      ensures out <==> forall i :: 0 <= i < n ==> values[i] <= v.values[i]
    {
      out := true;
      var i := 0;
      while i < n
        invariant 0 <= i <= n
        invariant out <==> forall j :: 0 <= j < i ==> values[j] <= v.values[j]
      {
        out := out && values[i] <= v.values[i];
        i := i + 1;
      }
    }
  }

  // ---------------------------------------------------------------------------
  // Lemmas

  /** Summing the element-wise products gives the dot product. */
  lemma {:induction false} SumOfProducts(a: seq<int>, b: seq<int>, p: seq<int>)
    requires |a| == |b| == |p|
    requires forall i :: 0 <= i < |p| ==> p[i] == b[i] * a[i]
    ensures SumSeq(p) == DotSeq(a, b)
  {
    if |p| > 0 {
      var k := |p| - 1;
      SumOfProducts(a[..k], b[..k], p[..k]);
    }
  }

  lemma {:induction false} DotSymmetric(a: seq<int>, b: seq<int>)
    requires |a| == |b|
    ensures DotSeq(a, b) == DotSeq(b, a)
  {
    if |a| > 0 {
      var k := |a| - 1;
      DotSymmetric(a[..k], b[..k]);
    }
  }

  /** Scaling one side scales the dot product. */
  lemma {:induction false} DotScale(a: seq<int>, b: seq<int>, sa: seq<int>, c: int)
    requires |a| == |b| == |sa|
    requires forall i :: 0 <= i < |a| ==> sa[i] == a[i] * c
    ensures DotSeq(sa, b) == c * DotSeq(a, b)
  {
    if |a| > 0 {
      var k := |a| - 1;
      DotScale(a[..k], b[..k], sa[..k], c);
      ScaleStep(DotSeq(a[..k], b[..k]), a[k], b[k], c);
    }
  }

  lemma ScaleStep(s: int, x: int, y: int, c: int)
    ensures c * s + (x * c) * y == c * (s + x * y)
  {
  }

  /** The sum of the products of a vector with itself is never negative. */
  lemma {:induction false} DotSelfNonNegative(a: seq<int>)
    ensures DotSeq(a, a) >= 0
  {
    if |a| > 0 {
      var k := |a| - 1;
      DotSelfNonNegative(a[..k]);
      SquareNonNegative(a[k]);
    }
  }

  lemma SquareNonNegative(x: int)
    ensures x * x >= 0
  {
    if x < 0 {
      assert x * x == (-x) * (-x);
    }
  }

  /** Dividing by the scalar a vector was scaled by gives the vector back. */
  lemma ScaleThenDivide(x: int, c: int)
    requires c != 0
    ensures Quot(x * c, c) == x
  {
    AbsMul(x, c);
    MultipleMod(Abs(c), Abs(x));
    assert Abs(x * c) == Abs(c) * Abs(x);
    if x == 0 {
      assert x * c == 0;
    } else {
      SignOfProduct(x, c);
    }
  }

  /** Strictly less in every element implies less or equal in every element. */
  method LessImpliesLessEq(u: NVect, v: NVect) returns (lt: bool, le: bool)
    requires u.Valid() && v.Valid() && u.n == v.n
    ensures lt ==> le
  {
    lt := u.Less(v);
    le := u.LessEq(v);
  }

  /** `sum()` as written on the one-element vector {1}, with 5 left in the accumulator, yields 6. */
  method SumAsWrittenCounterexample() returns (s: int, t: int)
    ensures s == 6 && t == 1 && s != t
  {
    var v := new NVect.FromValues(1, 1, []);
    assert v.values[..] == [1];
    s := v.SumAsWritten(5);
    t := v.Sum();
  }
}
