# quantities — a verified model of the dimension algebra

djbarker/quantities is a C++ template library for compile-time dimensional
analysis. A physical quantity carries its dimension in its type: a list of
rational exponents, one per base quantity (mass, length, time). Multiplying
quantities adds exponents, inverting negates them, and raising to a rational
power multiplies them. Adding, subtracting, copying and assigning are only
allowed between quantities of the same dimension. This project models the four
template headers that make up that algebra in Dafny and proves what they
compute:

- `ints.dfy` (module `Ints`) holds shared integer facts:
  - C++'s truncating `/` and `%` (`Quot`, `Rem`);
  - divisibility;
  - Euclid's `Gcd`, Bezout's identity and Euclid's lemma.
- `rational.dfy` (module `Rationals`) models `src/rational.hpp`: pairs of integers, a descending highest-common-factor search, `simplify`, and unreduced cross-multiplying `add`, `sub`, `mult` and `div`.
- `lists.dfy` (module `Lists`) models `src/lists.hpp`:
  - `list_element`/`end_element` become the datatype `List`;
  - every type-level operation becomes a recursive function, specified by what it does to `Elements(l)`, the sequence of elements. This covers length, fill, push and pop at both ends, `pop_int`, `list_back`, `list_get_int`, `list_reverse` and the N-ary `operate`.
- `std_ratio.dfy` (module `StdRatio`) models the `std::ratio` exponents:
  - The normal form of section 20.10.3 [ratio.ratio] of ISO/IEC 14882:2011 is the subset type `StdRatio`: denominator positive, numerator and denominator coprime.
  - `std::ratio<N, D>` is `RatioOf(n, d)`.
  - `ratio_add` and `ratio_multiply` (section 20.10.4) are `RatioAdd` and `RatioMultiply`.
- `dims.dfy` (module `Dims`) models `src/dims.hpp`:
  - dimensions, the named dimensions, and `mult_Dimension`, `pow_Dimension`, `inv_Dimension` and `sqrt_Dimension`, all built on `Lists.Operate`;
  - `quantity` as the class `Quantity`: the dimension is a `const` field, and the value `val` is a `real` that the assignment operators update in place.
- `vect.dfy` (module `Vect`) models `src/vect.hpp`: `nvect<N, int>` as the class `NVect` over an `array<int>`. Its operators are loops with invariants.

The code is the reference where it and the library's prose description differ:
- `simplify` leaves a negative denominator negative when the numerator is non-zero (1/-2 stays 1/-2); a zero numerator gives 0/1, because `highest_common_factor<0,B>` is B.
- `highest_common_factor<0,B>` is B itself, not |B|.
- `highest_common_factor<A,0>` is -1 for A ≠ 0, because the search runs past 0.
- `operate` stops at the end of its first list, so a longer later list is cut short; a shorter later list does not compile.

A compile error in the C++ becomes a `requires` clause:
- a failed `static_assert`;
- a missing `::value` or `::tail`;
- a division by zero in a constant expression.

## Model

| member | source | states |
|---|---|---|
| Rationals.StaticMin | src/rational.hpp:26-29 | the result is at most both arguments and equal to one of them |
| Rationals.IsCommonFactorMeaning | src/rational.hpp:31-40 | C is a common factor exactly when C ≠ 0 and C divides both A and B; C = 0 is never one |
| Rationals.MinusOneIsCommonFactor | src/rational.hpp:31-53 | -1 is a common factor of everything, so the descending search always stops |
| Rationals.HcfSearchFindsLargest | src/rational.hpp:42-53 | the search started at N ≥ 1 returns the largest common factor in 1..N, and nothing between it and N is a common factor |
| Rationals.HighestCommonFactorIsGreatest | src/rational.hpp:55-63 | for non-zero A, B the HCF lies in 1..min(\|A\|,\|B\|), divides both, and every common divisor is at most it |
| Rationals.HcfIsGcd | src/rational.hpp:55-63 | for non-zero A, B the linear search equals Euclid's gcd of \|A\| and \|B\| |
| Rationals.HcfOfZero | src/rational.hpp:65-69 | highest_common_factor<0,B> is B |
| Rationals.HcfOfZeroSecond | src/rational.hpp:55-63 | highest_common_factor<A,0> for A ≠ 0 is -1 |
| Rationals.HcfNonZero | src/rational.hpp:55-69 | the HCF is non-zero unless both arguments are zero |
| Rationals.HcfDividesBoth | src/rational.hpp:55-69 | the HCF divides numerator and denominator of every rational simplify accepts |
| Rationals.SimplifyScales | src/rational.hpp:74-80 | each part of the result times the HCF gives back the input's part |
| Rationals.SimplifyPreservesValue | src/rational.hpp:74-80 | the cross products agree (n'·d = n·d'), so with a non-zero denominator the exact value is unchanged |
| Rationals.SimplifyLowestTerms | src/rational.hpp:74-80 | with non-zero parts the result has non-zero parts whose HCF and gcd are 1 |
| Rationals.SimplifyKeepsSigns | src/rational.hpp:74-80 | with a non-zero numerator and a non-zero denominator, both keep their signs; a negative denominator then stays negative |
| Rationals.SimplifyZero | src/rational.hpp:65-80 | 0/B with B ≠ 0 becomes 0/1 |
| Rationals.SimplifyIdempotent | src/rational.hpp:74-80 | with a non-zero denominator a second simplify changes nothing |
| Rationals.SimplifyZeroDenominatorFlips | src/rational.hpp:74-80 | A/0 becomes -A/0, and simplifying again gives back A/0 |
| Rationals.AddValue | src/rational.hpp:86-89 | add_Rational has a non-zero denominator and the exact sum as value |
| Rationals.SubValue | src/rational.hpp:91-94 | sub_Rational has a non-zero denominator and the exact difference as value |
| Rationals.MultValue | src/rational.hpp:96-99 | mult_Rational has a non-zero denominator and the exact product as value |
| Rationals.DivDenominator | src/rational.hpp:101-104 | div_Rational's denominator is non-zero exactly when R1's denominator and R2's numerator are |
| Rationals.DivValue | src/rational.hpp:101-104 | when R2's numerator is non-zero, div_Rational has the exact quotient as value |
| Rationals.Examples | src/examples.cpp:36-52 | is_common_factor<10,8,2>, hcf(10,5) = 5, add(1/2,3/4) = 10/8, whose simplification is 5/4; 10/5 → 2/1, -2/4 → -1/2, 1/-2 unchanged |
| Rationals.OperateAddExample | src/examples.cpp:21-28 | operate<add_Rational> on [1,2] and [2,4] gives [3,6] |
| Lists.Length | src/lists.hpp:37-45 | list_length is the number of elements, and 0 exactly for end_element |
| Lists.StaticList | src/lists.hpp:25-34 | static_list of k ≥ 1 types has exactly those elements in order |
| Lists.MakeListFromType | src/lists.hpp:48-56 | for N ≥ 1, N elements, every one T |
| Lists.PushFront | src/lists.hpp:59-62 | T followed by the elements of L |
| Lists.PushBack | src/lists.hpp:65-73 | the elements of L followed by T |
| Lists.PushBackLast | src/lists.hpp:65-73 | push_back has length len(L)+1, last element T, and the same elements before it |
| Lists.PopFront | src/lists.hpp:76-79 | the elements after the first |
| Lists.PopBackImpl | src/lists.hpp:85-93 | T1 and T2's elements, without the last |
| Lists.PopBack | src/lists.hpp:82-96 | every element but the last |
| Lists.PopFrontPushFront | src/lists.hpp:59-79 | pop_front(push_front(L,T)) == L |
| Lists.PopBackPushBack | src/lists.hpp:65-96 | pop_back(push_back(L,T)) == L |
| Lists.PopBackSingle | src/lists.hpp:82-96 | pop_back of a one-element list is end_element |
| Lists.PiImpl | src/lists.hpp:102-116 | from position I with constant TLength, the elements of T1 without the one at N |
| Lists.PopInt | src/lists.hpp:99-119 | for 0 ≤ N < len(L), L[..N] + L[N+1..], of length len(L)-1, the last index included |
| Lists.PopIntLastIsPopBack | src/lists.hpp:99-119 | pop_int at the last index is pop_back |
| Lists.LbImpl | src/lists.hpp:125-133 | the last of V followed by T2's elements |
| Lists.ListBack | src/lists.hpp:122-136 | the last element |
| Lists.LgiImpl | src/lists.hpp:166-174 | the element of T1 at N - I |
| Lists.ListGetInt | src/lists.hpp:164-177 | for 0 ≤ N < len(L), the element at index N |
| Lists.ListBackIsLastIndex | src/lists.hpp:122-136 | list_back(L) == list_get_int(L, len(L)-1) |
| Lists.Operate | src/lists.hpp:183-194 | the result has the first list's length; every other list must be at least as long |
| Lists.OperateAt | src/lists.hpp:183-194 | element i is Op applied to the i-th elements of all lists; later elements of longer lists are ignored |
| Lists.OperateColumns | src/lists.hpp:183-194 | the same for all indices at once |
| Lists.Reverse | src/lists.hpp:138-161 | the reference reversal: element k is element \|s\|-1-k of the input |
| Lists.LrImplReverses | src/lists.hpp:142-158 | lr_impl called with N = len(T2) reverses T2 |
| Lists.ListReverseLong | src/lists.hpp:138-161 | list_reverse as written reverses lists of length ≥ 4 |
| Lists.ListReverseTwo | src/lists.hpp:150-160 | list_reverse as written returns a two-element list unchanged, which is not its reverse when the elements differ |
| Lists.ListReverseThree | src/lists.hpp:150-160 | list_reverse as written maps [a,b,c] to [b,a], which is not the reverse |
| Lists.ListReverseFixedReverses | src/lists.hpp:138-161 | with the entry call passing the list's own length, every non-empty list is reversed |
| StdRatio.RatioOf | src/dims.hpp:34-37 | std::ratio<N,D> is in normal form and has the value N/D (equal cross products) |
| StdRatio.RatioOfCharacterised | src/dims.hpp:34-37 | std::ratio<N,D> is the one normal ratio whose value is N/D |
| StdRatio.NormalUnique | src/dims.hpp:34-37 | two normal ratios with the same cross products are identical |
| StdRatio.ValueUnique | src/dims.hpp:34-37 | two normal ratios with the same value are identical |
| StdRatio.RatioOfNormal | src/dims.hpp:34-37 | std::ratio<R::num,R::den> is R again |
| StdRatio.IntRatio | src/dims.hpp:17-18 | std::ratio<I> has numerator I and denominator 1 |
| StdRatio.RatioAdd | src/dims.hpp:40-43 | ratio_add has the sum of the values |
| StdRatio.RatioMultiply | src/dims.hpp:46-50 | ratio_multiply has the product of the values |
| StdRatio.RatioNegate | src/dims.hpp:53-62 | ratio_negate has the negated value |
| StdRatio.AddCommutative | src/dims.hpp:40-43 | ratio_add is commutative |
| StdRatio.AddAssociative | src/dims.hpp:40-43 | ratio_add is associative |
| StdRatio.AddZero | src/dims.hpp:40-43 | std::ratio<0> is the identity of ratio_add |
| StdRatio.AddNegate | src/dims.hpp:53-62 | R plus its negation is std::ratio<0> |
| StdRatio.MultiplyCommutative | src/dims.hpp:46-50 | ratio_multiply is commutative |
| StdRatio.MultiplyAssociative | src/dims.hpp:46-50 | ratio_multiply is associative |
| StdRatio.MultiplyDistributes | src/dims.hpp:40-50 | ratio_multiply distributes over ratio_add |
| StdRatio.NegateIsMultiplyMinusOne | src/dims.hpp:53-62 | ratio_negate is multiplication by std::ratio<-1> |
| Dims.MakeDimension | src/dims.hpp:13-14 | Dimension<Rs...> has exactly the exponents Rs |
| Dims.IntDim | src/dims.hpp:17-18 | IntDim<Is...> has one exponent std::ratio<I> per integer I |
| Dims.Dimensionless | src/dims.hpp:123 | make_list_from_type<N, std::ratio<0>> has N exponents, all zero |
| Dims.RatioSimplify | src/dims.hpp:34-37 | ratio_simplify returns its argument: every std::ratio is already normal |
| Dims.MultDimension | src/dims.hpp:40-43 | the first dimension's length, and exponent i is the ratio_add of the two exponents i |
| Dims.PowDimension | src/dims.hpp:46-50 | the same length, and every exponent is multiplied by R |
| Dims.InvDimension | src/dims.hpp:53-62 | the same length, and every exponent is negated |
| Dims.SqrtDimension | src/dims.hpp:64-65 | the same length, and every exponent's value is halved |
| Dims.MultCommutative | src/dims.hpp:40-43 | mult_Dimension is commutative |
| Dims.MultAssociative | src/dims.hpp:40-43 | mult_Dimension is associative |
| Dims.MultDimensionless | src/dims.hpp:40-43 | multiplying by the dimensionless list leaves a dimension unchanged |
| Dims.MultNumber | src/dims.hpp:21-43 | number is a two-sided identity of mult_Dimension on three-exponent dimensions |
| Dims.MultInverse | src/dims.hpp:40-62 | D times inv(D) is dimensionless |
| Dims.MultInverseIsNumber | src/dims.hpp:21-62 | D times inv(D) is number on three-exponent dimensions |
| Dims.InvInvolution | src/dims.hpp:53-62 | inverting twice gives D back |
| Dims.InvIsPowMinusOne | src/dims.hpp:46-62 | the inverse is the power std::ratio<-1> |
| Dims.PowOne | src/dims.hpp:46-50 | the power 1 leaves a dimension unchanged |
| Dims.PowCompose | src/dims.hpp:46-50 | the power R then S is the power R·S |
| Dims.PowDistributes | src/dims.hpp:40-50 | a power of a product is the product of the powers |
| Dims.SqrtOfSquare | src/dims.hpp:40-65 | sqrt_Dimension(D·D) == D |
| Dims.SameValuesSameDimension | src/dims.hpp:34-37 | dimensions whose exponents have equal values are the same list, which is what the is_same checks rely on |
| Dims.IntDimMult | src/dims.hpp:17-43 | multiplying integer dimensions adds the integer exponents |
| Dims.IntDimInv | src/dims.hpp:17-62 | inverting an integer dimension negates the integer exponents |
| Dims.IntDimPow | src/dims.hpp:17-50 | an integer power multiplies the integer exponents |
| Dims.NumberIsDimensionless | src/dims.hpp:21 | number is the dimensionless list of three exponents |
| Dims.WorkIsLengthTimesForce | src/examples.cpp:57-59 | length times force is work |
| Dims.ForceIsMassTimesAcceleration | src/examples.cpp:66-68 | mass times acceleration, in either order, is force |
| Dims.FrequencyIsInverseTime | src/dims.hpp:24-31 | the inverse of time is frequency |
| Dims.VelocityIsLengthPerTime | src/dims.hpp:22-27 | length over time is velocity |
| Dims.AccelerationIsVelocityPerTime | src/dims.hpp:24-28 | velocity over time is acceleration |
| Dims.AreaIsLengthSquared | src/dims.hpp:23-29 | length times length is area |
| Dims.SqrtAreaIsLength | src/examples.cpp:74-75 | sqrt_Dimension(area) is length |
| Dims.CubeOfLengthIsVolume | src/examples.cpp:77 | pow_Dimension(length, ratio<3,1>) is volume |
| Dims.Quantity.Zero | src/dims.hpp:78 | `quantity()` has the given dimension and value 0 |
| Dims.Quantity.constructor | src/dims.hpp:79 | `quantity(T val)` holds the given dimension and value |
| Dims.Quantity.Copy | src/dims.hpp:87-90 | copying needs equal dimensions and copies the value |
| Dims.Quantity.Assign | src/dims.hpp:93-97 | assignment needs equal dimensions and copies only the value |
| Dims.Quantity.Mul | src/dims.hpp:108-111 | a fresh quantity of dimension mult(Da,Db) and value a·b |
| Dims.Quantity.Div | src/dims.hpp:113-116 | a fresh quantity of dimension mult(Da,inv(Db)) and value a/b |
| Dims.Quantity.MulAssign | src/dims.hpp:121-126 | needs the all-zero rhs dimension of the same length; multiplies val and keeps the dimension |
| Dims.Quantity.DivAssign | src/dims.hpp:128-133 | needs the all-zero rhs dimension of the same length; divides val and keeps the dimension |
| Dims.Quantity.Add | src/dims.hpp:139-142 | needs equal dimensions; a fresh quantity holding the sum |
| Dims.Quantity.SubAsWritten | src/dims.hpp:144-147 | as written: a fresh quantity holding the sum val + rhs.val |
| Dims.Quantity.Sub | src/dims.hpp:144-147 | as intended: a fresh quantity holding the difference |
| Dims.Quantity.AddAssign | src/dims.hpp:149-153 | needs equal dimensions; adds to val and keeps the dimension |
| Dims.Quantity.SubAssign | src/dims.hpp:155-158 | needs equal dimensions; subtracts from val and keeps the dimension |
| Dims.AddThenSub | src/dims.hpp:139-147 | (a + b) - b gives a's value back; with the written operator- it gives a + 2b |
| Dims.SubAsWrittenCounterexample | src/dims.hpp:146 | the written operator- on 3 and 1 yields 4, not 2 |
| Dims.Sqrt | src/dims.hpp:170-173 | the result has dimension sqrt_Dimension(D) |
| Dims.Pow | src/dims.hpp:176-179 | the result has dimension pow_Dimension(D, R) |
| Dims.WorkExample | src/examples.cpp:57-59 | a length of 1 times a force of 2 is a work of 2 |
| Vect.NVect.Default | src/vect.hpp:11-15 | `nvect()` needs N ≥ 1 and has N elements |
| Vect.NVect.FromArray | src/vect.hpp:17-18 | the elements are the array's |
| Vect.NVect.Copy | src/vect.hpp:20-21 | the copy has a fresh array with the same N elements |
| Vect.NVect.FromValues | src/vect.hpp:23-26 | exactly N values, stored in order |
| Vect.NVect.Assign | src/vect.hpp:30-33 | all N elements are those of the right-hand side |
| Vect.NVect.Get | src/vect.hpp:36-38 | for i < N, element i |
| Vect.NVect.Set | src/vect.hpp:36-38 | writing through operator[] changes element i only |
| Vect.NVect.Mul | src/vect.hpp:41-46 | a fresh vector with out[i] = a[i]·b[i]; the operands are unchanged |
| Vect.NVect.Scale | src/vect.hpp:49-54 | a fresh vector with out[i] = a[i]·s |
| Vect.NVect.Divide | src/vect.hpp:67-72 | a fresh vector with out[i] = a[i]/s, truncated toward zero |
| Vect.NVect.SumAsWritten | src/vect.hpp:56-61 | as written: the accumulator's indeterminate start plus the sum of the elements |
| Vect.NVect.Sum | src/vect.hpp:56-61 | the sum of all N elements, starting from 0 |
| Vect.NVect.Dot | src/vect.hpp:63-65 | (v * this).sum() is the dot product Σ a[i]·b[i] |
| Vect.NVect.Less | src/vect.hpp:74-79 | true exactly when every element is strictly less |
| Vect.NVect.LessEq | src/vect.hpp:81-86 | true exactly when every element is less or equal |
| Vect.SumOfProducts | src/vect.hpp:63-65 | summing the element-wise products gives the dot product |
| Vect.DotSymmetric | src/vect.hpp:63-65 | the dot product is symmetric |
| Vect.DotScale | src/vect.hpp:49-65 | scaling one operand by c scales the dot product by c |
| Vect.DotSelfNonNegative | src/vect.hpp:63-65 | the dot product of a vector with itself is never negative |
| Vect.ScaleThenDivide | src/vect.hpp:49-72 | dividing a scaled element by the same non-zero scalar gives it back |
| Vect.LessImpliesLessEq | src/vect.hpp:74-86 | a < b implies a <= b |
| Vect.SumAsWrittenCounterexample | src/vect.hpp:57 | the written sum of {1}, with 5 left in the accumulator, is 6 instead of 1 |

## Left out

- src/units.hpp is not part of this model. Its conversion factors and their powers are floating point.
- The value side of `sqrt` and `pow` is not modelled, because `::sqrt` and `::pow` work on doubles. `Dims.Sqrt` and `Dims.Pow` take the computed value as a parameter and state only the dimension.
- The constants `eulers`, `pi` and `phi` are left out: they are floating-point literals.
- Floating point in general is left out. `quantity<Dim, double>` holds a `real`.
- `Dims.Quantity.Div` and `Dims.Quantity.DivAssign` require a non-zero divisor. IEEE infinities and NaNs are not modelled.
- The stream printers of lists, rationals, vectors and quantities are I/O and are left out.
- src/examples.cpp and src/noda.cpp are demo programs. They are not modelled; their expected values appear as lemmas.
- The template machinery (`std::is_same`, `decltype` result types `mult_type`/`div_type`, the forwarding constructor with several arguments) has no counterpart in the model. A dimension is an explicit value compared with `==`, and every value type is `real` (quantities) or `int` (vectors).
- `Dims.Quantity.Add`, `Dims.Quantity.Sub` and `Dims.Quantity.SubAsWritten` assume the result value type is the left operand's type. In the C++, the result type parameter T3 of `operator+` and `operator-` cannot be deduced from a call, so it must be given explicitly.
- `Dims.Quantity.Assign` does not model the reference that `operator=` returns. As written, `return val = rhs.val;` returns a `T`, where a `quantity&` is expected.
- A `std::ratio` whose numerator and denominator are not in lowest terms, such as `std::ratio<2,4>`, is a distinct C++ type from `std::ratio<1,2>`. The model identifies every ratio with its normal form, which is what `ratio_simplify` produces for every dimension-algebra result.
- Template integer arithmetic is not modelled with bounds. In the C++, overflow of `int` in `rational.hpp` or of `intmax_t` in `std::ratio` is a compile error; in the model, integers are unbounded.
- `int` overflow in `nvect`'s loops is not modelled.
- `Vect.NVect.Default` says nothing about the initial elements. `nvect()` leaves an `int` array indeterminate.
- `Vect.NVect.Dot`, `Vect.NVect.Less` and `Vect.NVect.LessEq` model the evident meaning. As written, `dot` applies the non-const `operator*` to a const reference, and `<` and `<=` apply the non-const `operator[]` to one. A C++ compiler rejects each of them when it is instantiated.
- The destructor `~nvect` does nothing and is not modelled.

## Findings

| source | as written | input that shows it | evidently intended | confidence | as-written member | corrected member |
|---|---|---|---|---|---|---|
| src/lists.hpp:160 | the entry call passes `list_length` of the tail, one less than the list's length | [a,b,c] gives [b,a]; [a,b] is returned unchanged; a one-element list does not compile | pass the list's own length, so that `lr_impl` reverses | high (not executed) | Lists.ListReverse, with Lists.ListReverseThree and Lists.ListReverseTwo | Lists.ListReverseFixed, with Lists.ListReverseFixedReverses |
| src/dims.hpp:146 | `operator-` returns `val+rhs.val` | 3 minus 1 of the same dimension gives 4 | `val-rhs.val` | high (not executed) | Dims.Quantity.SubAsWritten, with Dims.SubAsWrittenCounterexample | Dims.Quantity.Sub, with Dims.AddThenSub |
| src/vect.hpp:57 | `T out;` default-initialises the accumulator, which leaves an `int` or a `double` indeterminate | any vector: {1}, with 5 left in the accumulator, sums to 6 | value-initialise the accumulator to zero, since a sum starts from zero | medium (not executed) | Vect.NVect.SumAsWritten, with Vect.SumAsWrittenCounterexample | Vect.NVect.Sum, used by Vect.NVect.Dot |
