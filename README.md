# LPPolynomial: carl's multivariate integer polynomials over libpoly

This project models, in Dafny, carl's `LPPolynomial`. It is a multivariate
polynomial with integer coefficients, stored as a libpoly polynomial inside a
*context*, which is an ordering of the variables. It also models the
arithmetic helpers carl defines over CLN integers and rationals.

What is modelled:

- **Contexts** (`contexts.dfy`): a context is the variable ordering. The rank
  of a variable is its position in that ordering. A context *extends* another
  when it knows every variable of the other and keeps their relative order:
  the other's order is an order-preserving subsequence of its own. carl and libpoly variables are
  identified by one `VarId`.
- **Monomials** (`monomials.dfy`): a monomial is a coefficient and a power
  product. A power product is a list of `(variable, exponent)` pairs sorted
  by increasing rank. `Merge` multiplies two power products. `Canon` re-sorts
  one for a new ordering, which is what libpoly's `ensure_order` does.
- **Polynomials** (`polynomials.dfy`): a polynomial is a context plus its
  monomials. The model keeps them in insertion order in place of the order
  libpoly's traversal visits them. The invariant
  `Valid` says every power product is distinct, well-formed and known to the
  context, and every coefficient is nonzero. The meaning of a polynomial is
  `CoeffAt`, the coefficient it gives each power product.
  - `lp_polynomial_add`, `_sub` and `_mul` get concrete definitions.
  - Their contracts state the meaning of the result (sum, difference, product
    convolution) and that validity is kept.
  - The integer forms of `+ - *` lift the integer to a constant polynomial in
    the left operand's context, as carl does.
- **Traversals** (`traversal.dfy`): each carl member that walks the
  monomials with `lp_polynomial_traverse` is written as a function over the
  monomial list. This covers the degrees, the constant part, the variables,
  `has` and `coprime_factor`.
- **Coefficients in a variable** (`coefficients.dfy`): `coeff(var, exp)`,
  both as written and as intended.
- **Main variable and normalisation** (`normalization.dfy`): `main_var`,
  `degree()`, `coeff(k)`, `lcoeff`, `coefficients()`, `level_of`,
  `unit_part`, `coprime_coefficients`, `normalized` and `is_normal`.
- **Comparisons** (`comparisons.dfy`): `==`, `!=`, their integer forms,
  `one`, `is_one`, and the `<`, `<=`, `>`, `>=` wrappers around libpoly's
  comparison.
- **The class** (`lp_polynomial.dfy`): `LPPolynomial` is a `class` with
  fields `context` and `terms`.
  - The constructors build the monomial list by looping over their input, as
    the C++ constructors do.
  - Each traversal query is a method with a loop over the monomials, proved
    equal to the function that specifies it.
  - The compound assignments `+= -= *=` update the object in place.
  - `set_context` switches the context and re-sorts every power product when
    neither context extends the other.
- **CLN helpers** (`cln_operations.dfy`, `rationalize.dfy`): these cover
  rationals in lowest terms, `isInteger`, `toInt`, `bitsize`, `floor`,
  `ceil`, `gcd`, `lcm`, `div`, `quotient`, `remainder`, `operator/` and
  `rationalize` from a decimal string.
  - CLN's truncating division is written out explicitly, because Dafny's `/`
    and `%` are Euclidean.
  - The string reader is modelled for signed decimal numerals.

libpoly itself is not part of this model. Each libpoly call that carl makes is
given a definition in Dafny that matches what carl relies on:
`lp_polynomial_eq`, `_add`, `_sub`, `_mul`, `_degree`, `_top_variable`,
`_get_coefficient`, `_lc_sgn`, `_is_constant`, `_is_zero`, `_div` and the
monomial traversal.

Where a comment in the source and its code disagree, the model follows the
code:

- The documentation of `coprime_coefficients` (LPPolynomial.h:299-306) says
  the polynomial is *multiplied* by the coprime factor. The code divides by
  it (LPPolynomial.cpp:353-361). `Normalization.CoprimeCoefficients` divides.
- The documentation of `is_normal` (LPPolynomial.h:308-313) asks for a
  leading coefficient of one or minus one. The code tests whether the unit
  part is one (LPPolynomial.cpp:584-587). `Normalization.IsNormal` tests the
  unit part.
- The documentation of `normalized` (LPPolynomial.h:314-320) says it equals
  `coprime_coefficients()`. The code also multiplies the result by its unit
  part (LPPolynomial.cpp:504-515). `Normalization.Normalized` multiplies by
  the unit part too.

## Model

| member | source | states |
|---|---|---|
| `Contexts.Context.Rank` | src/carl-arith/poly/libpoly/LPPolynomial.h:493-498 | The rank is the first position of the variable in the ordering. It is below the ordering's length exactly when the variable is known. |
| `Contexts.Context.Lookup` | src/carl-arith/poly/libpoly/LPPolynomial.h:493-498 | The lookup succeeds exactly for known variables and returns a position holding that variable. |
| `Contexts.RankInjective` | src/carl-arith/poly/libpoly/LPPolynomial.cpp:594-605 | In a valid ordering, two known variables of equal rank are the same variable. |
| `Contexts.ExtensionTransitive` | src/carl-arith/poly/libpoly/LPPolynomial.cpp:594-605 | Extension of contexts is transitive. |
| `Monomials.CanonWellFormed` | src/carl-arith/poly/libpoly/LPPolynomial.cpp:602-604 | Re-sorting a power product for a valid ordering yields a power product that is sorted by rank and known to that ordering. |
| `Monomials.CanonExp` | src/carl-arith/poly/libpoly/LPPolynomial.cpp:602-604 | Re-sorting keeps the exponent of every variable the ordering knows. Any other variable gets exponent 0. |
| `Monomials.MergeWellFormed` | src/carl-arith/poly/libpoly/LPPolynomial.cpp:272-278 | The product of two well-formed power products is well-formed. |
| `Monomials.MergeExp` | src/carl-arith/poly/libpoly/LPPolynomial.cpp:272-278 | `Merge` multiplies power products: in the merge of two well-formed power products, every variable's exponent is the sum of its two exponents. With `PowersExtensional`, this makes the merge the unique well-formed product. |
| `Monomials.PowersExtensional` | src/carl-arith/poly/libpoly/LPPolynomial.cpp:602-604 | Two well-formed power products with the same exponent for every variable are equal. |
| `Polynomials.AddAllMeaning` | src/carl-arith/poly/libpoly/LPPolynomial.cpp:80-138 | Adding monomials one at a time into a polynomial adds their coefficients to it. |
| `Polynomials.AddAllDistinct` | src/carl-arith/poly/libpoly/LPPolynomial.cpp:80-138 | Monomials with pairwise distinct power products and nonzero coefficients, added one at a time into the zero polynomial, come out unchanged and in the same order. |
| `Polynomials.Constant` | src/carl-arith/poly/libpoly/LPPolynomial.cpp:50-62 | The constant polynomial `n` gives `n` to the empty power product and 0 to every other. |
| `Polynomials.ConstantValid` | src/carl-arith/poly/libpoly/LPPolynomial.cpp:50-62 | The constant polynomial keeps the invariant. |
| `Polynomials.Plus` | src/carl-arith/poly/libpoly/LPPolynomial.cpp:244-250 | `p + q` requires equal contexts and keeps the left context. Each coefficient is the sum of the two operands' coefficients. Validity is kept. |
| `Polynomials.Minus` | src/carl-arith/poly/libpoly/LPPolynomial.cpp:258-264 | `p - q` gives each power product the difference of the coefficients. The context and validity are kept. |
| `Polynomials.Times` | src/carl-arith/poly/libpoly/LPPolynomial.cpp:272-278 | `p * q` gives each power product the sum, over all monomial pairs whose merged powers equal it, of the products of their coefficients. By `MergeExp` the merged powers are the product of the pair's power products. The context and validity are kept. |
| `Polynomials.PlusInt` | src/carl-arith/poly/libpoly/LPPolynomial.cpp:251-253 | `p + n` adds `n` to the constant coefficient and leaves every other coefficient unchanged. |
| `Polynomials.IntPlusIsLifted` | src/carl-arith/poly/libpoly/LPPolynomial.cpp:254-256 | `IntPlus`: `n + p` means the same as adding the constant polynomial `n` to `p`. |
| `Polynomials.MinusInt` | src/carl-arith/poly/libpoly/LPPolynomial.cpp:265-267 | `p - n` subtracts `n` from the constant coefficient only. |
| `Polynomials.IntMinus` | src/carl-arith/poly/libpoly/LPPolynomial.cpp:268-270 | `n - p` is the constant `n` minus each coefficient of `p`. |
| `Polynomials.TimesIntScales` | src/carl-arith/poly/libpoly/LPPolynomial.cpp:279-284 | `TimesInt`: `p * n` is empty for `n = 0` and otherwise scales every coefficient by `n`. `IntTimes`: `n * p` equals `p * n`. |
| `Polynomials.ScaleMeaning` | src/carl-arith/poly/libpoly/LPPolynomial.cpp:279-281 | Scaling by `k` multiplies every coefficient by `k`. |
| `Polynomials.MulByConstant` | src/carl-arith/poly/libpoly/LPPolynomial.cpp:279-281 | Multiplying a valid monomial list by a nonzero constant polynomial is the same as scaling it. |
| `Traversal.TotalDegree` | src/carl-arith/poly/libpoly/LPPolynomial.cpp:363-386 | The total degree is the largest exponent sum of any monomial, and 0 for the zero polynomial. It is attained by some monomial. |
| `Traversal.DegreeOf` | src/carl-arith/poly/libpoly/LPPolynomial.cpp:388-415 | `degree(v)` is the largest exponent of `v` in any monomial, and 0 when there is none. It is attained. |
| `Traversal.MonomialTotalDegrees` | src/carl-arith/poly/libpoly/LPPolynomial.cpp:417-439 | One entry per monomial in list order (insertion order, standing in for libpoly's traversal order): that monomial's exponent sum. Its maximum is the degree (`Traversal.TotalDegreeIsMaxOfMonomials`). |
| `Traversal.TotalDegreeIsMaxOfMonomials` | src/carl-arith/poly/libpoly/LPPolynomial.cpp:417-439 | `total_degree` is the maximum of `monomial_total_degrees`: an entry of that list bounding every other entry equals the total degree. |
| `Traversal.MonomialDegrees` | src/carl-arith/poly/libpoly/LPPolynomial.cpp:441-468 | One entry per monomial in list order (insertion order, standing in for libpoly's traversal order): that monomial's exponent of `v`. Its maximum is the degree (`Traversal.DegreeIsMaxOfMonomials`). |
| `Traversal.DegreeIsMaxOfMonomials` | src/carl-arith/poly/libpoly/LPPolynomial.cpp:441-468 | `degree(v)` is the maximum of `monomial_degrees(v)`: an entry of that list bounding every other entry equals the degree in `v`. |
| `Traversal.DegreeAllVariables` | src/carl-arith/poly/libpoly/LPPolynomial.cpp:470-492 | The largest exponent of any variable in any monomial. It is attained, or it is 0. |
| `Traversal.DegreeBounds` | src/carl-arith/poly/libpoly/LPPolynomial.cpp:388-492 | `degree(v) <= degree_all_variables() <= total_degree()`. |
| `Traversal.ConstantPartMeaning` | src/carl-arith/poly/libpoly/LPPolynomial.h:206-223 | `ConstantPart`: the constant part is the coefficient of the empty power product. |
| `Traversal.VarsMember` | src/carl-arith/poly/libpoly/LPPolynomial.h:501-522 | `Vars`: a variable is collected exactly when some monomial contains it. |
| `Traversal.HasIffDegree` | src/carl-arith/poly/libpoly/LPPolynomial.cpp:163-172 | `Has`: `has(v)` holds exactly when the degree in `v` is positive. |
| `Traversal.CoprimeFactor` | src/carl-arith/poly/libpoly/LPPolynomial.cpp:325-351 | The factor divides every coefficient. With one monomial it is that coefficient, sign included. With two or more it is nonnegative. It is 0 exactly when there is no nonzero coefficient. |
| `Traversal.CoprimeFactorGreatest` | src/carl-arith/poly/libpoly/LPPolynomial.cpp:325-351 | Every common divisor of the coefficients divides the factor. |
| `Traversal.CoprimeFactorScale` | src/carl-arith/poly/libpoly/LPPolynomial.cpp:325-351 | Scaling the polynomial by `k` scales the factor's magnitude by `abs(k)`. |
| `Traversal.QuotientIsCoprime` | src/carl-arith/poly/libpoly/LPPolynomial.cpp:353-361 | Dividing a nonzero polynomial by its coprime factor leaves coefficients whose factor is 1. |
| `Traversal.DivideThenScale` | src/carl-arith/poly/libpoly/LPPolynomial.cpp:353-361 | Dividing by a common divisor and then multiplying by it gives the original monomials back. |
| `VarCoefficients.CoefficientOf` | src/carl-arith/poly/libpoly/LPPolynomial.h:382-388 | The coefficient of `v^k` as documented. Its power products are distinct and its coefficients nonzero. |
| `VarCoefficients.CoefficientOfMeaning` | src/carl-arith/poly/libpoly/LPPolynomial.h:382-388 | Take any power product in which `v` has exponent `k`. With `v` removed, its coefficient in `coeff(v, k)` is its coefficient in `p`. |
| `VarCoefficients.CoefficientOfValid` | src/carl-arith/poly/libpoly/LPPolynomial.h:382-388 | `coeff(v, k)` of a valid polynomial is valid in the same context. |
| `VarCoefficients.CoefficientOfVars` | src/carl-arith/poly/libpoly/LPPolynomial.h:382-388 | `coeff(v, k)` mentions no variable outside `p` and never `v`. |
| `VarCoefficients.CoefficientOfScale` | src/carl-arith/poly/libpoly/LPPolynomial.h:382-388 | Taking the coefficient commutes with scaling by a nonzero integer. |
| `VarCoefficients.CoeffVarExp` | src/carl-arith/poly/libpoly/LPPolynomial.cpp:517-582 | `coeff(var, exp)` as written collects the monomials holding the pair `(var, exp)` and removes that pair. The result has distinct power products and nonzero coefficients. |
| `VarCoefficients.AsWrittenAgrees` | src/carl-arith/poly/libpoly/LPPolynomial.cpp:517-582 | For a positive exponent, the code as written equals the documented coefficient. |
| `VarCoefficients.AsWrittenZeroExponent` | src/carl-arith/poly/libpoly/LPPolynomial.cpp:517-582 | For exponent 0, the code as written returns zero on every polynomial. |
| `VarCoefficients.CoeffZeroExponentExample` | src/carl-arith/poly/libpoly/LPPolynomial.cpp:517-582 | On `x^3 - x + 5`, `coeff(x, 0)` as written is 0. The documented coefficient is 5. |
| `Normalization.IsZeroMeaning` | src/carl-arith/poly/libpoly/LPPolynomial.h:442-444 | `IsZero`: a valid polynomial is zero exactly when it gives every power product the coefficient 0 (both directions). |
| `Normalization.ConstantShape` | src/carl-arith/poly/libpoly/LPPolynomial.h:450-452 | `IsConstant`: a valid polynomial is constant exactly when it is zero or a single monomial with empty power product. A nonzero constant has a nonzero constant part. `IsNumber` (LPPolynomial.h:475-477) is the same test. |
| `Normalization.MainVar` | src/carl-arith/poly/libpoly/LPPolynomial.h:241-244 | There is no main variable exactly for constants. Otherwise it is the occurring variable of largest rank. |
| `Normalization.LevelOf` | src/carl-arith/poly/libpoly/LPPolynomial.h:493-498 | 0 for numbers. Otherwise a 1-based position in the ordering that holds the main variable. |
| `Normalization.CoeffMeaning` | src/carl-arith/poly/libpoly/LPPolynomial.h:166-171 | `Coeff`: take a non-constant `p` and a power product in which the main variable has exponent `k`. With the main variable removed, its coefficient in `coeff(k)` is its coefficient in `p`. |
| `Normalization.CoeffAboveDegree` | src/carl-arith/poly/libpoly/LPPolynomial.h:179-181 | `Degree`, `Coeff`: every `coeff(k)` with `k` above `degree()` is zero. |
| `Normalization.LCoeffNonZero` | src/carl-arith/poly/libpoly/LPPolynomial.h:187-189 | `LCoeff`: the leading coefficient `coeff(degree())` of a valid non-constant polynomial is valid and nonzero. |
| `Normalization.LCoeffShrinks` | src/carl-arith/poly/libpoly/LPPolynomial.h:187-189 | The leading coefficient has fewer variables than the polynomial. |
| `Normalization.CoefficientsEndWithLeading` | src/carl-arith/poly/libpoly/LPPolynomial.h:192-200 | `Coefficients`: for a valid nonzero polynomial, `coefficients()` is nonempty and ends with `lcoeff()`. |
| `Normalization.LcSgnUnit` | src/carl-arith/poly/libpoly/LPPolynomial.cpp:494-502 | `LcSgn`: the sign of the leading coefficient of a valid nonzero polynomial is 1 or -1. |
| `Normalization.LcSgnScale` | src/carl-arith/poly/libpoly/LPPolynomial.cpp:494-502 | Scaling by a nonzero `n` multiplies that sign by `sign(n)`. |
| `Normalization.UnitPartIsUnit` | src/carl-arith/poly/libpoly/LPPolynomial.cpp:494-502 | `UnitPart`: the unit part is 1 on zero and otherwise the sign of the leading coefficient, so it is 1 or -1. |
| `Normalization.CoprimeCoefficientsAsWritten` | src/carl-arith/poly/libpoly/LPPolynomial.cpp:353-361 | As written, the division has no result exactly when the coprime factor is 0. |
| `Normalization.CoprimeCoefficientsOfZero` | src/carl-arith/poly/libpoly/LPPolynomial.cpp:353-361 | On the zero polynomial the code as written divides by 0. The corrected version returns zero. |
| `Normalization.CoprimeCoefficients` | src/carl-arith/poly/libpoly/LPPolynomial.cpp:353-361 | Same context and power products. Multiplying the result by the coprime factor gives the polynomial back. |
| `Normalization.CoprimeCoefficientsAgree` | src/carl-arith/poly/libpoly/LPPolynomial.cpp:353-361 | On every nonzero polynomial the corrected version equals the code as written. |
| `Normalization.CoprimeCoefficientsValid` | src/carl-arith/poly/libpoly/LPPolynomial.cpp:353-361 | The result is valid. For a nonzero polynomial its coefficients have coprime factor 1. |
| `Normalization.NormalizedAsWritten` | src/carl-arith/poly/libpoly/LPPolynomial.cpp:504-515 | As written, `normalized()` multiplies the result of `coprime_coefficients()` as written, so it has no result exactly when the coprime factor is 0. |
| `Normalization.NormalizedOfZero` | src/carl-arith/poly/libpoly/LPPolynomial.cpp:504-515 | On the zero polynomial, `normalized()` as written inherits the division by 0. The corrected version returns zero. |
| `Normalization.NormalizedAgrees` | src/carl-arith/poly/libpoly/LPPolynomial.cpp:504-515 | On every nonzero polynomial, the corrected `normalized()` equals the code as written. |
| `Normalization.NormalizedTerms` | src/carl-arith/poly/libpoly/LPPolynomial.cpp:504-515 | `Normalized`: `normalized()` is `coprime_coefficients()` multiplied by its own unit part. |
| `Normalization.NormalizedIsNormal` | src/carl-arith/poly/libpoly/LPPolynomial.cpp:504-515 | `IsNormal` (LPPolynomial.cpp:584-587): `normalized()` of a valid polynomial is valid and `is_normal`, that is, its unit part is 1. |
| `Normalization.NormalizedContent` | src/carl-arith/poly/libpoly/LPPolynomial.cpp:504-515 | Multiplying `normalized()` by the unit part times the coprime factor gives the polynomial back. |
| `Normalization.NormalizedIdempotent` | src/carl-arith/poly/libpoly/LPPolynomial.cpp:504-515 | Normalising twice is normalising once. |
| `Comparisons.EqMeaning` | src/carl-arith/poly/libpoly/LPPolynomial.cpp:174-176 | `Eq`: two valid polynomials are `==` exactly when they give every power product the same coefficient (both directions). |
| `Comparisons.NeqMeaning` | src/carl-arith/poly/libpoly/LPPolynomial.cpp:187-189 | `Neq`: two valid polynomials are `!=` exactly when some power product gets different coefficients (both directions). |
| `Comparisons.EqIntSemantics` | src/carl-arith/poly/libpoly/LPPolynomial.cpp:177-182 | `EqInt`: `p == n` holds exactly when `p` is the constant `n` (both directions). |
| `Comparisons.EqIntMeaning` | src/carl-arith/poly/libpoly/LPPolynomial.cpp:177-185 | `p == n` agrees with `p == ` the constant polynomial `n`. `IntEq`: `n == p` agrees with `p == n`. |
| `Comparisons.NeqIntMeaning` | src/carl-arith/poly/libpoly/LPPolynomial.cpp:190-195 | `NeqInt`: `p != n` holds exactly when `p` is not the constant `n` (both directions). `IntNeq`: `n != p` is the same test. |
| `Comparisons.One` | src/carl-arith/poly/libpoly/LPPolynomial.h:151-153 | `one()` has the same context and is the constant 1. |
| `Comparisons.IsOneIffEqInt` | src/carl-arith/poly/libpoly/LPPolynomial.h:458-469 | `IsOne`: `is_one(p)` holds exactly when `p == 1`. |
| `Comparisons.IntFormsLift` | src/carl-arith/poly/libpoly/LPPolynomial.cpp:197-242 | `LessInt`, `LessEqInt`, `GreaterInt`, `GreaterEqInt`: `p < n` and the other polynomial-first integer forms compare `p` with the constant polynomial `n` in the context of `p`, using `Less`, `LessEq`, `Greater` and `GreaterEq` on polynomials. |
| `Comparisons.FlippedFormsAgree` | src/carl-arith/poly/libpoly/LPPolynomial.cpp:197-242 | `IntLess`, `IntLessEq`, `IntGreater`, `IntGreaterEq`: for an antisymmetric comparison, each integer-first comparison, answered by flipping `cmp_util`, agrees with comparing the lifted constant on the left. |
| `LPPolynomials.VarPower` | src/carl-arith/poly/libpoly/LPPolynomial.cpp:66-71 | `v^e` is the empty power product exactly when `e = 0`. It has exponent `e` in `v`. |
| `LPPolynomials.ListMonomialsMeaning` | src/carl-arith/poly/libpoly/LPPolynomial.cpp:80-138 | Entry `i` of a list of `n` coefficients (highest power first) is the coefficient of `v^(n-1-i)`. Every other power product gets 0. |
| `LPPolynomials.ListEntryMeaning` | src/carl-arith/poly/libpoly/LPPolynomial.cpp:80-138 | The built polynomial gives `v^(|cs|-1-i)` the coefficient `cs[i]`. |
| `LPPolynomials.ListOtherMeaning` | src/carl-arith/poly/libpoly/LPPolynomial.cpp:80-138 | The built polynomial gives 0 to every power product that is not a power of `v` below `|cs|`. |
| `LPPolynomials.ListExample` | src/carl-arith/poly/libpoly/LPPolynomial.cpp:80-138 | The list `[1, 0, -1, 5]` in `x` builds `x^3 - x + 5`. |
| `LPPolynomials.MapEntryMeaning` | src/carl-arith/poly/libpoly/LPPolynomial.cpp:140-156 | The entry `(e, a)` of the map becomes the coefficient `a` of `v^e`. |
| `LPPolynomials.MapOtherMeaning` | src/carl-arith/poly/libpoly/LPPolynomial.cpp:140-156 | Every power product that is not `v^e` for a key `e` gets 0. |
| `LPPolynomials.BuiltValid` | src/carl-arith/poly/libpoly/LPPolynomial.cpp:80-156 | Adding well-formed monomials into the zero polynomial of a valid context gives a valid polynomial. |
| `LPPolynomials.SumOfExponents` | src/carl-arith/poly/libpoly/LPPolynomial.cpp:363-386 | The inner loop of the `total_degree` traversal returns the exponent sum of the monomial. |
| `LPPolynomials.ExponentOf` | src/carl-arith/poly/libpoly/LPPolynomial.cpp:388-415 | The inner loop of the `degree(v)` traversal returns the exponent of `v`, or 0. |
| `LPPolynomials.FindPair` | src/carl-arith/poly/libpoly/LPPolynomial.cpp:517-582 | The search of the `coeff(var, exp)` traversal finds the pair exactly when the monomial holds it. |
| `LPPolynomials.CopyWithout` | src/carl-arith/poly/libpoly/LPPolynomial.cpp:517-582 | The copy loop of `coeff(var, exp)` leaves out exactly the matching pair. |
| `LPPolynomials.AddVariables` | src/carl-arith/poly/libpoly/LPPolynomial.h:501-522 | The inner loop of `variables` adds exactly the monomial's variables. |
| `LPPolynomials.Reorder` | src/carl-arith/poly/libpoly/LPPolynomial.cpp:602-604 | `ensure_order` keeps each monomial's coefficient. For a valid ordering, every power product comes out well-formed for it, and every variable the ordering knows keeps its exponent. |
| `LPPolynomials.RelabelValid` | src/carl-arith/poly/libpoly/LPPolynomial.cpp:598-601 | When one context extends the other, switching the context without reordering keeps the polynomial valid. |
| `LPPolynomials.ReorderKeepsExponents` | src/carl-arith/poly/libpoly/LPPolynomial.cpp:602-604 | Reordering keeps every monomial's coefficient and every variable's exponent. |
| `LPPolynomials.ReorderValid` | src/carl-arith/poly/libpoly/LPPolynomial.cpp:602-604 | Reordering for any valid context that knows the variables gives a valid polynomial. |
| `LPPolynomials.ReorderExample` | src/carl-arith/poly/libpoly/LPPolynomial.cpp:602-604 | With the ordering `[1, 0]`, the product `x0 * x1^2` is stored as `x1^2 * x0`. |
| `LPPolynomials.DegreeAllVariablesUnique` | src/carl-arith/poly/libpoly/LPPolynomial.cpp:470-492 | Any bound on all exponents that is attained (or is 0) equals `degree_all_variables()`. |
| `LPPolynomials.LPPolynomial.Zero` | src/carl-arith/poly/libpoly/LPPolynomial.cpp:37-41 | The zero polynomial in the given context, valid. |
| `LPPolynomials.LPPolynomial.FromInteger` | src/carl-arith/poly/libpoly/LPPolynomial.cpp:50-62 | The constant polynomial of the integer, valid. |
| `LPPolynomials.LPPolynomial.FromRational` | src/carl-arith/poly/libpoly/LPPolynomial.cpp:64 | The constant polynomial of the rational's numerator. The denominator is dropped. |
| `LPPolynomials.LPPolynomial.FromVarPower` | src/carl-arith/poly/libpoly/LPPolynomial.cpp:66-71 | `coeff * v^degree`, added into the zero polynomial, valid. |
| `LPPolynomials.LPPolynomial.FromVariable` | src/carl-arith/poly/libpoly/LPPolynomial.cpp:73-78 | The single monomial `1 * v^1`, valid. |
| `LPPolynomials.LPPolynomial.FromCoefficients` | src/carl-arith/poly/libpoly/LPPolynomial.cpp:80-138 | The loop over the coefficient list builds exactly the list polynomial, and the result is valid. |
| `LPPolynomials.LPPolynomial.FromCoefficientMap` | src/carl-arith/poly/libpoly/LPPolynomial.cpp:140-156 | The loop over the exponent-to-coefficient map builds exactly the map polynomial, and the result is valid. |
| `LPPolynomials.LPPolynomial.TotalDegree` | src/carl-arith/poly/libpoly/LPPolynomial.cpp:363-386 | The traversal loop computes the total degree. |
| `LPPolynomials.LPPolynomial.Degree` | src/carl-arith/poly/libpoly/LPPolynomial.cpp:388-415 | The traversal loop computes the degree in `v`. |
| `LPPolynomials.LPPolynomial.MonomialTotalDegrees` | src/carl-arith/poly/libpoly/LPPolynomial.cpp:417-439 | The traversal loop computes the per-monomial total degrees. |
| `LPPolynomials.LPPolynomial.MonomialDegrees` | src/carl-arith/poly/libpoly/LPPolynomial.cpp:441-468 | The traversal loop computes the per-monomial degrees in `v`. |
| `LPPolynomials.LPPolynomial.DegreeAllVariables` | src/carl-arith/poly/libpoly/LPPolynomial.cpp:470-492 | The traversal loop computes the largest exponent overall. |
| `LPPolynomials.LPPolynomial.ConstantPart` | src/carl-arith/poly/libpoly/LPPolynomial.h:206-223 | The traversal loop computes the coefficient of the empty power product. |
| `LPPolynomials.LPPolynomial.CoprimeFactor` | src/carl-arith/poly/libpoly/LPPolynomial.cpp:325-351 | Collecting the coefficients and folding `gcd` from the first one gives the coprime factor. |
| `LPPolynomials.LPPolynomial.CoeffVarExp` | src/carl-arith/poly/libpoly/LPPolynomial.cpp:517-582 | The collect-then-add loops compute `coeff(var, exp)` as written, in the polynomial's context. |
| `LPPolynomials.LPPolynomial.Coefficients` | src/carl-arith/poly/libpoly/LPPolynomial.h:192-200 | The loop from 0 to the degree, which skips zero coefficients, computes `coefficients()`. |
| `LPPolynomials.LPPolynomial.Variables` | src/carl-arith/poly/libpoly/LPPolynomial.h:501-522 | The traversal adds exactly the polynomial's variables to the given set. |
| `LPPolynomials.LPPolynomial.AddAssign` | src/carl-arith/poly/libpoly/LPPolynomial.cpp:286-291 | The new value is the old value plus `rhs`. Validity is kept. |
| `LPPolynomials.LPPolynomial.AddAssignInt` | src/carl-arith/poly/libpoly/LPPolynomial.cpp:292-297 | The new value is the old value plus the constant `n`. Validity is kept. |
| `LPPolynomials.LPPolynomial.SubAssign` | src/carl-arith/poly/libpoly/LPPolynomial.cpp:299-304 | The new value is the old value minus `rhs`. Validity is kept. |
| `LPPolynomials.LPPolynomial.SubAssignInt` | src/carl-arith/poly/libpoly/LPPolynomial.cpp:305-310 | The new value is the old value minus the constant `n`. Validity is kept. |
| `LPPolynomials.LPPolynomial.MulAssign` | src/carl-arith/poly/libpoly/LPPolynomial.cpp:312-317 | The new value is the old value times `rhs`. Validity is kept. |
| `LPPolynomials.LPPolynomial.MulAssignInt` | src/carl-arith/poly/libpoly/LPPolynomial.cpp:318-323 | The new value is the old value times the constant `n`. Validity is kept. |
| `LPPolynomials.LPPolynomial.SetContext` | src/carl-arith/poly/libpoly/LPPolynomial.cpp:594-605 | The context becomes `c`. The monomials are untouched when `c` is the old context or one extends the other. Otherwise they are reordered. Validity is kept. |
| `ClnOperations.FromInt` | src/carl/numbers/adaption_cln/operations.h:139-143 | An integer as a rational is in lowest terms with denominator 1. |
| `ClnOperations.MakeRational` | src/carl/numbers/adaption_cln/operations.h:450-452 | `n/d` in lowest terms with a positive denominator and the same value. |
| `ClnOperations.Add` | src/carl/numbers/adaption_cln/operations.h:553-557 | The sum of two rationals is in lowest terms, and its value is `a.num/a.den + b.num/b.den`. |
| `ClnOperations.CanonicalUnique` | src/carl/numbers/adaption_cln/operations.h:450-452 | Two rationals in lowest terms with the same value are equal. |
| `ClnOperations.IsIntegerMeansIntegral` | src/carl/numbers/adaption_cln/operations.h:54-56 | `IsInteger`: a rational in lowest terms is an integer exactly when its denominator divides its numerator. |
| `ClnOperations.ToInt` | src/carl/numbers/adaption_cln/operations.h:139-143 | Converting an integral rational and converting back gives it back. |
| `ClnOperations.IntegerBitSize` | src/carl/numbers/adaption_cln/operations.h:63-65 | `integer_length` is the least `b` with `-2^b <= n < 2^b`. |
| `ClnOperations.BitSize` | src/carl/numbers/adaption_cln/operations.h:71-73 | A rational's bit size is `integer_length` of the numerator plus `integer_length` of the denominator. So it is at least one more than the numerator's length, and both the numerator and the denominator fit in that many bits. |
| `ClnOperations.BitSizeOfInteger` | src/carl/numbers/adaption_cln/operations.h:63-73 | On an integer, the rational bit size is the integer bit size plus 1. |
| `ClnOperations.PowAdd` | src/carl/numbers/adaption_cln/operations.h:557 | `Pow`, the integer power used for `10^len` and `2^len`: exponents add, `base^(j+k) == base^j * base^k`. |
| `ClnOperations.FloorRational` | src/carl/numbers/adaption_cln/operations.h:241-243 | The floor is the integer `f` with `f <= r < f + 1`. |
| `ClnOperations.CeilRational` | src/carl/numbers/adaption_cln/operations.h:259-261 | The ceiling is the integer `c` with `c - 1 < r <= c`. |
| `ClnOperations.FloorInt` | src/carl/numbers/adaption_cln/operations.h:250-252 | The floor of an integer `n` is the integer `r` with `r <= n < r + 1`. |
| `ClnOperations.CeilInt` | src/carl/numbers/adaption_cln/operations.h:268-270 | The ceiling of an integer `n` is the integer `r` with `r - 1 < n <= r`. |
| `ClnOperations.FloorCeilOfInteger` | src/carl/numbers/adaption_cln/operations.h:241-270 | On integers the rational floor and ceiling agree with the integer ones. |
| `ClnOperations.GcdAssign` | src/carl/numbers/adaption_cln/operations.h:289-292 | `gcd_assign` stores the greatest common divisor. |
| `ClnOperations.RationalGcd` | src/carl/numbers/adaption_cln/operations.h:316-320 | For integral rationals: a nonnegative integral common divisor of both numerators that every common divisor divides. |
| `ClnOperations.RationalGcdAssign` | src/carl/numbers/adaption_cln/operations.h:302-307 | `gcd_assign` on integral rationals stores their gcd. |
| `ClnOperations.Lcm` | src/carl/numbers/adaption_cln/operations.h:328-330 | A common multiple whose product with the gcd is `abs(a*b)`. |
| `ClnOperations.RationalLcm` | src/carl/numbers/adaption_cln/operations.h:339-343 | For integral rationals: an integral common multiple of the numerators with that same product law. |
| `ClnOperations.Remainder` | src/carl/numbers/adaption_cln/operations.h:521-523 | Truncated remainder: smaller than the divisor in magnitude, and zero or of the dividend's sign. The divisor divides the dividend minus it. |
| `ClnOperations.Quotient` | src/carl/numbers/adaption_cln/operations.h:509-512 | `quotient * b + remainder == a`. |
| `ClnOperations.TruncatedDivisionUnique` | src/carl/numbers/adaption_cln/operations.h:509-523 | Any pair satisfying the truncated-division laws is the quotient and remainder. |
| `ClnOperations.TruncatingDivide` | src/carl/numbers/adaption_cln/operations.h:533-536 | `operator/` on integers truncates: `q * b + rem == a` and `abs(q*b) <= abs(a)`. |
| `ClnOperations.RationalDiv` | src/carl/numbers/adaption_cln/operations.h:450-452 | Rational division gives a result in lowest terms that, multiplied by the divisor, equals the dividend. |
| `ClnOperations.RationalDivAssign` | src/carl/numbers/adaption_cln/operations.h:473-476 | `div_assign` on rationals stores the quotient. |
| `ClnOperations.Div` | src/carl/numbers/adaption_cln/operations.h:461-464 | Exact division requires the divisor to divide the dividend. The result times the divisor is the dividend. |
| `ClnOperations.DivAssign` | src/carl/numbers/adaption_cln/operations.h:486-490 | `div_assign` on integers stores the exact quotient. |
| `ClnOperations.DivIsQuotient` | src/carl/numbers/adaption_cln/operations.h:461-512 | When the division is exact, `div` equals `quotient` and the remainder is 0. |
| `Rationalize.SplitDots` | src/carl/numbers/adaption_cln/operations.h:541-560 | Splitting at `.` gives one more part than there are dots, each without a dot. |
| `Rationalize.SplitThenJoin` | src/carl/numbers/adaption_cln/operations.h:541-560 | Joining the parts with `.` gives the string back. |
| `Rationalize.JoinThenSplit` | src/carl/numbers/adaption_cln/operations.h:541-560 | Splitting a join of dot-free parts gives the parts back. |
| `Rationalize.ParsePrintRoundTrip` | src/carl/numbers/adaption_cln/operations.h:541-560 | `ParseInteger`: reading the decimal numeral of any integer gives it back. |
| `Rationalize.ParseInteger` | src/carl/numbers/adaption_cln/operations.h:553-557 | A successful read needs a nonempty string. On a string of digits it gives the value of those digits. |
| `Rationalize.Rationalize` | src/carl/numbers/adaption_cln/operations.h:541-560 | As written, the result is an invalid-argument error exactly when the string has more than one dot. A successful result is in lowest terms. |
| `Rationalize.Combine` | src/carl/numbers/adaption_cln/operations.h:541-560 | The sum of a whole part and `frac / 10^k`, in lowest terms. |
| `Rationalize.RationalizeValue` | src/carl/numbers/adaption_cln/operations.h:541-560 | As written, `w.f` gives `whole(w)` plus `int(f) / 10^len(f)`, where the fraction is read with its own sign. `WholePart` reads an empty whole part as 0. |
| `Rationalize.RationalizeNegativeExample` | src/carl/numbers/adaption_cln/operations.h:541-560 | As written, `"-1.5"` gives `-1/2`. |
| `Rationalize.RationalizeDecimal` | src/carl/numbers/adaption_cln/operations.h:541-560 | Corrected: the same error cases, and a result in lowest terms. |
| `Rationalize.RationalizeDecimalValue` | src/carl/numbers/adaption_cln/operations.h:541-560 | Corrected: an optionally signed decimal `[-]w.f` gives the signed value of the digits `wf` over `10^len(f)`. |
| `Rationalize.RationalizeDecimalNegativeExample` | src/carl/numbers/adaption_cln/operations.h:541-560 | Corrected: `"-1.5"` gives `-3/2`. |
| `Rationalize.RationalizeAgreesWhenNonNegative` | src/carl/numbers/adaption_cln/operations.h:541-560 | Without a leading minus sign, the corrected reader equals the code as written. |

## Left out

- Ownership is not modelled: the copy and move constructors, assignments, the destructor and libpoly's reference handling. The model has values and one class, so there is no aliasing of libpoly handles and no claim of freedom from leaks.
- Printing (`operator<<`, `lp_polynomial_to_string`) and hashing are left out. They are output formatting only.
- `negate_variable` and `main_denom` are left out. They are stubs in the source. `divides` and `mod` on polynomials are declared but not defined there.
- `truncate` (LPPolynomial.h:228-235) is not modelled. Neither are `single_variable`, `is_linear` and `is_univariate`, which only forward to libpoly predicates whose semantics this model does not define.
- libpoly's own monomial order inside a polynomial is not modelled. Terms are kept in insertion order, and equality compares sets of monomials.
- The total order of `lp_polynomial_cmp` is a parameter. Only the wrappers around it are modelled.
- LPContext.h is not part of this model. A context is modelled as a list of distinct variables. carl's and libpoly's variable identifiers are one `VarId`.
- LPPolynomials.LPPolynomial.Degree: `degree(v)` on a variable unknown to the context is modelled as 0. libpoly's behaviour on an unknown variable is not modelled.
- LPPolynomials.LPPolynomial.SetContext: the C++ asserts that the new context knows every variable. That is a precondition here, not a checked failure.
- LPPolynomials.LPPolynomial.AddAssign: the C++ asserts equal contexts. This, and the same check in `SubAssign`, `MulAssign`, `Plus`, `Minus` and `Times`, is a precondition here.
- Polynomials.Times: the product's meaning is stated as a convolution over monomial pairs, whose merged power products `Monomials.MergeExp` shows to be their products. It is not stated as multiplication of polynomial functions.
- ClnOperations.RationalDiv: division by zero is a precondition here. CLN signals a division-by-zero error instead, and that error path is not modelled.
- ClnOperations.RationalDivAssign: division by zero is a precondition here, not CLN's division-by-zero error.
- ClnOperations.Remainder: a zero divisor is a precondition here, not CLN's division-by-zero error.
- ClnOperations.Quotient: a zero divisor is a precondition here, not CLN's division-by-zero error.
- ClnOperations.TruncatingDivide: a zero divisor is a precondition here, not CLN's division-by-zero error.
- ClnOperations.Div: a zero divisor is a precondition here, not CLN's division-by-zero error. The divisibility the C++ asserts is a precondition too.
- ClnOperations.DivAssign: a zero divisor is a precondition here, not CLN's division-by-zero error.
- `mod` on CLN integers (operations.h:440-442) computes the same truncated remainder as `remainder` and is covered by `ClnOperations.Remainder`.
- The floating-point conversions, `pow`, `sqrt`, `sqrt_safe`, `log`, `abs` over floats and every CLN function not listed in the table are left out. They lie outside the modelled helpers or need floating point.
- Rationalize.Rationalize: the CLN reader for the parts is modelled only for optionally signed decimal digit strings. Any other text makes a part fail to read, which is reported as an error rather than as a CLN exception.
- Rationalize.RationalizeValue: the value is stated for strings with exactly one dot. Strings without a dot are read as integers.

## Findings

| source | as written | input that shows it | evidently intended | confidence | as-written member | corrected member |
|---|---|---|---|---|---|---|
| src/carl/numbers/adaption_cln/operations.h:541-560 | the fractional part is added to the whole part with a positive sign, even when the whole part is negative | `"-1.5"` gives `-1 + 5/10 = -1/2` | `-3/2`: the fraction takes the sign of the numeral | not executed | `Rationalize.RationalizeNegativeExample` | `Rationalize.RationalizeDecimalValue` |
| src/carl-arith/poly/libpoly/LPPolynomial.cpp:517-582 | the traversal looks for the pair `(var, exp)` in each monomial, but no monomial stores a zero exponent, so `coeff(var, 0)` finds nothing | `coeff(x, 0)` of `x^3 - x + 5` is 0 | the documented coefficient of `x^0`, which is 5 | not executed | `VarCoefficients.AsWrittenZeroExponent` | `VarCoefficients.CoefficientOfMeaning` |
| src/carl-arith/poly/libpoly/LPPolynomial.cpp:353-361 | the coprime factor of the zero polynomial is 0, and the code divides by the constant polynomial 0. `normalized()` (LPPolynomial.cpp:504-515) calls `coprime_coefficients()` and takes the same path | `coprime_coefficients()` or `normalized()` of the zero polynomial | the zero polynomial | not executed | `Normalization.CoprimeCoefficientsOfZero`, `Normalization.NormalizedOfZero` | `Normalization.CoprimeCoefficientsValid`, `Normalization.NormalizedIsNormal` |
