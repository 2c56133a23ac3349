# Ordinals, relations, functions, rationals and multisets in Dafny

This project models the finite-mathematics library in `src/main/kotlin` and proves properties of the model.

The main part is the transfinite-ordinal engine of `Ordinal.kt`. It covers ordinals below epsilon-zero in Cantor normal form:
- An `Ord` is a list of `Term(exp, coef)` standing for the sum of omega^exp * coef.
- Each exponent is itself an `Ord`, and the exponents strictly descend.

The model covers:
- the constructor checks;
- the normaliser `fromTerms`;
- the comparator;
- `plus`, `minus`, `times`, `div`, `rem` and `pow`;
- the overflow-checked `Int.pow`.

The four smaller files are modelled as well:
- `Relation.kt`: finite binary relations and endorelations. It has composition, powers, the Warshall transitive closure, the property predicates, equivalence classes and the quotient set.
- `MappableFunction.kt`: finite functions held as tables. It has invocation, composition, the injective/surjective/bijective tests, the inverse, the graph, the identity and the enumeration of every function between two sets.
- `Rational.kt`: rationals normalised by the gcd, with the four operations, negation, comparison and the conversions.
- `Multiset.kt`: a multiset kept as a count map that its methods update in place.

## How the model is organised

- `outcome.dfy` (`Outcome`): `Result`, `Option` and the integer magnitude `Abs`.
  - Every `require(...)` of the Kotlin code becomes an `Err` path with a named error, not a Dafny precondition.
  - Dafny preconditions are kept for what the Kotlin types already guarantee. An example is that every `Ordinal` is in canonical form (`WF`).
    - The constructor check alone does not give this: it tests only that the exponents descend (`NewOrdinal`).
    - It holds because the constructor is private (src/main/kotlin/Ordinal.kt:26). Every way to obtain an `Ordinal` yields a canonical list:
      - the constants ZERO, ONE and OMEGA;
      - `fromInt`;
      - `fromTerms`, which drops the terms whose coefficient is not positive;
      - the operators, each proved to return a `WF` result.
- `ordinal_terms.dfy` (`OrdinalTerms`):
  - `Term` and `Ord`, and the checks of the `Term` and `Ordinal` constructors.
  - The comparator, as the function `Cmp` and as the method `CompareTo` that runs the Kotlin loop.
  - The coefficient view `CoefOf`: the coefficient of omega^e in a term list.
  - Canonical lists are determined by their coefficient view (`CanonicalUnique`).
- `ordinal_normal_form.dfy` (`OrdinalNormalForm`): `fromTerms` as group, filter and sort.
- `ordinal_arithmetic.dfy` (`OrdinalArithmetic`): `fromInt`, `plus`, `minus` and `times`. Each is specified through the coefficient view of its result.
- `ordinal_division.dfy` (`OrdinalDivision`): `div` and `rem`.
  - It reads the order of two ordinals off their coefficients (`CoefsDecide`, `LessWitness`).
  - From that it proves plus strictly monotone in its right operand.
  - It proves b * (a / b) <= a < b * (a / b) + b (`DivisionBounds`), so the subtraction inside `rem` never fails and the remainder lies below the divisor.
- `ordinal_power.dfy` (`OrdinalPower`): `Int.pow`, and `Ordinal.pow` with its multiplication loop. For a natural exponent k, pow is the product of k copies of the base and obeys the successor law pow(a, k + 1) == pow(a, k) * a, whenever it succeeds. Only a finite base can overflow: for example, pow(2, 31) fails with `ArithmeticOverflow`, because 2^31 exceeds Int.MAX_VALUE.
- `relations.dfy` (`Relations`):
  - `BinaryRelation` and `Endorelation` as datatypes over sets of pairs.
  - The closure and the quotient set as methods with loops, proved against reachability and against the set of equivalence classes.
  - The property predicates, each shown equivalent to a statement about the identity, the converse and the composite of the relation.
- `relations_as_written.dfy` (`RelationsAsWritten`): `getQuotientSet` as written over a nullable element type (`QuotientAsWritten`), with the input on which it splits a class.
- `mappings.dfy` (`Mappings`): `MappableFunction` as a datatype holding a `map`.
- `rational.dfy` (`Rationals`):
  - Kotlin's truncating `/` and `%` (`Quot`, `Rem`) and the gcd, with Bezout's identity.
  - The `Rational` datatype, whose constructor `New` normalises.
- `multiset.dfy` (`Multisets`): the class `MutableMultiset` with its count map as a field.
  - The ghost `Bag` reads the map as a Dafny `multiset`.
  - The pure functions `Raised` and `Lowered` give the map `add` and `remove` leave.

## Model

| member | source | states |
|---|---|---|
| OrdinalTerms.NewTerm | src/main/kotlin/Ordinal.kt:30-33 | a term is built exactly when the coefficient is non-negative, otherwise `InvalidTerm` |
| OrdinalTerms.NewOrdinal | src/main/kotlin/Ordinal.kt:50-58 | the constructor accepts a term list exactly when its exponents strictly descend, keeps the list as given, and otherwise fails with `MalformedOrdinal` |
| OrdinalTerms.ConstantsWellFormed | src/main/kotlin/Ordinal.kt:61-65 | ZERO, ONE and OMEGA are well formed and 0 < 1 < omega |
| OrdinalTerms.Cmp | src/main/kotlin/Ordinal.kt:89-105 | the comparator yields -1, 0 or 1; `CmpZero`, `CmpAntisymmetric` and `CmpTransitive` state that it is a total order that agrees with equals |
| OrdinalTerms.ZeroIsLeast | src/main/kotlin/Ordinal.kt:87-95 | ZERO, the ordinal with no terms, is at most every ordinal and equal only to itself |
| OrdinalTerms.CompareTo | src/main/kotlin/Ordinal.kt:89-105 | the loop returns the comparator's value: 0 exactly when the two ordinals are equal, negative exactly when the first is smaller, positive exactly when it is larger |
| OrdinalTerms.CmpZero | src/main/kotlin/Ordinal.kt:89-115 | compareTo returns 0 exactly when the term lists are equal, so it agrees with equals |
| OrdinalTerms.CmpAntisymmetric | src/main/kotlin/Ordinal.kt:89-105 | swapping the operands negates the comparison |
| OrdinalTerms.CmpTransitive | src/main/kotlin/Ordinal.kt:89-105 | the comparison is transitive, so it is a total order on ordinals |
| OrdinalTerms.CmpOrder | src/main/kotlin/Ordinal.kt:89-105 | mixed strict and non-strict steps chain as in a total order |
| OrdinalTerms.PrefixIsSmaller | src/main/kotlin/Ordinal.kt:94-95 | an ordinal whose term list is a proper prefix of another's is smaller |
| OrdinalTerms.CmpAfterPrefix | src/main/kotlin/Ordinal.kt:90-104 | after a common prefix, the comparison is decided from the first differing position on |
| OrdinalTerms.CanonicalUnique | src/main/kotlin/Ordinal.kt:76-84 | two canonical term lists with the same coefficient at every exponent are equal |
| OrdinalNormalForm.GroupSpec | src/main/kotlin/Ordinal.kt:79-80 | grouping by exponent keeps each exponent's summed coefficient and leaves every exponent once |
| OrdinalNormalForm.SortSpec | src/main/kotlin/Ordinal.kt:81 | sorting keeps the coefficients; on distinct exponents with positive coefficients it yields strictly descending exponents |
| OrdinalNormalForm.FromTerms | src/main/kotlin/Ordinal.kt:76-84 | the result is canonical, and has the summed coefficient of each exponent of the input. It is well formed when the input's exponents are, so zero coefficients are gone and equal exponents are merged |
| OrdinalNormalForm.FromTermsOfCanonical | src/main/kotlin/Ordinal.kt:76-84 | an already canonical list comes back unchanged |
| OrdinalNormalForm.FromTermsIdempotent | src/main/kotlin/Ordinal.kt:76-84 | normalising twice is normalising once |
| OrdinalNormalForm.FromTermsOfSameCoefs | src/main/kotlin/Ordinal.kt:76-84 | lists that agree on every exponent's total coefficient normalise to the same ordinal, whatever their order |
| OrdinalArithmetic.FromInt | src/main/kotlin/Ordinal.kt:67-70 | a negative number is rejected. Otherwise the result is well formed, with coefficient n at exponent 0 and nothing elsewhere |
| OrdinalArithmetic.Plus | src/main/kotlin/Ordinal.kt:121-126 | ZERO is a left and right identity. Otherwise the sum has b's coefficients below b's leading exponent and a's plus b's at and above it, so the lower terms of a are absorbed |
| OrdinalArithmetic.PlusFinite | src/main/kotlin/Ordinal.kt:121-126 | on finite ordinals plus is integer addition |
| OrdinalArithmetic.PlusAbsorbs | src/main/kotlin/Ordinal.kt:121-126 | n + omega == omega for every natural n |
| OrdinalArithmetic.OmegaPlusOmega | src/main/kotlin/Ordinal.kt:121-126 | omega + omega == omega * 2 as a single term |
| OrdinalArithmetic.CommonLength | src/main/kotlin/Ordinal.kt:138 | the length of the longest common prefix: the lists agree up to it and differ right after it |
| OrdinalArithmetic.SubShape | src/main/kotlin/Ordinal.kt:133-146 | when a > b the lists part inside a. There a's exponent is larger, or the exponents agree and a's coefficient is larger, so the difference built at line 146 is positive |
| OrdinalArithmetic.Minus | src/main/kotlin/Ordinal.kt:133-149 | it fails exactly when a < b. Otherwise the result is well formed and b + (a - b) == a. Also a - a == ZERO and a - ZERO == a |
| OrdinalArithmetic.PlusSubInverse | src/main/kotlin/Ordinal.kt:133-149 | left subtraction undoes left addition: b + (a - b) == a for a >= b |
| OrdinalArithmetic.Times | src/main/kotlin/Ordinal.kt:156-172 | the product is well formed, and ZERO on either side gives ZERO |
| OrdinalArithmetic.TimesByFinite | src/main/kotlin/Ordinal.kt:156-172 | times a finite n > 0 keeps a's leading exponent, multiplies its coefficient by n and leaves a's other terms unchanged |
| OrdinalArithmetic.TimesOneLeft | src/main/kotlin/Ordinal.kt:156-172 | ONE is a left identity of times |
| OrdinalArithmetic.TimesOneRight | src/main/kotlin/Ordinal.kt:156-172 | ONE is a right identity of times |
| OrdinalArithmetic.TwoTimesOmega | src/main/kotlin/Ordinal.kt:156-172 | 2 * omega == omega |
| OrdinalArithmetic.OmegaTimesTwo | src/main/kotlin/Ordinal.kt:156-172 | omega * 2 == omega + omega, which differs from 2 * omega, so times is not commutative |
| OrdinalDivision.ConstantCoefficient | src/main/kotlin/Ordinal.kt:194-198 | the finite part of the quotient is 0 without a matching term. Otherwise it is the largest k with k times the divisor's coefficient at most the matching coefficient, one less when it divides exactly and the dividend's tail is below the divisor's |
| OrdinalDivision.Quotient | src/main/kotlin/Ordinal.kt:181-200 | the quotient is well formed, and ZERO when the divisor exceeds the dividend |
| OrdinalDivision.Div | src/main/kotlin/Ordinal.kt:179-201 | it fails exactly on a ZERO divisor (`DivisionByZero`). Otherwise the quotient q is well formed with b * q <= a < b * q + b, and is ZERO when the divisor exceeds the dividend |
| OrdinalDivision.Rem | src/main/kotlin/Ordinal.kt:208-212 | a ZERO divisor is rejected, and a dividend below the divisor is its own remainder. Otherwise the `minus` at line 211 never fails: the remainder r is well formed, below the divisor, and b * (a / b) + r == a |
| OrdinalDivision.DivisionBounds | src/main/kotlin/Ordinal.kt:179-211 | for a non-zero divisor, b * (a / b) <= a, so the subtraction in rem is defined, and a < b * (a / b) + b |
| OrdinalDivision.RemainderBelow | src/main/kotlin/Ordinal.kt:208-212 | when p + r == a < p + b, the remainder r is below b |
| OrdinalDivision.QuotientShape | src/main/kotlin/Ordinal.kt:183-200 | the quotient's terms are the dividend's terms above the divisor's leading exponent with that exponent subtracted, followed by the finite part when it is positive |
| OrdinalDivision.FiniteBounds | src/main/kotlin/Ordinal.kt:194-198 | k times the divisor's coefficient is at most the matching coefficient and one more times it exceeds it, with equality at each end only as the borrow allows |
| OrdinalDivision.CoefsDecide | src/main/kotlin/Ordinal.kt:89-105 | of two canonical ordinals that agree above an exponent e, the one with the smaller coefficient at e is the smaller |
| OrdinalDivision.LessWitness | src/main/kotlin/Ordinal.kt:89-105 | whenever x < y there is an exponent above which they agree and at which x's coefficient is smaller |
| OrdinalDivision.PlusStrictlyMonotone | src/main/kotlin/Ordinal.kt:121-126 | plus is strictly monotone in its right operand: p < q implies a + p < a + q |
| OrdinalDivision.SubStrictlyMonotone | src/main/kotlin/Ordinal.kt:133-149 | subtracting beta on the left is strictly monotone on the ordinals above beta |
| OrdinalPower.IntPow | src/main/kotlin/Ordinal.kt:10-21 | the loop returns the integer power when it lies in the Int range, `ArithmeticOverflow` when it does not and `NegativeExponent` for a negative exponent (the corrected range check, see Findings) |
| OrdinalPower.PowerEscapes | src/main/kotlin/Ordinal.kt:14-19 | once a partial power leaves the Int range, every later one does too, so stopping at the first overflow is sound |
| OrdinalPower.ToInt32 | src/main/kotlin/Ordinal.kt:20 | `toInt()` yields an Int congruent to the Long modulo 2^32, and the same number when it is already in range |
| OrdinalPower.AsWrittenRunsThrough | src/main/kotlin/Ordinal.kt:10-21 | as written, when no partial power exceeds Int.MAX_VALUE the function returns the power truncated to 32 bits |
| OrdinalPower.IntPowAsWrittenWraps | src/main/kotlin/Ordinal.kt:10-21 | as written, (-12).pow(9) returns -864813056 although (-12)^9 = -5159780352 lies outside the Int range |
| OrdinalPower.AsWrittenAgreesOnNaturals | src/main/kotlin/Ordinal.kt:10-21 | for non-negative bases, which is every use inside the ordinal engine, the code as written agrees with the checked power |
| OrdinalPower.FinitePower | src/main/kotlin/Ordinal.kt:243-246 | the repeated product ONE * a * ... * a is well formed |
| OrdinalPower.PowOf | src/main/kotlin/Ordinal.kt:219-257 | the power is well formed. A ZERO exponent gives ONE, a ZERO base with a non-zero exponent gives ZERO, and a ONE base gives ONE |
| OrdinalPower.PowOfFinite | src/main/kotlin/Ordinal.kt:224-230 | on finite operands pow is the integer power, and fails with `ArithmeticOverflow` exactly when that power exceeds the Int range |
| OrdinalPower.Pow | src/main/kotlin/Ordinal.kt:219-257 | the method with its multiplication loop computes exactly `PowOf` |
| OrdinalPower.FiniteBasePower | src/main/kotlin/Ordinal.kt:224-238 | the finite-base branch, with the checked Int.pow, computes exactly the finite-base rule of `PowOf` |
| OrdinalPower.ScaledPower | src/main/kotlin/Ordinal.kt:232-237 | omega^delta * n^k is computed with the checked Int.pow, so it fails exactly when n^k leaves the Int range |
| OrdinalPower.InfiniteBasePower | src/main/kotlin/Ordinal.kt:239-256 | after i rounds the loop's accumulator is ONE multiplied by a i times, so the method computes exactly the infinite-base rule of `PowOf` |
| OrdinalPower.TimesFinite | src/main/kotlin/Ordinal.kt:156-172 | on finite ordinals times is the multiplication of naturals |
| OrdinalPower.PowOfNatural | src/main/kotlin/Ordinal.kt:239-249 | for a base that is not a finite non-zero ordinal, pow with a natural exponent k never fails and is the product of k copies of the base |
| OrdinalPower.PowerSuccessorFinite | src/main/kotlin/Ordinal.kt:10-21 | when n^(k+1) fits an Int so does n^k, and fromInt(n^(k+1)) == fromInt(n^k) * fromInt(n) |
| OrdinalPower.PowSuccessor | src/main/kotlin/Ordinal.kt:219-257 | when pow(a, k + 1) succeeds, so does pow(a, k), and pow(a, k + 1) == pow(a, k) * a |
| OrdinalPower.PowIsFinitePower | src/main/kotlin/Ordinal.kt:219-257 | for every base, pow(a, k) with a natural exponent k, when it succeeds, is ONE * a * ... * a with k factors, whichever branch computes it |
| OrdinalPower.PowOfOne | src/main/kotlin/Ordinal.kt:219-257 | pow(a, 1) == a for every ordinal whose coefficients fit an Int |
| OrdinalPower.OmegaTimesOmega | src/main/kotlin/Ordinal.kt:156-172 | omega * omega is the single term omega^2, and it lies above omega |
| OrdinalPower.OmegaSquared | src/main/kotlin/Ordinal.kt:219-257 | omega^1 == omega and omega^2 == omega * omega, the single term omega^2, with 1 < omega < omega^2 |
| Relations.Join | src/main/kotlin/Relation.kt:39-41 | (x, z) is in the join exactly when some y links (x, y) in the first set to (y, z) in the second |
| Relations.BinaryRelation.New | src/main/kotlin/Relation.kt:9-11 | construction succeeds exactly when every pair lies in l x r |
| Relations.BinaryRelation.FromCondition | src/main/kotlin/Relation.kt:13-19 | the relation holds exactly the pairs of l x r that satisfy the condition |
| Relations.BinaryRelation.Composite | src/main/kotlin/Relation.kt:33-43 | it fails unless other.r == l. Otherwise (c, b) is related exactly when some a has (c, a) in other and (a, b) in this, over other.l and r |
| Relations.Endorelation.New | src/main/kotlin/Relation.kt:50-52 | construction succeeds exactly when every pair lies in a x a |
| Relations.Endorelation.FromCondition | src/main/kotlin/Relation.kt:54-59 | the relation holds exactly the pairs of a x a that satisfy the condition |
| Relations.Endorelation.Identity | src/main/kotlin/Relation.kt:82 | the identity relation on a set holds exactly the pairs (x, x) |
| Relations.Endorelation.Composite | src/main/kotlin/Relation.kt:71-77 | (x, z) is related exactly when (x, y) is in other and (y, z) in this. It succeeds whenever the carriers agree, and exactly when every resulting pair starts inside a |
| Relations.Endorelation.Power | src/main/kotlin/Relation.kt:79-86 | a negative amount is rejected. power(0) is the identity on a, power(1) is the relation itself, and the result stays over a |
| Relations.Endorelation.PowerFoldStep | src/main/kotlin/Relation.kt:84 | each fold step composes one more copy of the relation |
| Relations.Endorelation.PowerIsWalks | src/main/kotlin/Relation.kt:79-86 | (x, z) is in power(n), n >= 1, exactly when a walk of n steps leads from x to z |
| Relations.Endorelation.ReachableIsSomePower | src/main/kotlin/Relation.kt:79-101 | z is reachable from x exactly when (x, z) lies in some power(n) with n >= 1 |
| Relations.Endorelation.TransitiveClosure | src/main/kotlin/Relation.kt:88-101 | the closure contains the relation, stays over a and is transitive. It holds exactly the pairs joined by a walk |
| Relations.Endorelation.ReflexiveTransitiveClosure | src/main/kotlin/Relation.kt:103-109 | the result is reflexive and transitive, and holds exactly the pairs (x, x) for x in a and the pairs joined by a walk |
| Relations.Endorelation.ClassOf | src/main/kotlin/Relation.kt:131-134 | the class of x holds exactly the y with (x, y) related, inside a |
| Relations.Endorelation.GetEquivalenceClass | src/main/kotlin/Relation.kt:127-135 | it fails unless the relation is an equivalence and the representative lies in a. Otherwise it returns {y : (rep, y) related}, which contains the representative |
| Relations.Endorelation.ClassesPartition | src/main/kotlin/Relation.kt:127-152 | for an equivalence, two elements are related exactly when their classes are equal, and unrelated exactly when the classes are disjoint |
| Relations.Endorelation.QuotientIsPartition | src/main/kotlin/Relation.kt:137-152 | for an equivalence, the classes are non-empty subsets of a, pairwise disjoint, and cover a |
| Relations.Endorelation.GetQuotientSet | src/main/kotlin/Relation.kt:137-152 | it fails exactly when the relation is not an equivalence. Otherwise the fold returns exactly the set of equivalence classes |
| Relations.Endorelation.Converse | src/main/kotlin/Relation.kt:113-118 | (x, y) is in the converse exactly when (y, x) is related |
| Relations.Endorelation.Square | src/main/kotlin/Relation.kt:157-162 | the pairs of a x a, each exactly once |
| Relations.Endorelation.ReflexiveIffContainsIdentity | src/main/kotlin/Relation.kt:111 | isReflective holds exactly when the relation contains the identity on a, that is power(0) |
| Relations.Endorelation.SymmetricIffSelfConverse | src/main/kotlin/Relation.kt:113-114 | isSymmetric holds exactly when the relation equals its converse |
| Relations.Endorelation.AntisymmetricIffMeetsConverseOnDiagonal | src/main/kotlin/Relation.kt:116-118 | isAntisymmetric holds exactly when the relation meets its converse only inside the identity on a |
| Relations.Endorelation.TransitiveIffContainsSquare | src/main/kotlin/Relation.kt:120-122 | `this composite this` is defined, and isTransitive holds exactly when it is contained in the relation |
| Relations.Endorelation.EquivalenceIffAlgebraic | src/main/kotlin/Relation.kt:124-125 | isEquivalence holds exactly when the relation contains the identity, equals its converse and contains its composite with itself |
| Relations.Endorelation.PartialOrderIffAlgebraic | src/main/kotlin/Relation.kt:154-155 | isPartialOrder holds exactly when the relation contains the identity, meets its converse only inside it and contains its composite with itself |
| Relations.Endorelation.TotalOrderIffCovers | src/main/kotlin/Relation.kt:157-162 | isTotalOrder holds exactly when the relation is a partial order that, together with its converse, covers a x a |
| Relations.Endorelation.AntisymmetricEquivalenceIsIdentity | src/main/kotlin/Relation.kt:111-125 | an equivalence that is also antisymmetric is the identity relation on a |
| Relations.IdentityIsEquivalence | src/main/kotlin/Relation.kt:111-125 | the identity relation is an equivalence and a partial order whose classes are singletons |
| RelationsAsWritten.NullAndOneClasses | src/main/kotlin/Relation.kt:124-125 | on the carrier {null, 1}, relating every pair makes an equivalence whose only class is {null, 1} |
| RelationsAsWritten.NullAndOneAsWritten | src/main/kotlin/Relation.kt:137-152 | the fold as written, visiting null first, returns {{null}, {1}} for that relation: 1 finds the related key null and takes it for no representative |
| RelationsAsWritten.NullRepresentativeSplitsClass | src/main/kotlin/Relation.kt:137-152 | the as-written quotient set of that equivalence differs from its set of classes |
| Mappings.ValuesCount | src/main/kotlin/MappableFunction.kt:50 | a table has at most as many values as keys, and as many exactly when it is injective |
| Mappings.MappableFunction.New | src/main/kotlin/MappableFunction.kt:8-11 | construction succeeds exactly when the domain equals the keys and every value lies in the codomain |
| Mappings.MappableFunction.WithCodomain | src/main/kotlin/MappableFunction.kt:13-14 | the domain is the table's keys, and construction fails exactly when a value lies outside the codomain |
| Mappings.MappableFunction.FromFunction | src/main/kotlin/MappableFunction.kt:16-17 | it succeeds exactly when f maps the domain into the codomain, and the result agrees with f on the domain |
| Mappings.MappableFunction.Invoke | src/main/kotlin/MappableFunction.kt:23-25 | invoking succeeds exactly inside the domain, and returns a codomain value that is in the graph |
| Mappings.MappableFunction.Composite | src/main/kotlin/MappableFunction.kt:43-48 | it fails unless other.codom == dom. Otherwise the result has domain other.dom and codomain codom, and maps c to this(other(c)) |
| Mappings.MappableFunction.InjectiveIffNoSharedValue | src/main/kotlin/MappableFunction.kt:50 | the size test holds exactly when no two arguments share a value |
| Mappings.MappableFunction.SurjectiveIffEveryValueReached | src/main/kotlin/MappableFunction.kt:52 | the image test holds exactly when every codomain element is some argument's value |
| Mappings.MappableFunction.BijectiveIffOneToOne | src/main/kotlin/MappableFunction.kt:50-54 | isBijective holds exactly when no two arguments share a value and every codomain element is reached; then domain and codomain have the same size |
| Mappings.MappableFunction.Inverse | src/main/kotlin/MappableFunction.kt:56-62 | it fails exactly when the function is not bijective. The inverse goes from codom to dom and undoes the function on both sides |
| Mappings.MappableFunction.Graph | src/main/kotlin/MappableFunction.kt:64-65 | the graph is exactly the set of pairs (k, mapping[k]) |
| Mappings.MappableFunction.GraphIsFunctional | src/main/kotlin/MappableFunction.kt:64-65 | the graph is a relation over dom x codom that relates every argument to exactly one value |
| Mappings.GraphDetermines | src/main/kotlin/MappableFunction.kt:27-33 | two functions between the same sets with the same graph are equal |
| Mappings.IdentityMapping | src/main/kotlin/MappableFunction.kt:77-81 | the identity on a set maps every element to itself |
| Mappings.IdentityIsBijective | src/main/kotlin/MappableFunction.kt:77-81 | the identity is bijective and is its own inverse |
| Mappings.CompositeWithIdentity | src/main/kotlin/MappableFunction.kt:43-48 | composing with the identity on either side gives the function back |
| Mappings.CompositeAssociative | src/main/kotlin/MappableFunction.kt:43-48 | composition is associative |
| Mappings.InverseCancelsAfter | src/main/kotlin/MappableFunction.kt:56-62 | inverse after f is the identity on the domain |
| Mappings.InverseCancelsBefore | src/main/kotlin/MappableFunction.kt:56-62 | f after its inverse is the identity on the codomain |
| Mappings.AllMappings | src/main/kotlin/MappableFunction.kt:68-75 | the fold yields exactly the functions from dom to codom, each with domain dom |
| Rationals.Quot | src/main/kotlin/Rational.kt:13-14 | Long division truncates toward zero: the remainder is smaller than the divisor in magnitude and has the dividend's sign |
| Rationals.Gcd | src/main/kotlin/Rational.kt:53-54 | the gcd is zero exactly when both arguments are zero |
| Rationals.GcdDivides | src/main/kotlin/Rational.kt:53-54 | the gcd divides both arguments |
| Rationals.Bezout | src/main/kotlin/Rational.kt:53-54 | the gcd is an integer combination of the arguments, so it is their greatest common divisor |
| Rationals.Rational.New | src/main/kotlin/Rational.kt:10-15 | a zero denominator is rejected. Otherwise d > 0, gcd(n, d) == 1 and n * denominator == numerator * d |
| Rationals.Rational.CanonicalUnique | src/main/kotlin/Rational.kt:47-51 | two normalised rationals with the same value have the same n and d, so equals is equality of values |
| Rationals.Rational.Plus | src/main/kotlin/Rational.kt:17-18 | the sum is normalised and equals n1/d1 + n2/d2 |
| Rationals.Rational.Minus | src/main/kotlin/Rational.kt:20-21 | the difference is normalised and equals n1/d1 - n2/d2 |
| Rationals.Rational.Times | src/main/kotlin/Rational.kt:23-24 | the product is normalised and equals (n1 * n2)/(d1 * d2) |
| Rationals.Rational.Div | src/main/kotlin/Rational.kt:26-27 | it fails exactly when the divisor is zero. Otherwise the quotient is normalised and equals (n1 * d2)/(d1 * n2) |
| Rationals.Rational.UnaryMinus | src/main/kotlin/Rational.kt:29 | negation negates the numerator and keeps the denominator |
| Rationals.Rational.CompareTo | src/main/kotlin/Rational.kt:43-45 | the result is -1, 0 or 1, with the sign of n1 * d2 - n2 * d1 |
| Rationals.Rational.ToLong | src/main/kotlin/Rational.kt:35 | n / d truncated toward zero |
| Rationals.Rational.ToInt | src/main/kotlin/Rational.kt:37 | the truncated quotient narrowed to the Int range, congruent modulo 2^32 |
| Rationals.Rational.ToShort | src/main/kotlin/Rational.kt:39 | the truncated quotient narrowed to the Short range, congruent modulo 2^16 |
| Rationals.Rational.ToByte | src/main/kotlin/Rational.kt:41 | the truncated quotient narrowed to the Byte range, congruent modulo 2^8 |
| Rationals.Rational.ToString | src/main/kotlin/Rational.kt:62 | a slash appears exactly when d != 1. An integer prints as the decimal numeral of n, any other rational as the numeral of n, a slash and the numeral of d |
| Rationals.Digits | src/main/kotlin/Rational.kt:62 | the digits of a natural number: decimal digits only, no leading zero, and read back they give the number |
| Rationals.Decimal | src/main/kotlin/Rational.kt:62 | the numeral of an integer has no slash, starts with '-' exactly for a negative number, and read back it gives the number |
| Rationals.ToStringRoundTrip | src/main/kotlin/Rational.kt:62 | reading the text of toString back gives the numerator and the denominator, so toString loses nothing |
| Rationals.CompareToConsistentWithEquals | src/main/kotlin/Rational.kt:43-51 | compareTo is 0 exactly when equals holds |
| Rationals.CompareToAntisymmetric | src/main/kotlin/Rational.kt:43-45 | swapping the operands negates the comparison |
| Rationals.CompareToTransitive | src/main/kotlin/Rational.kt:43-45 | the comparison is transitive |
| Rationals.MinusIsPlusNegated | src/main/kotlin/Rational.kt:17-29 | x - y == x + (-y) |
| Rationals.PlusNegationIsZero | src/main/kotlin/Rational.kt:17-29 | x + (-x) == 0 |
| Rationals.MinusUndoesPlus | src/main/kotlin/Rational.kt:17-21 | (x + y) - y == x |
| Rationals.TimesUndoesDiv | src/main/kotlin/Rational.kt:23-27 | for a non-zero y, (x / y) * y == x |
| Rationals.IntegerRoundTrip | src/main/kotlin/Rational.kt:10-62 | k/1 is stored as (k, 1), converts back to k and prints as k's numeral |
| Multisets.RaisedCounts | src/main/kotlin/Multiset.kt:25-28 | adding raises the count of the element by the amount and no other count, and keeps every stored count positive |
| Multisets.RaisedBag | src/main/kotlin/Multiset.kt:25-28 | adding puts that many more copies of the element into the multiset |
| Multisets.LoweredCounts | src/main/kotlin/Multiset.kt:38-44 | removing lowers the element's count to max(0, old - amount), changes no other count, and never leaves a zero count stored |
| Multisets.LoweredBag | src/main/kotlin/Multiset.kt:38-44 | removing takes that many copies out of the multiset, or all of them |
| Multisets.BagCount | src/main/kotlin/Multiset.kt:46-48 | the multiplicity of an element in the multiset the map stands for is its stored count, or 0 |
| Multisets.MutableMultiset.CountIsMultiplicity | src/main/kotlin/Multiset.kt:46-48 | count(e) is the multiplicity of e |
| Multisets.MutableMultiset.Contains | src/main/kotlin/Multiset.kt:21-23 | on a valid multiset, contains(e) holds exactly when count(e) > 0 |
| Multisets.MutableMultiset.Size | src/main/kotlin/Multiset.kt:18-19 | the sum of the counts is the number of elements |
| Multisets.MutableMultiset.Add | src/main/kotlin/Multiset.kt:25-28 | a non-positive amount fails and changes nothing. Otherwise the count map becomes `Raised`, and the map stays free of zero counts |
| Multisets.MutableMultiset.Remove | src/main/kotlin/Multiset.kt:30-44 | a non-positive amount fails and changes nothing. Otherwise it answers whether the element was present, and the count map becomes `Lowered`: unchanged for an absent element |
| Multisets.MutableMultiset.Clear | src/main/kotlin/Multiset.kt:50-52 | every count becomes 0 and the multiset is empty |
| Multisets.MutableMultiset.Iterator | src/main/kotlin/Multiset.kt:54-62 | the list holds each element exactly count(e) times, so its length is the size |
| Multisets.AppendCopies | src/main/kotlin/Multiset.kt:57-59 | the repeat loop appends exactly count copies of the element |
| Multisets.MutableMultisetOf | src/main/kotlin/Multiset.kt:72-75 | each element's count is its number of occurrences in the arguments |

## Left out

- Machine integers:
  - Coefficients, `Rational`'s `Long` fields and the multiset's `Int` counts are unbounded in the model.
  - The unchecked overflow of coefficient sums in `fromTerms` and of the coefficient product in `times` is not modelled. Nor are the `Long` products in `Rational` and `abs(Long.MIN_VALUE)` in `gcd`.
  - `Int.pow` is the one place where the source checks for overflow, and it is modelled with its range check.
- The `Int`-operand overloads of the ordinal operators (src/main/kotlin/Ordinal.kt:3-8, 128-131, 151-154, 174-177, 203-206, 214-217, 259-262) are not modelled. Each one only converts its operand with `fromInt` before calling the modelled operator.
- `Ordinal.toString` and `Term.toString` are not modelled. They are glyph rendering only.
- `Rational.toDouble` and `toFloat` are not modelled (floating point). No `hashCode` is modelled. `equals` is Dafny's structural equality of datatypes; `CanonicalUnique` ties that to equality of values.
- `Multiset.toString` is not modelled. The iteration order of Kotlin's hash maps is left open: the multiset iterator is specified up to permutation, and `getQuotientSet`'s `find` may pick any related representative.
- The default argument `occurrences = 1` of `add` and `remove` is not modelled; callers pass the amount.
- The `(A) -> B` supertype of `MappableFunction` is not modelled. Application is `Invoke`.
- The second `init` block of `MappableFunction` (src/main/kotlin/MappableFunction.kt:19-21) repeats the codomain check of the first. It is part of `New`.
- OrdinalArithmetic.Times: states well-formedness, the ZERO cases and, through `TimesByFinite`, `TimesOneLeft` and `TimesOneRight`, the finite-multiplier law. It does not state associativity or distributivity in general.
- Mappings.MappableFunction.Invoke: the model's type parameters are non-null. In Kotlin, `invoke` (src/main/kotlin/MappableFunction.kt:24) also throws when an argument in the domain maps to `null`, because `?:` cannot tell that value from a missing key. The model returns `Ok` for every argument in the domain.
- Mappings.MappableFunction.Composite: it goes through `invoke`, so in Kotlin it also throws when `other` maps an argument to `null`, or when this function maps a value of `other` to `null`. The model does not, since its type parameters are non-null.
- Relations.Endorelation.GetQuotientSet: it is proved for non-null elements. In Kotlin, a `null` key that `find` returns (src/main/kotlin/Relation.kt:141-147) reads as "no representative" and opens a new group. The code as written is modelled separately (`QuotientAsWritten`), and the Findings table shows the input on which it differs.
- OrdinalPower.PowOf: for a finite exponent the power is stated in full (`PowIsFinitePower`, `PowSuccessor`, `PowOfOne`). For an infinite exponent, the result is stated only as well formed, not as the ordinal power.
- OrdinalPower.PowOfOne: it requires every coefficient of the base to fit an Int, as Kotlin's `Int` coefficients always do. The finite-base branch of pow calls `Int.pow` on the coefficient, and that range check has no counterpart for an unbounded coefficient.

## Findings

| source | as written | input that shows it | evidently intended | confidence | as-written member | corrected member |
|---|---|---|---|---|---|---|
| src/main/kotlin/Ordinal.kt:10-21 | the overflow check only tests `result > Int.MAX_VALUE`, then `result.toInt()` truncates | `(-12).pow(9)`: (-12)^9 = -5159780352 is below Int.MIN_VALUE, and the function returns -864813056 | an `ArithmeticException` whenever the power leaves the Int range | not executed | OrdinalPower.IntPowAsWrittenWraps | OrdinalPower.IntPow |
| src/main/kotlin/Relation.kt:137-152 | `find` returns the related key itself, and `representative != null` treats a found `null` key as no representative | the carrier `setOf(null, 1)` with every pair related, an equivalence: the fold returns `{{null}, {1}}` | the single class `{{null, 1}}`, with a found `null` representative joined like any other | not executed | RelationsAsWritten.NullRepresentativeSplitsClass | Relations.Endorelation.GetQuotientSet |
