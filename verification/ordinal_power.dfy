/** Exponentiation: Int.pow on machine integers, and Ordinal.pow. */
module OrdinalPower {
  import opened Outcome
  import opened OrdinalTerms
  import opened OrdinalNormalForm
  import opened OrdinalArithmetic
  import opened OrdinalDivision

  const IntMax: int := 0x7fff_ffff
  const IntMin: int := -0x8000_0000

  predicate InIntRange(x: int) {
    IntMin <= x <= IntMax
  }

  /** base raised to n over the integers. */
  function Power(base: int, n: nat): int {
    if n == 0 then 1 else Power(base, n - 1) * base
  }

  // ---------------------------------------------------------------------------------------
  // Int.pow
  // ---------------------------------------------------------------------------------------

  /** What Int.pow is meant to compute: the power when it is an Int, an overflow otherwise. */
  function CheckedPower(base: int, exponent: int): Result<int, OrdinalError> {
    if exponent < 0 then Err(NegativeExponent)
    else if InIntRange(Power(base, exponent)) then Ok(Power(base, exponent))
    else Err(ArithmeticOverflow)
  }

  lemma {:induction false} PowerAbs(base: int, n: nat)
    ensures Abs(Power(base, n)) == Power(Abs(base), n)
  {
    if n > 0 {
      PowerAbs(base, n - 1);
      var p := Power(base, n - 1);
      assert Abs(p * base) == Abs(p) * Abs(base) by {
        if p < 0 && base < 0 {
          assert p * base == (-p) * (-base);
        } else if base < 0 {
          assert -(p * base) == p * (-base);
        }
      }
    }
  }

  /** With a base of magnitude at least 2 the magnitude of the power at least doubles with
      every further multiplication. */
  lemma {:induction false} PowerGrows(b: nat, i: nat, n: nat)
    requires b >= 2 && i < n
    ensures Power(b, n) >= 2 * Power(b, i) && Power(b, i) >= 1
    decreases n - i
  {
    PowerPositive(b, i);
    if n > i + 1 {
      PowerGrows(b, i, n - 1);
    }
    PowerPositive(b, n - 1);
    assert Power(b, n) == Power(b, n - 1) * b;
  }

  lemma {:induction false} PowerPositive(b: nat, n: nat)
    requires b >= 1
    ensures Power(b, n) >= 1
  {
    if n > 0 {
      PowerPositive(b, n - 1);
      assert Power(b, n) == Power(b, n - 1) * b;
    }
  }

  /** Once a partial power leaves the Int range, so does every later one. */
  lemma PowerEscapes(base: int, i: nat, n: nat)
    requires i <= n && !InIntRange(Power(base, i))
    ensures !InIntRange(Power(base, n))
  {
    if i < n {
      PowerAbs(base, i);
      PowerAbs(base, n);
      if Abs(base) <= 1 {
        PowerAtMostOne(Abs(base), i);
      } else {
        PowerGrows(Abs(base), i, n);
      }
    }
  }

  lemma {:induction false} PowerAtMostOne(b: nat, n: nat)
    requires b <= 1
    ensures Power(b, n) <= 1
  {
    if n > 0 {
      PowerAtMostOne(b, n - 1);
      assert Power(b, n) == Power(b, n - 1) * b;
    }
  }

  /** Int.pow with the range check made on both sides: every partial product is checked
      against the Int range, so the result is the power or an overflow error. */
  method IntPow(base: int, exponent: int) returns (r: Result<int, OrdinalError>)
    ensures r == CheckedPower(base, exponent)
    ensures r.Ok? ==> InIntRange(r.value)
  {
    if exponent < 0 {
      return Err(NegativeExponent);
    }
    var result := 1;
    var i := 1;
    while i <= exponent
      invariant 1 <= i <= exponent + 1
      invariant result == Power(base, i - 1) && InIntRange(result)
    {
      result := result * base;
      if result > IntMax || result < IntMin {
        PowerEscapes(base, i, exponent);
        return Err(ArithmeticOverflow);
      }
      i := i + 1;
    }
    return Ok(result);
  }

  /** toInt() on a Long: the low 32 bits read as a two's-complement Int. */
  function ToInt32(x: int): (r: int)
    ensures InIntRange(r) && (x - r) % 0x1_0000_0000 == 0
    ensures InIntRange(x) ==> r == x
  {
    var m := x % 0x1_0000_0000;
    if m > IntMax then m - 0x1_0000_0000 else m
  }

  /** The loop of Int.pow as written, after `done` multiplications gave `result`: it stops
      only on a product above Int.MAX_VALUE. */
  function AsWrittenLoop(base: int, exponent: nat, done: nat, result: int): Result<int, OrdinalError>
    requires done <= exponent
    decreases exponent - done
  {
    if done == exponent then Ok(ToInt32(result))
    else
      var next := result * base;
      if next > IntMax then Err(ArithmeticOverflow) else AsWrittenLoop(base, exponent, done + 1, next)
  }

  /** Int.pow as written. */
  function IntPowAsWritten(base: int, exponent: int): Result<int, OrdinalError> {
    if exponent < 0 then Err(NegativeExponent) else AsWrittenLoop(base, exponent, 0, 1)
  }

  /** When no partial power exceeds Int.MAX_VALUE, the loop as written runs to the end and
      returns the low 32 bits of the power. */
  lemma {:induction false} AsWrittenRunsThrough(base: int, exponent: nat, done: nat)
    requires done <= exponent
    requires forall j | done < j <= exponent :: Power(base, j) <= IntMax
    ensures AsWrittenLoop(base, exponent, done, Power(base, done)) == Ok(ToInt32(Power(base, exponent)))
    decreases exponent - done
  {
    if done < exponent {
      AsWrittenRunsThrough(base, exponent, done + 1);
    }
  }

  /** The discrepancy: (-12)^9 = -5159780352 lies below Int.MIN_VALUE, yet no partial product
      exceeds Int.MAX_VALUE, so Int.pow as written returns the wrapped value -864813056. */
  lemma IntPowAsWrittenWraps()
    ensures Power(-12, 9) == -5159780352 && !InIntRange(Power(-12, 9))
    ensures IntPowAsWritten(-12, 9) == Ok(-864813056)
    ensures CheckedPower(-12, 9) == Err(ArithmeticOverflow)
  {
    assert Power(-12, 1) == -12;
    assert Power(-12, 2) == 144;
    assert Power(-12, 3) == -1728;
    assert Power(-12, 4) == 20736;
    assert Power(-12, 5) == -248832;
    assert Power(-12, 6) == 2985984;
    assert Power(-12, 7) == -35831808;
    assert Power(-12, 8) == 429981696;
    assert Power(-12, 9) == -5159780352;
    AsWrittenRunsThrough(-12, 9, 0);
  }

  lemma {:induction false} PowerMonotone(b: nat, i: nat, n: nat)
    requires b >= 1 && i <= n
    ensures Power(b, i) <= Power(b, n)
    decreases n - i
  {
    if i < n {
      PowerMonotone(b, i, n - 1);
      PowerPositive(b, n - 1);
      assert Power(b, n) == Power(b, n - 1) * b;
    }
  }

  lemma {:induction false} AsWrittenNonNegative(base: nat, exponent: nat, done: nat)
    requires done <= exponent && InIntRange(Power(base, done))
    ensures AsWrittenLoop(base, exponent, done, Power(base, done)) == CheckedPower(base, exponent)
    decreases exponent - done
  {
    PowerNonNegative(base, done);
    PowerNonNegative(base, exponent);
    if done < exponent {
      var next := Power(base, done) * base;
      assert next == Power(base, done + 1);
      PowerNonNegative(base, done + 1);
      if next > IntMax {
        PowerMonotone(base, done + 1, exponent);
      } else {
        AsWrittenNonNegative(base, exponent, done + 1);
      }
    }
  }

  lemma {:induction false} PowerNonNegative(b: nat, n: nat)
    ensures Power(b, n) >= 0
  {
    if n > 0 {
      PowerNonNegative(b, n - 1);
      assert Power(b, n) == Power(b, n - 1) * b;
    }
  }

  /** The discrepancy needs a negative base: for a non-negative base, as ordinal pow uses it,
      Int.pow as written computes the intended result. */
  lemma AsWrittenAgreesOnNaturals(base: nat, exponent: int)
    ensures IntPowAsWritten(base, exponent) == CheckedPower(base, exponent)
  {
    if exponent >= 0 {
      AsWrittenNonNegative(base, exponent, 0);
    }
  }

  // ---------------------------------------------------------------------------------------
  // Ordinal.pow
  // ---------------------------------------------------------------------------------------

  /** ONE multiplied on the right by a, k times. */
  function FinitePower(a: Ord, k: nat): (r: Ord)
    requires WF(a)
    ensures WF(r)
  {
    ConstantsWellFormed();
    if k == 0 then One else Times(FinitePower(a, k - 1), a)
  }

  /** The coefficient of the exponent-zero term, if any. */
  function FiniteCoefficient(e: Ord): nat {
    match Find(e.terms, HasExp(Zero))
    case None => 0
    case Some(t) => t.coef
  }

  /** pow for a finite base n, the exponent not ZERO: n^m for a finite exponent m, and
      omega^(e / omega) * n^k otherwise, k being the finite part of e. */
  function FiniteBasePow(baseValue: nat, e: Ord): (r: Result<Ord, OrdinalError>)
    requires WF(e) && e != Zero
    ensures r.Ok? ==> WF(r.value)
  {
    ConstantsWellFormed();
    if |e.terms| == 1 && e.terms[0].exp == Zero then
      match CheckedPower(baseValue, e.terms[0].coef)
      case Err(x) => Err(x)
      case Ok(p) => FromInt(p)
    else
      var finitePart := Rem(e, Omega).value;
      var k := if finitePart == Zero then 0 else finitePart.terms[0].coef;
      ScaledOmegaPower(Quotient(e, Omega), baseValue, k)
  }

  /** omega^delta * n^k, failing when n^k overflows Int. */
  function ScaledOmegaPower(delta: Ord, baseValue: nat, k: nat): (r: Result<Ord, OrdinalError>)
    requires WF(delta)
    ensures r.Ok? ==> WF(r.value)
  {
    match CheckedPower(baseValue, k)
    case Err(x) => Err(x)
    case Ok(p) =>
      PowerNonNegative(baseValue, k);
      assert p >= 0;
      assert WF(Ord([Term(delta, 1)])) by { ConstantsWellFormed(); }
      Ok(Times(FromTerms([Term(delta, 1)]), FromInt(p).value))
  }

  /** pow for an infinite base a with leading exponent x: omega^(x * l) * a^k, where l is the
      limit part of e and k its finite part. */
  function InfiniteBasePow(a: Ord, e: Ord): (r: Ord)
    requires WF(a) && WF(e) && a != Zero
    ensures WF(r)
  {
    var limitTerms := Filter(e.terms, LacksExp(Zero));
    var baseToFinitePower := FinitePower(a, FiniteCoefficient(e));
    if limitTerms == [] then baseToFinitePower
    else
      assert a.terms[0] in a.terms;
      var resultLeadingExponent := Times(a.terms[0].exp, FromTerms(limitTerms));
      assert WF(Ord([Term(resultLeadingExponent, 1)]));
      Times(FromTerms([Term(resultLeadingExponent, 1)]), baseToFinitePower)
  }

  /** pow: a^0 = 1, 0^e = 0 and 1^e = 1; otherwise the finite-base or the infinite-base rule. */
  function PowOf(a: Ord, e: Ord): (r: Result<Ord, OrdinalError>)
    requires WF(a) && WF(e)
    ensures r.Ok? ==> WF(r.value)
    ensures e == Zero ==> r == Ok(One)
    ensures e != Zero && a == Zero ==> r == Ok(Zero)
    ensures a == One ==> r == Ok(One)
  {
    ConstantsWellFormed();
    if e == Zero then Ok(One)
    else if a == Zero then Ok(Zero)
    else if a == One then Ok(One)
    else if |a.terms| == 1 && a.terms[0].exp == Zero then FiniteBasePow(a.terms[0].coef, e)
    else Ok(InfiniteBasePow(a, e))
  }

  /** On finite operands pow is the integer power, and fails exactly when Int.pow reports an
      overflow. */
  lemma PowOfFinite(n: nat, m: nat)
    ensures InIntRange(Power(n, m)) ==> PowOf(FromInt(n).value, FromInt(m).value) == FromInt(Power(n, m))
    ensures !InIntRange(Power(n, m)) ==> PowOf(FromInt(n).value, FromInt(m).value) == Err(ArithmeticOverflow)
  {
    ConstantsWellFormed();
    PowerNonNegative(n, m);
    if m > 0 && n <= 1 {
      PowerAtMostOne(n, m);
      assert Power(n, m) == Power(n, m - 1) * n;
      if n == 1 {
        PowerPositive(n, m);
      }
    }
  }

  /** On finite ordinals times is the multiplication of naturals: m * n == p. */
  lemma TimesFinite(m: nat, n: nat, p: nat)
    requires p == m * n
    ensures Times(FromInt(m).value, FromInt(n).value) == FromInt(p).value
  {
    if m != 0 && n != 0 {
      var x := FromInt(m).value;
      assert x == Ord([Term(Zero, m)]);
      TimesByFinite(x, n);
      MulPositive(m, n);
      assert FromInt(p).value == Ord([Term(Zero, p)]);
    }
  }

  /** One more factor of the integer power, both sides non-negative. */
  lemma PowerStep(n: nat, k: nat)
    requires k > 0
    ensures Power(n, k - 1) >= 0 && Power(n, k) >= 0 && Power(n, k) == Power(n, k - 1) * n
  {
    PowerNonNegative(n, k - 1);
    PowerNonNegative(n, k);
  }

  /** Kotlin's Int coefficients: every coefficient of the ordinal fits an Int. */
  predicate CoefsFitInt(a: Ord) {
    forall t | t in a.terms :: t.coef <= IntMax
  }

  /** An ordinal below omega other than ZERO: a single term at exponent ZERO. */
  predicate IsFiniteNonZero(a: Ord) {
    |a.terms| == 1 && a.terms[0].exp == Zero
  }

  /** For a base that is not finite, pow with a natural exponent k never fails and is the
      k-fold product ONE * a * ... * a (finite bases: see PowOfFinite). */
  lemma PowOfNatural(a: Ord, k: nat)
    requires WF(a) && !IsFiniteNonZero(a)
    ensures FromInt(k).Ok? && WF(FromInt(k).value)
    ensures PowOf(a, FromInt(k).value) == Ok(FinitePower(a, k))
  {
    ConstantsWellFormed();
    var e := FromInt(k).value;
    if k == 0 {
      assert e == Zero;
    } else {
      assert e == Ord([Term(Zero, k)]);
      if a != Zero {
        assert Filter(e.terms, LacksExp(Zero)) == [] by {
          assert Filter(e.terms[1..], LacksExp(Zero)) == [];
        }
        assert FiniteCoefficient(e) == k;
      }
    }
  }

  /** The finite-base step: n^(k+1) fits an Int only if n^k does, and is then n^k * n as an
      ordinal product. */
  lemma PowerSuccessorFinite(n: nat, k: nat)
    ensures WF(FromInt(n).value) && Power(n, k) >= 0 && Power(n, k + 1) >= 0
    ensures InIntRange(Power(n, k + 1)) ==>
      InIntRange(Power(n, k)) &&
      FromInt(Power(n, k + 1)).value == Times(FromInt(Power(n, k)).value, FromInt(n).value)
  {
    PowerStep(n, k + 1);
    if !InIntRange(Power(n, k)) {
      PowerEscapes(n, k, k + 1);
    }
    TimesFinite(Power(n, k), n, Power(n, k + 1));
  }

  /** pow(a, k + 1) == pow(a, k) * a: each further unit of a finite exponent multiplies by a
      once more on the right, and pow(a, k + 1) fails only if pow(a, k) does or overflows. */
  lemma PowSuccessor(a: Ord, k: nat)
    requires WF(a)
    ensures FromInt(k).Ok? && FromInt(k + 1).Ok?
    ensures PowOf(a, FromInt(k + 1).value).Ok? ==>
      PowOf(a, FromInt(k).value).Ok? &&
      PowOf(a, FromInt(k + 1).value) == Ok(Times(PowOf(a, FromInt(k).value).value, a))
  {
    if IsFiniteNonZero(a) {
      var n := a.terms[0].coef;
      assert a == FromInt(n).value;
      PowSuccessorOfFinite(n, k);
    } else {
      PowOfNatural(a, k);
      PowOfNatural(a, k + 1);
    }
  }

  lemma PowSuccessorOfFinite(n: nat, k: nat)
    ensures FromInt(k).Ok? && FromInt(k + 1).Ok? && WF(FromInt(n).value)
    ensures PowOf(FromInt(n).value, FromInt(k + 1).value).Ok? ==>
      PowOf(FromInt(n).value, FromInt(k).value).Ok? &&
      PowOf(FromInt(n).value, FromInt(k + 1).value) ==
        Ok(Times(PowOf(FromInt(n).value, FromInt(k).value).value, FromInt(n).value))
  {
    PowOfFinite(n, k);
    PowOfFinite(n, k + 1);
    PowerSuccessorFinite(n, k);
  }

  /** For every base, pow with a natural exponent k, when it does not overflow, is the
      k-fold product ONE * a * ... * a that the loop of pow builds. */
  lemma {:induction false} PowIsFinitePower(a: Ord, k: nat)
    requires WF(a)
    ensures FromInt(k).Ok?
    ensures PowOf(a, FromInt(k).value).Ok? ==> PowOf(a, FromInt(k).value) == Ok(FinitePower(a, k))
  {
    if k == 0 {
      assert FromInt(0).value == Zero;
    } else {
      var j := k - 1;
      PowSuccessor(a, j);
      PowIsFinitePower(a, j);
      ProductStep(a, j, PowOf(a, FromInt(j).value), PowOf(a, FromInt(j + 1).value));
    }
  }

  /** One step of the induction: one more factor a on the product of j factors is the
      product of j + 1 factors. */
  lemma ProductStep(a: Ord, j: nat, before: Result<Ord, OrdinalError>, after: Result<Ord, OrdinalError>)
    requires WF(a)
    requires before.Ok? ==> before == Ok(FinitePower(a, j))
    requires after.Ok? ==> before.Ok? && after == Ok(Times(before.value, a))
    ensures after.Ok? ==> after == Ok(FinitePower(a, j + 1))
  {
  }

  /** pow(a, 1) == a, for a base whose coefficients are Ints. */
  lemma PowOfOne(a: Ord)
    requires WF(a) && CoefsFitInt(a)
    ensures FromInt(1).Ok? && PowOf(a, FromInt(1).value) == Ok(a)
  {
    ConstantsWellFormed();
    if IsFiniteNonZero(a) {
      var n := a.terms[0].coef;
      assert a.terms[0] in a.terms;
      assert a == FromInt(n).value;
      PowOfFinite(n, 1);
      assert Power(n, 1) == n;
    } else {
      PowOfNatural(a, 1);
      TimesOneLeft(a);
    }
  }

  /** omega^1 == omega and omega^2 == omega * omega, the single term omega^2, with
      1 < omega < omega^2. */
  lemma OmegaSquared()
    ensures FromInt(1).Ok? && FromInt(2).Ok? && WF(Omega)
    ensures PowOf(Omega, FromInt(1).value) == Ok(Omega)
    ensures PowOf(Omega, FromInt(2).value) == Ok(Times(Omega, Omega))
    ensures Times(Omega, Omega) == Ord([Term(FromInt(2).value, 1)])
    ensures Less(One, Omega) && Less(Omega, Times(Omega, Omega))
  {
    ConstantsWellFormed();
    PowOfOne(Omega);
    PowSuccessor(Omega, 1);
    OmegaTimesOmega(Omega);
  }

  /** omega * omega is the single term omega^2, which lies above omega. */
  lemma OmegaTimesOmega(w: Ord)
    requires w == Omega
    ensures WF(w) && FromInt(2).Ok?
    ensures Times(w, w) == Ord([Term(FromInt(2).value, 1)]) && Less(w, Times(w, w))
  {
    ConstantsWellFormed();
    var two := FromInt(2).value;
    assert One == FromInt(1).value;
    PlusFinite(1, 1);
    assert Shift(One, w.terms) == [Term(two, 1)] by {
      assert w.terms[1..] == [];
    }
    var square := Ord([Term(two, 1)]);
    assert WF(square) by { assert square.terms[0].exp == two; }
    FromTermsOfCanonical(square.terms);
    assert Times(w, w) == square;
    assert CmpFrom(One, two, 0) == -1;
    assert Cmp(One, two) == -1;
    assert CmpFrom(w, square, 0) == -1;
  }

  /** The finite-base case of pow, with the checked Int.pow. */
  method FiniteBasePower(baseValue: nat, e: Ord) returns (r: Result<Ord, OrdinalError>)
    requires WF(e) && e != Zero
    ensures r == FiniteBasePow(baseValue, e)
  {
    ConstantsWellFormed();
    if |e.terms| == 1 && e.terms[0].exp == Zero {
      var p := IntPow(baseValue, e.terms[0].coef);
      if p.Err? {
        return Err(p.error);
      }
      return FromInt(p.value);
    }
    var delta := Quotient(e, Omega);
    var finitePart := Rem(e, Omega).value;
    var k := if finitePart == Zero then 0 else finitePart.terms[0].coef;
    r := ScaledPower(delta, baseValue, k);
  }

  /** omega^delta * n^k, with the checked Int.pow. */
  method ScaledPower(delta: Ord, baseValue: nat, k: nat) returns (r: Result<Ord, OrdinalError>)
    requires WF(delta)
    ensures r == ScaledOmegaPower(delta, baseValue, k)
  {
    var p := IntPow(baseValue, k);
    if p.Err? {
      return Err(p.error);
    }
    PowerNonNegative(baseValue, k);
    assert WF(Ord([Term(delta, 1)])) by { ConstantsWellFormed(); }
    r := Ok(Times(FromTerms([Term(delta, 1)]), FromInt(p.value).value));
  }

  /** The infinite-base case of pow: a^k is built by repeated multiplication. */
  method InfiniteBasePower(a: Ord, e: Ord) returns (r: Ord)
    requires WF(a) && WF(e) && a != Zero
    ensures r == InfiniteBasePow(a, e)
  {
    var limitTerms := Filter(e.terms, LacksExp(Zero));
    var k := FiniteCoefficient(e);
    var baseToFinitePower := One;
    for i := 1 to k + 1
      invariant baseToFinitePower == FinitePower(a, i - 1)
    {
      baseToFinitePower := Times(baseToFinitePower, a);
    }
    if limitTerms == [] {
      return baseToFinitePower;
    }
    assert a.terms[0] in a.terms;
    var resultLeadingExponent := Times(a.terms[0].exp, FromTerms(limitTerms));
    assert WF(Ord([Term(resultLeadingExponent, 1)]));
    return Times(FromTerms([Term(resultLeadingExponent, 1)]), baseToFinitePower);
  }

  /** pow with its loop: the finite power of an infinite base is built by repeated
      multiplication, the power of a finite base by the checked Int.pow. */
  method Pow(a: Ord, e: Ord) returns (r: Result<Ord, OrdinalError>)
    requires WF(a) && WF(e)
    ensures r == PowOf(a, e)
  {
    ConstantsWellFormed();
    if e == Zero {
      return Ok(One);
    }
    if a == Zero {
      return Ok(Zero);
    }
    if a == One {
      return Ok(One);
    }
    if |a.terms| == 1 && a.terms[0].exp == Zero {
      r := FiniteBasePower(a.terms[0].coef, e);
    } else {
      var x := InfiniteBasePower(a, e);
      r := Ok(x);
    }
  }
}
