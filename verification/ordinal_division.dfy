/** Ordinal division and remainder. Rem subtracts b * (a / b) from a, which is defined only
    because that product never exceeds a; proving so reads the order of ordinals off their
    coefficients, and shows on the way that plus is strictly monotone in its right operand. */
module OrdinalDivision {
  import opened Outcome
  import opened OrdinalTerms
  import opened OrdinalNormalForm
  import opened OrdinalArithmetic

  // ---------------------------------------------------------------------------------------
  // div and rem
  // ---------------------------------------------------------------------------------------


  /** Kotlin's find: some element satisfying p, if any. */
  function Find(ts: seq<Term>, p: Term -> bool): (r: Option<Term>)
    ensures r.Some? ==> r.value in ts && p(r.value)
    ensures r.None? ==> forall t | t in ts :: !p(t)
    decreases |ts|
  {
    if ts == [] then None
    else if p(ts[0]) then Some(ts[0])
    else Find(ts[1..], p)
  }

  function Above(e: Ord): Term -> bool {
    (t: Term) => Cmp(t.exp, e) > 0
  }

  function NotAbove(e: Ord): Term -> bool {
    (t: Term) => !(Cmp(t.exp, e) > 0)
  }

  function Below(e: Ord): Term -> bool {
    (t: Term) => Cmp(t.exp, e) < 0
  }

  /** map { Term(it.exponent - e, it.coefficient) } over terms whose exponents are at least e. */
  function SubExps(ts: seq<Term>, e: Ord): (r: seq<Term>)
    requires WF(e) && forall t | t in ts :: WF(t.exp) && !Less(t.exp, e)
    ensures |r| == |ts| && ExpsWF(r)
    decreases |ts|
  {
    if ts == [] then []
    else
      assert ts[0] in ts && forall t | t in ts[1..] :: t in ts;
      [Term(Sub(ts[0].exp, e), ts[0].coef)] + SubExps(ts[1..], e)
  }

  /** The coefficient chosen from Euclidean division of naturals: m / c, one less when c goes
      into m exactly and the lower terms are below; it brackets m between multiples of c. */
  lemma CoefficientBounds(m: nat, c: nat, tailBelow: bool, k: int)
    requires c > 0 && m > 0
    requires k == if m % c == 0 && tailBelow then m / c - 1 else m / c
    ensures k >= 0 && k * c <= m
    ensures m < (k + 1) * c || (tailBelow && m == (k + 1) * c)
    ensures k * c == m ==> !tailBelow
  {
    var q := m / c;
    assert m == q * c + m % c;
    assert (q + 1) * c == q * c + c;
    if m % c == 0 && tailBelow {
      assert q != 0;
      assert (q - 1) * c == q * c - c;
    }
  }

  /** The finite part of the quotient: how often the divisor's leading coefficient goes into
      the dividend's coefficient at the divisor's leading exponent (0 when there is none), one
      less when it goes exactly but the dividend's lower terms fall below the divisor's. */
  function ConstantCoefficient(matching: Option<nat>, divisorCoef: nat, tailBelow: bool): (k: nat)
    requires divisorCoef > 0 && (matching.Some? ==> matching.value > 0)
    ensures matching.None? ==> k == 0
    ensures matching.Some? ==> k * divisorCoef <= matching.value
    ensures matching.Some? ==>
      (matching.value < (k + 1) * divisorCoef || (tailBelow && matching.value == (k + 1) * divisorCoef))
    ensures matching.Some? && k * divisorCoef == matching.value ==> !tailBelow
  {
    match matching
    case None => 0
    case Some(m) =>
      var k := if m % divisorCoef == 0 && tailBelow then m / divisorCoef - 1 else m / divisorCoef;
      CoefficientBounds(m, divisorCoef, tailBelow, k);
      k
  }

  /** The finite part of the quotient: the divisor's leading coefficient against the
      dividend's coefficient at the divisor's leading exponent, borrowing one when it goes
      exactly and the dividend's lower terms fall below the divisor's. */
  function QuotientConstant(a: Ord, b: Ord): nat
    requires WF(a) && WF(b) && b != Zero
  {
    var divisorExp := b.terms[0].exp;
    var divisorCoef := b.terms[0].coef;
    SuffixWellFormed(b, 1);
    var divisorTail := FromTerms(b.terms[1..]);
    var remaining := Filter(a.terms, NotAbove(divisorExp));
    var matching := Find(remaining, HasExp(divisorExp));
    var dividendTail := FromTerms(Filter(remaining, Below(divisorExp)));
    var matchingCoef := match matching case None => None case Some(m) => assert m in a.terms; Some(m.coef);
    ConstantCoefficient(matchingCoef, divisorCoef, Less(dividendTail, divisorTail))
  }

  /** The quotient computed by div for a non-zero divisor: the dividend's terms above the
      divisor's leading exponent, that exponent subtracted on the left, then the finite part. */
  function Quotient(a: Ord, b: Ord): (r: Ord)
    requires WF(a) && WF(b) && b != Zero
    ensures WF(r)
    ensures Less(a, b) ==> r == Zero
  {
    CmpAntisymmetric(a, b);
    if Cmp(b, a) > 0 then Zero
    else
      var divisorExp := b.terms[0].exp;
      assert b.terms[0] in b.terms;
      var head := Filter(a.terms, Above(divisorExp));
      var quotientHead := SubExps(head, divisorExp);
      var k := QuotientConstant(a, b);
      assert ExpsWF(quotientHead + [Term(Zero, k)]) by { ConstantsWellFormed(); }
      FromTerms(quotientHead + [Term(Zero, k)])
  }

  /** div: a zero divisor is rejected; otherwise the quotient q has b * q <= a < b * q + b
      (see DivisionBounds). */
  function Div(a: Ord, b: Ord): (r: Result<Ord, OrdinalError>)
    requires WF(a) && WF(b)
    ensures r.Err? <==> b == Zero
    ensures r.Err? ==> r.error == DivisionByZero
    ensures r.Ok? ==> WF(r.value)
    ensures r.Ok? ==> !Less(a, Times(b, r.value)) && Less(a, Plus(Times(b, r.value), b))
    ensures b != Zero && Less(a, b) ==> r == Ok(Zero)
  {
    if b == Zero then Err(DivisionByZero)
    else
      DivisionBounds(a, b);
      Ok(Quotient(a, b))
  }

  /** rem: a zero divisor is rejected; a dividend below the divisor is its own remainder;
      otherwise a - b * (a / b), which minus never rejects. The remainder completes the
      division, b * (a / b) + (a % b) == a, and lies below the divisor. */
  function Rem(a: Ord, b: Ord): (r: Result<Ord, OrdinalError>)
    requires WF(a) && WF(b)
    ensures b == Zero ==> r == Err(DivisionByZero)
    ensures b != Zero ==> r.Ok? && WF(r.value) && Less(r.value, b)
    ensures b != Zero ==> Plus(Times(b, Div(a, b).value), r.value) == a
    ensures b != Zero && Less(a, b) ==> r == Ok(a)
  {
    CmpAntisymmetric(a, b);
    if b == Zero then Err(DivisionByZero)
    else if Cmp(b, a) > 0 then Ok(a)
    else
      DivisionBounds(a, b);
      var product := Times(b, Quotient(a, b));
      var r := Minus(a, product);
      RemainderBelow(a, b, product, r.value);
      r
  }


  // ---------------------------------------------------------------------------------------
  // The order read off the coefficients
  // ---------------------------------------------------------------------------------------

  /** xs and ys have the same coefficient at every exponent above e. */
  ghost predicate AgreeAbove(xs: seq<Term>, ys: seq<Term>, e: Ord) {
    forall f | Less(e, f) :: CoefOf(xs, f) == CoefOf(ys, f)
  }

  /** Past their common prefix two lists differ only in their suffixes. */
  lemma SplitAtCommon(x: Ord, y: Ord) returns (n: nat)
    ensures n == CommonLength(x.terms, y.terms)
    ensures forall f :: CoefOf(x.terms, f) == CoefOf(x.terms[..n], f) + CoefOf(x.terms[n..], f) &&
                        CoefOf(y.terms, f) == CoefOf(x.terms[..n], f) + CoefOf(y.terms[n..], f)
  {
    n := CommonLength(x.terms, y.terms);
    assert x.terms == x.terms[..n] + x.terms[n..];
    assert y.terms == y.terms[..n] + y.terms[n..];
    forall f
      ensures CoefOf(x.terms, f) == CoefOf(x.terms[..n], f) + CoefOf(x.terms[n..], f)
      ensures CoefOf(y.terms, f) == CoefOf(x.terms[..n], f) + CoefOf(y.terms[n..], f)
    {
      CoefOfConcat(x.terms[..n], x.terms[n..], f);
      CoefOfConcat(y.terms[..n], y.terms[n..], f);
    }
  }

  /** Two canonical lists that do not start with the same term, agree above e and have the
      smaller coefficient at e on the left: the left one starts lower, or with the same
      exponent and a smaller coefficient. */
  lemma FirstDifference(u: seq<Term>, v: seq<Term>, e: Ord)
    requires Canonical(u) && Canonical(v) && (u != [] && v != [] ==> u[0] != v[0])
    requires AgreeAbove(u, v, e) && CoefOf(u, e) < CoefOf(v, e)
    ensures v != []
    ensures u == [] || Less(u[0].exp, v[0].exp) || (u[0].exp == v[0].exp && u[0].coef < v[0].coef)
  {
    if u != [] && v != [] {
      var ex, ey := u[0].exp, v[0].exp;
      CanonicalHead(u, e);
      CanonicalHead(v, e);
      CanonicalHead(v, ex);
      CmpZero(ex, ey);
      CmpAntisymmetric(ex, ey);
      CmpZero(ex, e);
      CmpAntisymmetric(ex, e);
      if Less(e, ex) {
        assert CoefOf(u, ex) == CoefOf(v, ex);
      }
      if Less(ey, ex) && Less(ex, e) {
        CmpTransitive(ey, ex, e);
      }
    }
  }

  /** Agreement above e and a smaller coefficient at e decide the order. */
  lemma CoefsDecide(x: Ord, y: Ord, e: Ord)
    requires Canonical(x.terms) && Canonical(y.terms)
    requires AgreeAbove(x.terms, y.terms, e) && CoefOf(x.terms, e) < CoefOf(y.terms, e)
    ensures Less(x, y)
  {
    var n := SuffixesDiffer(x, y, e);
    var u, v := x.terms[n..], y.terms[n..];
    FirstDifference(u, v, e);
    CmpAfterPrefix(x, y, n);
    if u != [] {
      assert u[0] == x.terms[n] && v[0] == y.terms[n];
      CmpZero(u[0].exp, v[0].exp);
    }
  }

  /** Agreement above e and the difference at e carry over to the suffixes after the common
      prefix, which do not start with the same term. */
  lemma SuffixesDiffer(x: Ord, y: Ord, e: Ord) returns (n: nat)
    requires Canonical(x.terms) && Canonical(y.terms)
    requires AgreeAbove(x.terms, y.terms, e) && CoefOf(x.terms, e) < CoefOf(y.terms, e)
    ensures n == CommonLength(x.terms, y.terms)
    ensures Canonical(x.terms[n..]) && Canonical(y.terms[n..])
    ensures AgreeAbove(x.terms[n..], y.terms[n..], e) && CoefOf(x.terms[n..], e) < CoefOf(y.terms[n..], e)
    ensures x.terms[n..] != [] && y.terms[n..] != [] ==> x.terms[n..][0] != y.terms[n..][0]
  {
    n := SplitAtCommon(x, y);
    DescendingSlice(x.terms, n, |x.terms|);
    DescendingSlice(y.terms, n, |y.terms|);
  }

  /** Two different canonical lists have an exponent where they differ with agreement above. */
  lemma DistinguishingExp(x: Ord, y: Ord) returns (e: Ord)
    requires Canonical(x.terms) && Canonical(y.terms) && x != y
    ensures AgreeAbove(x.terms, y.terms, e) && CoefOf(x.terms, e) != CoefOf(y.terms, e)
  {
    var n := CommonLength(x.terms, y.terms);
    var u, v := x.terms[n..], y.terms[n..];
    DescendingSlice(x.terms, n, |x.terms|);
    DescendingSlice(y.terms, n, |y.terms|);
    e := SuffixDifference(u, v);
    LiftAgreement(x, y, n, e);
  }

  /** Below a common prefix, agreement above e and a difference at e in the suffixes are
      agreement and a difference in the whole lists. */
  lemma LiftAgreement(x: Ord, y: Ord, n: nat, e: Ord)
    requires n <= |x.terms| && n <= |y.terms| && x.terms[..n] == y.terms[..n]
    requires AgreeAbove(x.terms[n..], y.terms[n..], e) && CoefOf(x.terms[n..], e) != CoefOf(y.terms[n..], e)
    ensures AgreeAbove(x.terms, y.terms, e) && CoefOf(x.terms, e) != CoefOf(y.terms, e)
  {
    assert x.terms == x.terms[..n] + x.terms[n..];
    assert y.terms == y.terms[..n] + y.terms[n..];
    forall f
      ensures CoefOf(x.terms, f) == CoefOf(x.terms[..n], f) + CoefOf(x.terms[n..], f)
      ensures CoefOf(y.terms, f) == CoefOf(x.terms[..n], f) + CoefOf(y.terms[n..], f)
    {
      CoefOfConcat(x.terms[..n], x.terms[n..], f);
      CoefOfConcat(y.terms[..n], y.terms[n..], f);
    }
  }

  lemma SuffixDifference(u: seq<Term>, v: seq<Term>) returns (e: Ord)
    requires Canonical(u) && Canonical(v) && (u == [] ==> v != []) && (u != [] && v != [] ==> u[0] != v[0])
    ensures AgreeAbove(u, v, e) && CoefOf(u, e) != CoefOf(v, e)
  {
    if u == [] || (v != [] && !Less(v[0].exp, u[0].exp)) {
      e := v[0].exp;
      CanonicalHead(v, e);
      forall f | Less(e, f) ensures CoefOf(u, f) == CoefOf(v, f) {
        CanonicalHead(v, f);
        if u != [] {
          CmpOrder(u[0].exp, e, f);
          CmpAntisymmetric(v[0].exp, u[0].exp);
          CanonicalHead(u, f);
        }
      }
      if u != [] {
        CmpZero(u[0].exp, e);
        CmpAntisymmetric(v[0].exp, u[0].exp);
        CanonicalHead(u, e);
      }
    } else {
      e := u[0].exp;
      CanonicalHead(u, e);
      forall f | Less(e, f) ensures CoefOf(u, f) == CoefOf(v, f) {
        CanonicalHead(u, f);
        if v != [] {
          CmpTransitive(v[0].exp, e, f);
          CanonicalHead(v, f);
        }
      }
      if v != [] {
        CanonicalHead(v, e);
      }
    }
  }

  /** x < y is witnessed by an exponent where y has more and above which they agree. */
  lemma LessWitness(x: Ord, y: Ord) returns (e: Ord)
    requires Canonical(x.terms) && Canonical(y.terms) && Less(x, y)
    ensures AgreeAbove(x.terms, y.terms, e) && CoefOf(x.terms, e) < CoefOf(y.terms, e)
  {
    LessIrreflexive(x);
    e := DistinguishingExp(x, y);
    if CoefOf(x.terms, e) > CoefOf(y.terms, e) {
      CoefsDecide(y, x, e);
      CmpAntisymmetric(x, y);
      assert false;
    }
  }

  // ---------------------------------------------------------------------------------------
  // plus is strictly monotone in its right operand, and so is left subtraction
  // ---------------------------------------------------------------------------------------

  /** In a + b, the coefficients of a at f are absorbed: f lies below b's leading exponent. */
  predicate Absorbed(b: Ord, f: Ord) {
    b != Zero && Less(f, b.terms[0].exp)
  }

  /** r has the coefficients of a + b: those of b where a is absorbed, the sums elsewhere. */
  ghost predicate IsSum(a: Ord, b: Ord, r: Ord) {
    forall f :: CoefOf(r.terms, f) ==
      if Absorbed(b, f) then CoefOf(b.terms, f) else CoefOf(a.terms, f) + CoefOf(b.terms, f)
  }

  /** plus computes such a sum, for any b (ZERO included). */
  lemma PlusIsSum(a: Ord, b: Ord)
    requires WF(a) && WF(b)
    ensures IsSum(a, b, Plus(a, b))
  {
  }

  /** Lists that agree above e are absorbed at the same exponents from e up. */
  lemma AbsorbedAgree(p: Ord, q: Ord, e: Ord, f: Ord)
    requires Canonical(p.terms) && Canonical(q.terms) && AgreeAbove(p.terms, q.terms, e)
    requires !Less(f, e) && Absorbed(p, f)
    ensures Absorbed(q, f)
  {
    var p0 := p.terms[0].exp;
    CmpAntisymmetric(f, e);
    CmpOrder(e, f, p0);
    CanonicalHead(p.terms, p0);
    assert CoefOf(q.terms, p0) == CoefOf(p.terms, p0);
    if q != Zero && !Less(f, q.terms[0].exp) {
      CmpAntisymmetric(f, q.terms[0].exp);
      CmpOrder(q.terms[0].exp, f, p0);
      CanonicalHead(q.terms, p0);
      assert false;
    }
  }

  /** Sums with a common left operand agree wherever their right operands agree from e up. */
  lemma SumsAgreeAbove(a: Ord, p: Ord, q: Ord, x: Ord, y: Ord, e: Ord)
    requires Canonical(p.terms) && Canonical(q.terms) && AgreeAbove(p.terms, q.terms, e)
    requires IsSum(a, p, x) && IsSum(a, q, y)
    ensures AgreeAbove(x.terms, y.terms, e)
  {
    forall f | Less(e, f)
      ensures CoefOf(x.terms, f) == CoefOf(y.terms, f)
    {
      CmpAntisymmetric(e, f);
      if Absorbed(p, f) {
        AbsorbedAgree(p, q, e, f);
      }
      if Absorbed(q, f) {
        AbsorbedAgree(q, p, e, f);
      }
    }
  }

  /** ... and the sum with the larger right operand at e is larger at e. */
  lemma SumsDifferAt(a: Ord, p: Ord, q: Ord, x: Ord, y: Ord, e: Ord)
    requires Canonical(p.terms) && Canonical(q.terms) && AgreeAbove(p.terms, q.terms, e)
    requires CoefOf(p.terms, e) < CoefOf(q.terms, e)
    requires IsSum(a, p, x) && IsSum(a, q, y)
    ensures CoefOf(x.terms, e) < CoefOf(y.terms, e)
  {
    LessIrreflexive(e);
    if Absorbed(p, e) {
      AbsorbedAgree(p, q, e, e);
    }
    if Absorbed(q, e) {
      AbsorbedAgree(q, p, e, e);
    }
  }

  /** p < q implies a + p < a + q. */
  lemma PlusStrictlyMonotone(a: Ord, p: Ord, q: Ord)
    requires WF(a) && WF(p) && WF(q) && Less(p, q)
    ensures Less(Plus(a, p), Plus(a, q))
  {
    var e := LessWitness(p, q);
    var x, y := Plus(a, p), Plus(a, q);
    PlusIsSum(a, p);
    PlusIsSum(a, q);
    SumsAgreeAbove(a, p, q, x, y, e);
    SumsDifferAt(a, p, q, x, y, e);
    CoefsDecide(x, y, e);
  }

  /** x - beta is never ZERO for x above beta. */
  lemma SubAboveNonZero(x: Ord, beta: Ord)
    requires WF(x) && WF(beta) && Cmp(x, beta) > 0
    ensures Sub(x, beta) != Zero
  {
    PlusSubInverse(x, beta);
    CmpZero(x, beta);
  }

  /** Left subtraction of beta is strictly monotone on the ordinals above beta. */
  lemma SubStrictlyMonotone(x: Ord, y: Ord, beta: Ord)
    requires WF(x) && WF(y) && WF(beta) && Cmp(x, beta) > 0 && Cmp(y, beta) > 0 && Less(y, x)
    ensures Less(Sub(y, beta), Sub(x, beta))
  {
    var sx, sy := Sub(x, beta), Sub(y, beta);
    PlusSubInverse(x, beta);
    PlusSubInverse(y, beta);
    CmpZero(sx, sy);
    CmpAntisymmetric(sx, sy);
    CmpAntisymmetric(x, y);
    LessIrreflexive(x);
    if !Less(sy, sx) {
      if sx != sy {
        PlusStrictlyMonotone(beta, sx, sy);
      }
      assert false;
    }
  }

  // ---------------------------------------------------------------------------------------
  // The shape of the quotient
  // ---------------------------------------------------------------------------------------

  lemma {:induction false} FilterAll(ts: seq<Term>, keep: Term -> bool)
    requires forall j | 0 <= j < |ts| :: keep(ts[j])
    ensures Filter(ts, keep) == ts
    decreases |ts|
  {
    if ts != [] {
      var rest := ts[1..];
      assert forall j | 0 <= j < |rest| :: rest[j] == ts[j + 1];
      FilterAll(rest, keep);
      assert Filter(ts, keep) == [ts[0]] + Filter(rest, keep);
      assert ts == [ts[0]] + rest;
    }
  }

  lemma {:induction false} FilterNone(ts: seq<Term>, keep: Term -> bool)
    requires forall j | 0 <= j < |ts| :: !keep(ts[j])
    ensures Filter(ts, keep) == []
    decreases |ts|
  {
    if ts != [] {
      FilterNone(ts[1..], keep);
    }
  }

  /** partition { it.exponent > e } on a descending list cuts it in two at one position. */
  lemma {:induction false} ThresholdSplit(ts: seq<Term>, e: Ord) returns (i: nat)
    requires Descending(ts)
    ensures i <= |ts|
    ensures Filter(ts, Above(e)) == ts[..i] && Filter(ts, NotAbove(e)) == ts[i..]
    ensures i < |ts| ==> Cmp(ts[i].exp, e) <= 0
    decreases |ts|
  {
    if ts == [] {
      i := 0;
    } else if Cmp(ts[0].exp, e) > 0 {
      DescendingSlice(ts, 1, |ts|);
      var j := ThresholdSplit(ts[1..], e);
      i := j + 1;
      SplitStep(ts, e, j);
    } else {
      i := 0;
      NothingAbove(ts, e);
    }
  }

  /** A leading term above e joins the part above e. */
  lemma SplitStep(ts: seq<Term>, e: Ord, j: nat)
    requires ts != [] && Cmp(ts[0].exp, e) > 0 && j <= |ts| - 1
    requires Filter(ts[1..], Above(e)) == ts[1..][..j] && Filter(ts[1..], NotAbove(e)) == ts[1..][j..]
    requires j < |ts| - 1 ==> Cmp(ts[1..][j].exp, e) <= 0
    ensures Filter(ts, Above(e)) == ts[..j + 1] && Filter(ts, NotAbove(e)) == ts[j + 1..]
    ensures j + 1 < |ts| ==> Cmp(ts[j + 1].exp, e) <= 0
  {
    assert ts[..j + 1] == [ts[0]] + ts[1..][..j];
    assert ts[j + 1..] == ts[1..][j..];
  }

  /** A descending list that starts at or below e has nothing above e. */
  lemma NothingAbove(ts: seq<Term>, e: Ord)
    requires Descending(ts) && ts != [] && Cmp(ts[0].exp, e) <= 0
    ensures Filter(ts, Above(e)) == [] && Filter(ts, NotAbove(e)) == ts
  {
    forall j | 0 <= j < |ts|
      ensures Cmp(ts[j].exp, e) <= 0
    {
      if j > 0 {
        DescendingPairwise(ts, 0, j);
        CmpOrder(ts[j].exp, ts[0].exp, e);
      }
    }
    FilterAll(ts, NotAbove(e));
    FilterNone(ts, Above(e));
  }

  /** Below the cut, only the first term can have exponent e: it is what find returns, and
      the terms below e are the ones after it. */
  lemma RemainderParts(rest: seq<Term>, e: Ord)
    requires Descending(rest) && (rest != [] ==> Cmp(rest[0].exp, e) <= 0)
    ensures rest != [] && rest[0].exp == e ==>
      Find(rest, HasExp(e)) == Some(rest[0]) && Filter(rest, Below(e)) == rest[1..]
    ensures !(rest != [] && rest[0].exp == e) ==>
      Find(rest, HasExp(e)) == None && Filter(rest, Below(e)) == rest
  {
    forall j | 0 < j < |rest|
      ensures Cmp(rest[j].exp, e) < 0
    {
      DescendingPairwise(rest, 0, j);
      CmpOrder(rest[j].exp, rest[0].exp, e);
    }
    if rest != [] {
      CmpZero(rest[0].exp, e);
      if rest[0].exp == e {
        FilterAll(rest[1..], Below(e));
      } else {
        forall j | 0 <= j < |rest|
          ensures rest[j].exp != e
        {
          CmpZero(rest[j].exp, e);
        }
        FilterAll(rest, Below(e));
      }
    }
  }

  /** The matching coefficient, if any, that div finds at exponent e after the cut at i. */
  function MatchAt(ts: seq<Term>, i: nat, e: Ord): Option<nat> {
    if i < |ts| && ts[i].exp == e then Some(ts[i].coef) else None
  }

  /** The dividend's terms below e after the cut at i: those after the matching term, if any. */
  function TailAfter(ts: seq<Term>, i: nat, e: Ord): seq<Term>
    requires i <= |ts|
  {
    if i < |ts| && ts[i].exp == e then ts[i + 1..] else ts[i..]
  }

  /** What find and the dividend's tail come to after the cut at i. */
  lemma DividendTail(a: Ord, i: nat, e: Ord)
    requires WF(a) && i <= |a.terms| && (i < |a.terms| ==> Cmp(a.terms[i].exp, e) <= 0)
    ensures Find(a.terms[i..], HasExp(e)) == if i < |a.terms| && a.terms[i].exp == e then Some(a.terms[i]) else None
    ensures FromTerms(Filter(a.terms[i..], Below(e))) == Ord(TailAfter(a.terms, i, e))
  {
    var rest := a.terms[i..];
    DescendingSlice(a.terms, i, |a.terms|);
    RemainderParts(rest, e);
    if i < |a.terms| && a.terms[i].exp == e {
      SuffixWellFormed(a, i + 1);
      assert rest[1..] == a.terms[i + 1..];
    } else {
      SuffixWellFormed(a, i);
    }
    FromTermsOfCanonical(TailAfter(a.terms, i, e));
  }

  /** The finite part of the quotient, with find and the tails worked out from the cut at i. */
  lemma QuotientConstantIs(a: Ord, b: Ord, i: nat)
    requires WF(a) && WF(b) && b != Zero
    requires i <= |a.terms| && Filter(a.terms, NotAbove(b.terms[0].exp)) == a.terms[i..]
    requires i < |a.terms| ==> Cmp(a.terms[i].exp, b.terms[0].exp) <= 0
    ensures MatchAt(a.terms, i, b.terms[0].exp).Some? ==> MatchAt(a.terms, i, b.terms[0].exp).value > 0
    ensures QuotientConstant(a, b) == ConstantCoefficient(MatchAt(a.terms, i, b.terms[0].exp), b.terms[0].coef,
              Less(Ord(TailAfter(a.terms, i, b.terms[0].exp)), Ord(b.terms[1..])))
  {
    DividendTail(a, i, b.terms[0].exp);
    SuffixWellFormed(b, 1);
    FromTermsOfCanonical(b.terms[1..]);
    if i < |a.terms| {
      assert a.terms[i] in a.terms;
    }
  }


  /** Every term of ts lies strictly above e. */
  predicate AllAbove(ts: seq<Term>, e: Ord) {
    forall t | t in ts :: Cmp(t.exp, e) > 0
  }

  /** Every term of ts lies strictly below e. */
  predicate AllBelow(ts: seq<Term>, e: Ord) {
    forall t | t in ts :: Less(t.exp, e)
  }

  lemma AllAboveAtLeast(ts: seq<Term>, e: Ord)
    requires AllAbove(ts, e)
    ensures forall t | t in ts :: !Less(t.exp, e)
  {
    forall t | t in ts ensures !Less(t.exp, e) {
      CmpAntisymmetric(t.exp, e);
    }
  }

  /** ZERO lies below every other ordinal. */
  lemma ZeroBelow(x: Ord)
    requires x != Zero
    ensures Less(Zero, x)
  {
    assert Cmp(Zero, x) == CmpFrom(Zero, x, 0);
  }

  lemma {:induction false} SubExpsAt(ts: seq<Term>, e: Ord, j: nat)
    requires WF(e) && forall t | t in ts :: WF(t.exp) && !Less(t.exp, e)
    requires j < |ts|
    ensures WF(ts[j].exp) && SubExps(ts, e)[j] == Term(Sub(ts[j].exp, e), ts[j].coef)
    decreases j
  {
    assert ts[j] in ts;
    SubExpsUnfold(ts, e);
    if j > 0 {
      SubExpsAt(ts[1..], e, j - 1);
      assert ts[1..][j - 1] == ts[j];
    }
  }

  lemma SubExpsUnfold(ts: seq<Term>, e: Ord)
    requires WF(e) && (forall t | t in ts :: WF(t.exp) && !Less(t.exp, e)) && ts != []
    ensures ts[0] in ts && forall t | t in ts[1..] :: t in ts
    ensures SubExps(ts, e) == [Term(Sub(ts[0].exp, e), ts[0].coef)] + SubExps(ts[1..], e)
  {
    assert ts[0] in ts && forall t | t in ts[1..] :: t in ts;
  }

  lemma {:induction false} ShiftAt(e: Ord, ts: seq<Term>, j: nat)
    requires WF(e) && ExpsWF(ts) && j < |ts|
    ensures WF(ts[j].exp) && Shift(e, ts)[j] == Term(Plus(e, ts[j].exp), ts[j].coef)
    decreases j
  {
    assert ts[j] in ts;
    ShiftUnfold(e, ts);
    if j > 0 {
      ShiftAt(e, ts[1..], j - 1);
      assert ts[1..][j - 1] == ts[j];
    }
  }

  lemma ShiftUnfold(e: Ord, ts: seq<Term>)
    requires WF(e) && ExpsWF(ts) && ts != []
    ensures ts[0] in ts && forall t | t in ts[1..] :: t in ts
    ensures Shift(e, ts) == [Term(Plus(e, ts[0].exp), ts[0].coef)] + Shift(e, ts[1..])
  {
    assert ts[0] in ts && forall t | t in ts[1..] :: t in ts;
  }

  /** Subtracting e from exponents that all lie above e keeps a list canonical, leaves no
      exponent ZERO, and shifting by e again gives the list back. */
  lemma QuotientHead(head: seq<Term>, e: Ord)
    requires WF(e) && Canonical(head) && ExpsWF(head) && AllAbove(head, e)
    ensures forall t | t in head :: WF(t.exp) && !Less(t.exp, e)
    ensures Canonical(SubExps(head, e)) && NoExp(SubExps(head, e), Zero)
    ensures Shift(e, SubExps(head, e)) == head
  {
    AllAboveAtLeast(head, e);
    var r := SubExps(head, e);
    forall j | 0 <= j < |r|
      ensures r[j].exp != Zero && r[j].coef > 0
    {
      SubExpsNonZero(head, e, j);
    }
    forall j | 0 < j < |r|
      ensures Less(r[j].exp, r[j - 1].exp)
    {
      SubExpsStep(head, e, j);
    }
    forall j | 0 <= j < |head|
      ensures Shift(e, r)[j] == head[j]
    {
      ShiftSubExpsAt(head, e, j);
    }
  }

  lemma SubExpsNonZero(head: seq<Term>, e: Ord, j: nat)
    requires WF(e) && Canonical(head) && ExpsWF(head) && AllAbove(head, e)
    requires forall t | t in head :: WF(t.exp) && !Less(t.exp, e)
    requires j < |head|
    ensures SubExps(head, e)[j].exp != Zero && SubExps(head, e)[j].coef > 0
  {
    SubExpsAt(head, e, j);
    assert head[j] in head;
    SubAboveNonZero(head[j].exp, e);
  }

  lemma SubExpsStep(head: seq<Term>, e: Ord, j: nat)
    requires WF(e) && Canonical(head) && AllAbove(head, e)
    requires forall t | t in head :: WF(t.exp) && !Less(t.exp, e)
    requires 0 < j < |head|
    ensures Less(SubExps(head, e)[j].exp, SubExps(head, e)[j - 1].exp)
  {
    SubExpsAt(head, e, j);
    SubExpsAt(head, e, j - 1);
    AdjacentAbove(head, e, j);
    SubStrictlyMonotone(head[j - 1].exp, head[j].exp, e);
  }

  lemma AdjacentAbove(head: seq<Term>, e: Ord, j: nat)
    requires Canonical(head) && AllAbove(head, e)
    requires forall t | t in head :: WF(t.exp) && !Less(t.exp, e)
    requires 0 < j < |head|
    ensures WF(head[j - 1].exp) && WF(head[j].exp)
    ensures Cmp(head[j - 1].exp, e) > 0 && Cmp(head[j].exp, e) > 0
    ensures Less(head[j].exp, head[j - 1].exp)
  {
    assert head[j] in head && head[j - 1] in head;
  }

  lemma ShiftSubExpsAt(head: seq<Term>, e: Ord, j: nat)
    requires WF(e) && forall t | t in head :: WF(t.exp) && !Less(t.exp, e)
    requires j < |head|
    ensures Shift(e, SubExps(head, e))[j] == head[j]
  {
    SubExpsAt(head, e, j);
    ShiftAt(e, SubExps(head, e), j);
    assert head[j] in head;
    PlusSubInverse(head[j].exp, e);
  }

  /** A positive finite term after a canonical list without exponent ZERO keeps it canonical. */
  lemma AppendFinite(qh: seq<Term>, k: nat)
    requires Canonical(qh) && NoExp(qh, Zero) && k > 0
    ensures Canonical(qh + [Term(Zero, k)])
  {
    var r := qh + [Term(Zero, k)];
    forall j | 0 < j < |r|
      ensures Less(r[j].exp, r[j - 1].exp)
    {
      if j < |qh| {
        assert r[j] == qh[j] && r[j - 1] == qh[j - 1];
      } else {
        ZeroBelow(qh[j - 1].exp);
      }
    }
  }

  /** A term with coefficient 0 adds nothing. */
  lemma DropEmptyTerm(ts: seq<Term>, e: Ord)
    ensures SameCoefs(ts + [Term(e, 0)], ts)
  {
    forall f ensures CoefOf(ts + [Term(e, 0)], f) == CoefOf(ts, f) {
      CoefOfConcat(ts, [Term(e, 0)], f);
      CoefOfCons(Term(e, 0), [], f);
    }
  }

  /** A list without exponent ZERO, followed by the finite part k when it is positive. */
  function WithFinite(qh: seq<Term>, k: nat): seq<Term> {
    qh + if k > 0 then [Term(Zero, k)] else []
  }

  /** fromTerms leaves such a list as it is, a zero finite part dropped. */
  lemma WithFiniteNormal(qh: seq<Term>, k: nat)
    requires Canonical(qh) && NoExp(qh, Zero)
    ensures FromTerms(qh + [Term(Zero, k)]).terms == WithFinite(qh, k)
  {
    if k > 0 {
      FiniteAppended(qh, k);
    } else {
      EmptyAppended(qh, k);
    }
  }

  lemma FiniteAppended(qh: seq<Term>, k: nat)
    requires Canonical(qh) && NoExp(qh, Zero) && k > 0
    ensures FromTerms(qh + [Term(Zero, k)]).terms == qh + [Term(Zero, k)]
  {
    AppendFinite(qh, k);
    FromTermsOfCanonical(qh + [Term(Zero, k)]);
  }

  lemma EmptyAppended(qh: seq<Term>, k: nat)
    requires Canonical(qh) && k == 0
    ensures FromTerms(qh + [Term(Zero, k)]).terms == qh
  {
    DropEmptyTerm(qh, Zero);
    FromTermsOfSameCoefs(qh + [Term(Zero, 0)], qh);
    FromTermsOfCanonical(qh);
  }

  /** For a >= b, div keeps the terms before the cut at i with the divisor's leading exponent
      subtracted, and appends its finite part. */
  lemma QuotientUnfold(a: Ord, b: Ord, i: nat)
    requires WF(a) && WF(b) && b != Zero && !Less(a, b) && WF(b.terms[0].exp)
    requires i <= |a.terms| && Filter(a.terms, Above(b.terms[0].exp)) == a.terms[..i]
    requires forall t | t in a.terms[..i] :: WF(t.exp) && !Less(t.exp, b.terms[0].exp)
    ensures Quotient(a, b) ==
      FromTerms(SubExps(a.terms[..i], b.terms[0].exp) + [Term(Zero, QuotientConstant(a, b))])
  {
    CmpAntisymmetric(a, b);
  }

  /** For a >= b: the cut at i, the finite part k, and the terms of the quotient. */
  lemma QuotientShape(a: Ord, b: Ord) returns (i: nat, k: nat)
    requires WF(a) && WF(b) && b != Zero && !Less(a, b)
    ensures WF(b.terms[0].exp) && i <= |a.terms| && AllAbove(a.terms[..i], b.terms[0].exp)
    ensures i < |a.terms| ==> Cmp(a.terms[i].exp, b.terms[0].exp) <= 0
    ensures MatchAt(a.terms, i, b.terms[0].exp).Some? ==> MatchAt(a.terms, i, b.terms[0].exp).value > 0
    ensures k == ConstantCoefficient(MatchAt(a.terms, i, b.terms[0].exp), b.terms[0].coef,
              Less(Ord(TailAfter(a.terms, i, b.terms[0].exp)), Ord(b.terms[1..])))
    ensures forall t | t in a.terms[..i] :: WF(t.exp) && !Less(t.exp, b.terms[0].exp)
    ensures Canonical(SubExps(a.terms[..i], b.terms[0].exp)) && NoExp(SubExps(a.terms[..i], b.terms[0].exp), Zero)
    ensures Shift(b.terms[0].exp, SubExps(a.terms[..i], b.terms[0].exp)) == a.terms[..i]
    ensures Quotient(a, b).terms == WithFinite(SubExps(a.terms[..i], b.terms[0].exp), k)
  {
    var e := b.terms[0].exp;
    assert b.terms[0] in b.terms;
    i := ThresholdSplit(a.terms, e);
    QuotientConstantIs(a, b, i);
    k := QuotientConstant(a, b);
    var head := a.terms[..i];
    DescendingSlice(a.terms, 0, i);
    assert forall t | t in head :: t in a.terms;
    QuotientHead(head, e);
    QuotientUnfold(a, b, i);
    WithFiniteNormal(SubExps(head, e), k);
  }

  /** Dropping the last term, the only one filter removes. */
  lemma {:induction false} FilterLast(ts: seq<Term>, t: Term, keep: Term -> bool)
    requires (forall j | 0 <= j < |ts| :: keep(ts[j])) && !keep(t)
    ensures Filter(ts + [t], keep) == ts
    decreases |ts|
  {
    if ts == [] {
      assert Filter([t][1..], keep) == [];
    } else {
      assert (ts + [t])[1..] == ts[1..] + [t];
      FilterLast(ts[1..], t, keep);
    }
  }

  /** times with a multiplier that ends in a finite part k: the limit part shifted, then b's
      leading term scaled by k, then b's other terms. */
  lemma ProductTermsFinite(b: Ord, q: Ord, qh: seq<Term>, k: nat, ck: nat)
    requires WF(b) && WF(q) && b != Zero && WF(b.terms[0].exp)
    requires ExpsWF(qh) && NoExp(qh, Zero) && k > 0 && q.terms == qh + [Term(Zero, k)]
    requires ck == b.terms[0].coef * k
    ensures ProductTerms(b, q) == Shift(b.terms[0].exp, qh) + [Term(b.terms[0].exp, ck)] + b.terms[1..]
  {
    assert q.terms[|q.terms| - 1] == Term(Zero, k);
    FilterLast(qh, Term(Zero, k), LacksExp(Zero));
  }

  /** times with a multiplier without a finite part: its terms shifted. */
  lemma ProductTermsLimit(b: Ord, q: Ord)
    requires WF(b) && WF(q) && b != Zero && q != Zero && WF(b.terms[0].exp) && NoExp(q.terms, Zero)
    ensures ProductTerms(b, q) == Shift(b.terms[0].exp, q.terms)
  {
  }

  /** b times such a quotient has the head back above b's leading exponent e, c * k at e, and
      b's lower terms below e when k is positive. */
  lemma ProductShape(b: Ord, q: Ord, head: seq<Term>, qh: seq<Term>, k: nat, ck: nat)
    requires WF(b) && WF(q) && b != Zero && WF(b.terms[0].exp)
    requires ExpsWF(qh) && NoExp(qh, Zero) && Shift(b.terms[0].exp, qh) == head
    requires q.terms == WithFinite(qh, k) && ck == if k > 0 then b.terms[0].coef * k else 0
    ensures SameCoefs(Times(b, q).terms, head + [Term(b.terms[0].exp, ck)] + if k > 0 then b.terms[1..] else [])
  {
    if k > 0 {
      ProductWithFinite(b, q, head, qh, k, ck);
    } else {
      ProductByLimit(b, q, head, qh, ck);
    }
  }

  lemma ProductWithFinite(b: Ord, q: Ord, head: seq<Term>, qh: seq<Term>, k: nat, ck: nat)
    requires WF(b) && WF(q) && b != Zero && WF(b.terms[0].exp)
    requires ExpsWF(qh) && NoExp(qh, Zero) && Shift(b.terms[0].exp, qh) == head
    requires k > 0 && q.terms == qh + [Term(Zero, k)] && ck == b.terms[0].coef * k
    ensures SameCoefs(Times(b, q).terms, head + [Term(b.terms[0].exp, ck)] + b.terms[1..])
  {
    ProductTermsFinite(b, q, qh, k, ck);
    ProductOfNonZero(b, q);
  }

  lemma ProductOfNonZero(b: Ord, q: Ord)
    requires WF(b) && WF(q) && b != Zero && q != Zero
    ensures SameCoefs(Times(b, q).terms, ProductTerms(b, q))
  {
  }

  /** ... and only the head when there is no finite part. */
  lemma ProductByLimit(b: Ord, q: Ord, head: seq<Term>, qh: seq<Term>, ck: nat)
    requires WF(b) && WF(q) && b != Zero && WF(b.terms[0].exp)
    requires ExpsWF(qh) && NoExp(qh, Zero) && Shift(b.terms[0].exp, qh) == head && q.terms == qh && ck == 0
    ensures SameCoefs(Times(b, q).terms, head + [Term(b.terms[0].exp, ck)] + [])
  {
    DropEmptyTerm(head, b.terms[0].exp);
    assert head + [Term(b.terms[0].exp, ck)] + [] == head + [Term(b.terms[0].exp, 0)];
    if q != Zero {
      ProductTermsLimit(b, q);
      ProductOfNonZero(b, q);
    }
  }

  // ---------------------------------------------------------------------------------------
  // b * (a / b) <= a < b * (a / b) + b
  // ---------------------------------------------------------------------------------------

  /** xs has the coefficients of head above e, m at e, and those of tail below e. */
  ghost predicate Around(xs: seq<Term>, head: seq<Term>, e: Ord, m: nat, tail: seq<Term>) {
    forall f :: CoefOf(xs, f) == if Less(e, f) then CoefOf(head, f) else if f == e then m else CoefOf(tail, f)
  }

  lemma BelowMisses(tail: seq<Term>, e: Ord, f: Ord)
    requires AllBelow(tail, e) && !Less(f, e)
    ensures CoefOf(tail, f) == 0
  {
    forall j | 0 <= j < |tail| ensures tail[j].exp != f {
      assert tail[j] in tail;
    }
    CoefOfNoExp(tail, f);
  }

  lemma AboveMisses(head: seq<Term>, e: Ord, f: Ord)
    requires AllAbove(head, e) && !Less(e, f)
    ensures CoefOf(head, f) == 0
  {
    forall j | 0 <= j < |head| ensures head[j].exp != f {
      assert head[j] in head;
      CmpAntisymmetric(f, e);
    }
    CoefOfNoExp(head, f);
  }

  /** A list cut into terms above e, terms at e and terms below e. */
  lemma AroundConcat(head: seq<Term>, mid: seq<Term>, tail: seq<Term>, e: Ord)
    requires AllAbove(head, e) && AllBelow(tail, e) && forall t | t in mid :: t.exp == e
    ensures Around(head + mid + tail, head, e, CoefOf(mid, e), tail)
  {
    LessIrreflexive(e);
    forall f
      ensures CoefOf(head + mid + tail, f) ==
        if Less(e, f) then CoefOf(head, f) else if f == e then CoefOf(mid, e) else CoefOf(tail, f)
    {
      CoefOfConcat(head + mid, tail, f);
      CoefOfConcat(head, mid, f);
      if f != e {
        forall j | 0 <= j < |mid| ensures mid[j].exp != f {
          assert mid[j] in mid;
        }
        CoefOfNoExp(mid, f);
      }
      if Less(e, f) {
        CmpAntisymmetric(e, f);
        BelowMisses(tail, e, f);
      } else {
        AboveMisses(head, e, f);
        if f == e {
          BelowMisses(tail, e, f);
        }
      }
    }
  }

  /** The coefficient of a at e after the cut at i. */
  function MatchCoef(ts: seq<Term>, i: nat, e: Ord): nat {
    if i < |ts| && ts[i].exp == e then ts[i].coef else 0
  }

  /** The dividend around the divisor's leading exponent e. */
  lemma DividendAround(a: Ord, i: nat, e: Ord)
    requires WF(a) && i <= |a.terms| && AllAbove(a.terms[..i], e)
    requires i < |a.terms| ==> Cmp(a.terms[i].exp, e) <= 0
    ensures Canonical(TailAfter(a.terms, i, e)) && AllBelow(TailAfter(a.terms, i, e), e)
    ensures Around(a.terms, a.terms[..i], e, MatchCoef(a.terms, i, e), TailAfter(a.terms, i, e))
  {
    var ts := a.terms;
    var tail := TailAfter(ts, i, e);
    TailBelow(ts, i, e);
    DescendingSlice(ts, |ts| - |tail|, |ts|);
    var mid := CutInThree(ts, i, e);
    AroundConcat(ts[..i], mid, tail, e);
  }

  /** The list is its part above the cut, the matching term if any, and the rest. */
  lemma CutInThree(ts: seq<Term>, i: nat, e: Ord) returns (mid: seq<Term>)
    requires i <= |ts|
    ensures ts == ts[..i] + mid + TailAfter(ts, i, e)
    ensures (forall t | t in mid :: t.exp == e) && CoefOf(mid, e) == MatchCoef(ts, i, e)
  {
    if i < |ts| && ts[i].exp == e {
      mid := [ts[i]];
      CoefOfCons(ts[i], [], e);
      assert [ts[i]] + [] == mid;
      assert ts == ts[..i] + mid + ts[i + 1..];
    } else {
      mid := [];
      assert ts == ts[..i] + mid + ts[i..];
    }
  }


  /** After the cut, everything past the matching term lies below e. */
  lemma TailBelow(ts: seq<Term>, i: nat, e: Ord)
    requires Descending(ts) && i <= |ts| && (i < |ts| ==> Cmp(ts[i].exp, e) <= 0)
    ensures AllBelow(TailAfter(ts, i, e), e) && TailAfter(ts, i, e) == ts[|ts| - |TailAfter(ts, i, e)|..]
  {
    var j0 := if i < |ts| && ts[i].exp == e then i + 1 else i;
    var tail := ts[j0..];
    forall t | t in tail ensures Less(t.exp, e) {
      var j :| j0 <= j < |ts| && ts[j] == t;
      CmpZero(ts[i].exp, e);
      if j > i {
        DescendingPairwise(ts, i, j);
        CmpOrder(ts[j].exp, ts[i].exp, e);
      }
    }
  }

  /** Lists alike above e are ordered by their coefficients at e, then by their terms below e. */
  lemma AroundLess(x: Ord, y: Ord, head: seq<Term>, e: Ord, m1: nat, t1: seq<Term>, m2: nat, t2: seq<Term>)
    requires Canonical(x.terms) && Canonical(y.terms) && Canonical(t1) && Canonical(t2) && AllBelow(t2, e)
    requires Around(x.terms, head, e, m1, t1) && Around(y.terms, head, e, m2, t2)
    requires m1 < m2 || (m1 == m2 && Less(Ord(t1), Ord(t2)))
    ensures Less(x, y)
  {
    LessIrreflexive(e);
    if m1 < m2 {
      CoefsDecide(x, y, e);
    } else {
      var g := LessWitness(Ord(t1), Ord(t2));
      var j := CoefOfPositive(t2, g);
      assert t2[j] in t2;
      CmpAntisymmetric(g, e);
      forall f | Less(g, f) ensures CoefOf(x.terms, f) == CoefOf(y.terms, f) {
      }
      CoefsDecide(x, y, g);
    }
  }

  /** ... and one of them is not below the other when the comparison at e and below allows. */
  lemma AroundNotLess(x: Ord, y: Ord, head: seq<Term>, e: Ord, m1: nat, t1: seq<Term>, m2: nat, t2: seq<Term>)
    requires Canonical(x.terms) && Canonical(y.terms) && Canonical(t1) && Canonical(t2) && AllBelow(t2, e)
    requires Around(x.terms, head, e, m1, t1) && Around(y.terms, head, e, m2, t2)
    requires m1 < m2 || (m1 == m2 && !Less(Ord(t2), Ord(t1)))
    ensures !Less(y, x)
  {
    if m1 == m2 && t1 == t2 {
      CanonicalUnique(x.terms, y.terms);
      LessIrreflexive(x);
    } else {
      CmpZero(Ord(t2), Ord(t1));
      CmpAntisymmetric(Ord(t1), Ord(t2));
      AroundLess(x, y, head, e, m1, t1, m2, t2);
      CmpAntisymmetric(x, y);
    }
  }

  /** Adding b, whose leading term is (e, c), adds c at e and replaces everything below e. */
  lemma SumAround(p: Ord, b: Ord, s: Ord, head: seq<Term>, m: nat, ptail: seq<Term>)
    requires b != Zero && IsSum(p, b, s)
    requires Around(p.terms, head, b.terms[0].exp, m, ptail)
    requires Around(b.terms, [], b.terms[0].exp, b.terms[0].coef, b.terms[1..])
    ensures Around(s.terms, head, b.terms[0].exp, m + b.terms[0].coef, b.terms[1..])
  {
    var e := b.terms[0].exp;
    forall f
      ensures CoefOf(s.terms, f) ==
        if Less(e, f) then CoefOf(head, f) else if f == e then m + b.terms[0].coef else CoefOf(b.terms[1..], f)
    {
      CmpZero(f, e);
      CmpAntisymmetric(f, e);
    }
  }

  /** The dividend and the product b * (a / b) around the divisor's leading exponent. */
  lemma ProductAround(a: Ord, b: Ord) returns (i: nat, k: nat, ck: nat)
    requires WF(a) && WF(b) && b != Zero && !Less(a, b)
    ensures WF(Times(b, Quotient(a, b)))
    ensures MatchAt(a.terms, i, b.terms[0].exp).Some? ==> MatchAt(a.terms, i, b.terms[0].exp).value > 0
    ensures i <= |a.terms| && ck == (if k > 0 then b.terms[0].coef * k else 0) &&
      k == ConstantCoefficient(MatchAt(a.terms, i, b.terms[0].exp), b.terms[0].coef,
             Less(Ord(TailAfter(a.terms, i, b.terms[0].exp)), Ord(b.terms[1..])))
    ensures MatchCoef(a.terms, i, b.terms[0].exp) == match MatchAt(a.terms, i, b.terms[0].exp)
      case None => 0 case Some(m) => m
    ensures Canonical(TailAfter(a.terms, i, b.terms[0].exp)) && AllBelow(TailAfter(a.terms, i, b.terms[0].exp), b.terms[0].exp)
    ensures Canonical(b.terms[1..]) && AllBelow(b.terms[1..], b.terms[0].exp)
    ensures Around(a.terms, a.terms[..i], b.terms[0].exp, MatchCoef(a.terms, i, b.terms[0].exp),
                   TailAfter(a.terms, i, b.terms[0].exp))
    ensures Around(Times(b, Quotient(a, b)).terms, a.terms[..i], b.terms[0].exp, ck,
                   if k > 0 then b.terms[1..] else [])
    ensures Around(b.terms, [], b.terms[0].exp, b.terms[0].coef, b.terms[1..])
  {
    var e, c := b.terms[0].exp, b.terms[0].coef;
    i, k := QuotientShape(a, b);
    var head := a.terms[..i];
    DescendingSlice(a.terms, 0, i);
    DivisorAround(b);
    if k > 0 {
      MulPositive(c, k);
      ck := c * k;
    } else {
      ck := 0;
    }
    ProductAroundOf(b, Quotient(a, b), head, SubExps(head, e), k, ck);
    DividendAround(a, i, e);
  }

  /** The divisor around its own leading exponent. */
  lemma DivisorAround(b: Ord)
    requires WF(b) && b != Zero
    ensures Canonical(b.terms[1..]) && AllBelow(b.terms[1..], b.terms[0].exp)
    ensures Around(b.terms, [], b.terms[0].exp, b.terms[0].coef, b.terms[1..])
  {
    var e := b.terms[0].exp;
    SuffixWellFormed(b, 1);
    forall t | t in b.terms[1..] ensures Less(t.exp, e) {
      var j :| 1 <= j < |b.terms| && b.terms[j] == t;
      DescendingPairwise(b.terms, 0, j);
    }
    assert b.terms == [] + [b.terms[0]] + b.terms[1..];
    AroundConcat([], [b.terms[0]], b.terms[1..], e);
    CoefOfCons(b.terms[0], [], e);
    assert [b.terms[0]] + [] == [b.terms[0]];
  }

  /** The product b * q around b's leading exponent. */
  lemma ProductAroundOf(b: Ord, q: Ord, head: seq<Term>, qh: seq<Term>, k: nat, ck: nat)
    requires WF(b) && WF(q) && b != Zero && WF(b.terms[0].exp)
    requires ExpsWF(qh) && NoExp(qh, Zero) && Shift(b.terms[0].exp, qh) == head
    requires q.terms == WithFinite(qh, k) && ck == if k > 0 then b.terms[0].coef * k else 0
    requires AllAbove(head, b.terms[0].exp) && AllBelow(b.terms[1..], b.terms[0].exp)
    ensures Around(Times(b, q).terms, head, b.terms[0].exp, ck, if k > 0 then b.terms[1..] else [])
  {
    var e := b.terms[0].exp;
    var ptail := if k > 0 then b.terms[1..] else [];
    ProductShape(b, q, head, qh, k, ck);
    AroundConcat(head, [Term(e, ck)], ptail, e);
    CoefOfCons(Term(e, ck), [], e);
    assert [Term(e, ck)] + [] == [Term(e, ck)];
    AroundOfSameCoefs(Times(b, q).terms, head + [Term(e, ck)] + ptail, head, e, ck, ptail);
  }

  lemma AroundOfSameCoefs(xs: seq<Term>, ys: seq<Term>, head: seq<Term>, e: Ord, m: nat, tail: seq<Term>)
    requires SameCoefs(xs, ys) && Around(ys, head, e, m, tail)
    ensures Around(xs, head, e, m, tail)
  {
  }


  /** The finite part against the dividend's coefficient m at the divisor's leading exponent:
      c * k never exceeds m, equals it only when nothing below decides otherwise, and
      c * k + c exceeds m unless it equals m with the dividend's lower terms below. */
  lemma FiniteBounds(matching: Option<nat>, c: nat, below: bool, k: nat, ck: nat, m: nat)
    requires c > 0 && (matching.Some? ==> matching.value > 0)
    requires k == ConstantCoefficient(matching, c, below) && ck == if k > 0 then c * k else 0
    requires m == match matching case None => 0 case Some(v) => v
    ensures ck < m || (ck == m && (k == 0 || !below))
    ensures m < ck + c || (m == ck + c && below)
  {
    assert (k + 1) * c == ck + c;
  }

  /** b * (a / b) <= a < b * (a / b) + b: the quotient is the largest q with b * q <= a. */
  lemma DivisionBounds(a: Ord, b: Ord)
    requires WF(a) && WF(b) && b != Zero
    ensures !Less(a, Times(b, Quotient(a, b)))
    ensures Less(a, Plus(Times(b, Quotient(a, b)), b))
  {
    if Less(a, b) {
      NothingBelowZero(a);
    } else {
      var p := Times(b, Quotient(a, b));
      var s := Plus(p, b);
      var e, c := b.terms[0].exp, b.terms[0].coef;
      var i, k, ck := ProductAround(a, b);
      var m := MatchCoef(a.terms, i, e);
      var tail := TailAfter(a.terms, i, e);
      var ptail := if k > 0 then b.terms[1..] else [];
      FiniteBounds(MatchAt(a.terms, i, e), c, Less(Ord(tail), Ord(b.terms[1..])), k, ck, m);
      NothingBelowZero(Ord(tail));
      AroundNotLess(p, a, a.terms[..i], e, ck, ptail, m, tail);
      PlusIsSum(p, b);
      SumAround(p, b, s, a.terms[..i], ck, ptail);
      AroundLess(a, s, a.terms[..i], e, m, tail, ck + c, b.terms[1..]);
    }
  }

  /** When p + r == a < p + b, the remainder r lies below b. */
  lemma RemainderBelow(a: Ord, b: Ord, p: Ord, r: Ord)
    requires WF(a) && WF(b) && WF(p) && WF(r)
    requires Plus(p, r) == a && Less(a, Plus(p, b))
    ensures Less(r, b)
  {
    LessIrreflexive(a);
    CmpZero(r, b);
    CmpAntisymmetric(r, b);
    if Less(b, r) {
      PlusStrictlyMonotone(p, b, r);
      CmpAntisymmetric(a, Plus(p, b));
    }
  }
}
