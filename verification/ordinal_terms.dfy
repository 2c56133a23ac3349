/** Ordinals below epsilon-zero in Cantor normal form: the term model, the check that the
    Ordinal constructor makes, the comparator, and the coefficient view used to specify the
    normaliser and the operators. */
module OrdinalTerms {
  import opened Outcome

  /** The conditions under which the ordinal engine throws. */
  datatype OrdinalError =
    | InvalidTerm              // a term with a negative coefficient
    | MalformedOrdinal         // exponents that do not strictly descend
    | NegativeOperand          // fromInt of a negative number
    | SubtrahendExceedsMinuend // a - b with a < b
    | DivisionByZero           // a / 0 and a % 0
    | NegativeExponent         // Int.pow with a negative exponent
    | ArithmeticOverflow       // Int.pow beyond the range of Int

  /** omega^exp * coef; a coefficient is never negative. */
  datatype Term = Term(exp: Ord, coef: nat)

  /** The sum of its terms, leading term first; the empty list is zero. */
  datatype Ord = Ord(terms: seq<Term>)

  const Zero: Ord := Ord([])
  const One: Ord := Ord([Term(Zero, 1)])
  const Omega: Ord := Ord([Term(One, 1)])

  /** The Term constructor: a negative coefficient is rejected. */
  function NewTerm(exp: Ord, coefficient: int): (r: Result<Term, OrdinalError>)
    ensures r.Err? <==> coefficient < 0
    ensures r.Err? ==> r.error == InvalidTerm
    ensures r.Ok? ==> r.value.exp == exp && r.value.coef == coefficient
  {
    if coefficient < 0 then Err(InvalidTerm) else Ok(Term(exp, coefficient))
  }

  // ---------------------------------------------------------------------------------------
  // The comparator
  // ---------------------------------------------------------------------------------------

  /** compareTo: lexicographic over the two term lists, exponents compared recursively,
      then coefficients; an exhausted list is the smaller one. */
  function Cmp(a: Ord, b: Ord): (c: int)
    ensures -1 <= c <= 1
    decreases a, 1
  {
    CmpFrom(a, b, 0)
  }

  /** The comparison from position i on, the first i positions being equal. */
  function CmpFrom(a: Ord, b: Ord, i: nat): (c: int)
    requires i <= |a.terms| && i <= |b.terms|
    ensures -1 <= c <= 1
    decreases a, 0, |a.terms| - i
  {
    if i == |a.terms| && i == |b.terms| then 0
    else if i == |a.terms| then -1
    else if i == |b.terms| then 1
    else
      var e := Cmp(a.terms[i].exp, b.terms[i].exp);
      if e != 0 then e
      else if a.terms[i].coef < b.terms[i].coef then -1
      else if a.terms[i].coef > b.terms[i].coef then 1
      else CmpFrom(a, b, i + 1)
  }

  predicate Less(a: Ord, b: Ord) {
    Cmp(a, b) < 0
  }

  /** compareTo returns 0 exactly on structurally equal ordinals, which is what equals tests. */
  lemma {:induction false} CmpZero(a: Ord, b: Ord)
    ensures Cmp(a, b) == 0 <==> a == b
    decreases a, 1
  {
    CmpFromZero(a, b, 0);
    assert a.terms[0..] == a.terms && b.terms[0..] == b.terms;
  }

  lemma {:induction false} CmpFromZero(a: Ord, b: Ord, i: nat)
    requires i <= |a.terms| && i <= |b.terms|
    ensures CmpFrom(a, b, i) == 0 <==> a.terms[i..] == b.terms[i..]
    decreases a, 0, |a.terms| - i
  {
    if i < |a.terms| && i < |b.terms| {
      CmpZero(a.terms[i].exp, b.terms[i].exp);
      CmpFromZero(a, b, i + 1);
      assert a.terms[i..] == [a.terms[i]] + a.terms[i + 1..];
      assert b.terms[i..] == [b.terms[i]] + b.terms[i + 1..];
    }
  }

  /** isZero: the empty term list is the least ordinal. */
  lemma ZeroIsLeast(a: Ord)
    ensures Cmp(Ord([]), a) <= 0 && Cmp(a, Ord([])) >= 0
    ensures Cmp(Ord([]), a) == 0 <==> a.terms == []
  {
    CmpZero(Ord([]), a);
  }

  /** Swapping the operands negates the comparison. */
  lemma {:induction false} CmpAntisymmetric(a: Ord, b: Ord)
    ensures Cmp(b, a) == -Cmp(a, b)
    decreases a, 1
  {
    CmpFromAntisymmetric(a, b, 0);
  }

  lemma {:induction false} CmpFromAntisymmetric(a: Ord, b: Ord, i: nat)
    requires i <= |a.terms| && i <= |b.terms|
    ensures CmpFrom(b, a, i) == -CmpFrom(a, b, i)
    decreases a, 0, |a.terms| - i
  {
    if i < |a.terms| && i < |b.terms| {
      CmpAntisymmetric(a.terms[i].exp, b.terms[i].exp);
      CmpFromAntisymmetric(a, b, i + 1);
    }
  }

  /** The strict order is transitive. */
  lemma {:induction false} CmpTransitive(a: Ord, b: Ord, c: Ord)
    requires Cmp(a, b) < 0 && Cmp(b, c) < 0
    ensures Cmp(a, c) < 0
    decreases a, 1
  {
    CmpFromTransitive(a, b, c, 0);
  }

  lemma {:induction false} CmpFromTransitive(a: Ord, b: Ord, c: Ord, i: nat)
    requires i <= |a.terms| && i <= |b.terms| && i <= |c.terms|
    requires CmpFrom(a, b, i) < 0 && CmpFrom(b, c, i) < 0
    ensures CmpFrom(a, c, i) < 0
    decreases a, 0, |a.terms| - i
  {
    if i < |a.terms| {
      var x, y, z := a.terms[i], b.terms[i], c.terms[i];
      var e1, e2 := Cmp(x.exp, y.exp), Cmp(y.exp, z.exp);
      CmpZero(x.exp, y.exp);
      CmpZero(y.exp, z.exp);
      if e1 < 0 && e2 < 0 {
        CmpTransitive(x.exp, y.exp, z.exp);
      } else if e1 == 0 && e2 == 0 && x.coef == y.coef && y.coef == z.coef {
        CmpFromTransitive(a, b, c, i + 1);
      }
    }
  }

  /** Cmp is a total order on all term lists: the mixed forms of transitivity. */
  lemma CmpOrder(a: Ord, b: Ord, c: Ord)
    ensures Cmp(a, b) <= 0 && Cmp(b, c) <= 0 ==> Cmp(a, c) <= 0
    ensures Cmp(a, b) < 0 && Cmp(b, c) <= 0 ==> Cmp(a, c) < 0
    ensures Cmp(a, b) <= 0 && Cmp(b, c) < 0 ==> Cmp(a, c) < 0
  {
    CmpZero(a, b);
    CmpZero(b, c);
    if Cmp(a, b) < 0 && Cmp(b, c) < 0 {
      CmpTransitive(a, b, c);
    }
  }

  /** A proper prefix is smaller than the list it starts. */
  lemma PrefixIsSmaller(a: Ord, b: Ord)
    requires |a.terms| < |b.terms| && a.terms == b.terms[..|a.terms|]
    ensures Less(a, b)
  {
    PrefixCmp(a, b, 0);
  }

  lemma {:induction false} PrefixCmp(a: Ord, b: Ord, i: nat)
    requires i <= |a.terms| < |b.terms| && a.terms == b.terms[..|a.terms|]
    ensures CmpFrom(a, b, i) == -1
    decreases |a.terms| - i
  {
    if i < |a.terms| {
      CmpZero(a.terms[i].exp, b.terms[i].exp);
      PrefixCmp(a, b, i + 1);
    }
  }

  /** Comparison skips a common prefix of terms. */
  lemma {:induction false} CmpAfterPrefix(a: Ord, b: Ord, i: nat)
    requires i <= |a.terms| && i <= |b.terms| && a.terms[..i] == b.terms[..i]
    ensures Cmp(a, b) == CmpFrom(a, b, i)
    decreases i
  {
    if i > 0 {
      assert a.terms[..i - 1] == b.terms[..i - 1] by {
        assert a.terms[..i - 1] == a.terms[..i][..i - 1];
        assert b.terms[..i - 1] == b.terms[..i][..i - 1];
      }
      CmpAfterPrefix(a, b, i - 1);
      assert a.terms[i - 1] == a.terms[..i][i - 1] == b.terms[..i][i - 1] == b.terms[i - 1];
      CmpZero(a.terms[i - 1].exp, b.terms[i - 1].exp);
    }
  }

  // ---------------------------------------------------------------------------------------
  // The invariant checked by the constructor
  // ---------------------------------------------------------------------------------------

  /** Every exponent is strictly greater than the next one. */
  predicate Descending(ts: seq<Term>) {
    forall i | 0 < i < |ts| :: Less(ts[i].exp, ts[i - 1].exp)
  }

  /** Descending with positive coefficients: the lists the normaliser produces. */
  predicate Canonical(ts: seq<Term>) {
    Descending(ts) && forall i | 0 <= i < |ts| :: ts[i].coef > 0
  }

  /** A well-formed ordinal: canonical at every level of exponents. */
  predicate WF(o: Ord)
    decreases o
  {
    Canonical(o.terms) && forall t | t in o.terms :: WF(t.exp)
  }

  predicate ExpsWF(ts: seq<Term>) {
    forall t | t in ts :: WF(t.exp)
  }

  /** The constants ZERO, ONE and OMEGA are well formed, in increasing order. */
  lemma ConstantsWellFormed()
    ensures WF(Zero) && WF(One) && WF(Omega)
    ensures Less(Zero, One) && Less(One, Omega)
  {
    assert WF(One) by { assert One.terms[0].exp == Zero; }
    assert WF(Omega) by { assert Omega.terms[0].exp == One; }
    assert CmpFrom(Zero, One, 0) == -1;
    assert Cmp(Zero, One) == -1;
    assert CmpFrom(One, Omega, 0) == -1;
  }

  /** The exponents of a descending list fall strictly from every position to every later one. */
  lemma {:induction false} DescendingPairwise(ts: seq<Term>, i: nat, j: nat)
    requires Descending(ts) && i < j < |ts|
    ensures Less(ts[j].exp, ts[i].exp)
    decreases j - i
  {
    if j > i + 1 {
      DescendingPairwise(ts, i, j - 1);
      CmpTransitive(ts[j].exp, ts[j - 1].exp, ts[i].exp);
    }
  }

  lemma DescendingSlice(ts: seq<Term>, lo: nat, hi: nat)
    requires lo <= hi <= |ts|
    ensures Descending(ts) ==> Descending(ts[lo..hi])
    ensures Canonical(ts) ==> Canonical(ts[lo..hi])
    ensures ExpsWF(ts) ==> ExpsWF(ts[lo..hi])
  {
    if Descending(ts) {
      forall k | 0 < k < hi - lo ensures Less(ts[lo..hi][k].exp, ts[lo..hi][k - 1].exp) {
        assert ts[lo..hi][k] == ts[lo + k] && ts[lo..hi][k - 1] == ts[lo + k - 1];
      }
    }
  }

  // ---------------------------------------------------------------------------------------
  // The coefficient view: CoefOf(ts, e) is the coefficient of omega^e in the sum ts
  // ---------------------------------------------------------------------------------------

  function CoefOf(ts: seq<Term>, e: Ord): nat {
    if ts == [] then 0
    else (if ts[0].exp == e then ts[0].coef else 0) + CoefOf(ts[1..], e)
  }

  ghost predicate SameCoefs(xs: seq<Term>, ys: seq<Term>) {
    forall e :: CoefOf(xs, e) == CoefOf(ys, e)
  }

  predicate NoExp(ts: seq<Term>, e: Ord) {
    forall i | 0 <= i < |ts| :: ts[i].exp != e
  }

  lemma {:induction false} CoefOfConcat(xs: seq<Term>, ys: seq<Term>, e: Ord)
    ensures CoefOf(xs + ys, e) == CoefOf(xs, e) + CoefOf(ys, e)
    decreases |xs|
  {
    if xs != [] {
      assert (xs + ys)[0] == xs[0] && (xs + ys)[1..] == xs[1..] + ys;
      CoefOfConcat(xs[1..], ys, e);
    } else {
      assert xs + ys == ys;
    }
  }

  lemma {:induction false} CoefOfNoExp(ts: seq<Term>, e: Ord)
    requires NoExp(ts, e)
    ensures CoefOf(ts, e) == 0
    decreases |ts|
  {
    if ts != [] {
      CoefOfNoExp(ts[1..], e);
    }
  }

  lemma {:induction false} CoefOfAt(ts: seq<Term>, i: nat)
    requires i < |ts|
    ensures CoefOf(ts, ts[i].exp) >= ts[i].coef
    decreases i
  {
    if i > 0 {
      CoefOfAt(ts[1..], i - 1);
    }
  }

  /** A positive coefficient is owed to some term with that exponent. */
  lemma {:induction false} CoefOfPositive(ts: seq<Term>, e: Ord) returns (j: nat)
    requires CoefOf(ts, e) > 0
    ensures j < |ts| && ts[j].exp == e
    decreases |ts|
  {
    if ts[0].exp == e {
      j := 0;
    } else {
      j := CoefOfPositive(ts[1..], e);
      j := j + 1;
    }
  }

  /** In a descending list, no exponent at or above the leading one occurs after it. */
  lemma DescendingTail(ts: seq<Term>, e: Ord)
    requires Descending(ts) && ts != [] && !Less(e, ts[0].exp)
    ensures NoExp(ts[1..], e) && CoefOf(ts[1..], e) == 0
  {
    forall k | 0 <= k < |ts[1..]| ensures ts[1..][k].exp != e {
      DescendingPairwise(ts, 0, k + 1);
      CmpOrder(ts[k + 1].exp, ts[0].exp, e);
      CmpZero(ts[k + 1].exp, e);
      CmpAntisymmetric(e, ts[0].exp);
    }
    CoefOfNoExp(ts[1..], e);
  }

  /** In a descending list nothing lies strictly above the leading exponent, and the leading
      coefficient is the coefficient of the leading exponent. */
  lemma CanonicalHead(ts: seq<Term>, e: Ord)
    requires Descending(ts) && ts != []
    ensures CoefOf(ts, ts[0].exp) == ts[0].coef
    ensures Less(ts[0].exp, e) ==> CoefOf(ts, e) == 0
  {
    CmpZero(ts[0].exp, ts[0].exp);
    DescendingTail(ts, ts[0].exp);
    if Less(ts[0].exp, e) {
      CmpAntisymmetric(ts[0].exp, e);
      CmpZero(ts[0].exp, e);
      DescendingTail(ts, e);
    }
  }

  /** Two canonical lists with the same coefficient for every exponent are the same list:
      the Cantor normal form is unique. */
  lemma {:induction false} CanonicalUnique(xs: seq<Term>, ys: seq<Term>)
    requires Canonical(xs) && Canonical(ys) && SameCoefs(xs, ys)
    ensures xs == ys
    decreases |xs|
  {
    if xs == [] && ys != [] {
      assert false;
    } else if xs != [] && ys == [] {
      CoefOfAt(xs, 0);
      assert false;
    } else if xs != [] {
      var x, y := xs[0].exp, ys[0].exp;
      CanonicalHead(xs, y);
      CanonicalHead(ys, x);
      CmpZero(x, y);
      CmpAntisymmetric(x, y);
      assert x == y;
      assert xs[0] == ys[0];
      DescendingSlice(xs, 1, |xs|);
      DescendingSlice(ys, 1, |ys|);
      forall e ensures CoefOf(xs[1..], e) == CoefOf(ys[1..], e) {
        assert CoefOf(xs, e) == CoefOf(ys, e);
      }
      CanonicalUnique(xs[1..], ys[1..]);
      assert xs == [xs[0]] + xs[1..] && ys == [ys[0]] + ys[1..];
    }
  }

  // ---------------------------------------------------------------------------------------
  // The loops of compareTo and of the constructor
  // ---------------------------------------------------------------------------------------

  /** compareTo as the loop over positions it is, recursing into exponents; its answer is the
      comparator's, so 0 means the two ordinals are equal. */
  method CompareTo(a: Ord, b: Ord) returns (c: int)
    ensures c == Cmp(a, b)
    ensures c == 0 <==> a == b
    ensures c < 0 <==> Less(a, b)
    ensures c > 0 <==> Less(b, a)
    decreases a
  {
    CmpZero(a, b);
    CmpAntisymmetric(a, b);
    var maxTerms := if |a.terms| > |b.terms| then |a.terms| else |b.terms|;
    var i := 0;
    while i < maxTerms
      invariant i <= |a.terms| && i <= |b.terms|
      invariant Cmp(a, b) == CmpFrom(a, b, i)
      decreases maxTerms - i
    {
      if i == |a.terms| {
        return -1;
      }
      if i == |b.terms| {
        return 1;
      }
      var expCompare := CompareTo(a.terms[i].exp, b.terms[i].exp);
      if expCompare != 0 {
        return expCompare;
      }
      var coeffCompare := if a.terms[i].coef < b.terms[i].coef then -1
                          else if a.terms[i].coef > b.terms[i].coef then 1 else 0;
      if coeffCompare != 0 {
        return coeffCompare;
      }
      i := i + 1;
    }
    return 0;
  }

  /** The constructor's check: every exponent must be strictly greater than the next one. The
      check does not look at coefficients. */
  method NewOrdinal(terms: seq<Term>) returns (r: Result<Ord, OrdinalError>)
    ensures r.Ok? <==> Descending(terms)
    ensures r.Ok? ==> r.value.terms == terms
    ensures r.Err? ==> r.error == MalformedOrdinal
  {
    if |terms| > 1 {
      for i := 0 to |terms| - 1
        invariant forall j | 0 < j <= i :: Less(terms[j].exp, terms[j - 1].exp)
      {
        var c := CompareTo(terms[i].exp, terms[i + 1].exp);
        if !(c > 0) {
          return Err(MalformedOrdinal);
        }
      }
    }
    return Ok(Ord(terms));
  }
}
