/** Ordinal addition, subtraction, multiplication, division and remainder, each specified
    through the coefficient view CoefOf of its result. */
module OrdinalArithmetic {
  import opened Outcome
  import opened OrdinalTerms
  import opened OrdinalNormalForm

  // ---------------------------------------------------------------------------------------
  // Facts about descending lists used by the operators
  // ---------------------------------------------------------------------------------------

  lemma CoefOfCons(t: Term, rest: seq<Term>, e: Ord)
    ensures CoefOf([t] + rest, e) == (if t.exp == e then t.coef else 0) + CoefOf(rest, e)
  {
    assert ([t] + rest)[0] == t && ([t] + rest)[1..] == rest;
  }

  lemma LessIrreflexive(x: Ord)
    ensures !Less(x, x)
  {
    CmpZero(x, x);
  }

  /** Everything before position n lies strictly above ts[n].exp, so above any e <= ts[n].exp. */
  lemma PrefixAbove(ts: seq<Term>, n: nat, e: Ord)
    requires Descending(ts) && n < |ts| && !Less(ts[n].exp, e)
    ensures CoefOf(ts[..n], e) == 0
  {
    forall k | 0 <= k < n ensures ts[..n][k].exp != e {
      DescendingPairwise(ts, k, n);
    }
    CoefOfNoExp(ts[..n], e);
  }

  /** From position n on, every exponent is at most ts[n].exp, so below any e > ts[n].exp. */
  lemma SuffixBelow(ts: seq<Term>, n: nat, e: Ord)
    requires Descending(ts) && n < |ts| && Less(ts[n].exp, e)
    ensures CoefOf(ts[n..], e) == 0
  {
    forall k | 0 <= k < |ts| - n ensures ts[n..][k].exp != e {
      LessIrreflexive(e);
      if k > 0 {
        DescendingPairwise(ts, n, n + k);
        CmpTransitive(ts[n + k].exp, ts[n].exp, e);
      }
    }
    CoefOfNoExp(ts[n..], e);
  }

  /** The list after position n of a canonical list, as an ordinal. */
  lemma SuffixWellFormed(a: Ord, n: nat)
    requires WF(a) && n <= |a.terms|
    ensures Canonical(a.terms[n..]) && ExpsWF(a.terms[n..])
  {
    DescendingSlice(a.terms, n, |a.terms|);
  }

  // ---------------------------------------------------------------------------------------
  // fromInt
  // ---------------------------------------------------------------------------------------

  /** fromInt: a negative number is rejected; n is omega^0 * n, and 0 is ZERO. */
  function FromInt(n: int): (r: Result<Ord, OrdinalError>)
    ensures r.Err? <==> n < 0
    ensures r.Err? ==> r.error == NegativeOperand
    ensures r.Ok? ==> WF(r.value) && forall e :: CoefOf(r.value.terms, e) == if e == Zero then n else 0
  {
    if n < 0 then Err(NegativeOperand)
    else if n == 0 then Ok(Zero)
    else
      assert WF(Ord([Term(Zero, n)])) by { ConstantsWellFormed(); }
      Ok(Ord([Term(Zero, n)]))
  }

  // ---------------------------------------------------------------------------------------
  // plus
  // ---------------------------------------------------------------------------------------

  /** takeWhile { it.exponent >= e } */
  function TakeWhileAtLeast(ts: seq<Term>, e: Ord): (r: seq<Term>)
    ensures |r| <= |ts| && forall t | t in r :: t in ts
  {
    if ts == [] || Less(ts[0].exp, e) then [] else [ts[0]] + TakeWhileAtLeast(ts[1..], e)
  }

  /** On a descending list, the prefix kept holds exactly the exponents at least e. */
  lemma {:induction false} TakeWhileCoefs(ts: seq<Term>, e0: Ord, e: Ord)
    requires Descending(ts)
    ensures CoefOf(TakeWhileAtLeast(ts, e0), e) == if Less(e, e0) then 0 else CoefOf(ts, e)
    decreases |ts|
  {
    if ts == [] {
    } else if Less(ts[0].exp, e0) {
      if !Less(e, e0) {
        CmpAntisymmetric(e, e0);
        CmpOrder(ts[0].exp, e0, e);
        CmpAntisymmetric(ts[0].exp, e);
        DescendingTail(ts, e);
        LessIrreflexive(e);
      }
    } else {
      DescendingSlice(ts, 1, |ts|);
      TakeWhileCoefs(ts[1..], e0, e);
      CoefOfCons(ts[0], TakeWhileAtLeast(ts[1..], e0), e);
      if Less(e, e0) {
        CmpAntisymmetric(ts[0].exp, e0);
        CmpOrder(e, e0, ts[0].exp);
        LessIrreflexive(e);
      }
    }
  }

  /** plus: the terms of a below the leading exponent of b are absorbed by b. */
  function Plus(a: Ord, b: Ord): (r: Ord)
    requires WF(a) && WF(b)
    ensures WF(r)
    ensures a == Zero ==> r == b
    ensures b == Zero ==> r == a
    ensures b != Zero ==>
      forall e :: CoefOf(r.terms, e) ==
                  if Less(e, b.terms[0].exp) then CoefOf(b.terms, e) else CoefOf(a.terms, e) + CoefOf(b.terms, e)
  {
    if a == Zero then b
    else if b == Zero then a
    else
      var kept := TakeWhileAtLeast(a.terms, b.terms[0].exp);
      var r := FromTerms(kept + b.terms);
      assert ExpsWF(kept + b.terms);
      assert forall e :: CoefOf(r.terms, e) ==
                         if Less(e, b.terms[0].exp) then CoefOf(b.terms, e) else CoefOf(a.terms, e) + CoefOf(b.terms, e)
      by {
        forall e ensures CoefOf(r.terms, e) ==
          if Less(e, b.terms[0].exp) then CoefOf(b.terms, e) else CoefOf(a.terms, e) + CoefOf(b.terms, e)
        {
          CoefOfConcat(kept, b.terms, e);
          TakeWhileCoefs(a.terms, b.terms[0].exp, e);
        }
      }
      r
  }

  // ---------------------------------------------------------------------------------------
  // minus
  // ---------------------------------------------------------------------------------------

  /** The number of leading terms two lists share. */
  function CommonLength(xs: seq<Term>, ys: seq<Term>): (n: nat)
    ensures n <= |xs| && n <= |ys| && xs[..n] == ys[..n]
    ensures n < |xs| && n < |ys| ==> xs[n] != ys[n]
  {
    if xs == [] || ys == [] || xs[0] != ys[0] then 0
    else
      var m := CommonLength(xs[1..], ys[1..]);
      assert xs[..m + 1] == [xs[0]] + xs[1..][..m];
      assert ys[..m + 1] == [ys[0]] + ys[1..][..m];
      m + 1
  }

  /** When a > b, the lists part at a position of a; there, either a's exponent is larger or
      the exponents agree and a's coefficient is larger. */
  lemma SubShape(a: Ord, b: Ord)
    requires !Less(a, b) && a != b
    ensures CommonLength(a.terms, b.terms) < |a.terms|
    ensures var n := CommonLength(a.terms, b.terms);
      n < |b.terms| && Cmp(a.terms[n].exp, b.terms[n].exp) <= 0 ==>
        a.terms[n].exp == b.terms[n].exp && a.terms[n].coef > b.terms[n].coef
  {
    var n := CommonLength(a.terms, b.terms);
    if n == |a.terms| {
      if n == |b.terms| {
        assert false;
      } else {
        PrefixIsSmaller(a, b);
      }
    } else if n < |b.terms| && Cmp(a.terms[n].exp, b.terms[n].exp) <= 0 {
      CmpAfterPrefix(a, b, n);
      CmpZero(a.terms[n].exp, b.terms[n].exp);
    }
  }

  /** minus on a >= b: drop the common prefix and, when the first differing terms share their
      exponent, subtract b's coefficient from a's. */
  function Sub(a: Ord, b: Ord): (r: Ord)
    requires WF(a) && WF(b) && !Less(a, b)
    ensures WF(r)
  {
    if a == b then Zero
    else if b == Zero then a
    else
      var n := CommonLength(a.terms, b.terms);
      SubShape(a, b);
      SuffixWellFormed(a, n);
      SuffixWellFormed(a, n + 1);
      if n >= |b.terms| || Cmp(a.terms[n].exp, b.terms[n].exp) > 0 then FromTerms(a.terms[n..])
      else FromTerms([Term(a.terms[n].exp, a.terms[n].coef - b.terms[n].coef)] + a.terms[n + 1..])
  }

  /** The operator minus: it requires this >= other. */
  function Minus(a: Ord, b: Ord): (r: Result<Ord, OrdinalError>)
    requires WF(a) && WF(b)
    ensures r.Err? <==> Less(a, b)
    ensures r.Err? ==> r.error == SubtrahendExceedsMinuend
    ensures r.Ok? ==> WF(r.value) && Plus(b, r.value) == a
    ensures a == b ==> r == Ok(Zero)
    ensures b == Zero ==> r == Ok(a)
  {
    LessIrreflexive(a);
    NothingBelowZero(a);
    if Less(a, b) then Err(SubtrahendExceedsMinuend)
    else
      PlusSubInverse(a, b);
      Ok(Sub(a, b))
  }

  /** The coefficients of a split between b and a - b as plus recombines them. */
  lemma SubCoef(a: Ord, b: Ord, e: Ord)
    requires WF(a) && WF(b) && !Less(a, b) && a != b && b != Zero
    ensures Sub(a, b).terms != []
    ensures CoefOf(a.terms, e) == if Less(e, Sub(a, b).terms[0].exp) then CoefOf(Sub(a, b).terms, e)
      else CoefOf(b.terms, e) + CoefOf(Sub(a, b).terms, e)
  {
    var n := CommonLength(a.terms, b.terms);
    var x := Sub(a, b).terms;
    SubShape(a, b);
    if n >= |b.terms| || Cmp(a.terms[n].exp, b.terms[n].exp) > 0 {
      SubDropTerms(a, b);
      SubCoefDropCase(a, b, n, x, e);
    } else {
      SubBorrowTerms(a, b);
      SubCoefBorrowCase(a, b, n, x, e);
    }
  }

  /** SubCoef when x, the terms of a - b, is the rest of a after the common prefix. */
  lemma SubCoefDropCase(a: Ord, b: Ord, n: nat, x: seq<Term>, e: Ord)
    requires WF(a) && WF(b) && n < |a.terms| && n <= |b.terms| && a.terms[..n] == b.terms[..n]
    requires n == |b.terms| || Cmp(a.terms[n].exp, b.terms[n].exp) > 0
    requires x == a.terms[n..]
    ensures x != []
    ensures CoefOf(a.terms, e) == if Less(e, x[0].exp) then CoefOf(x, e) else CoefOf(b.terms, e) + CoefOf(x, e)
  {
    assert a.terms == a.terms[..n] + a.terms[n..];
    CoefOfConcat(a.terms[..n], a.terms[n..], e);
    SubCoefDrop(a, b, n, e);
  }

  /** SubCoef when x, the terms of a - b, starts with a's parting term less b's coefficient. */
  lemma SubCoefBorrowCase(a: Ord, b: Ord, n: nat, x: seq<Term>, e: Ord)
    requires WF(a) && WF(b) && n < |a.terms| && n < |b.terms| && a.terms[..n] == b.terms[..n]
    requires a.terms[n].exp == b.terms[n].exp && a.terms[n].coef > b.terms[n].coef
    requires x == [Term(a.terms[n].exp, a.terms[n].coef - b.terms[n].coef)] + a.terms[n + 1..]
    ensures x != []
    ensures CoefOf(a.terms, e) == if Less(e, x[0].exp) then CoefOf(x, e) else CoefOf(b.terms, e) + CoefOf(x, e)
  {
    assert a.terms == a.terms[..n] + a.terms[n..];
    CoefOfConcat(a.terms[..n], a.terms[n..], e);
    SubCoefBorrow(a, b, n, e);
  }

  /** a - b when the lists part at a larger exponent of a, or when b is a prefix of a: the
      rest of a after the common prefix. */
  lemma SubDropTerms(a: Ord, b: Ord)
    requires WF(a) && WF(b) && !Less(a, b) && a != b && b != Zero
    requires var n := CommonLength(a.terms, b.terms);
      n >= |b.terms| || (n < |a.terms| && Cmp(a.terms[n].exp, b.terms[n].exp) > 0)
    ensures var n := CommonLength(a.terms, b.terms);
      n < |a.terms| && Sub(a, b).terms == a.terms[n..]
  {
    var n := CommonLength(a.terms, b.terms);
    SubShape(a, b);
    SuffixWellFormed(a, n);
    FromTermsOfCanonical(a.terms[n..]);
  }

  /** a - b when the lists part at a shared exponent: a's term there, less b's coefficient,
      then the rest of a. */
  lemma SubBorrowTerms(a: Ord, b: Ord)
    requires WF(a) && WF(b) && !Less(a, b) && a != b && b != Zero
    requires var n := CommonLength(a.terms, b.terms);
      n < |b.terms| && n < |a.terms| && Cmp(a.terms[n].exp, b.terms[n].exp) <= 0
    ensures var n := CommonLength(a.terms, b.terms);
      a.terms[n].exp == b.terms[n].exp && a.terms[n].coef > b.terms[n].coef &&
      Sub(a, b).terms == [Term(a.terms[n].exp, a.terms[n].coef - b.terms[n].coef)] + a.terms[n + 1..]
  {
    var n := CommonLength(a.terms, b.terms);
    SubShape(a, b);
    BorrowNormal(a, n, a.terms[n].coef - b.terms[n].coef);
  }

  /** The case where a - b is the tail of a after the common prefix. */
  lemma SubCoefDrop(a: Ord, b: Ord, n: nat, e: Ord)
    requires WF(a) && WF(b) && n < |a.terms| && n <= |b.terms| && a.terms[..n] == b.terms[..n]
    requires n == |b.terms| || Cmp(a.terms[n].exp, b.terms[n].exp) > 0
    ensures CoefOf(a.terms[..n], e) + CoefOf(a.terms[n..], e) ==
      if Less(e, a.terms[n].exp) then CoefOf(a.terms[n..], e)
      else CoefOf(b.terms, e) + CoefOf(a.terms[n..], e)
  {
    var big := a.terms[n];
    CmpAntisymmetric(e, big.exp);
    if Less(e, big.exp) {
      PrefixAbove(a.terms, n, e);
    } else {
      assert b.terms == a.terms[..n] + b.terms[n..];
      CoefOfConcat(a.terms[..n], b.terms[n..], e);
      if n < |b.terms| {
        CmpAntisymmetric(big.exp, b.terms[n].exp);
        CmpOrder(b.terms[n].exp, big.exp, e);
        SuffixBelow(b.terms, n, e);
      }
    }
  }

  /** The case where a - b starts with a's term at the parting position, less b's coefficient. */
  lemma SubCoefBorrow(a: Ord, b: Ord, n: nat, e: Ord)
    requires WF(a) && WF(b) && n < |a.terms| && n < |b.terms| && a.terms[..n] == b.terms[..n]
    requires a.terms[n].exp == b.terms[n].exp && a.terms[n].coef > b.terms[n].coef
    ensures var x := [Term(a.terms[n].exp, a.terms[n].coef - b.terms[n].coef)] + a.terms[n + 1..];
      CoefOf(a.terms[..n], e) + CoefOf(a.terms[n..], e) ==
        if Less(e, a.terms[n].exp) then CoefOf(x, e) else CoefOf(b.terms, e) + CoefOf(x, e)
  {
    var big := a.terms[n];
    var rest := a.terms[n + 1..];
    var t := Term(big.exp, big.coef - b.terms[n].coef);
    assert a.terms[n..] == [big] + rest;
    CoefOfCons(big, rest, e);
    CoefOfCons(t, rest, e);
    CmpAntisymmetric(e, big.exp);
    if Less(e, big.exp) {
      PrefixAbove(a.terms, n, e);
      LessIrreflexive(e);
    } else {
      SubCoefBorrowAtOrAbove(a, b, n, e);
    }
  }

  /** At or above the parting exponent, a and b share the prefix's coefficients, and after
      the parting position neither list has a term at e. */
  lemma SubCoefBorrowAtOrAbove(a: Ord, b: Ord, n: nat, e: Ord)
    requires WF(a) && WF(b) && n < |a.terms| && n < |b.terms| && a.terms[..n] == b.terms[..n]
    requires a.terms[n].exp == b.terms[n].exp && !Less(e, a.terms[n].exp)
    ensures CoefOf(b.terms, e) == CoefOf(a.terms[..n], e) + (if b.terms[n].exp == e then b.terms[n].coef else 0)
    ensures CoefOf(a.terms[n + 1..], e) == 0
  {
    var bs := b.terms;
    assert bs == bs[..n] + bs[n..];
    assert bs[n..] == [bs[n]] + bs[n + 1..];
    CoefOfConcat(bs[..n], bs[n..], e);
    CoefOfCons(bs[n], bs[n + 1..], e);
    NothingAfterAt(bs, n, e);
    NothingAfterAt(a.terms, n, e);
  }

  /** In a descending list, nothing after position n has an exponent at or above ts[n].exp. */
  lemma NothingAfterAt(ts: seq<Term>, n: nat, e: Ord)
    requires Descending(ts) && n < |ts| && !Less(e, ts[n].exp)
    ensures CoefOf(ts[n + 1..], e) == 0
  {
    DescendingSlice(ts, n, |ts|);
    assert ts[n..][0] == ts[n] && ts[n..][1..] == ts[n + 1..];
    DescendingTail(ts[n..], e);
  }

  lemma BorrowNormal(a: Ord, n: nat, c: nat)
    requires WF(a) && n < |a.terms| && c > 0
    ensures FromTerms([Term(a.terms[n].exp, c)] + a.terms[n + 1..]).terms ==
      [Term(a.terms[n].exp, c)] + a.terms[n + 1..]
  {
    BorrowCanonical(a, n, c);
    FromTermsOfCanonical([Term(a.terms[n].exp, c)] + a.terms[n + 1..]);
  }

  /** Replacing a term's coefficient by a positive one and dropping the terms before it leaves
      a canonical list. */
  lemma BorrowCanonical(a: Ord, n: nat, c: nat)
    requires WF(a) && n < |a.terms| && c > 0
    ensures Canonical([Term(a.terms[n].exp, c)] + a.terms[n + 1..])
  {
    var t := Term(a.terms[n].exp, c);
    var rest := a.terms[n + 1..];
    SuffixWellFormed(a, n + 1);
    assert Canonical([t] + rest) by {
      forall k | 0 < k < |[t] + rest| ensures Less(([t] + rest)[k].exp, ([t] + rest)[k - 1].exp) {
        assert a.terms[n + k] == ([t] + rest)[k];
      }
    }
  }

  /** b + (a - b) == a whenever a >= b: minus undoes plus. */
  lemma PlusSubInverse(a: Ord, b: Ord)
    requires WF(a) && WF(b) && !Less(a, b)
    ensures Plus(b, Sub(a, b)) == a
  {
    if a != b && b != Zero {
      var x := Sub(a, b);
      var p := Plus(b, x);
      SubCoef(a, b, Zero);
      forall e ensures CoefOf(p.terms, e) == CoefOf(a.terms, e) {
        SubCoef(a, b, e);
      }
      CanonicalUnique(p.terms, a.terms);
    }
  }

  // ---------------------------------------------------------------------------------------
  // times
  // ---------------------------------------------------------------------------------------

  /** map { Term(e + it.exponent, it.coefficient) } */
  function Shift(e: Ord, ts: seq<Term>): (r: seq<Term>)
    requires WF(e) && ExpsWF(ts)
    ensures |r| == |ts| && ExpsWF(r)
    decreases |ts|
  {
    if ts == [] then []
    else
      assert ts[0] in ts && forall t | t in ts[1..] :: t in ts;
      [Term(Plus(e, ts[0].exp), ts[0].coef)] + Shift(e, ts[1..])
  }

  /** The terms times hands to fromTerms for non-zero operands. */
  function ProductTerms(a: Ord, b: Ord): (ts: seq<Term>)
    requires WF(a) && WF(b) && a != Zero && b != Zero
    ensures ExpsWF(ts)
  {
    var lead := a.terms[0];
    var last := b.terms[|b.terms| - 1];
    assert lead in a.terms && last in b.terms;
    SuffixWellFormed(a, 1);
    if last.exp == Zero then
      Shift(lead.exp, Filter(b.terms, LacksExp(Zero))) + [Term(lead.exp, lead.coef * last.coef)] + a.terms[1..]
    else
      Shift(lead.exp, b.terms)
  }

  /** times: a limit multiplier shifts the exponents of b by the leading exponent of a; a
      finite part n of b also keeps the leading term of a scaled by n, then a's other terms. */
  function Times(a: Ord, b: Ord): (r: Ord)
    requires WF(a) && WF(b)
    ensures WF(r)
    ensures a == Zero || b == Zero ==> r == Zero
  {
    if a == Zero || b == Zero then Zero else FromTerms(ProductTerms(a, b))
  }

  // ---------------------------------------------------------------------------------------
  // Properties of plus and times on particular operands
  // ---------------------------------------------------------------------------------------

  /** No exponent lies below zero. */
  lemma NothingBelowZero(e: Ord)
    ensures !Less(e, Zero)
  {
    assert Cmp(e, Zero) == CmpFrom(e, Zero, 0);
  }

  /** On finite ordinals plus is the addition of naturals. */
  lemma PlusFinite(m: nat, n: nat)
    ensures Plus(FromInt(m).value, FromInt(n).value) == FromInt(m + n).value
  {
    var x, y, z := FromInt(m).value, FromInt(n).value, FromInt(m + n).value;
    if m != 0 && n != 0 {
      var p := Plus(x, y);
      forall e ensures CoefOf(p.terms, e) == CoefOf(z.terms, e) {
        NothingBelowZero(e);
      }
      CanonicalUnique(p.terms, z.terms);
    }
  }

  /** 1 + omega == omega: a finite summand is absorbed by an infinite one on its right. */
  lemma PlusAbsorbs(n: nat)
    ensures Plus(FromInt(n).value, Omega) == Omega
  {
    ConstantsWellFormed();
    var p := Plus(FromInt(n).value, Omega);
    forall e ensures CoefOf(p.terms, e) == CoefOf(Omega.terms, e) {
      if !Less(e, One) {
        CmpAntisymmetric(e, One);
        LessIrreflexive(Zero);
      }
    }
    CanonicalUnique(p.terms, Omega.terms);
  }

  lemma ShiftZero(ts: seq<Term>)
    requires ExpsWF(ts)
    ensures WF(Zero) && Shift(Zero, ts) == ts
    decreases |ts|
  {
    ConstantsWellFormed();
    if ts != [] {
      assert ts[0] in ts && forall t | t in ts[1..] :: t in ts;
      ShiftZero(ts[1..]);
    }
  }

  /** The coefficient at exponent zero of a canonical list ending in an exponent-zero term is the
      coefficient of that term; the other coefficients belong to the remaining terms. */
  lemma LastTermFinite(ts: seq<Term>, e: Ord)
    requires Canonical(ts) && ts != [] && ts[|ts| - 1].exp == Zero
    ensures CoefOf(ts, e) == CoefOf(Filter(ts, LacksExp(Zero)), e) + (if e == Zero then ts[|ts| - 1].coef else 0)
  {
    var n := |ts| - 1;
    if e == Zero {
      FilterDrops(ts, LacksExp(Zero), Zero);
      assert ts == ts[..n] + [ts[n]];
      CoefOfConcat(ts[..n], [ts[n]], Zero);
      LessIrreflexive(Zero);
      PrefixAbove(ts, n, Zero);
      CoefOfCons(ts[n], [], Zero);
    } else {
      FilterKeeps(ts, LacksExp(Zero), e);
    }
  }

  /** The terms times hands to fromTerms for the multiplier ONE on the left. */
  lemma ProductOfOne(a: Ord)
    requires WF(a) && a != Zero
    ensures WF(One) && One != Zero
    ensures var last := a.terms[|a.terms| - 1];
      ProductTerms(One, a) == if last.exp == Zero then Filter(a.terms, LacksExp(Zero)) + [Term(Zero, last.coef)]
                              else a.terms
  {
    ConstantsWellFormed();
    assert One.terms[0] == Term(Zero, 1) && One.terms[1..] == [];
    var last := a.terms[|a.terms| - 1];
    assert last in a.terms;
    if last.exp == Zero {
      ShiftZero(Filter(a.terms, LacksExp(Zero)));
    } else {
      ShiftZero(a.terms);
    }
  }

  /** 1 * a == a. */
  lemma TimesOneLeft(a: Ord)
    requires WF(a)
    ensures WF(One) && Times(One, a) == a
  {
    ConstantsWellFormed();
    if a != Zero {
      ProductOfOne(a);
      FromTermsOfCanonical(a.terms);
      var last := a.terms[|a.terms| - 1];
      if last.exp == Zero {
        var limitTerms := Filter(a.terms, LacksExp(Zero));
        var ts := limitTerms + [Term(Zero, last.coef)];
        forall e ensures CoefOf(ts, e) == CoefOf(a.terms, e) {
          CoefOfConcat(limitTerms, [Term(Zero, last.coef)], e);
          CoefOfCons(Term(Zero, last.coef), [], e);
          LastTermFinite(a.terms, e);
        }
        FromTermsOfSameCoefs(ts, a.terms);
      }
    }
  }

  lemma MulPositive(x: nat, y: nat)
    requires x > 0 && y > 0
    ensures x * y > 0
  {
  }

  /** The terms times hands to fromTerms for a finite multiplier n > 0. */
  lemma ProductByFinite(a: Ord, n: nat)
    requires WF(a) && a != Zero && n > 0
    ensures WF(Ord([Term(Zero, n)])) && Ord([Term(Zero, n)]) != Zero
    ensures ProductTerms(a, Ord([Term(Zero, n)])) == [Term(a.terms[0].exp, a.terms[0].coef * n)] + a.terms[1..]
  {
    ConstantsWellFormed();
    var b := Ord([Term(Zero, n)]);
    assert WF(b);
    assert b.terms[|b.terms| - 1] == Term(Zero, n);
    assert Filter(b.terms, LacksExp(Zero)) == [] by {
      assert Filter(b.terms[1..], LacksExp(Zero)) == [];
    }
    assert a.terms[0] in a.terms;
    assert Shift(a.terms[0].exp, []) == [];
  }

  /** a * n keeps every term of a and scales its leading coefficient by n. */
  lemma TimesByFinite(a: Ord, n: nat)
    requires WF(a) && a != Zero && n > 0
    ensures Times(a, FromInt(n).value).terms == [Term(a.terms[0].exp, a.terms[0].coef * n)] + a.terms[1..]
  {
    var b := FromInt(n).value;
    assert b == Ord([Term(Zero, n)]);
    ProductByFinite(a, n);
    var c := a.terms[0].coef * n;
    assert c > 0 by { MulPositive(a.terms[0].coef, n); }
    var scaled := [Term(a.terms[0].exp, c)] + a.terms[1..];
    assert Times(a, b) == FromTerms(scaled);
    BorrowCanonical(a, 0, c);
    FromTermsOfCanonical(scaled);
  }

  /** a * 1 == a. */
  lemma TimesOneRight(a: Ord)
    requires WF(a)
    ensures WF(One) && Times(a, One) == a
  {
    ConstantsWellFormed();
    if a != Zero {
      TimesByFinite(a, 1);
      assert a.terms == [a.terms[0]] + a.terms[1..];
    }
  }

  /** A finite multiplier on the left is absorbed: 2 * omega == omega. */
  lemma TwoTimesOmega()
    ensures Times(FromInt(2).value, Omega) == Omega
  {
    ConstantsWellFormed();
    var two := FromInt(2).value;
    assert Omega.terms[0].exp == One != Zero;
    ShiftZero(Omega.terms);
    assert ProductTerms(two, Omega) == Omega.terms;
    FromTermsOfCanonical(Omega.terms);
  }

  /** omega + omega == omega * 2 as a single term. */
  lemma OmegaPlusOmega()
    ensures Plus(Omega, Omega) == Ord([Term(One, 2)])
  {
    ConstantsWellFormed();
    var p := Plus(Omega, Omega);
    forall e ensures CoefOf(p.terms, e) == CoefOf([Term(One, 2)], e) {
      CoefOfCons(Term(One, 1), [], e);
      CoefOfCons(Term(One, 2), [], e);
      LessIrreflexive(One);
    }
    CanonicalUnique(p.terms, [Term(One, 2)]);
  }

  /** omega * 2 == omega + omega, which is not omega: multiplication is not commutative. */
  lemma OmegaTimesTwo()
    ensures Times(Omega, FromInt(2).value) == Plus(Omega, Omega)
    ensures Times(FromInt(2).value, Omega) != Times(Omega, FromInt(2).value)
  {
    ConstantsWellFormed();
    var two := FromInt(2).value;
    var product := Times(Omega, two);
    TimesByFinite(Omega, 2);
    assert product.terms == [Term(One, 2)];
    OmegaPlusOmega();
    TwoTimesOmega();
    assert Omega.terms[0].coef != product.terms[0].coef;
  }
}
