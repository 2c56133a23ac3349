/** The normaliser fromTerms: group the terms by exponent summing their coefficients, drop
    the groups whose sum is zero, and sort what is left by exponent, largest first. */
module OrdinalNormalForm {
  import opened OrdinalTerms

  /** Kotlin's filter. */
  function Filter(ts: seq<Term>, keep: Term -> bool): (r: seq<Term>)
    ensures |r| <= |ts|
    ensures forall t | t in r :: t in ts && keep(t)
    decreases |ts|
  {
    if ts == [] then []
    else (if keep(ts[0]) then [ts[0]] else []) + Filter(ts[1..], keep)
  }

  function HasExp(e: Ord): Term -> bool {
    (t: Term) => t.exp == e
  }

  function LacksExp(e: Ord): Term -> bool {
    (t: Term) => t.exp != e
  }

  const PositiveCoef: Term -> bool := (t: Term) => t.coef > 0

  /** Dropping terms keeps the coefficient of every exponent whose positive terms all stay. */
  lemma {:induction false} FilterKeeps(ts: seq<Term>, keep: Term -> bool, e: Ord)
    requires forall i | 0 <= i < |ts| :: ts[i].exp == e && ts[i].coef > 0 ==> keep(ts[i])
    ensures CoefOf(Filter(ts, keep), e) == CoefOf(ts, e)
    decreases |ts|
  {
    if ts != [] {
      FilterKeeps(ts[1..], keep, e);
      var head := if keep(ts[0]) then [ts[0]] else [];
      CoefOfConcat(head, Filter(ts[1..], keep), e);
    }
  }

  /** Dropping every term of one exponent leaves a zero coefficient there. */
  lemma {:induction false} FilterDrops(ts: seq<Term>, keep: Term -> bool, e: Ord)
    requires forall i | 0 <= i < |ts| :: ts[i].exp == e ==> !keep(ts[i])
    ensures CoefOf(Filter(ts, keep), e) == 0
    decreases |ts|
  {
    if ts != [] {
      FilterDrops(ts[1..], keep, e);
      var head := if keep(ts[0]) then [ts[0]] else [];
      CoefOfConcat(head, Filter(ts[1..], keep), e);
    }
  }

  predicate DistinctExps(ts: seq<Term>) {
    forall i, j | 0 <= i < j < |ts| :: ts[i].exp != ts[j].exp
  }

  lemma NoExpSubset(xs: seq<Term>, ys: seq<Term>, e: Ord)
    requires NoExp(ys, e) && forall t | t in xs :: t in ys
    ensures NoExp(xs, e)
  {
    forall i | 0 <= i < |xs| ensures xs[i].exp != e {
      assert xs[i] in ys;
    }
  }

  lemma DistinctCons(t: Term, s: seq<Term>)
    requires NoExp(s, t.exp) && DistinctExps(s)
    ensures DistinctExps([t] + s)
  {
    forall i, j | 0 <= i < j < |[t] + s| ensures ([t] + s)[i].exp != ([t] + s)[j].exp {
      if i > 0 {
        assert ([t] + s)[i] == s[i - 1];
      }
      assert ([t] + s)[j] == s[j - 1];
    }
  }

  lemma {:induction false} FilterDistinct(ts: seq<Term>, keep: Term -> bool)
    requires DistinctExps(ts)
    ensures DistinctExps(Filter(ts, keep))
    decreases |ts|
  {
    if ts != [] {
      assert DistinctExps(ts[1..]) by {
        forall i, j | 0 <= i < j < |ts[1..]| ensures ts[1..][i].exp != ts[1..][j].exp {
          assert ts[1..][i] == ts[i + 1] && ts[1..][j] == ts[j + 1];
        }
      }
      FilterDistinct(ts[1..], keep);
      if keep(ts[0]) {
        assert NoExp(ts[1..], ts[0].exp) by {
          forall k | 0 <= k < |ts[1..]| ensures ts[1..][k].exp != ts[0].exp {
            assert ts[1..][k] == ts[k + 1];
          }
        }
        NoExpSubset(Filter(ts[1..], keep), ts[1..], ts[0].exp);
        DistinctCons(ts[0], Filter(ts[1..], keep));
      }
    }
  }

  // ---------------------------------------------------------------------------------------
  // groupBy { it.exponent } followed by summing each group
  // ---------------------------------------------------------------------------------------

  /** One term per distinct exponent, in order of first occurrence, holding the sum of the
      coefficients of that exponent. */
  function Group(ts: seq<Term>): seq<Term>
    decreases |ts|
  {
    if ts == [] then []
    else
      var e := ts[0].exp;
      [Term(e, CoefOf(ts, e))] + Group(Filter(ts[1..], LacksExp(e)))
  }

  lemma {:induction false} GroupSpec(ts: seq<Term>)
    ensures SameCoefs(Group(ts), ts)
    ensures DistinctExps(Group(ts))
    ensures forall e | NoExp(ts, e) :: NoExp(Group(ts), e)
    decreases |ts|
  {
    if ts != [] {
      var e0 := ts[0].exp;
      var rest := Filter(ts[1..], LacksExp(e0));
      GroupSpec(rest);
      forall e ensures CoefOf(Group(ts), e) == CoefOf(ts, e) {
        CoefOfConcat([Term(e0, CoefOf(ts, e0))], Group(rest), e);
        if e == e0 {
          FilterDrops(ts[1..], LacksExp(e0), e);
        } else {
          FilterKeeps(ts[1..], LacksExp(e0), e);
        }
      }
      assert NoExp(rest, e0) by {
        forall k | 0 <= k < |rest| ensures rest[k].exp != e0 {
          assert rest[k] in rest;
          assert LacksExp(e0)(rest[k]);
        }
      }
      DistinctCons(Term(e0, CoefOf(ts, e0)), Group(rest));
      forall e | NoExp(ts, e) ensures NoExp(Group(ts), e) {
        assert ts[0].exp != e;
        assert NoExp(ts[1..], e) by {
          forall k | 0 <= k < |ts[1..]| ensures ts[1..][k].exp != e {
            assert ts[1..][k] == ts[k + 1];
          }
        }
        NoExpSubset(rest, ts[1..], e);
      }
    }
  }

  // ---------------------------------------------------------------------------------------
  // sortedByDescending { it.exponent }
  // ---------------------------------------------------------------------------------------

  /** Place t before the first term whose exponent it is not below. */
  function Insert(t: Term, s: seq<Term>): (r: seq<Term>)
    ensures |r| == |s| + 1
    ensures r[0] == t || (s != [] && r[0] == s[0])
  {
    if s == [] then [t]
    else if Cmp(t.exp, s[0].exp) >= 0 then [t] + s
    else [s[0]] + Insert(t, s[1..])
  }

  function SortDescending(ts: seq<Term>): seq<Term> {
    if ts == [] then [] else Insert(ts[0], SortDescending(ts[1..]))
  }

  lemma {:induction false} InsertSpec(t: Term, s: seq<Term>)
    ensures SameCoefs(Insert(t, s), [t] + s)
    ensures forall e | NoExp(s, e) && t.exp != e :: NoExp(Insert(t, s), e)
    ensures Canonical(s) && t.coef > 0 && NoExp(s, t.exp) ==> Canonical(Insert(t, s))
    decreases |s|
  {
    if s != [] && Cmp(t.exp, s[0].exp) < 0 {
      var tail := Insert(t, s[1..]);
      InsertSpec(t, s[1..]);
      forall e ensures CoefOf(Insert(t, s), e) == CoefOf([t] + s, e) {
        CoefOfConcat([s[0]], tail, e);
        CoefOfConcat([t], s[1..], e);
        CoefOfConcat([t], s, e);
        assert s == [s[0]] + s[1..];
        CoefOfConcat([s[0]], s[1..], e);
      }
      forall e | NoExp(s, e) && t.exp != e ensures NoExp(Insert(t, s), e) {
        assert NoExp(s[1..], e) by {
          forall k | 0 <= k < |s[1..]| ensures s[1..][k].exp != e {
            assert s[1..][k] == s[k + 1];
          }
        }
      }
      if Canonical(s) && t.coef > 0 && NoExp(s, t.exp) {
        DescendingSlice(s, 1, |s|);
        assert NoExp(s[1..], t.exp) by {
          forall k | 0 <= k < |s[1..]| ensures s[1..][k].exp != t.exp {
            assert s[1..][k] == s[k + 1];
          }
        }
        var r := Insert(t, s);
        assert r == [s[0]] + tail;
        assert Less(tail[0].exp, s[0].exp) by {
          if tail[0] == t {
            CmpAntisymmetric(t.exp, s[0].exp);
          }
        }
        forall k | 0 < k < |r| ensures Less(r[k].exp, r[k - 1].exp) {
          if k > 1 {
            assert r[k] == tail[k - 1] && r[k - 1] == tail[k - 2];
          }
        }
      }
    } else if s != [] {
      if Canonical(s) && t.coef > 0 && NoExp(s, t.exp) {
        CmpZero(t.exp, s[0].exp);
        CmpAntisymmetric(t.exp, s[0].exp);
        var r := [t] + s;
        forall k | 0 < k < |r| ensures Less(r[k].exp, r[k - 1].exp) {
          if k > 1 {
            assert r[k] == s[k - 1] && r[k - 1] == s[k - 2];
          }
        }
      }
    }
  }

  lemma {:induction false} SortSpec(ts: seq<Term>)
    ensures SameCoefs(SortDescending(ts), ts)
    ensures forall e | NoExp(ts, e) :: NoExp(SortDescending(ts), e)
    ensures DistinctExps(ts) && (forall i | 0 <= i < |ts| :: ts[i].coef > 0) ==>
              Canonical(SortDescending(ts))
    decreases |ts|
  {
    if ts != [] {
      var rest := SortDescending(ts[1..]);
      SortSpec(ts[1..]);
      InsertSpec(ts[0], rest);
      forall e ensures CoefOf(SortDescending(ts), e) == CoefOf(ts, e) {
        CoefOfConcat([ts[0]], rest, e);
        CoefOfConcat([ts[0]], ts[1..], e);
        assert ts == [ts[0]] + ts[1..];
      }
      forall e | NoExp(ts, e) ensures NoExp(SortDescending(ts), e) {
        assert ts[0].exp != e;
        assert NoExp(ts[1..], e) by {
          forall k | 0 <= k < |ts[1..]| ensures ts[1..][k].exp != e {
            assert ts[1..][k] == ts[k + 1];
          }
        }
      }
      if DistinctExps(ts) && (forall i | 0 <= i < |ts| :: ts[i].coef > 0) {
        assert DistinctExps(ts[1..]) by {
          forall i, j | 0 <= i < j < |ts[1..]| ensures ts[1..][i].exp != ts[1..][j].exp {
            assert ts[1..][i] == ts[i + 1] && ts[1..][j] == ts[j + 1];
          }
        }
        assert NoExp(ts[1..], ts[0].exp) by {
          forall k | 0 <= k < |ts[1..]| ensures ts[1..][k].exp != ts[0].exp {
            assert ts[1..][k] == ts[k + 1];
          }
        }
        assert forall i | 0 <= i < |ts[1..]| :: ts[1..][i].coef > 0 by {
          forall i | 0 <= i < |ts[1..]| ensures ts[1..][i].coef > 0 {
            assert ts[1..][i] == ts[i + 1];
          }
        }
      }
    }
  }

  // ---------------------------------------------------------------------------------------
  // fromTerms
  // ---------------------------------------------------------------------------------------

  /** fromTerms: never fails, always produces a canonical list with the same coefficient for
      every exponent as its input, and a well-formed ordinal when the exponents are. */
  function FromTerms(ts: seq<Term>): (r: Ord)
    ensures Canonical(r.terms)
    ensures SameCoefs(r.terms, ts)
    ensures ExpsWF(ts) ==> WF(r)
  {
    if ts == [] then Zero
    else
      var grouped := Group(ts);
      var positive := Filter(grouped, PositiveCoef);
      GroupSpec(ts);
      FilterDistinct(grouped, PositiveCoef);
      SortSpec(positive);
      assert forall i | 0 <= i < |positive| :: positive[i].coef > 0 by {
        forall i | 0 <= i < |positive| ensures positive[i].coef > 0 {
          assert positive[i] in positive;
          assert PositiveCoef(positive[i]);
        }
      }
      var r := Ord(SortDescending(positive));
      assert SameCoefs(r.terms, ts) by {
        forall e ensures CoefOf(r.terms, e) == CoefOf(ts, e) {
          FilterKeeps(grouped, PositiveCoef, e);
        }
      }
      FromTermsExps(ts, r);
      r
  }

  /** Every term of a list with the same coefficients as ts has an exponent found in ts. */
  lemma FromTermsExps(ts: seq<Term>, r: Ord)
    requires Canonical(r.terms) && SameCoefs(r.terms, ts)
    ensures ExpsWF(ts) ==> WF(r)
  {
    if ExpsWF(ts) {
      forall i | 0 <= i < |r.terms| ensures WF(r.terms[i].exp) {
        CoefOfAt(r.terms, i);
        var j := CoefOfPositive(ts, r.terms[i].exp);
      }
    }
  }

  /** fromTerms leaves an already canonical list unchanged. */
  lemma FromTermsOfCanonical(ts: seq<Term>)
    requires Canonical(ts)
    ensures FromTerms(ts).terms == ts
  {
    CanonicalUnique(FromTerms(ts).terms, ts);
  }

  /** fromTerms is idempotent. */
  lemma FromTermsIdempotent(ts: seq<Term>)
    ensures FromTerms(FromTerms(ts).terms) == FromTerms(ts)
  {
    FromTermsOfCanonical(FromTerms(ts).terms);
  }

  /** fromTerms depends only on the coefficient of each exponent, not on order or grouping. */
  lemma FromTermsOfSameCoefs(xs: seq<Term>, ys: seq<Term>)
    requires SameCoefs(xs, ys)
    ensures FromTerms(xs) == FromTerms(ys)
  {
    CanonicalUnique(FromTerms(xs).terms, FromTerms(ys).terms);
  }
}
