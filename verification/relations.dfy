/** Binary relations between two finite sets and endorelations on one finite set, each
    held as the set of its pairs, with composition, powers, the Warshall transitive
    closure, the order and equivalence tests, equivalence classes and the quotient set. */
module Relations {
  import opened Outcome

  /** The conditions under which the relation classes throw. */
  datatype RelationError =
    | PairOutsideCarrier            // a pair whose components lie outside the carrier sets
    | CarrierMismatch               // composing relations whose middle sets differ
    | NegativeAmount                // power with a negative amount
    | NotAnEquivalence              // classes or quotient of a relation that is no equivalence
    | RepresentativeOutsideCarrier  // the class of an element outside the carrier

  /** Pairs (x, z) with (x, y) in `first` and (y, z) in `second`: `first`, then `second`. */
  function Join<X(==,!new), Y(==,!new), Z(==,!new)>(first: set<(X, Y)>, second: set<(Y, Z)>): (r: set<(X, Z)>)
    ensures forall x, z :: (x, z) in r <==> exists y :: (x, y) in first && (y, z) in second
  {
    var r := set p, q | p in first && q in second && p.1 == q.0 :: (p.0, q.1);
    assert forall x, z, y :: (x, y) in first && (y, z) in second ==> (x, z) in r by {
      forall x, z, y | (x, y) in first && (y, z) in second
        ensures (x, z) in r
      {
        var p, q := (x, y), (y, z);
        assert (p.0, q.1) in r;
      }
    }
    r
  }

  // ---------------------------------------------------------------------------------------
  // BinaryRelation
  // ---------------------------------------------------------------------------------------

  /** A relation from the set `l` to the set `r`. */
  datatype BinaryRelation<A(==,!new), B(==,!new)> = BinaryRelation(l: set<A>, r: set<B>, rel: set<(A, B)>)
  {
    /** What the constructor checks: every pair joins an element of `l` to one of `r`. */
    predicate Valid() {
      forall p | p in rel :: p.0 in l && p.1 in r
    }

    /** The primary constructor, which rejects a pair outside the carriers. */
    static function New(l: set<A>, r: set<B>, rel: set<(A, B)>): (res: Result<BinaryRelation<A, B>, RelationError>)
      ensures res.Ok? <==> forall p | p in rel :: p.0 in l && p.1 in r
      ensures res.Ok? ==> res.value.Valid() && res.value == BinaryRelation(l, r, rel)
      ensures res.Err? ==> res.error == PairOutsideCarrier
    {
      var R := BinaryRelation(l, r, rel);
      if R.Valid() then Ok(R) else Err(PairOutsideCarrier)
    }

    /** The constructor from a condition: the pairs of l x r that satisfy it. */
    static function FromCondition(l: set<A>, r: set<B>, condition: (A, B) -> bool): (R: BinaryRelation<A, B>)
      ensures R.Valid() && R.l == l && R.r == r
      ensures forall p :: p in R.rel <==> p.0 in l && p.1 in r && condition(p.0, p.1)
    {
      BinaryRelation(l, r, set x, y | x in l && y in r && condition(x, y) :: (x, y))
    }

    /** `this composite other`: first `other` (from C to A), then this relation; the
        middle sets must coincide. */
    function Composite<C(==,!new)>(other: BinaryRelation<C, A>): (res: Result<BinaryRelation<C, B>, RelationError>)
      requires Valid() && other.Valid()
      ensures res.Ok? <==> other.r == l
      ensures res.Err? ==> res.error == CarrierMismatch
      ensures res.Ok? ==> res.value.Valid() && res.value.l == other.l && res.value.r == r
      ensures res.Ok? ==> forall c, b :: (c, b) in res.value.rel <==>
                            exists a :: (c, a) in other.rel && (a, b) in rel
    {
      if other.r != l then Err(CarrierMismatch)
      else
        var joined := Join(other.rel, rel);
        assert forall p | p in joined :: p.0 in other.l && p.1 in r;
        BinaryRelation<C, B>.New(other.l, r, joined)
    }
  }

  // ---------------------------------------------------------------------------------------
  // Walks, the meaning of powers and closures
  // ---------------------------------------------------------------------------------------

  /** A walk along `rel`: at least one step, each consecutive pair related. */
  ghost predicate IsWalk<A(!new)>(rel: set<(A, A)>, w: seq<A>) {
    |w| >= 2 && forall i, j | 0 <= i && j == i + 1 && j < |w| :: (w[i], w[j]) in rel
  }

  /** Every vertex strictly between the two ends of `w` lies in `via`. */
  ghost predicate Inside<A(!new)>(w: seq<A>, via: set<A>) {
    forall i | 0 < i < |w| - 1 :: w[i] in via
  }

  /** z can be reached from x in one or more steps of `rel`. */
  ghost predicate Reachable<A(!new)>(rel: set<(A, A)>, x: A, z: A) {
    exists w :: IsWalk(rel, w) && w[0] == x && w[|w| - 1] == z
  }

  /** A walk of `len` vertices (len - 1 steps) leads from x to z. */
  ghost predicate WalkOfLength<A(!new)>(rel: set<(A, A)>, x: A, z: A, len: nat) {
    exists w :: IsWalk(rel, w) && |w| == len && w[0] == x && w[|w| - 1] == z
  }

  /** Two walks that meet give a walk whose inner vertices are theirs and the meeting point. */
  lemma WalkConcat<A(!new)>(rel: set<(A, A)>, u: seq<A>, v: seq<A>, via: set<A>) returns (w: seq<A>)
    requires IsWalk(rel, u) && IsWalk(rel, v) && u[|u| - 1] == v[0]
    requires Inside(u, via) && Inside(v, via) && v[0] in via
    ensures IsWalk(rel, w) && Inside(w, via) && w[0] == u[0] && w[|w| - 1] == v[|v| - 1]
  {
    w := u + v[1..];
    forall i | 0 <= i < |w| - 1
      ensures (w[i], w[i + 1]) in rel
    {
      if i < |u| - 1 {
        assert w[i] == u[i] && w[i + 1] == u[i + 1];
      } else {
        assert w[i] == v[i - |u| + 1] && w[i + 1] == v[i - |u| + 2];
      }
    }
    forall i | 0 < i < |w| - 1
      ensures w[i] in via
    {
      if i < |u| - 1 {
        assert w[i] == u[i];
      } else if i == |u| - 1 {
        assert w[i] == v[0];
      } else {
        assert w[i] == v[i - |u| + 1];
      }
    }
  }

  lemma ReachableTransitive<A(!new)>(rel: set<(A, A)>, x: A, y: A, z: A)
    requires Reachable(rel, x, y) && Reachable(rel, y, z)
    ensures Reachable(rel, x, z)
  {
    var u :| IsWalk(rel, u) && u[0] == x && u[|u| - 1] == y;
    var v :| IsWalk(rel, v) && v[0] == y && v[|v| - 1] == z;
    var everything := set i | 0 <= i < |u| :: u[i];
    everything := everything + set i | 0 <= i < |v| :: v[i];
    assert v[0] in everything;
    var w := WalkConcat(rel, u, v, everything);
  }

  /** A walk whose inner vertices lie in via + {k} and pass k at position i contains a walk
      from its start to k whose inner vertices lie in via. */
  lemma {:induction false} WalkUpTo<A(!new)>(rel: set<(A, A)>, w: seq<A>, via: set<A>, k: A, i: nat) returns (v: seq<A>)
    requires IsWalk(rel, w) && Inside(w, via + {k}) && 0 < i < |w| - 1 && w[i] == k
    ensures IsWalk(rel, v) && Inside(v, via) && v[0] == w[0] && v[|v| - 1] == k
    decreases |w|
  {
    if w[1] == k {
      v := [w[0], k];
    } else {
      assert w[1] in via;
      var rest := WalkUpTo(rel, w[1..], via, k, i - 1);
      v := [w[0]] + rest;
      forall j | 0 < j < |v| - 1
        ensures v[j] in via
      {
        if j > 1 {
          assert v[j] == rest[j - 1];
        }
      }
    }
  }

  /** Symmetrically, a walk from k to the end whose inner vertices lie in via. */
  lemma {:induction false} WalkFrom<A(!new)>(rel: set<(A, A)>, w: seq<A>, via: set<A>, k: A, i: nat) returns (v: seq<A>)
    requires IsWalk(rel, w) && Inside(w, via + {k}) && 0 < i < |w| - 1 && w[i] == k
    ensures IsWalk(rel, v) && Inside(v, via) && v[0] == k && v[|v| - 1] == w[|w| - 1]
    decreases |w|
  {
    var n := |w|;
    if w[n - 2] == k {
      v := [k, w[n - 1]];
    } else {
      assert w[n - 2] in via;
      var front := w[..n - 1];
      assert forall j | 0 < j < |front| - 1 :: front[j] == w[j];
      var rest := WalkFrom(rel, front, via, k, i);
      v := rest + [w[n - 1]];
      assert v[|rest| - 1] == w[n - 2];
    }
  }

  /** A walk with no room for inner vertices is a single step. */
  lemma DirectWalk<A(!new)>(rel: set<(A, A)>, w: seq<A>)
    requires IsWalk(rel, w) && Inside(w, {})
    ensures |w| == 2 && (w[0], w[1]) in rel
  {
  }

  /** Every step of rel stays in the carrier, so every walk lies inside it. */
  lemma WalkInCarrier<A(!new)>(rel: set<(A, A)>, carrier: set<A>, w: seq<A>)
    requires forall p | p in rel :: p.0 in carrier && p.1 in carrier
    requires IsWalk(rel, w)
    ensures Inside(w, carrier) && w[0] in carrier && w[|w| - 1] in carrier
  {
    forall i | 0 <= i < |w| - 1
      ensures w[i] in carrier
    {
      assert (w[i], w[i + 1]) in rel;
    }
    assert (w[|w| - 2], w[|w| - 1]) in rel;
  }

  /** A step followed by a walk is a walk. */
  lemma WalkCons<A(!new)>(rel: set<(A, A)>, x: A, u: seq<A>) returns (w: seq<A>)
    requires IsWalk(rel, u) && (x, u[0]) in rel
    ensures w == [x] + u && IsWalk(rel, w)
  {
    w := [x] + u;
    forall i | 1 <= i < |w| - 1
      ensures (w[i], w[i + 1]) in rel
    {
      assert w[i] == u[i - 1] && w[i + 1] == u[i];
    }
  }

  /** A walk of two or more steps, less its first step, is a walk. */
  lemma WalkTail<A(!new)>(rel: set<(A, A)>, w: seq<A>) returns (u: seq<A>)
    requires IsWalk(rel, w) && |w| >= 3
    ensures u == w[1..] && IsWalk(rel, u) && (w[0], w[1]) in rel
  {
    u := w[1..];
    forall i | 0 <= i < |u| - 1
      ensures (u[i], u[i + 1]) in rel
    {
      assert u[i] == w[i + 1] && u[i + 1] == w[i + 2];
    }
  }

  // ---------------------------------------------------------------------------------------
  // Endorelation
  // ---------------------------------------------------------------------------------------

  /** A relation on the set `a`. */
  datatype Endorelation<A(==,!new)> = Endorelation(a: set<A>, rel: set<(A, A)>)
  {
    /** What the constructor checks: both components of every pair lie in `a`. */
    predicate Valid() {
      forall p | p in rel :: p.0 in a && p.1 in a
    }

    /** The primary constructor, which rejects a pair outside the carrier. */
    static function New(a: set<A>, rel: set<(A, A)>): (res: Result<Endorelation<A>, RelationError>)
      ensures res.Ok? <==> forall p | p in rel :: p.0 in a && p.1 in a
      ensures res.Ok? ==> res.value.Valid() && res.value == Endorelation(a, rel)
      ensures res.Err? ==> res.error == PairOutsideCarrier
    {
      var R := Endorelation(a, rel);
      if R.Valid() then Ok(R) else Err(PairOutsideCarrier)
    }

    /** The constructor from a condition: the pairs of a x a that satisfy it. */
    static function FromCondition(a: set<A>, condition: (A, A) -> bool): (R: Endorelation<A>)
      ensures R.Valid() && R.a == a
      ensures forall p :: p in R.rel <==> p.0 in a && p.1 in a && condition(p.0, p.1)
    {
      Endorelation(a, set x, y | x in a && y in a && condition(x, y) :: (x, y))
    }

    /** The diagonal of `s`, which `power(0)` returns. */
    static function Identity(s: set<A>): (R: Endorelation<A>)
      ensures R.Valid() && R.a == s
      ensures forall p :: p in R.rel <==> p.0 == p.1 && p.0 in s
    {
      Endorelation(s, set x | x in s :: (x, x))
    }

    /** `this composite other`: first `other`, then this relation, over this carrier. There
        is no check that the carriers agree, but the constructor rejects a pair whose start
        lies outside this carrier. */
    function Composite(other: Endorelation<A>): (res: Result<Endorelation<A>, RelationError>)
      requires Valid() && other.Valid()
      ensures other.a == a ==> res.Ok?
      ensures res.Ok? <==> forall x, z :: (x, z) in Join(other.rel, rel) ==> x in a
      ensures res.Err? ==> res.error == PairOutsideCarrier
      ensures res.Ok? ==> res.value.Valid() && res.value.a == a
      ensures res.Ok? ==> forall x, z :: (x, z) in res.value.rel <==>
                            exists y :: (x, y) in other.rel && (y, z) in rel
    {
      New(a, Join(other.rel, rel))
    }

    /** `(1 until amount).fold(this) { acc, _ -> acc composite this }` after `steps` rounds. */
    function PowerFold(steps: nat): (R: Endorelation<A>)
      requires Valid()
      ensures R.Valid() && R.a == a
    {
      if steps == 0 then this
      else PowerFold(steps - 1).Composite(this).value
    }

    /** power: the identity for 0, the amount-fold composition of the relation otherwise. */
    function Power(amount: int): (res: Result<Endorelation<A>, RelationError>)
      requires Valid()
      ensures res.Err? <==> amount < 0
      ensures res.Err? ==> res.error == NegativeAmount
      ensures res.Ok? ==> res.value.Valid() && res.value.a == a
      ensures amount == 0 ==> res == Ok(Identity(a))
      ensures amount == 1 ==> res == Ok(this)
    {
      if amount < 0 then Err(NegativeAmount)
      else if amount == 0 then Ok(Identity(a))
      else Ok(PowerFold(amount - 1))
    }

    /** One more round of the fold puts one step of the relation in front. */
    lemma PowerFoldStep(steps: nat, x: A, z: A)
      requires Valid() && steps >= 1
      ensures (x, z) in PowerFold(steps).rel <==> exists y :: (x, y) in rel && (y, z) in PowerFold(steps - 1).rel
    {
      var prev := PowerFold(steps - 1);
      assert PowerFold(steps) == prev.Composite(this).value;
    }

    /** After `steps` rounds the fold relates x to z exactly when a walk of steps + 1 steps
        leads there. */
    lemma {:induction false} PowerFoldWalks(steps: nat, x: A, z: A)
      requires Valid()
      ensures (x, z) in PowerFold(steps).rel <==> WalkOfLength(rel, x, z, steps + 2)
    {
      if steps == 0 {
        WalkOfLengthOne(x, z);
      } else {
        var m := steps - 1;
        assert m + 2 == steps + 1;
        PowerFoldStep(steps, x, z);
        if (x, z) in PowerFold(steps).rel {
          var y :| (x, y) in rel && (y, z) in PowerFold(m).rel;
          PowerFoldWalks(m, y, z);
          WalkOfLengthCons(x, y, z, m + 2);
        }
        if WalkOfLength(rel, x, z, steps + 2) {
          var y := WalkOfLengthTail(x, z, steps + 2);
          PowerFoldWalks(m, y, z);
        }
      }
    }

    lemma WalkOfLengthOne(x: A, z: A)
      ensures (x, z) in rel <==> WalkOfLength(rel, x, z, 2)
    {
      if (x, z) in rel {
        var w := [x, z];
        assert IsWalk(rel, w) && w[|w| - 1] == z;
      }
      if WalkOfLength(rel, x, z, 2) {
        var w :| IsWalk(rel, w) && |w| == 2 && w[0] == x && w[|w| - 1] == z;
        assert (w[0], w[1]) in rel;
      }
    }

    lemma WalkOfLengthCons(x: A, y: A, z: A, len: nat)
      requires (x, y) in rel && WalkOfLength(rel, y, z, len)
      ensures WalkOfLength(rel, x, z, len + 1)
    {
      var u :| IsWalk(rel, u) && |u| == len && u[0] == y && u[|u| - 1] == z;
      var w := WalkCons(rel, x, u);
      assert w[|w| - 1] == z;
    }

    lemma WalkOfLengthTail(x: A, z: A, len: nat) returns (y: A)
      requires len >= 3 && WalkOfLength(rel, x, z, len)
      ensures (x, y) in rel && WalkOfLength(rel, y, z, len - 1)
    {
      var w :| IsWalk(rel, w) && |w| == len && w[0] == x && w[|w| - 1] == z;
      var u := WalkTail(rel, w);
      y := w[1];
      assert u[|u| - 1] == z;
    }

    /** The n-th power (n >= 1) relates x to z exactly when a walk of n steps leads there. */
    lemma PowerIsWalks(n: nat, x: A, z: A)
      requires Valid() && n >= 1
      ensures (x, z) in Power(n).value.rel <==> WalkOfLength(rel, x, z, n + 1)
    {
      var m := n - 1;
      PowerFoldWalks(m, x, z);
      assert m + 2 == n + 1;
      PowerIsFold(n, m);
    }

    lemma PowerIsFold(n: nat, m: nat)
      requires Valid() && n >= 1 && m == n - 1
      ensures Power(n) == Ok(PowerFold(m))
      ensures Power(n).value.rel == PowerFold(m).rel
    {
      assert Power(n) == Ok(PowerFold(n - 1));
    }

    /** The closure is the union of the positive powers. */
    lemma ReachableIsSomePower(x: A, z: A)
      requires Valid()
      ensures Reachable(rel, x, z) <==> exists n :: n >= 1 && (x, z) in Power(n).value.rel
    {
      if Reachable(rel, x, z) {
        var w :| IsWalk(rel, w) && w[0] == x && w[|w| - 1] == z;
        var n := |w| - 1;
        PowerIsWalks(n, x, z);
        assert WalkOfLength(rel, x, z, n + 1);
        assert (x, z) in Power(n).value.rel;
      }
      if exists n :: n >= 1 && (x, z) in Power(n).value.rel {
        var n :| n >= 1 && (x, z) in Power(n).value.rel;
        PowerIsWalks(n, x, z);
      }
    }

    /** The pairs (i, j) with (i, k) and (k, j) in `c`: what one Warshall round adds. */
    static ghost function Through(c: set<(A, A)>, k: A): set<(A, A)> {
      set p, q | p in c && q in c && p.1 == k && q.0 == k :: (p.0, q.1)
    }

    /** One Warshall round: if every walk through `via` is in `before`, every walk through
        via + {k} is in the round's result. */
    lemma RoundExtendsWalks(via: set<A>, k: A, before: set<(A, A)>)
      requires forall w | IsWalk(rel, w) && Inside(w, via) :: (w[0], w[|w| - 1]) in before
      ensures forall w | IsWalk(rel, w) && Inside(w, via + {k}) ::
                (w[0], w[|w| - 1]) in before + Through(before, k)
    {
      forall w | IsWalk(rel, w) && Inside(w, via + {k})
        ensures (w[0], w[|w| - 1]) in before + Through(before, k)
      {
        if !Inside(w, via) {
          var i :| 0 < i < |w| - 1 && w[i] !in via;
          var u := WalkUpTo(rel, w, via, k, i);
          var v := WalkFrom(rel, w, via, k, i);
          var p, q := (w[0], k), (k, w[|w| - 1]);
          assert p in before && q in before;
          assert (p.0, q.1) in Through(before, k);
        }
      }
    }

    /** Everything a round adds is reachable when everything before it was. */
    lemma ThroughReachable(before: set<(A, A)>, k: A)
      requires forall p | p in before :: Reachable(rel, p.0, p.1)
      ensures forall p | p in Through(before, k) :: Reachable(rel, p.0, p.1)
    {
      forall p | p in Through(before, k)
        ensures Reachable(rel, p.0, p.1)
      {
        var p1, q1 :| p1 in before && q1 in before && p1.1 == k && q1.0 == k && p == (p1.0, q1.1);
        ReachableTransitive(rel, p1.0, k, q1.1);
      }
    }

    /** transitiveClosure (Warshall): for each k, then each i, then each j, add (i, j) when
        (i, k) and (k, j) are already present. The result relates exactly the pairs joined by
        a walk, so it contains the relation and is transitive. */
    method TransitiveClosure() returns (closure: Endorelation<A>)
      requires Valid()
      ensures closure.Valid() && closure.a == a
      ensures rel <= closure.rel
      ensures closure.IsTransitive()
      ensures forall p :: p in closure.rel <==> Reachable(rel, p.0, p.1)
    {
      var closureRel := rel;
      forall p | p in rel
        ensures Reachable(rel, p.0, p.1)
      {
        var w := [p.0, p.1];
        assert IsWalk(rel, w);
      }
      var ks := a;
      forall w | IsWalk(rel, w) && Inside(w, a - ks)
        ensures (w[0], w[|w| - 1]) in closureRel
      {
        DirectWalk(rel, w);
      }
      while ks != {}
        invariant ks <= a
        invariant rel <= closureRel
        invariant forall p | p in closureRel :: p.0 in a && p.1 in a
        invariant forall p | p in closureRel :: Reachable(rel, p.0, p.1)
        invariant forall w | IsWalk(rel, w) && Inside(w, a - ks) :: (w[0], w[|w| - 1]) in closureRel
        decreases ks
      {
        var k :| k in ks;
        ghost var before := closureRel;
        var rows := a;
        while rows != {}
          invariant before <= closureRel <= before + Through(before, k)
          invariant forall p | p in Through(before, k) && p.0 !in rows :: p in closureRel
          decreases rows
        {
          var i :| i in rows;
          var js := a;
          while js != {}
            invariant before <= closureRel <= before + Through(before, k)
            invariant forall p | p in Through(before, k) && (p.0 !in rows || (p.0 == i && p.1 !in js)) ::
                        p in closureRel
            decreases js
          {
            var j :| j in js;
            if (i, k) in closureRel && (k, j) in closureRel {
              assert (i, k) in before && (k, j) in before;
              var p, q := (i, k), (k, j);
              assert (p.0, q.1) in Through(before, k);
              closureRel := closureRel + {(i, j)};
            }
            js := js - {j};
          }
          rows := rows - {i};
        }
        assert closureRel == before + Through(before, k);
        RoundExtendsWalks(a - ks, k, before);
        ThroughReachable(before, k);
        assert a - (ks - {k}) == (a - ks) + {k};
        ks := ks - {k};
      }
      closure := Endorelation(a, closureRel);
      forall x, z | Reachable(rel, x, z)
        ensures (x, z) in closureRel
      {
        var w :| IsWalk(rel, w) && w[0] == x && w[|w| - 1] == z;
        WalkInCarrier(rel, a, w);
      }
      forall p, q | p in closureRel && q in closureRel && p.1 == q.0
        ensures (p.0, q.1) in closureRel
      {
        ReachableTransitive(rel, p.0, p.1, q.1);
      }
    }

    /** reflectiveTransitiveClosure: the transitive closure together with power(0). */
    method ReflexiveTransitiveClosure() returns (closure: Endorelation<A>)
      requires Valid()
      ensures closure.Valid() && closure.a == a
      ensures closure.IsReflexive() && closure.IsTransitive()
      ensures forall p :: p in closure.rel <==> (p.0 == p.1 && p.0 in a) || Reachable(rel, p.0, p.1)
    {
      var transitive := TransitiveClosure();
      closure := Endorelation(a, transitive.rel + Power(0).value.rel);
      forall p, q | p in closure.rel && q in closure.rel && p.1 == q.0
        ensures (p.0, q.1) in closure.rel
      {
        if p.0 != p.1 && q.0 != q.1 {
          ReachableTransitive(rel, p.0, p.1, q.1);
        }
      }
    }

    /** isReflective: every element of the carrier is related to itself. */
    predicate IsReflexive() {
      forall x | x in a :: (x, x) in rel
    }

    predicate IsSymmetric() {
      forall p | p in rel :: (p.1, p.0) in rel
    }

    predicate IsAntisymmetric() {
      forall p | p in rel :: p.0 == p.1 || (p.1, p.0) !in rel
    }

    predicate IsTransitive() {
      forall p, q | p in rel && q in rel :: p.1 != q.0 || (p.0, q.1) in rel
    }

    predicate IsEquivalence() {
      IsReflexive() && IsSymmetric() && IsTransitive()
    }

    predicate IsPartialOrder() {
      IsReflexive() && IsAntisymmetric() && IsTransitive()
    }

    predicate IsTotalOrder() {
      IsPartialOrder() && forall x, y | x in a && y in a :: (x, y) in rel || (y, x) in rel
    }

    /** The relation read backwards: (y, x) for every related (x, y). */
    function Converse(): (r: set<(A, A)>)
      ensures forall x, y :: (x, y) in r <==> (y, x) in rel
    {
      var r := set p | p in rel :: (p.1, p.0);
      assert forall x, y | (y, x) in rel :: (x, y) in r by {
        forall x, y | (y, x) in rel
          ensures (x, y) in r
        {
          var p := (y, x);
          assert (p.1, p.0) in r;
        }
      }
      r
    }

    /** All pairs of elements of the carrier. */
    function Square(): (r: set<(A, A)>)
      ensures forall x, y :: (x, y) in r <==> x in a && y in a
    {
      set x, y | x in a && y in a :: (x, y)
    }

    /** Reflexive means containing the diagonal of the carrier. */
    lemma ReflexiveIffContainsIdentity()
      ensures IsReflexive() <==> Identity(a).rel <= rel
    {
    }

    /** Symmetric means equal to its own converse. */
    lemma SymmetricIffSelfConverse()
      ensures IsSymmetric() <==> Converse() == rel
    {
    }

    /** Antisymmetric means meeting its converse only on the diagonal. */
    lemma AntisymmetricIffMeetsConverseOnDiagonal()
      requires Valid()
      ensures IsAntisymmetric() <==> rel * Converse() <= Identity(a).rel
    {
    }

    /** Transitive means containing its composite with itself. */
    lemma TransitiveIffContainsSquare()
      requires Valid()
      ensures Composite(this).Ok?
      ensures IsTransitive() <==> Composite(this).value.rel <= rel
    {
    }

    /** An equivalence: contains the diagonal, equals its converse, contains its composite. */
    lemma EquivalenceIffAlgebraic()
      requires Valid()
      ensures Composite(this).Ok?
      ensures IsEquivalence() <==>
        Identity(a).rel <= rel && Converse() == rel && Composite(this).value.rel <= rel
    {
    }

    /** A partial order: contains the diagonal, meets its converse only there, contains its
        composite. */
    lemma PartialOrderIffAlgebraic()
      requires Valid()
      ensures Composite(this).Ok?
      ensures IsPartialOrder() <==>
        Identity(a).rel <= rel && rel * Converse() <= Identity(a).rel && Composite(this).value.rel <= rel
    {
    }

    /** A total order: a partial order that, together with its converse, covers a x a. */
    lemma TotalOrderIffCovers()
      requires Valid()
      ensures IsTotalOrder() <==> IsPartialOrder() && rel + Converse() == Square()
    {
    }

    /** An equivalence that is also antisymmetric is the diagonal itself. */
    lemma AntisymmetricEquivalenceIsIdentity()
      requires Valid() && IsEquivalence() && IsAntisymmetric()
      ensures rel == Identity(a).rel
    {
    }

    /** The elements related to `x`. */
    function ClassOf(x: A): (r: set<A>)
      ensures forall y :: y in r <==> (x, y) in rel
      ensures Valid() ==> r <= a
    {
      var r := set p | p in rel && p.0 == x :: p.1;
      assert forall p | p in rel && p.0 == x :: p.1 in r;
      r
    }

    /** getEquivalenceClass: the elements related to the representative, which must belong
        to the carrier of an equivalence. */
    function GetEquivalenceClass(representative: A): (res: Result<set<A>, RelationError>)
      requires Valid()
      ensures res.Ok? <==> IsEquivalence() && representative in a
      ensures !IsEquivalence() ==> res == Err(NotAnEquivalence)
      ensures IsEquivalence() && representative !in a ==> res == Err(RepresentativeOutsideCarrier)
      ensures res.Ok? ==> representative in res.value && res.value <= a
      ensures res.Ok? ==> forall y :: y in res.value <==> (representative, y) in rel
    {
      if !IsEquivalence() then Err(NotAnEquivalence)
      else if representative !in a then Err(RepresentativeOutsideCarrier)
      else
        assert (representative, representative) in rel;
        Ok(ClassOf(representative))
    }

    /** The classes of two elements of an equivalence coincide when the elements are related
        and are disjoint otherwise. */
    lemma ClassesPartition(x: A, y: A)
      requires Valid() && IsEquivalence() && x in a && y in a
      ensures (x, y) in rel <==> ClassOf(x) == ClassOf(y)
      ensures (x, y) !in rel <==> ClassOf(x) !! ClassOf(y)
    {
      assert (x, x) in rel && (y, y) in rel;
      assert x in ClassOf(x) && y in ClassOf(y);
      if (x, y) in rel {
        assert (y, x) in rel;
        forall z | z in ClassOf(x)
          ensures z in ClassOf(y)
        {
          var p, q := (y, x), (x, z);
        }
        forall z | z in ClassOf(y)
          ensures z in ClassOf(x)
        {
          var p, q := (x, y), (y, z);
        }
      } else {
        forall z | z in ClassOf(x) && z in ClassOf(y)
          ensures false
        {
          var p, q := (x, z), (y, z);
        }
      }
    }

    /** The classes of the carrier, the reference definition of the quotient set. */
    ghost function Classes(): set<set<A>> {
      set x | x in a :: ClassOf(x)
    }

    /** The classes of an equivalence partition its carrier: none is empty, two distinct
        ones are disjoint, and together they cover the carrier exactly. */
    lemma QuotientIsPartition()
      requires Valid() && IsEquivalence()
      ensures forall g | g in Classes() :: g != {} && g <= a
      ensures forall g, h | g in Classes() && h in Classes() && g != h :: g !! h
      ensures forall x | x in a :: exists g :: g in Classes() && x in g
    {
      forall g | g in Classes()
        ensures g != {} && g <= a
      {
        var x :| x in a && g == ClassOf(x);
        assert (x, x) in rel;
      }
      forall g, h | g in Classes() && h in Classes() && g != h
        ensures g !! h
      {
        var x :| x in a && g == ClassOf(x);
        var y :| y in a && h == ClassOf(y);
        ClassesPartition(x, y);
      }
      forall x | x in a
        ensures exists g :: g in Classes() && x in g
      {
        assert (x, x) in rel;
        assert x in ClassOf(x);
      }
    }

    /** What the fold keeps after visiting `done`: each representative has been visited and
        its group holds the visited members of its class, ... */
    ghost predicate GroupsExact(groups: map<A, set<A>>, done: set<A>) {
      forall rep | rep in groups :: rep in done && groups[rep] == ClassOf(rep) * done
    }

    /** ... no two representatives are related, ... */
    ghost predicate RepsUnrelated(groups: map<A, set<A>>) {
      forall r1, r2 | r1 in groups && r2 in groups && r1 != r2 :: (r1, r2) !in rel
    }

    /** x sits in some group. */
    static ghost predicate Covered(groups: map<A, set<A>>, x: A) {
      exists rep :: rep in groups && x in groups[rep]
    }

    /** ... and every visited element sits in some group. */
    static ghost predicate GroupsCoverDone(groups: map<A, set<A>>, done: set<A>) {
      forall x {:trigger Covered(groups, x)} | x in done :: Covered(groups, x)
    }

    /** Adding an element to a group, or opening a group for it, covers it. */
    lemma CoverOneMore(groups: map<A, set<A>>, done: set<A>, element: A, rep: A, after: map<A, set<A>>)
      requires GroupsCoverDone(groups, done)
      requires rep in after && element in after[rep]
      requires forall r | r in groups :: r in after && groups[r] <= after[r]
      ensures GroupsCoverDone(after, done + {element})
    {
      forall x | x in done + {element}
        ensures Covered(after, x)
      {
        if x != element {
          assert Covered(groups, x);
          var r :| r in groups && x in groups[r];
          assert x in after[r];
        }
      }
    }

    /** An element related to a representative belongs to its class and to no other. */
    lemma JoinGroupExact(groups: map<A, set<A>>, done: set<A>, element: A, rep: A)
      requires Valid() && IsSymmetric() && IsTransitive()
      requires GroupsExact(groups, done) && RepsUnrelated(groups)
      requires rep in groups && (element, rep) in rel
      ensures GroupsExact(groups[rep := groups[rep] + {element}], done + {element})
    {
      assert (rep, element) in rel;
      forall r2 | r2 in groups && r2 != rep
        ensures element !in ClassOf(r2)
      {
      }
    }

    /** An element related to no representative lies in no visited class, ... */
    lemma OpenGroupOutside(groups: map<A, set<A>>, element: A)
      requires IsSymmetric()
      requires forall rep | rep in groups :: (element, rep) !in rel
      ensures forall r2 | r2 in groups :: element !in ClassOf(r2)
    {
      forall r2 | r2 in groups
        ensures element !in ClassOf(r2)
      {
      }
    }

    /** ... and no visited element lies in its class. */
    lemma OpenGroupFresh(groups: map<A, set<A>>, done: set<A>, element: A)
      requires IsSymmetric() && IsTransitive()
      requires GroupsExact(groups, done) && GroupsCoverDone(groups, done)
      requires forall rep | rep in groups :: (element, rep) !in rel
      ensures ClassOf(element) * done == {}
    {
      forall x | x in done
        ensures x !in ClassOf(element)
      {
        assert Covered(groups, x);
        var r2 :| r2 in groups && x in groups[r2];
        assert (r2, x) in rel;
      }
    }

    /** Opening a group for such an element keeps the groups exact. */
    lemma OpenGroupExact(groups: map<A, set<A>>, done: set<A>, element: A)
      requires Valid() && IsEquivalence()
      requires GroupsExact(groups, done) && GroupsCoverDone(groups, done)
      requires element in a && element !in done
      requires forall rep | rep in groups :: (element, rep) !in rel
      ensures GroupsExact(groups[element := {element}], done + {element})
    {
      OpenGroupOutside(groups, element);
      OpenGroupFresh(groups, done, element);
      var after := groups[element := {element}];
      forall rep | rep in after
        ensures rep in done + {element} && after[rep] == ClassOf(rep) * (done + {element})
      {
        if rep == element {
          assert (element, element) in rel;
          assert ClassOf(element) * (done + {element}) == {element};
        } else {
          assert element !in ClassOf(rep);
          assert ClassOf(rep) * (done + {element}) == ClassOf(rep) * done;
        }
      }
    }

    /** A new representative related to no old one keeps the representatives unrelated. */
    lemma OpenGroupUnrelated(groups: map<A, set<A>>, element: A)
      requires IsSymmetric() && RepsUnrelated(groups)
      requires forall rep | rep in groups :: (element, rep) !in rel
      ensures RepsUnrelated(groups[element := {element}])
    {
      forall r2 | r2 in groups
        ensures (r2, element) !in rel
      {
      }
    }

    /** getQuotientSet: fold over the carrier, adding each element to the group of the
        representative it is related to, or opening a new group for it; the groups are the
        equivalence classes. */
    method GetQuotientSet() returns (res: Result<set<set<A>>, RelationError>)
      requires Valid()
      ensures res.Err? <==> !IsEquivalence()
      ensures res.Err? ==> res.error == NotAnEquivalence
      ensures res.Ok? ==> res.value == Classes()
    {
      if !IsEquivalence() {
        return Err(NotAnEquivalence);
      }
      var groups: map<A, set<A>> := map[];
      var todo := a;
      while todo != {}
        invariant todo <= a
        invariant GroupsExact(groups, a - todo)
        invariant RepsUnrelated(groups)
        invariant GroupsCoverDone(groups, a - todo)
        decreases todo
      {
        var element :| element in todo;
        assert a - (todo - {element}) == (a - todo) + {element};
        if rep :| rep in groups && (element, rep) in rel {
          JoinGroupExact(groups, a - todo, element, rep);
          var after := groups[rep := groups[rep] + {element}];
          CoverOneMore(groups, a - todo, element, rep, after);
          groups := after;
        } else {
          OpenGroupExact(groups, a - todo, element);
          OpenGroupUnrelated(groups, element);
          var after := groups[element := {element}];
          CoverOneMore(groups, a - todo, element, element, after);
          groups := after;
        }
        todo := todo - {element};
      }
      assert a - todo == a;
      GroupsAreClasses(groups);
      return Ok(set rep | rep in groups :: groups[rep]);
    }

    /** Once the whole carrier is visited, each group is a class ... */
    lemma GroupIsClass(groups: map<A, set<A>>, rep: A)
      requires Valid() && GroupsExact(groups, a) && rep in groups
      ensures groups[rep] in Classes()
    {
      assert ClassOf(rep) * a == ClassOf(rep);
      assert rep in a && groups[rep] == ClassOf(rep);
    }

    /** ... and each class is a group. */
    lemma ClassIsGroup(groups: map<A, set<A>>, x: A) returns (rep: A)
      requires Valid() && IsEquivalence() && x in a
      requires GroupsExact(groups, a) && GroupsCoverDone(groups, a)
      ensures rep in groups && ClassOf(x) == groups[rep]
    {
      assert Covered(groups, x);
      rep :| rep in groups && x in groups[rep];
      ClassesPartition(rep, x);
      assert ClassOf(rep) * a == ClassOf(rep);
    }

    /** Hence the groups are exactly the classes. */
    lemma GroupsAreClasses(groups: map<A, set<A>>)
      requires Valid() && IsEquivalence()
      requires GroupsExact(groups, a) && GroupsCoverDone(groups, a)
      ensures (set rep | rep in groups :: groups[rep]) == Classes()
    {
      var quotient := set rep | rep in groups :: groups[rep];
      forall g | g in quotient
        ensures g in Classes()
      {
        var rep :| rep in groups && g == groups[rep];
        GroupIsClass(groups, rep);
      }
      forall g | g in Classes()
        ensures g in quotient
      {
        var x :| x in a && g == ClassOf(x);
        var rep := ClassIsGroup(groups, x);
      }
    }
  }

  /** The diagonal is an equivalence and a partial order, and each class is a singleton. */
  lemma IdentityIsEquivalence<A(!new)>(s: set<A>)
    ensures Endorelation.Identity(s).IsEquivalence()
    ensures Endorelation.Identity(s).IsPartialOrder()
    ensures forall x | x in s :: Endorelation.Identity(s).ClassOf(x) == {x}
  {
    var I := Endorelation.Identity(s);
    forall x | x in s
      ensures I.ClassOf(x) == {x}
    {
      assert (x, x) in I.rel;
    }
  }
}
