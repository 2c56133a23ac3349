/** Functions between finite sets given by their table: a domain, a codomain and a map from
    the domain into the codomain, with application, composition, the injective, surjective
    and bijective tests, the inverse, the graph, the enumeration of all functions between
    two sets and the identity. */
module Mappings {
  import opened Outcome
  import Relations

  /** The conditions under which the function class throws. */
  datatype MappingError =
    | DomainMismatch         // the domain is not the key set of the table
    | ValueOutsideCodomain   // a value of the table lies outside the codomain
    | ArgumentOutsideDomain  // invoke on an element outside the domain
    | CodomainMismatch       // composing when the inner codomain is not the outer domain
    | NotBijective           // inverse of a function that is not a bijection

  /** No two keys of m share a value. */
  ghost predicate Injective<A, B>(m: map<A, B>) {
    forall x, y | x in m && y in m && m[x] == m[y] :: x == y
  }

  /** Counting values: a table has at most as many values as keys, and exactly as many
      precisely when no two keys share a value. */
  lemma {:induction false} ValuesCount<A, B>(m: map<A, B>)
    ensures |m.Values| <= |m.Keys|
    ensures |m.Values| == |m.Keys| <==> Injective(m)
    decreases |m.Keys|
  {
    if m.Keys == {} {
      assert m.Values == {};
    } else {
      var k :| k in m.Keys;
      var rest := m - {k};
      assert rest.Keys == m.Keys - {k};
      ValuesCount(rest);
      if m[k] in rest.Values {
        var j :| j in rest && rest[j] == m[k];
        assert m.Values == rest.Values by {
          forall v | v in m.Values
            ensures v in rest.Values
          {
            var x :| x in m && m[x] == v;
            if x != k {
              assert rest[x] == v;
            }
          }
        }
        assert j != k && m[j] == m[k];
      } else {
        assert m.Values == rest.Values + {m[k]} by {
          forall v | v in m.Values
            ensures v in rest.Values + {m[k]}
          {
            var x :| x in m && m[x] == v;
            if x != k {
              assert rest[x] == v;
            }
          }
        }
        assert |m.Values| == |rest.Values| + 1;
        if Injective(rest) {
          assert forall z | z in rest :: rest[z] in rest.Values && m[z] != m[k];
          forall x, y | x in m && y in m && m[x] == m[y]
            ensures x == y
          {
            if x != k && y != k {
              assert rest[x] == rest[y];
            }
          }
        }
      }
    }
  }

  /** A function from `dom` to `codom` held as its table. */
  datatype MappableFunction<A(==,!new), B(==,!new)> = MappableFunction(dom: set<A>, codom: set<B>, mapping: map<A, B>)
  {
    /** What the constructor checks: the table is defined on exactly the domain and takes
        its values in the codomain. */
    predicate Valid() {
      dom == mapping.Keys && mapping.Values <= codom
    }

    /** The primary constructor: the domain must be the key set of the table, and every
        value must lie in the codomain. */
    static function New(dom: set<A>, codom: set<B>, mapping: map<A, B>): (res: Result<MappableFunction<A, B>, MappingError>)
      ensures res.Ok? <==> dom == mapping.Keys && mapping.Values <= codom
      ensures res.Ok? ==> res.value.Valid() && res.value == MappableFunction(dom, codom, mapping)
      ensures dom != mapping.Keys ==> res == Err(DomainMismatch)
      ensures dom == mapping.Keys && !(mapping.Values <= codom) ==> res == Err(ValueOutsideCodomain)
    {
      if dom != mapping.Keys then Err(DomainMismatch)
      else if !(mapping.Values <= codom) then Err(ValueOutsideCodomain)
      else Ok(MappableFunction(dom, codom, mapping))
    }

    /** The constructor from a codomain and a table, whose keys become the domain. */
    static function WithCodomain(codom: set<B>, mapping: map<A, B>): (res: Result<MappableFunction<A, B>, MappingError>)
      ensures res.Ok? <==> mapping.Values <= codom
      ensures res.Err? ==> res.error == ValueOutsideCodomain
      ensures res.Ok? ==> res.value.Valid() && res.value.dom == mapping.Keys
      ensures res.Ok? ==> res.value.codom == codom && res.value.mapping == mapping
    {
      New(mapping.Keys, codom, mapping)
    }

    /** The constructor from a domain, a codomain and a Kotlin function, tabulated on the
        domain. */
    static function FromFunction(dom: set<A>, codom: set<B>, f: A -> B): (res: Result<MappableFunction<A, B>, MappingError>)
      ensures res.Ok? <==> forall x | x in dom :: f(x) in codom
      ensures res.Err? ==> res.error == ValueOutsideCodomain
      ensures res.Ok? ==> res.value.Valid() && res.value.dom == dom && res.value.codom == codom
      ensures res.Ok? ==> forall x | x in dom :: res.value.Invoke(x) == Ok(f(x))
    {
      var table := map x | x in dom :: f(x);
      assert forall x | x in dom :: table[x] in table.Values;
      New(dom, codom, table)
    }

    /** invoke: the table's value, or a failure outside the domain. */
    function Invoke(x: A): (res: Result<B, MappingError>)
      requires Valid()
      ensures res.Ok? <==> x in dom
      ensures res.Err? ==> res.error == ArgumentOutsideDomain
      ensures res.Ok? ==> res.value in codom && (x, res.value) in Graph()
    {
      if x in mapping then
        assert mapping[x] in mapping.Values;
        Ok(mapping[x])
      else Err(ArgumentOutsideDomain)
    }

    /** `this composite other`: first `other`, then this function; the codomain of `other`
        must be the domain of this one. */
    function Composite<C(==,!new)>(other: MappableFunction<C, A>): (res: Result<MappableFunction<C, B>, MappingError>)
      requires Valid() && other.Valid()
      ensures res.Ok? <==> other.codom == dom
      ensures res.Err? ==> res.error == CodomainMismatch
      ensures res.Ok? ==> res.value.Valid() && res.value.dom == other.dom && res.value.codom == codom
      ensures res.Ok? ==> forall c | c in other.dom :: res.value.Invoke(c) == Invoke(other.Invoke(c).value)
    {
      if other.codom != dom then Err(CodomainMismatch)
      else
        assert forall c | c in other.mapping :: other.mapping[c] in other.mapping.Values;
        var table := map c | c in other.mapping :: mapping[other.mapping[c]];
        assert forall c | c in table :: table[c] == mapping[other.mapping[c]] && mapping[other.mapping[c]] in mapping.Values;
        MappableFunction<C, B>.WithCodomain(codom, table)
    }

    /** isInjective: the table has as many distinct values as entries. */
    predicate IsInjective() {
      |mapping.Values| == |mapping.Keys|
    }

    /** isSurjective: the values are exactly the codomain. */
    predicate IsSurjective() {
      codom == mapping.Values
    }

    predicate IsBijective() {
      IsInjective() && IsSurjective()
    }

    /** The counting test of injectivity holds exactly when no two arguments share a value. */
    lemma InjectiveIffNoSharedValue()
      requires Valid()
      ensures IsInjective() <==> forall x, y | x in dom && y in dom && Invoke(x) == Invoke(y) :: x == y
    {
      ValuesCount(mapping);
    }

    /** The surjectivity test holds exactly when every element of the codomain is a value. */
    lemma SurjectiveIffEveryValueReached()
      requires Valid()
      ensures IsSurjective() <==> forall y | y in codom :: exists x :: x in dom && Invoke(x) == Ok(y)
    {
      if forall y | y in codom :: exists x :: x in dom && Invoke(x) == Ok(y) {
        forall y | y in codom
          ensures y in mapping.Values
        {
          var x :| x in dom && Invoke(x) == Ok(y);
        }
      }
      if IsSurjective() {
        forall y | y in codom
          ensures exists x :: x in dom && Invoke(x) == Ok(y)
        {
          var x :| x in mapping && mapping[x] == y;
          assert Invoke(x) == Ok(y);
        }
      }
    }

    /** The bijectivity test holds exactly when every codomain element is the value of
        exactly one argument; then domain and codomain have the same size. */
    lemma BijectiveIffOneToOne()
      requires Valid()
      ensures IsBijective() <==>
        (forall x, y | x in dom && y in dom && Invoke(x) == Invoke(y) :: x == y) &&
        (forall y | y in codom :: exists x :: x in dom && Invoke(x) == Ok(y))
      ensures IsBijective() ==> |dom| == |codom|
    {
      InjectiveIffNoSharedValue();
      SurjectiveIffEveryValueReached();
    }

    /** inverse: defined for a bijection, it sends each value back to its argument; its
        domain is the codomain and its codomain the domain. */
    function Inverse(): (res: Result<MappableFunction<B, A>, MappingError>)
      requires Valid()
      ensures res.Ok? <==> IsBijective()
      ensures res.Err? ==> res.error == NotBijective
      ensures res.Ok? ==> res.value.Valid() && res.value.dom == codom && res.value.codom == dom
      ensures res.Ok? ==> forall x | x in dom :: res.value.Invoke(Invoke(x).value) == Ok(x)
      ensures res.Ok? ==> forall y | y in codom :: Invoke(res.value.Invoke(y).value) == Ok(y)
    {
      if !IsBijective() then Err(NotBijective)
      else
        ValuesCount(mapping);
        var table := map x | x in mapping :: mapping[x] := x;
        assert forall x | x in mapping :: mapping[x] in table && table[mapping[x]] == x;
        assert table.Keys == codom by {
          forall y | y in codom
            ensures y in table
          {
            var x :| x in mapping && mapping[x] == y;
          }
        }
        assert table.Values == dom by {
          forall x | x in dom
            ensures x in table.Values
          {
            assert table[mapping[x]] == x;
          }
        }
        MappableFunction<B, A>.WithCodomain(dom, table)
    }

    /** graph: the set of argument-value pairs. */
    function Graph(): (r: set<(A, B)>)
      ensures forall p | p in r :: p.0 in mapping && mapping[p.0] == p.1
      ensures forall x | x in mapping :: (x, mapping[x]) in r
    {
      set x | x in mapping :: (x, mapping[x])
    }

    /** The graph is a relation from the domain to the codomain that relates each element
        of the domain to exactly one element. */
    lemma GraphIsFunctional()
      requires Valid()
      ensures Relations.BinaryRelation(dom, codom, Graph()).Valid()
      ensures forall x | x in dom :: exists y :: (x, y) in Graph()
      ensures forall p, q | p in Graph() && q in Graph() && p.0 == q.0 :: p.1 == q.1
    {
      forall p | p in Graph()
        ensures p.0 in dom && p.1 in codom
      {
        assert mapping[p.0] in mapping.Values;
      }
    }
  }

  /** Two functions between the same sets with the same graph are equal. */
  lemma GraphDetermines<A(!new), B(!new)>(f: MappableFunction<A, B>, g: MappableFunction<A, B>)
    requires f.Valid() && g.Valid() && f.dom == g.dom && f.codom == g.codom
    requires f.Graph() == g.Graph()
    ensures f == g
  {
    forall x | x in f.mapping
      ensures g.mapping[x] == f.mapping[x]
    {
      assert (x, f.mapping[x]) in g.Graph();
    }
  }

  /** identityMapping: each element of the set sent to itself. */
  function IdentityMapping<T(==,!new)>(s: set<T>): (f: MappableFunction<T, T>)
    ensures f.Valid() && f.dom == s && f.codom == s
    ensures forall x | x in s :: f.Invoke(x) == Ok(x)
  {
    var table := map x | x in s :: x;
    assert table.Values == s by {
      forall x | x in s
        ensures x in table.Values
      {
        assert table[x] == x;
      }
    }
    MappableFunction(s, s, table)
  }

  /** The identity is a bijection and is its own inverse. */
  lemma IdentityIsBijective<T(!new)>(s: set<T>)
    ensures IdentityMapping(s).IsBijective()
    ensures IdentityMapping(s).Inverse() == Ok(IdentityMapping(s))
  {
    var id := IdentityMapping(s);
    assert id.mapping.Values == s;
    assert id.mapping.Keys == s;
    var inv := id.Inverse().value;
    assert inv.mapping == id.mapping by {
      forall x | x in s
        ensures inv.mapping[x] == x
      {
        assert inv.Invoke(id.Invoke(x).value) == Ok(x);
      }
    }
  }

  /** Composing with the identity on either side changes nothing. */
  lemma CompositeWithIdentity<A(!new), B(!new)>(f: MappableFunction<A, B>)
    requires f.Valid()
    ensures f.Composite(IdentityMapping(f.dom)) == Ok(f)
    ensures IdentityMapping(f.codom).Composite(f) == Ok(f)
  {
    var right := f.Composite(IdentityMapping(f.dom)).value;
    assert right.mapping == f.mapping by {
      forall x | x in f.dom
        ensures right.mapping[x] == f.mapping[x]
      {
        assert right.Invoke(x) == f.Invoke(x);
      }
    }
    var left := IdentityMapping(f.codom).Composite(f).value;
    assert left.mapping == f.mapping by {
      forall x | x in f.dom
        ensures left.mapping[x] == f.mapping[x]
      {
        assert f.mapping[x] in f.mapping.Values;
        assert left.Invoke(x) == IdentityMapping(f.codom).Invoke(f.mapping[x]);
      }
    }
  }

  /** Composition is associative. */
  lemma CompositeAssociative<A(!new), B(!new), C(!new), D(!new)>(h: MappableFunction<C, D>, g: MappableFunction<B, C>, f: MappableFunction<A, B>)
    requires f.Valid() && g.Valid() && h.Valid()
    requires f.codom == g.dom && g.codom == h.dom
    ensures h.Composite(g).value.Composite(f) == h.Composite(g.Composite(f).value)
  {
    var hg := h.Composite(g).value;
    var gf := g.Composite(f).value;
    var one := hg.Composite(f).value;
    var two := h.Composite(gf).value;
    assert one.mapping == two.mapping by {
      forall x | x in f.dom
        ensures one.mapping[x] == two.mapping[x]
      {
        assert f.mapping[x] in f.mapping.Values;
        assert g.mapping[f.mapping[x]] in g.mapping.Values;
        assert one.Invoke(x) == hg.Invoke(f.mapping[x]);
        assert two.Invoke(x) == h.Invoke(gf.mapping[x]);
      }
    }
  }

  /** A bijection followed by its inverse is the identity on its domain ... */
  lemma InverseCancelsAfter<A(!new), B(!new)>(f: MappableFunction<A, B>)
    requires f.Valid() && f.IsBijective()
    ensures f.Inverse().value.Composite(f) == Ok(IdentityMapping(f.dom))
  {
    var inv := f.Inverse().value;
    var back := inv.Composite(f).value;
    assert back.mapping == IdentityMapping(f.dom).mapping by {
      forall x | x in f.dom
        ensures back.mapping[x] == x
      {
        assert f.mapping[x] in f.mapping.Values;
        assert back.Invoke(x) == inv.Invoke(f.Invoke(x).value);
      }
    }
  }

  /** ... and its inverse followed by it is the identity on its codomain. */
  lemma InverseCancelsBefore<A(!new), B(!new)>(f: MappableFunction<A, B>)
    requires f.Valid() && f.IsBijective()
    ensures f.Composite(f.Inverse().value) == Ok(IdentityMapping(f.codom))
  {
    var inv := f.Inverse().value;
    var there := f.Composite(inv).value;
    assert there.mapping == IdentityMapping(f.codom).mapping by {
      forall y | y in f.codom
        ensures there.mapping[y] == y
      {
        assert inv.mapping[y] in inv.mapping.Values;
        assert there.Invoke(y) == f.Invoke(inv.Invoke(y).value);
      }
    }
  }

  /** The tables on `keys` whose values lie in `codom`. */
  ghost predicate TableInto<A, B>(m: map<A, B>, keys: set<A>, codom: set<B>) {
    m.Keys == keys && m.Values <= codom
  }

  /** allMappings: fold over the domain, extending every table built so far by every
      possible value of the next element; each complete table then becomes a function.
      The result is every function from `dom` to `codom`. */
  method AllMappings<A(==,!new), B(==,!new)>(dom: set<A>, codom: set<B>) returns (fs: set<MappableFunction<A, B>>)
    ensures forall f: MappableFunction<A, B> :: f in fs <==> f.Valid() && f.dom == dom && f.codom == codom
  {
    var tables: set<map<A, B>> := {map[]};
    var todo := dom;
    while todo != {}
      invariant todo <= dom
      invariant forall m :: m in tables <==> TableInto(m, dom - todo, codom)
      decreases todo
    {
      var k :| k in todo;
      ghost var done := dom - todo;
      var next := set m, v | m in tables && v in codom :: m[k := v];
      forall m | TableInto(m, done + {k}, codom)
        ensures m in next
      {
        var shorter := m - {k};
        assert shorter.Keys == done;
        assert shorter.Values <= codom by {
          forall v | v in shorter.Values
            ensures v in codom
          {
            var x :| x in shorter && shorter[x] == v;
            assert m[x] in m.Values;
          }
        }
        assert m[k] in m.Values;
        var rebuilt := shorter[k := m[k]];
        assert rebuilt.Keys == m.Keys;
        assert forall x | x in m :: rebuilt[x] == m[x];
        assert m == rebuilt;
        assert shorter in tables && m[k] in codom;
      }
      forall m | m in next
        ensures TableInto(m, done + {k}, codom)
      {
        var old_m, v :| old_m in tables && v in codom && m == old_m[k := v];
        forall w | w in m.Values
          ensures w in codom
        {
          var x :| x in m && m[x] == w;
          if x != k {
            assert old_m[x] in old_m.Values;
          }
        }
      }
      assert dom - (todo - {k}) == done + {k};
      tables := next;
      todo := todo - {k};
    }
    fs := set m | m in tables :: MappableFunction(m.Keys, codom, m);
    forall f: MappableFunction<A, B> | f.Valid() && f.dom == dom && f.codom == codom
      ensures f in fs
    {
      assert TableInto(f.mapping, dom - todo, codom);
    }
  }
}
