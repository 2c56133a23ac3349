/** getQuotientSet as written, over a nullable element type: `None` stands for null. A
    related key that `find` returns is taken for "no representative" when it is null. */
module RelationsAsWritten {
  import opened Outcome
  import opened Relations

  /** `acc.keys.find { rep -> element to rep in rel }` as written: the first related key in
      insertion order, or null when there is none. A null key that is found is returned as
      null too, so the caller cannot tell it from "not found". */
  function FindRepAsWritten<A(==)>(keys: seq<Option<A>>, element: Option<A>, rel: set<(Option<A>, Option<A>)>): Option<A>
  {
    if keys == [] then None
    else if (element, keys[0]) in rel then keys[0]
    else FindRepAsWritten(keys[1..], element, rel)
  }

  /** The fold of getQuotientSet as written: a non-null representative takes the element into
      its group, a null one opens a new group keyed by the element. */
  function GroupsAsWritten<A(==)>(elements: seq<Option<A>>, rel: set<(Option<A>, Option<A>)>,
                              keys: seq<Option<A>>, groups: map<Option<A>, set<Option<A>>>): map<Option<A>, set<Option<A>>>
    decreases |elements|
  {
    if elements == [] then groups
    else
      var element := elements[0];
      var rep := FindRepAsWritten(keys, element, rel);
      if rep != None && rep in groups then
        GroupsAsWritten(elements[1..], rel, keys, groups[rep := groups[rep] + {element}])
      else
        GroupsAsWritten(elements[1..], rel, keys + [element], groups[element := {element}])
  }

  /** getQuotientSet as written, the carrier visited in the given order. */
  function QuotientAsWritten<A(==)>(elements: seq<Option<A>>, rel: set<(Option<A>, Option<A>)>): set<set<Option<A>>>
  {
    GroupsAsWritten(elements, rel, [], map[]).Values
  }

  /** The relation relating null and 1 to each other and to themselves, on {null, 1}. */
  function NullAndOne(): (R: Endorelation<Option<int>>)
    ensures R.a == {None, Some(1)}
    ensures forall p :: p in R.rel <==> p.0 in R.a && p.1 in R.a
  {
    Endorelation({None, Some(1)}, {(None, None), (None, Some(1)), (Some(1), None), (Some(1), Some(1))})
  }

  /** Related to everything on {null, 1}, the relation is an equivalence with one class. */
  lemma NullAndOneClasses(R: Endorelation<Option<int>>)
    requires R == NullAndOne()
    ensures R.Valid() && R.IsEquivalence()
    ensures R.Classes() == {{None, Some(1)}}
  {
    var n: Option<int>, one: Option<int> := None, Some(1);
    assert R.ClassOf(n) == {n, one};
    assert R.ClassOf(one) == {n, one};
  }

  /** The fold as written, visiting null first (the order of `setOf(null, 1)`): 1 finds the
      related key null, reads it as "no representative" and opens a group of its own. */
  lemma NullAndOneAsWritten(R: Endorelation<Option<int>>, elements: seq<Option<int>>)
    requires R == NullAndOne() && elements == [None, Some(1)]
    ensures QuotientAsWritten(elements, R.rel) == {{None}, {Some(1)}}
  {
    var n: Option<int>, one: Option<int> := None, Some(1);
    var empty: map<Option<int>, set<Option<int>>> := map[];
    var none: seq<Option<int>> := [];
    var g1 := empty[n := {n}];
    var g2 := g1[one := {one}];
    assert none + [n] == [n] && [n] + [one] == [n, one];
    assert elements[1..] == [one] && [one][1..] == none;
    assert FindRepAsWritten(none, n, R.rel) == None;
    assert FindRepAsWritten([n], one, R.rel) == n == None;
    assert GroupsAsWritten(elements, R.rel, none, empty) == GroupsAsWritten([one], R.rel, [n], g1);
    assert GroupsAsWritten([one], R.rel, [n], g1) == GroupsAsWritten(none, R.rel, [n, one], g2);
    assert g2.Values == {{n}, {one}} by {
      assert g2.Keys == {n, one} && g2[n] == {n} && g2[one] == {one};
    }
  }

  /** On the carrier {null, 1} with null related to 1, the code as written returns
      {{null}, {1}}, while the relation is an equivalence with the single class {null, 1}. */
  lemma NullRepresentativeSplitsClass()
    ensures NullAndOne().Valid() && NullAndOne().IsEquivalence()
    ensures QuotientAsWritten([None, Some(1)], NullAndOne().rel) == {{None}, {Some(1)}}
    ensures NullAndOne().Classes() == {{None, Some(1)}}
    ensures QuotientAsWritten([None, Some(1)], NullAndOne().rel) != NullAndOne().Classes()
  {
    var R := NullAndOne();
    NullAndOneClasses(R);
    NullAndOneAsWritten(R, [None, Some(1)]);
    var alone: set<Option<int>> := {None};
    assert Some(1) !in alone;
    assert alone in QuotientAsWritten([None, Some(1)], R.rel) && alone !in R.Classes();
  }
}
