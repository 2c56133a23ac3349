/**
 * MutableMultiset: a multiset kept as a map from element to a positive count, updated
 * in place. The ghost `Bag` reads the count map as the Dafny multiset it stands for, and
 * every operation is specified against it.
 */
module Multisets {
  import opened Outcome

  datatype MultisetError = NonPositiveOccurrences

  /** `c` copies of `e`. */
  function Copies<E(!new)>(e: E, c: nat): (m: multiset<E>)
    ensures |m| == c && m[e] == c
    ensures forall y | y != e :: m[y] == 0
  {
    if c == 0 then multiset{} else Copies(e, c - 1) + multiset{e}
  }

  ghost function PickKey<E(!new)>(counts: map<E, nat>): (k: E)
    requires counts != map[]
    ensures k in counts
  {
    var k :| k in counts; k
  }

  /** The multiset a count map stands for: each key repeated as often as its count. */
  ghost function Bag<E(!new)>(counts: map<E, nat>): multiset<E>
    decreases |counts|
  {
    if counts == map[] then multiset{}
    else
      var k := PickKey(counts);
      Copies(k, counts[k]) + Bag(counts - {k})
  }

  /** The multiplicity of x in the bag is its count, or zero when x is not a key, whatever
      order the keys are taken in. */
  lemma {:induction false} BagCount<E(!new)>(counts: map<E, nat>, x: E)
    ensures Bag(counts)[x] == if x in counts then counts[x] else 0
    decreases |counts|
  {
    if counts != map[] {
      var k := PickKey(counts);
      BagCount(counts - {k}, x);
    }
  }

  /** Any key can be taken out first. */
  lemma BagRemove<E(!new)>(counts: map<E, nat>, k: E)
    requires k in counts
    ensures Bag(counts) == Copies(k, counts[k]) + Bag(counts - {k})
  {
    forall x
      ensures Bag(counts)[x] == (Copies(k, counts[k]) + Bag(counts - {k}))[x]
    {
      BagCount(counts, x);
      BagCount(counts - {k}, x);
    }
  }

  /** `counts.getOrDefault(x, 0)`. */
  function CountIn<E>(counts: map<E, nat>, x: E): nat {
    if x in counts then counts[x] else 0
  }

  /** The map never keeps a zero count. */
  ghost predicate Positive<E>(counts: map<E, nat>) {
    forall e | e in counts :: counts[e] > 0
  }

  /** The map `add` leaves: the count of `e` raised by `extra`. */
  function Raised<E>(counts: map<E, nat>, e: E, extra: nat): map<E, nat> {
    counts[e := CountIn(counts, e) + extra]
  }

  /** The map a successful `remove` leaves: the count of `e` lowered by `fewer`, and the
      key dropped once nothing is left. */
  function Lowered<E>(counts: map<E, nat>, e: E, fewer: nat): map<E, nat> {
    var current := CountIn(counts, e);
    if current == 0 then counts
    else if current <= fewer then counts - {e}
    else counts[e := current - fewer]
  }

  /** Adding raises the count of `e` by `extra` and no other count, and keeps every
      stored count positive when `extra` is. */
  lemma RaisedCounts<E>(counts: map<E, nat>, e: E, extra: nat, x: E)
    ensures CountIn(Raised(counts, e, extra), x) == CountIn(counts, x) + if x == e then extra else 0
    ensures Positive(counts) && extra > 0 ==> Positive(Raised(counts, e, extra))
  {
  }

  /** Adding puts `extra` more copies of `e` into the multiset. */
  lemma RaisedBag<E(!new)>(counts: map<E, nat>, e: E, extra: nat)
    ensures Bag(Raised(counts, e, extra)) == Bag(counts) + Copies(e, extra)
  {
    forall x
      ensures Bag(Raised(counts, e, extra))[x] == (Bag(counts) + Copies(e, extra))[x]
    {
      BagCount(Raised(counts, e, extra), x);
      BagCount(counts, x);
    }
  }

  /** Removing lowers the count of `e` to what is left after taking `fewer` away, never
      below zero, changes no other count, and keeps every stored count positive. */
  lemma LoweredCounts<E>(counts: map<E, nat>, e: E, fewer: nat, x: E)
    ensures CountIn(Lowered(counts, e, fewer), x) ==
              if x != e then CountIn(counts, x)
              else if CountIn(counts, e) <= fewer then 0
              else CountIn(counts, e) - fewer
    ensures Positive(counts) ==> Positive(Lowered(counts, e, fewer))
  {
  }

  /** Removing takes `fewer` copies of `e` out of the multiset, or all of them when there
      are fewer than that. */
  lemma LoweredBag<E(!new)>(counts: map<E, nat>, e: E, fewer: nat)
    ensures Bag(Lowered(counts, e, fewer)) == Bag(counts) - Copies(e, fewer)
  {
    forall x
      ensures Bag(Lowered(counts, e, fewer))[x] == (Bag(counts) - Copies(e, fewer))[x]
    {
      BagCount(Lowered(counts, e, fewer), x);
      BagCount(counts, x);
    }
  }

  class MutableMultiset<E(==,!new)> {
    var counts: map<E, nat>

    ghost predicate Valid()
      reads this
    {
      Positive(counts)
    }

    ghost function Contents(): multiset<E>
      reads this
    {
      Bag(counts)
    }

    constructor ()
      ensures Valid() && counts == map[] && Contents() == multiset{}
    {
      counts := map[];
    }

    /** `count(element)`: the stored count, zero for an absent element. */
    function Count(element: E): nat
      reads this
    {
      CountIn(counts, element)
    }

    /** The count of an element is its multiplicity in the multiset the map stands for. */
    lemma CountIsMultiplicity(element: E)
      ensures Count(element) == Contents()[element]
    {
      BagCount(counts, element);
    }

    /** `contains(element)`: a key of the map, which on a valid multiset is exactly an
        element with a positive count. */
    function Contains(element: E): (b: bool)
      reads this
      ensures Valid() ==> (b <==> Count(element) > 0)
      ensures Valid() ==> (b <==> element in Contents())
    {
      CountIsMultiplicity(element);
      element in counts
    }

    /** `size`: the sum of all counts. */
    method Size() returns (size: nat)
      ensures size == |Contents()|
    {
      size := 0;
      var rest := counts;
      while rest != map[]
        invariant size + |Bag(rest)| == |Contents()|
        decreases |rest|
      {
        var e :| e in rest;
        BagRemove(rest, e);
        size := size + rest[e];
        rest := rest - {e};
      }
    }

    /** `add(element, occurrences)`: fails on a non-positive amount, otherwise raises the
        count of `element` (see `RaisedCounts` and `RaisedBag`). */
    method Add(element: E, occurrences: int) returns (r: Result<(), MultisetError>)
      requires Valid()
      modifies this
      ensures Valid()
      ensures occurrences <= 0 ==> r == Err(NonPositiveOccurrences) && counts == old(counts)
      ensures occurrences > 0 ==> r == Ok(()) && counts == Raised(old(counts), element, occurrences)
    {
      if occurrences <= 0 {
        return Err(NonPositiveOccurrences);
      }
      forall x {
        RaisedCounts(counts, element, occurrences, x);
      }
      counts := counts[element := Count(element) + occurrences];
      r := Ok(());
    }

    /** `remove(element, occurrences)`: fails on a non-positive amount; answers false and
        changes nothing for an absent element; otherwise lowers the count, dropping the key
        when nothing is left, and answers true (see `LoweredCounts` and `LoweredBag`). */
    method Remove(element: E, occurrences: int) returns (r: Result<bool, MultisetError>)
      requires Valid()
      modifies this
      ensures Valid()
      ensures occurrences <= 0 ==> r == Err(NonPositiveOccurrences) && counts == old(counts)
      ensures occurrences > 0 ==> r == Ok(old(Count(element)) > 0) &&
                                  counts == Lowered(old(counts), element, occurrences)
    {
      if occurrences <= 0 {
        return Err(NonPositiveOccurrences);
      }
      forall x {
        LoweredCounts(counts, element, occurrences, x);
      }
      var currentCount := Count(element);
      if currentCount == 0 {
        return Ok(false);
      }
      if currentCount <= occurrences {
        counts := counts - {element};
      } else {
        counts := counts[element := currentCount - occurrences];
      }
      r := Ok(true);
    }

    /** `clear()`: every count becomes zero. */
    method Clear()
      modifies this
      ensures Valid() && counts == map[] && Contents() == multiset{}
    {
      counts := map[];
    }

    /** `iterator()`: each element listed as many times as its count; the order of the
        keys is left open. */
    method Iterator() returns (elements: seq<E>)
      ensures multiset(elements) == Contents()
      ensures |elements| == |Contents()|
    {
      elements := [];
      var rest := counts;
      while rest != map[]
        invariant multiset(elements) + Bag(rest) == Contents()
        decreases |rest|
      {
        var e :| e in rest;
        elements := AppendCopies(elements, e, rest[e]);
        BagRemove(rest, e);
        rest := rest - {e};
      }
    }
  }

  /** The `repeat(count)` loop of `iterator()`: appends `count` copies of `e`. */
  method AppendCopies<E(!new)>(elements: seq<E>, e: E, count: nat) returns (longer: seq<E>)
    ensures longer == elements + seq(count, _ => e)
    ensures multiset(longer) == multiset(elements) + Copies(e, count)
  {
    longer := elements;
    var i := 0;
    while i < count
      invariant 0 <= i <= count
      invariant longer == elements + seq(i, _ => e)
      invariant multiset(longer) == multiset(elements) + Copies(e, i)
    {
      longer := longer + [e];
      i := i + 1;
      assert seq(i, _ => e) == seq(i - 1, _ => e) + [e];
    }
  }

  /** `mutableMultisetOf(xs)`: a new multiset holding the elements of `xs`, each added
      once per occurrence. */
  method MutableMultisetOf<E(==,!new)>(xs: seq<E>) returns (m: MutableMultiset<E>)
    ensures fresh(m) && m.Valid()
    ensures m.Contents() == multiset(xs)
    ensures forall x :: m.Count(x) == multiset(xs)[x]
  {
    m := new MutableMultiset();
    var i := 0;
    while i < |xs|
      invariant 0 <= i <= |xs|
      invariant m.Valid()
      invariant forall y :: m.Count(y) == multiset(xs[..i])[y]
      modifies m
    {
      ghost var before := m.counts;
      var _ := m.Add(xs[i], 1);
      assert xs[..i + 1] == xs[..i] + [xs[i]];
      forall y
        ensures m.Count(y) == multiset(xs[..i + 1])[y]
      {
        RaisedCounts(before, xs[i], 1, y);
      }
      i := i + 1;
    }
    assert xs[..|xs|] == xs;
    forall y
      ensures m.Contents()[y] == multiset(xs)[y]
    {
      m.CountIsMultiplicity(y);
    }
  }
}
