/**
 * Sets listed as sequences: the insertion order a LinkedHashSet keeps, and
 * the order in which a HashMap's key set is iterated. A listing has no
 * element twice, so its length is the size of the set it lists.
 */
module Listings {

  /** No element twice, as in a set. */
  predicate Distinct<T(==)>(s: seq<T>)
  {
    forall i, j :: 0 <= i < j < |s| ==> s[i] != s[j]
  }

  /** The set a listing lists. */
  function Elems<T>(s: seq<T>): set<T>
  {
    set x | x in s
  }

  /** A set listed without repetition has as many elements as the list. */
  lemma {:induction false} DistinctCard<T>(s: seq<T>)
    requires Distinct(s)
    ensures |Elems(s)| == |s|
    decreases |s|
  {
    if s != [] {
      DistinctCard(s[1..]);
      assert Elems(s) == {s[0]} + Elems(s[1..]);
      assert s[0] !in Elems(s[1..]);
    }
  }

  lemma ElemsAppend<T>(s: seq<T>, x: T)
    ensures Elems(s + [x]) == Elems(s) + {x}
  {
    forall y ensures y in Elems(s + [x]) <==> y in Elems(s) + {x} {
      assert y in s + [x] <==> y in s || y == x;
    }
  }

  /** A repetition-free listing of the set `keys` has the set's size. */
  lemma DistinctListingCount<T>(order: seq<T>, keys: set<T>)
    requires Distinct(order) && forall k :: k in order <==> k in keys
    ensures |order| == |keys|
  {
    assert Elems(order) == keys;
    DistinctCard(order);
  }
}
