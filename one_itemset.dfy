/**
 * A one-element itemset of frequent itemset mining (APRIORI): a single item
 * with its support count.
 */
module Itemsets {
  import opened Ints

  /** An itemset holding exactly one item. */
  datatype OneItemset = OneItemset(item: Int32, support: Int32)
  {
    /** The number of items: always one. */
    function Length(): (r: nat)
      ensures r == 1
    {
      1
    }

    /** The first iterator position. */
    function Iter(): (r: int)
      ensures IterValid(r)
    {
      0
    }

    /** Only the first position is valid. */
    predicate IterValid(i: int)
    {
      i == 0
    }

    /** The position after `i`; after the first one it is no longer valid. */
    function IterAdvance(i: int): (r: int)
      ensures !IterValid(r)
    {
      1
    }

    /** The item at a position: the only item there is. */
    function IterDim(i: int): (r: Int32)
      ensures r == item
    {
      item
    }

    /** Two one-itemsets are equal when they hold the same item. */
    predicate Equals(o: OneItemset)
    {
      item == o.item
    }

    /** -1, 0 or +1 as this item is below, equal to or above the other. */
    function CompareTo(o: OneItemset): (r: int)
      ensures r in {-1, 0, 1}
      ensures r < 0 <==> item < o.item
      ensures r > 0 <==> item > o.item
    {
      if item < o.item then -1 else if item > o.item then 1 else 0
    }
  }

  /** An itemset with no support counted yet. */
  function Single(item: Int32): (s: OneItemset)
    ensures s.item == item && s.support == 0
  {
    OneItemset(item, 0)
  }

  /** An itemset with a given initial support. */
  function WithSupport(item: Int32, support: Int32): (s: OneItemset)
    ensures s.item == item && s.support == support
  {
    OneItemset(item, support)
  }

  /**
   * The dimensions an iteration visits: start at `i` and, while the position
   * is valid, report its item and advance; `steps` bounds the walk.
   */
  function Walk(s: OneItemset, i: int, steps: nat): (r: seq<Int32>)
    ensures |r| <= steps
    decreases steps
  {
    if steps == 0 || !s.IterValid(i) then [] else [s.IterDim(i)] + Walk(s, s.IterAdvance(i), steps - 1)
  }

  /** An iteration from the start visits the one item, once, and stops. */
  lemma WalkVisitsItem(s: OneItemset, steps: nat)
    requires steps >= 1
    ensures Walk(s, s.Iter(), steps) == [s.item]
  {
    assert Walk(s, s.IterAdvance(0), steps - 1) == [];
  }

  /** An iteration from the start visits as many dimensions as the length counts. */
  lemma WalkCoversLength(s: OneItemset, steps: nat)
    requires steps >= 1
    ensures |Walk(s, s.Iter(), steps)| == s.Length()
  {
    WalkVisitsItem(s, steps);
  }

  /** Equality is reflexive, symmetric and transitive, and ignores support. */
  lemma EqualsIsEquivalence(a: OneItemset, b: OneItemset, c: OneItemset)
    ensures a.Equals(a)
    ensures a.Equals(b) ==> b.Equals(a)
    ensures a.Equals(b) && b.Equals(c) ==> a.Equals(c)
    ensures a.Equals(OneItemset(a.item, b.support))
  {
  }

  /**
   * The comparison is antisymmetric, transitive, and reports 0 exactly for
   * equal itemsets.
   */
  lemma CompareToIsOrder(a: OneItemset, b: OneItemset, c: OneItemset)
    ensures a.CompareTo(b) == -b.CompareTo(a)
    ensures a.CompareTo(b) == 0 <==> a.Equals(b)
    ensures a.CompareTo(b) < 0 && b.CompareTo(c) < 0 ==> a.CompareTo(c) < 0
    ensures a.Equals(b) ==> a.CompareTo(c) == b.CompareTo(c)
  {
  }
}
