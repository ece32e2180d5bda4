/**
 * The pointer representation of a hierarchical clustering as a result
 * object: the read-only store plus the dendrogram positions, computed on the
 * first request and cached from then on.
 */
module PointerHierarchy {
  import opened Options
  import opened Ints
  import opened Forest
  import opened Hierarchy
  import opened Linearizer
  import opened Layout
  import opened Subtrees

  class PointerHierarchyResult {
    /** The ids 0..n-1, their parents, merge distances and optional merge order. */
    const store: Store
    /** The position cache: None until the first request. */
    var positions: Option<seq<int>>

    /**
     * The store is well formed, and cached positions are one per id and, on
     * a valid forest, a layout by subtree sizes.
     */
    ghost predicate Valid()
      reads this
    {
      && store.WellFormed()
      && (positions.Some? ==>
            && |positions.value| == |store.parent|
            && (IsForest(store.parent) ==> IsLayout(store.parent, SubtreeSizes(store.parent), positions.value)))
    }

    /** A result with a merge order, or with `None` for none; nothing is cached yet. */
    constructor (parent: seq<nat>, parentDistance: seq<real>, mergeOrder: Option<seq<Int32>>)
      requires Store(parent, parentDistance, mergeOrder).WellFormed()
      ensures store == Store(parent, parentDistance, mergeOrder) && positions == None
      ensures Valid()
    {
      store := Store(parent, parentDistance, mergeOrder);
      positions := None;
    }

    /** A result without a merge order: the sort falls back to the distances. */
    constructor WithoutMergeOrder(parent: seq<nat>, parentDistance: seq<real>)
      requires Store(parent, parentDistance, None).WellFormed()
      ensures store == Store(parent, parentDistance, None) && positions == None
      ensures Valid()
    {
      store := Store(parent, parentDistance, None);
      positions := None;
    }

    /**
     * The dendrogram positions, from the cache when present; otherwise the
     * topological sort, the size pass and the placing pass, whose result is
     * cached.  On a valid forest they form a layout by subtree sizes.
     */
    method GetPositions() returns (r: seq<int>)
      requires Valid()
      modifies this`positions
      ensures Valid()
      ensures positions == Some(r)
      ensures old(positions).Some? ==> r == old(positions).value
      ensures |r| == |store.parent|
      ensures IsForest(store.parent) ==> IsLayout(store.parent, SubtreeSizes(store.parent), r)
    {
      if positions.Some? {
        return positions.value;
      }
      var order := TopologicalSort(store);
      var siz := ComputeSizes(store.parent, order);
      r := PlacePositions(store.parent, order, siz);
      if ChildrenFirst(store.parent, order) {
        SizesAreSubtrees(store.parent, order, siz);
      }
      positions := Some(r);
    }
  }
}
