/**
 * Subtrees of a merge forest, defined by climbing parent pointers, and the
 * proof that the forward pass of the layout computes their sizes.
 */
module Subtrees {
  import opened Forest
  import opened Sums
  import opened Layout

  /** The id reached from `y` after `k` steps up the parent map. */
  function Climb(parent: seq<nat>, y: nat, k: nat): (r: nat)
    requires Closed(parent) && y < |parent|
    ensures r < |parent|
    decreases k
  {
    if k == 0 then y else Climb(parent, parent[y], k - 1)
  }

  /** `y` is in the subtree of `x`: climbing from `y` reaches `x`. */
  ghost predicate Below(parent: seq<nat>, x: nat, y: nat)
    requires Closed(parent) && y < |parent|
  {
    exists k: nat :: Climb(parent, y, k) == x
  }

  /** The ids of the subtree of `x`, `x` included. */
  ghost function Subtree(parent: seq<nat>, x: nat): set<nat>
    requires Closed(parent)
  {
    set y: nat | y < |parent| && Below(parent, x, y)
  }

  /** The number of ids in each id's subtree. */
  ghost function SubtreeSizes(parent: seq<nat>): (r: seq<int>)
    requires Closed(parent)
    ensures |r| == |parent|
  {
    seq(|parent|, x requires 0 <= x < |parent| => |Subtree(parent, x)|)
  }

  /** Climbing a + b steps is climbing a steps, then b. */
  lemma {:induction false} ClimbAdd(parent: seq<nat>, y: nat, a: nat, b: nat)
    requires Closed(parent) && y < |parent|
    ensures Climb(parent, y, a + b) == Climb(parent, Climb(parent, y, a), b)
    decreases a
  {
    if a > 0 {
      ClimbAdd(parent, parent[y], a - 1, b);
    }
  }

  /** Climbing never goes deeper. */
  lemma {:induction false} ClimbShallower(parent: seq<nat>, depth: seq<nat>, y: nat, k: nat)
    requires Ranked(parent, depth) && y < |parent|
    ensures depth[Climb(parent, y, k)] <= depth[y]
    decreases k
  {
    if k > 0 {
      ClimbShallower(parent, depth, parent[y], k - 1);
    }
  }

  /** An id is not in the subtree of any of its children. */
  lemma NotBelowChild(parent: seq<nat>, depth: seq<nat>, x: nat, c: nat)
    requires Ranked(parent, depth) && c < |parent| && parent[c] == x && c != x
    ensures x !in Subtree(parent, c)
  {
    if Below(parent, c, x) {
      var k: nat :| Climb(parent, x, k) == c;
      ClimbShallower(parent, depth, x, k);
    }
  }

  /** The subtrees of two different children of the same id are disjoint. */
  lemma SiblingSubtrees(parent: seq<nat>, depth: seq<nat>, c1: nat, c2: nat)
    requires Ranked(parent, depth) && c1 < |parent| && c2 < |parent| && c1 != c2
    requires parent[c1] == parent[c2] && parent[c1] != c1 && parent[c2] != c2
    ensures Subtree(parent, c1) !! Subtree(parent, c2)
  {
    forall y | y in Subtree(parent, c1) && y in Subtree(parent, c2)
      ensures false
    {
      var k1: nat :| Climb(parent, y, k1) == c1;
      var k2: nat :| Climb(parent, y, k2) == c2;
      if k1 < k2 {
        ClimbAdd(parent, y, k1, k2 - k1);
        ClimbShallower(parent, depth, parent[c1], k2 - k1 - 1);
      } else {
        ClimbAdd(parent, y, k2, k1 - k2);
        ClimbShallower(parent, depth, parent[c2], k1 - k2 - 1);
      }
    }
  }

  /** A child's subtree lies inside its parent's. */
  lemma ChildSubtree(parent: seq<nat>, c: nat)
    requires Closed(parent) && c < |parent|
    ensures Subtree(parent, c) <= Subtree(parent, parent[c])
  {
    forall y | y in Subtree(parent, c) ensures y in Subtree(parent, parent[c]) {
      var k: nat :| Climb(parent, y, k) == c;
      ClimbAdd(parent, y, k, 1);
    }
  }

  /** Any other id of a subtree lies in the subtree of a child of its top. */
  lemma {:induction false} BelowSomeChild(parent: seq<nat>, x: nat, y: nat, k: nat) returns (c: nat)
    requires Closed(parent) && y < |parent| && y != x && Climb(parent, y, k) == x
    ensures c < |parent| && parent[c] == x && c != x && y in Subtree(parent, c)
    decreases k
  {
    var z := Climb(parent, y, k - 1);
    ClimbAdd(parent, y, k - 1, 1);
    if z == x {
      c := BelowSomeChild(parent, x, y, k - 1);
    } else {
      c := z;
    }
  }

  /** The union of the subtrees of the children of `x` among o[0..b-1]. */
  ghost function Kids(parent: seq<nat>, o: seq<nat>, x: nat, b: nat): set<nat>
    requires Closed(parent) && IdsBelow(o, |parent|) && b <= |o|
  {
    if b == 0 then {}
    else
      var c := o[b - 1];
      Kids(parent, o, x, b - 1) + (if c != x && parent[c] == x then Subtree(parent, c) else {})
  }

  /** What `Kids` holds. */
  lemma {:induction false} KidsMembers(parent: seq<nat>, o: seq<nat>, x: nat, b: nat, y: nat)
    requires Closed(parent) && IdsBelow(o, |parent|) && b <= |o|
    ensures y in Kids(parent, o, x, b) <==>
      exists k :: 0 <= k < b && o[k] != x && parent[o[k]] == x && y in Subtree(parent, o[k])
  {
    if b > 0 {
      KidsMembers(parent, o, x, b - 1, y);
    }
  }

  /**
   * Summing the children's sizes counts the union of their subtrees, once
   * each child's size is its subtree's.
   */
  lemma {:induction false} KidsCount(parent: seq<nat>, depth: seq<nat>, o: seq<nat>, siz: seq<int>, x: nat, b: nat)
    requires Ranked(parent, depth) && Fits(parent, o, siz) && Distinct(o) && b <= |o|
    requires forall k :: 0 <= k < b && o[k] != x && parent[o[k]] == x ==> siz[o[k]] == |Subtree(parent, o[k])|
    ensures Sum(parent, o, siz, ChildOf(x), 0, b) == |Kids(parent, o, x, b)|
  {
    if b > 0 {
      KidsCount(parent, depth, o, siz, x, b - 1);
      var c := o[b - 1];
      if c != x && parent[c] == x {
        forall y | y in Kids(parent, o, x, b - 1) ensures y !in Subtree(parent, c) {
          KidsMembers(parent, o, x, b - 1, y);
          var k :| 0 <= k < b - 1 && o[k] != x && parent[o[k]] == x && y in Subtree(parent, o[k]);
          SiblingSubtrees(parent, depth, o[k], c);
        }
      }
    }
  }

  /** A subtree is its top plus the union of its children's subtrees. */
  lemma SubtreeSplit(parent: seq<nat>, depth: seq<nat>, o: seq<nat>, x: nat)
    requires Ranked(parent, depth) && Perm(o, |parent|) && x < |parent|
    ensures Subtree(parent, x) == {x} + Kids(parent, o, x, |o|)
    ensures x !in Kids(parent, o, x, |o|)
  {
    var n := |o|;
    assert Climb(parent, x, 0) == x;
    forall y | y in Subtree(parent, x) && y != x ensures y in Kids(parent, o, x, n) {
      var k: nat :| Climb(parent, y, k) == x;
      var c := BelowSomeChild(parent, x, y, k);
      KidsMembers(parent, o, x, n, y);
      var m := IndexOf(o, c);
    }
    forall y | y in Kids(parent, o, x, n) ensures y in Subtree(parent, x) && y != x {
      KidsMembers(parent, o, x, n, y);
      var k :| 0 <= k < n && o[k] != x && parent[o[k]] == x && y in Subtree(parent, o[k]);
      ChildSubtree(parent, o[k]);
      NotBelowChild(parent, depth, x, o[k]);
    }
  }

  /** The sizes of the ids o[0..m-1] are their subtrees' sizes. */
  lemma {:induction false} SizesUpToIndex(parent: seq<nat>, depth: seq<nat>, o: seq<nat>, siz: seq<int>, m: nat)
    requires Ranked(parent, depth) && Perm(o, |parent|) && ChildrenFirst(parent, o)
    requires SizesOk(parent, o, siz) && m <= |o|
    ensures forall k :: 0 <= k < m ==> siz[o[k]] == |Subtree(parent, o[k])|
  {
    if m > 0 {
      SizesUpToIndex(parent, depth, o, siz, m - 1);
      var x := o[m - 1];
      forall k | 0 <= k < |o| && o[k] != x && parent[o[k]] == x
        ensures siz[o[k]] == |Subtree(parent, o[k])|
      {
        var j := ParentLater(parent, o, k);
        assert k < m - 1;
      }
      KidsCount(parent, depth, o, siz, x, |o|);
      SubtreeSplit(parent, depth, o, x);
    }
  }

  /**
   * On a children-first listing of all ids the size equations have one
   * solution: the subtree sizes.
   */
  lemma SizesAreSubtrees(parent: seq<nat>, o: seq<nat>, siz: seq<int>)
    requires Closed(parent) && Perm(o, |parent|) && ChildrenFirst(parent, o) && SizesOk(parent, o, siz)
    ensures siz == SubtreeSizes(parent)
  {
    ChildrenFirstMeansForest(parent, o);
    var depth :| Ranked(parent, depth);
    SizesUpToIndex(parent, depth, o, siz, |o|);
    forall x | 0 <= x < |parent| ensures siz[x] == SubtreeSizes(parent)[x] {
      var k := IndexOf(o, x);
    }
  }
}
