/**
 * The pointer representation of a merge forest over the dense ids 0..n-1:
 * `parent[x]` is the parent of `x`, and `x` is a root iff `parent[x] == x`.
 * This module states what a valid forest is and what a linearisation of it is.
 */
module Forest {

  /** Every id listed in `o` is one of 0..n-1. */
  predicate IdsBelow(o: seq<nat>, n: nat)
  {
    forall k :: 0 <= k < |o| ==> o[k] < n
  }

  /** The parent map sends every id 0..n-1 to an id of the same range. */
  predicate Closed(parent: seq<nat>)
  {
    IdsBelow(parent, |parent|)
  }

  /** No id is listed twice. */
  predicate Distinct(o: seq<nat>)
  {
    forall a, b :: 0 <= a < b < |o| ==> o[a] != o[b]
  }

  /** `o` lists every id 0..n-1 exactly once. */
  predicate Perm(o: seq<nat>, n: nat)
  {
    |o| == n && IdsBelow(o, n) && Distinct(o) && forall x :: 0 <= x < n ==> x in o
  }

  /** `depth` strictly decreases from every non-root to its parent. */
  ghost predicate Ranked(parent: seq<nat>, depth: seq<nat>)
  {
    && |depth| == |parent|
    && Closed(parent)
    && forall x :: 0 <= x < |parent| && parent[x] != x ==> depth[parent[x]] < depth[x]
  }

  /**
   * A valid merge forest: following parent pointers from any id reaches a
   * root, i.e. there is no cycle other than the self-loop of a root.
   */
  ghost predicate IsForest(parent: seq<nat>)
  {
    exists depth :: Ranked(parent, depth)
  }

  /** Descendants before ancestors: every non-root is listed before its parent. */
  predicate ChildrenFirst(parent: seq<nat>, o: seq<nat>)
  {
    forall k :: 0 <= k < |o| && o[k] < |parent| && parent[o[k]] != o[k] ==> parent[o[k]] in o[k+1..]
  }

  /** Ancestors before descendants: every non-root is listed after its parent. */
  predicate ParentFirst(parent: seq<nat>, o: seq<nat>)
  {
    forall k :: 0 <= k < |o| && o[k] < |parent| && parent[o[k]] != o[k] ==> parent[o[k]] in o[..k]
  }

  /** The position of `x` in `o`. */
  ghost function IndexOf(o: seq<nat>, x: nat): (k: nat)
    requires x in o
    ensures k < |o| && o[k] == x
  {
    if o[0] == x then 0 else 1 + IndexOf(o[1..], x)
  }

  /**
   * A descendants-first listing of all ids exists only for a valid forest:
   * the position in the listing is a rank that grows towards the roots.
   */
  lemma {:induction false} ChildrenFirstMeansForest(parent: seq<nat>, o: seq<nat>)
    requires Closed(parent) && Perm(o, |parent|) && ChildrenFirst(parent, o)
    ensures IsForest(parent)
  {
    var n := |parent|;
    var depth: seq<nat> := seq(n, x requires 0 <= x < n => n - IndexOf(o, x));
    forall x | 0 <= x < n && parent[x] != x
      ensures depth[parent[x]] < depth[x]
    {
      var k := IndexOf(o, x);
      assert parent[o[k]] in o[k+1..];
      var i :| 0 <= i < |o[k+1..]| && o[k+1..][i] == parent[x];
      assert o[k + 1 + i] == parent[x];
      var j := IndexOf(o, parent[x]);
      assert j == k + 1 + i;
    }
    assert Ranked(parent, depth);
  }

  /** Reading a parent-first listing backwards gives a children-first one. */
  lemma {:induction false} BackwardsIsChildrenFirst(parent: seq<nat>, o: seq<nat>, r: seq<nat>)
    requires ParentFirst(parent, o)
    requires |r| == |o| && forall k :: 0 <= k < |o| ==> r[k] == o[|o| - 1 - k]
    ensures ChildrenFirst(parent, r)
  {
    var n := |o|;
    forall k | 0 <= k < n && r[k] < |parent| && parent[r[k]] != r[k]
      ensures parent[r[k]] in r[k+1..]
    {
      var m := n - 1 - k;
      assert o[m] == r[k];
      assert parent[o[m]] in o[..m];
      var i :| 0 <= i < m && o[i] == parent[r[k]];
      assert r[n - 1 - i] == parent[r[k]];
      assert r[k+1..][n - 1 - i - (k + 1)] == parent[r[k]];
    }
  }

  /** The set of ids 0..n-1. */
  function Ids(n: nat): (s: set<nat>)
    ensures forall x: nat :: x in s <==> x < n
    ensures |s| == n
  {
    if n == 0 then {} else Ids(n - 1) + {n - 1}
  }

  /** A set of ids (or slots) 0..n-1 has at most n elements. */
  lemma {:induction false} IdSetSize(s: set<int>, n: nat)
    requires forall q :: q in s ==> 0 <= q < n
    ensures |s| <= n
  {
    if n > 0 {
      IdSetSize(s - {n - 1}, n - 1);
      assert s <= (s - {n - 1}) + {n - 1};
    } else {
      assert forall q :: q !in s;
      assert s == {};
    }
  }
}
