/**
 * The chain linearizer (`topologicalSort`): lists every id once, children
 * before parents.  Ids are scanned in priority order; each unseen id starts a
 * walk up its parent chain that stops at a root or at an id already seen; the
 * walked segment is reversed in place, and at the end the whole list is.
 */
module Linearizer {
  import opened Forest
  import opened Hierarchy

  /** `w` is `u` with the index range lo..hi-1 reversed. */
  ghost predicate ReversedRange(u: seq<nat>, w: seq<nat>, lo: nat, hi: nat)
  {
    && |u| == |w| && lo <= hi <= |u|
    && (forall k :: lo <= k < hi ==> w[k] == u[lo + hi - 1 - k])
    && (forall k :: 0 <= k < |u| && !(lo <= k < hi) ==> w[k] == u[k])
  }

  /** The swap loop: reverses a[lo..hi-1] in place. */
  method Reverse(a: array<nat>, lo: nat, hi: nat)
    requires lo <= hi <= a.Length
    modifies a
    ensures ReversedRange(old(a[..]), a[..], lo, hi)
  {
    var i: int, j: int := lo, hi - 1;
    while i < j
      invariant lo <= i && i + j == lo + hi - 1 && i <= j + 1
      invariant forall k :: lo <= k < i ==> a[k] == old(a[lo + hi - 1 - k]) && a[lo + hi - 1 - k] == old(a[k])
      invariant forall k :: i <= k <= j ==> a[k] == old(a[k])
      invariant forall k :: 0 <= k < a.Length && !(lo <= k < hi) ==> a[k] == old(a[k])
    {
      a[i], a[j] := a[j], a[i];
      i, j := i + 1, j - 1;
    }
  }

  /** The id after index k in `o` is the parent of the id at k, which is no root. */
  ghost predicate Link(parent: seq<nat>, o: seq<nat>, k: nat)
    requires k + 1 < |o| && IdsBelow(o, |parent|)
  {
    o[k + 1] == parent[o[k]] && parent[o[k]] != o[k]
  }

  /** o[begin..] is a walk up a parent chain. */
  ghost predicate IsChain(parent: seq<nat>, o: seq<nat>, begin: nat)
  {
    IdsBelow(o, |parent|) && forall k :: begin <= k < |o| - 1 ==> Link(parent, o, k)
  }

  /** Reversing a range inside the listed prefix keeps it a listing of exactly the seen ids. */
  lemma ReversalKeepsListed(u: seq<nat>, w: seq<nat>, lo: nat, hi: nat, seen: set<nat>, n: nat)
    requires ReversedRange(u, w, lo, hi) && Listed(u[..hi], seen, n)
    ensures Listed(w[..hi], seen, n)
  {
    forall k | 0 <= k < hi ensures w[k] == u[if k < lo then k else lo + hi - 1 - k] {
    }
    forall a, b | 0 <= a < b < hi ensures w[a] != w[b] {
      var ma := if a < lo then a else lo + hi - 1 - a;
      var mb := if b < lo then b else lo + hi - 1 - b;
      assert w[a] == u[..hi][ma] && w[b] == u[..hi][mb];
    }
  }

  /** Extending a parent chain by the parent of its last id. */
  lemma ChainExtend(parent: seq<nat>, o: seq<nat>, begin: nat, v: nat)
    requires IsChain(parent, o, begin) && begin < |o| && v < |parent|
    requires v == parent[o[|o| - 1]] && v != o[|o| - 1]
    ensures IsChain(parent, o + [v], begin)
  {
    var o' := o + [v];
    forall k | begin <= k < |o'| - 1 ensures Link(parent, o', k) {
      if k < |o| - 1 {
        assert Link(parent, o, k);
      }
    }
  }

  /**
   * A walked segment u[begin..len-1] is a parent chain whose last id is a
   * root or has its parent placed before the segment; reversed, the segment
   * lists each id after its parent, so the whole prefix stays parent-first.
   */
  lemma WalkParentFirst(parent: seq<nat>, u: seq<nat>, w: seq<nat>, begin: nat, len: nat)
    requires Closed(parent) && begin < len
    requires ReversedRange(u, w, begin, len) && IdsBelow(u[..len], |parent|)
    requires ParentFirst(parent, u[..begin])
    requires IsChain(parent, u[..len], begin)
    requires parent[u[len - 1]] == u[len - 1] || parent[u[len - 1]] in u[..begin]
    ensures ParentFirst(parent, w[..len])
  {
    var o := w[..len];
    forall k | 0 <= k < len && o[k] < |parent| && parent[o[k]] != o[k]
      ensures parent[o[k]] in o[..k]
    {
      if k < begin {
        assert o[k] == u[k];
        assert u[..begin][k] == u[k];
        var i :| 0 <= i < k && u[..begin][i] == parent[u[k]];
        assert o[i] == u[i];
      } else if k == begin {
        assert o[k] == u[len - 1];
        var i :| 0 <= i < begin && u[..begin][i] == parent[u[len - 1]];
        assert o[i] == u[i];
      } else {
        var m := begin + len - 1 - k;
        assert Link(parent, u[..len], m);
        assert o[k] == u[m] && o[k - 1] == u[m + 1];
      }
    }
  }

  /** `seen` is exactly the set of ids listed, without repetition, in `o`. */
  ghost predicate Listed(o: seq<nat>, seen: set<nat>, n: nat)
  {
    && |seen| == |o| <= n
    && IdsBelow(o, n)
    && Distinct(o)
    && (forall k :: 0 <= k < |o| ==> o[k] in seen)
    && (forall y :: y in seen ==> y < n)
  }

  /** A repetition-free list of members of `S` is no longer than `S` is large. */
  lemma {:induction false} DistinctWithin(o: seq<nat>, S: set<nat>)
    requires Distinct(o) && forall k :: 0 <= k < |o| ==> o[k] in S
    ensures |o| <= |S|
  {
    if o != [] {
      var last := o[|o| - 1];
      var o' := o[..|o| - 1];
      assert forall k :: 0 <= k < |o'| ==> o'[k] == o[k] && o[k] != last;
      DistinctWithin(o', S - {last});
    }
  }

  /** Every seen id is listed. */
  lemma ListedSeen(o: seq<nat>, seen: set<nat>, n: nat, y: nat)
    requires Listed(o, seen, n) && y in seen
    ensures y in o
  {
    if y !in o {
      DistinctWithin(o, seen - {y});
    }
  }

  /** Listing an unseen id keeps `Listed`; there was room for it. */
  lemma ListedAppend(o: seq<nat>, seen: set<nat>, v: nat, n: nat)
    requires Listed(o, seen, n) && v < n && v !in seen
    ensures |o| < n
    ensures Listed(o + [v], seen + {v}, n)
  {
    IdSetSize(seen + {v}, n);
  }

  /**
   * On a forest a walk whose ids are all at least as deep as its last id, and
   * that reaches an id already seen, reached one placed before the walk.
   */
  lemma StopsAtListed(parent: seq<nat>, depth: seq<nat>, o: seq<nat>, seen: set<nat>, begin: nat, v: nat)
    requires Ranked(parent, depth) && Listed(o, seen, |parent|) && begin < |o|
    requires v in seen && v == parent[o[|o| - 1]] && v != o[|o| - 1]
    requires forall k :: begin <= k < |o| ==> depth[o[k]] >= depth[o[|o| - 1]]
    ensures v in o[..begin]
  {
    ListedSeen(o, seen, |parent|, v);
    var m :| 0 <= m < |o| && o[m] == v;
    assert depth[o[m]] < depth[o[|o| - 1]];
    assert o[..begin][m] == v;
  }

  /** Every id of o[begin..] is at least as deep as the last one. */
  ghost predicate Deepening(depth: seq<nat>, o: seq<nat>, begin: nat)
    requires begin < |o| && forall k :: 0 <= k < |o| ==> o[k] < |depth|
  {
    forall k :: begin <= k < |o| ==> depth[o[k]] >= depth[o[|o| - 1]]
  }

  /** A step up the chain reaches a strictly shallower id. */
  lemma DeepeningExtend(parent: seq<nat>, depth: seq<nat>, o: seq<nat>, begin: nat, v: nat)
    requires Ranked(parent, depth) && IdsBelow(o, |parent|) && begin < |o|
    requires Deepening(depth, o, begin)
    requires v == parent[o[|o| - 1]] && v != o[|o| - 1]
    ensures Deepening(depth, o + [v], begin)
  {
    var o' := o + [v];
    forall k | begin <= k < |o'| ensures depth[o'[k]] >= depth[v] {
      if k < |o| {
        assert depth[o[k]] >= depth[o[|o| - 1]];
      }
    }
  }

  /** Along a parent chain of a forest the ids get shallower. */
  lemma {:induction false} ChainDeepening(parent: seq<nat>, depth: seq<nat>, w: seq<nat>, begin: nat)
    requires Ranked(parent, depth) && begin < |w| && IsChain(parent, w, begin)
    ensures Deepening(depth, w, begin)
    decreases |w|
  {
    if |w| > begin + 1 {
      var w' := w[..|w| - 1];
      forall k | begin <= k < |w'| - 1 ensures Link(parent, w', k) {
        assert Link(parent, w, k);
      }
      ChainDeepening(parent, depth, w', begin);
      assert Link(parent, w, |w| - 2);
      assert w' + [w[|w| - 1]] == w;
      DeepeningExtend(parent, depth, w', begin, w[|w| - 1]);
    }
  }

  /**
   * On a forest a walk that ends at an id already seen ended at an id placed
   * before the walk: the walk itself only climbs.
   */
  lemma WalkJoinsEarlier(parent: seq<nat>, w: seq<nat>, seen: set<nat>, begin: nat)
    requires IsForest(parent) && begin < |w| && Listed(w, seen, |parent|) && IsChain(parent, w, begin)
    requires parent[w[|w| - 1]] != w[|w| - 1] && parent[w[|w| - 1]] in seen
    ensures parent[w[|w| - 1]] in w[..begin]
  {
    var depth: seq<nat> :| Ranked(parent, depth);
    ChainDeepening(parent, depth, w, begin);
    StopsAtListed(parent, depth, w, seen, begin, parent[w[|w| - 1]]);
  }

  /**
   * The walk: list the unseen id `x`, then its ancestors, stopping at a root
   * or before an id already seen.
   */
  method WalkUp(parent: seq<nat>, a: array<nat>, begin: nat, seen0: set<nat>, x: nat)
      returns (len: nat, seen: set<nat>)
    requires Closed(parent) && a.Length == |parent| && begin <= |parent|
    requires Listed(a[..begin], seen0, |parent|) && x < |parent| && x !in seen0
    modifies a
    ensures begin < len <= |parent|
    ensures Listed(a[..len], seen, |parent|)
    ensures seen0 + {x} <= seen
    ensures a[..begin] == old(a[..begin])
    ensures a[begin] == x && IsChain(parent, a[..len], begin)
    ensures parent[a[len - 1]] == a[len - 1] || parent[a[len - 1]] in seen
  {
    var n := |parent|;
    ghost var pre := a[..begin];
    ListedAppend(pre, seen0, x, n);
    seen := seen0 + {x};
    a[begin] := x;
    len := begin + 1;
    ghost var w := pre + [x];
    assert a[..len] == w;
    var prev := x;
    while prev != parent[prev]
      invariant begin < len <= n && |w| == len && a[..len] == w
      invariant Listed(w, seen, n)
      invariant seen0 + {x} <= seen
      invariant w[..begin] == pre
      invariant prev == w[len - 1] && w[begin] == x
      invariant IsChain(parent, w, begin)
      decreases n - |seen|
    {
      var v := parent[prev];
      if v in seen {
        break;
      }
      ListedAppend(w, seen, v, n);
      ChainExtend(parent, w, begin, v);
      seen := seen + {v};
      a[len] := v;
      len := len + 1;
      w := w + [v];
      assert a[..len] == w;
      prev := v;
    }
  }

  /**
   * One round of the scan: walk up from the unseen id `x` and reverse the
   * walked segment in place, so that it lists parents first.
   */
  method ListChain(parent: seq<nat>, a: array<nat>, len0: nat, seen0: set<nat>, x: nat)
      returns (len: nat, seen: set<nat>)
    requires Closed(parent) && a.Length == |parent| && len0 <= |parent|
    requires Listed(a[..len0], seen0, |parent|) && x < |parent| && x !in seen0
    modifies a
    ensures len0 < len <= |parent|
    ensures Listed(a[..len], seen, |parent|)
    ensures seen0 + {x} <= seen
    ensures a[..len0] == old(a[..len0])
    ensures a[len - 1] == x
    ensures forall k :: len0 < k < len ==> a[k - 1] == parent[a[k]] && parent[a[k]] != a[k]
    ensures parent[a[len0]] == a[len0] || parent[a[len0]] in seen
    ensures IsForest(parent) && ParentFirst(parent, a[..len0]) ==> ParentFirst(parent, a[..len])
  {
    len, seen := WalkUp(parent, a, len0, seen0, x);
    if IsForest(parent) && parent[a[len - 1]] != a[len - 1] {
      WalkJoinsEarlier(parent, a[..len], seen, len0);
      assert a[..len][..len0] == a[..len0];
    }
    ghost var u := a[..];
    assert u[..len] == a[..len] && u[..len0] == a[..len0];
    Reverse(a, len0, len);
    ReversalKeepsListed(u, a[..], len0, len, seen, |parent|);
    assert a[..][..len] == a[..len];
    assert u[..len0] == a[..len0];
    ReversedChain(parent, u, a[..], len0, len);
    if IsForest(parent) && ParentFirst(parent, a[..len0]) {
      WalkParentFirst(parent, u, a[..], len0, len);
    }
  }

  /** A walk up a chain, reversed: each id is followed by one of its children. */
  lemma ReversedChain(parent: seq<nat>, u: seq<nat>, w: seq<nat>, lo: nat, hi: nat)
    requires ReversedRange(u, w, lo, hi) && lo < hi && IsChain(parent, u[..hi], lo)
    ensures w[lo] == u[hi - 1] && w[hi - 1] == u[lo]
    ensures forall k :: lo <= k < hi ==> w[k] < |parent|
    ensures forall k :: lo < k < hi ==> w[k - 1] == parent[w[k]] && parent[w[k]] != w[k]
  {
    forall k | lo < k < hi
      ensures w[k - 1] == parent[w[k]] && parent[w[k]] != w[k]
    {
      assert Link(parent, u[..hi], lo + hi - 1 - k);
    }
  }

  /**
   * The topological sort: every id exactly once, for any parent map (the
   * inner walk stops at the first id already seen, so it terminates even on a
   * cycle); children strictly before their parents exactly when the parent
   * map is a valid forest.
   */
  method TopologicalSort(s: Store) returns (order: seq<nat>)
    requires s.WellFormed()
    ensures Perm(order, |s.parent|)
    ensures ChildrenFirst(s.parent, order) <==> IsForest(s.parent)
    ensures IsForest(s.parent) ==> forall i, j ::
      0 <= i < |order| && 0 <= j < |order| && order[i] != order[j] && order[j] == s.parent[order[i]] ==> i < j
  {
    var n := |s.parent|;
    var ids := SortByPriority(s, IdList(n));
    SortCovers(s);
    var a := ListAll(s.parent, ids);
    ghost var u := a[..];
    Reverse(a, 0, n);
    order := a[..];
    ReversedOrder(s.parent, u, order);
  }

  /** The priority-sorted id list holds every id. */
  lemma SortCovers(s: Store)
    requires s.WellFormed()
    ensures forall y :: 0 <= y < |s.parent| ==> y in SortByPriority(s, IdList(|s.parent|))
  {
    var n := |s.parent|;
    forall y | 0 <= y < n ensures y in SortByPriority(s, IdList(n)) {
      assert IdList(n)[y] == y;
      assert y in multiset(IdList(n));
    }
  }

  /**
   * The scan: every id of `ids` not yet listed starts a walk.  The array ends
   * up listing every id once, parents first on a forest.
   */
  method ListAll(parent: seq<nat>, ids: seq<nat>) returns (a: array<nat>)
    requires Closed(parent) && IdsBelow(ids, |parent|)
    requires forall y :: 0 <= y < |parent| ==> y in ids
    ensures fresh(a) && a.Length == |parent|
    ensures Listed(a[..], Ids(|parent|), |parent|)
    ensures IsForest(parent) ==> ParentFirst(parent, a[..])
  {
    var n := |parent|;
    var seen: set<nat> := {};
    a := new nat[n];
    var len := 0;
    ghost var forest := IsForest(parent);
    for t := 0 to |ids|
      invariant len <= n && Listed(a[..len], seen, n)
      invariant forall q :: 0 <= q < t ==> ids[q] in seen
      invariant forest ==> ParentFirst(parent, a[..len])
    {
      var x := ids[t];
      if x in seen {
        continue;
      }
      len, seen := ListChain(parent, a, len, seen, x);
    }
    forall y | 0 <= y < n ensures y in seen {
      assert y in ids;
      var q :| 0 <= q < |ids| && ids[q] == y;
    }
    assert seen == Ids(n);
    assert len == n;
    assert a[..len] == a[..];
  }

  /** In a repetition-free children-first list each parent has a larger index than its child. */
  lemma ChildrenFirstIndices(parent: seq<nat>, o: seq<nat>)
    requires Distinct(o) && IdsBelow(o, |parent|) && ChildrenFirst(parent, o)
    ensures forall i, j ::
      0 <= i < |o| && 0 <= j < |o| && o[i] != o[j] && o[j] == parent[o[i]] ==> i < j
  {
    forall i, j | 0 <= i < |o| && 0 <= j < |o| && o[i] != o[j] && o[j] == parent[o[i]]
      ensures i < j
    {
      var m :| 0 <= m < |o[i+1..]| && o[i+1..][m] == o[j];
      assert o[i + 1 + m] == o[j];
    }
  }

  /** Reversing a listing of all ids without repeats gives a permutation. */
  lemma ReversedPerm(u: seq<nat>, order: seq<nat>, n: nat)
    requires |u| == n && Listed(u, Ids(n), n) && ReversedRange(u, order, 0, n)
    ensures Perm(order, n)
  {
    assert u[..n] == u && order[..n] == order;
    ReversalKeepsListed(u, order, 0, n, Ids(n), n);
    forall y | 0 <= y < n ensures y in order {
      ListedSeen(order, Ids(n), n, y);
    }
  }

  /**
   * Reversing the parent-first listing of all ids gives the answer: a
   * permutation, children first exactly on a forest.
   */
  lemma ReversedOrder(parent: seq<nat>, u: seq<nat>, order: seq<nat>)
    requires Closed(parent) && |u| == |parent|
    requires Listed(u, Ids(|parent|), |parent|)
    requires IsForest(parent) ==> ParentFirst(parent, u)
    requires ReversedRange(u, order, 0, |u|)
    ensures Perm(order, |parent|)
    ensures ChildrenFirst(parent, order) <==> IsForest(parent)
    ensures IsForest(parent) ==> forall i, j ::
      0 <= i < |order| && 0 <= j < |order| && order[i] != order[j] && order[j] == parent[order[i]] ==> i < j
  {
    ReversedPerm(u, order, |parent|);
    if IsForest(parent) {
      BackwardsIsChildrenFirst(parent, u, order);
      ChildrenFirstIndices(parent, order);
    }
    if ChildrenFirst(parent, order) {
      ChildrenFirstMeansForest(parent, order);
    }
  }
}
