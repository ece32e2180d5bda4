/**
 * The hierarchy store: the pointer representation handed over by the
 * clustering algorithm, read-only once built.  Ids are 0..n-1; the store
 * holds for each id its parent, the distance at which it joined its parent,
 * and, optionally, the merge order.  Sorting the ids by merge priority is the
 * first step of the topological sort.
 */
module Hierarchy {
  import opened Options
  import opened Ints
  import opened Forest

  datatype Store = Store(parent: seq<nat>, parentDistance: seq<real>, mergeOrder: Option<seq<Int32>>)
  {
    /** Every mapping is defined on exactly the ids 0..n-1, and parents are ids. */
    predicate WellFormed()
    {
      && |parentDistance| == |parent|
      && (mergeOrder.Some? ==> |mergeOrder.value| == |parent|)
      && Closed(parent)
    }
  }

  /**
   * The priority order of the sort: by merge order descending when a merge
   * order is present, otherwise by parent distance descending; equal keys
   * are ordered by ascending id.
   */
  predicate Precedes(s: Store, a: nat, b: nat)
    requires s.WellFormed() && a < |s.parent| && b < |s.parent|
  {
    match s.mergeOrder
    case Some(mo) => mo[a] > mo[b] || (mo[a] == mo[b] && a < b)
    case None => s.parentDistance[a] > s.parentDistance[b] || (s.parentDistance[a] == s.parentDistance[b] && a < b)
  }

  /** No later id takes priority over an earlier one. */
  predicate SortedBy(s: Store, l: seq<nat>)
    requires s.WellFormed() && IdsBelow(l, |s.parent|)
  {
    forall i, j {:trigger Precedes(s, l[j], l[i])} :: 0 <= i < j < |l| ==> !Precedes(s, l[j], l[i])
  }

  /** Precedes is a strict total order on the ids. */
  lemma PrecedesStrictTotal(s: Store, a: nat, b: nat, c: nat)
    requires s.WellFormed() && a < |s.parent| && b < |s.parent| && c < |s.parent|
    ensures !Precedes(s, a, a)
    ensures a != b ==> Precedes(s, a, b) || Precedes(s, b, a)
    ensures Precedes(s, a, b) ==> !Precedes(s, b, a)
    ensures Precedes(s, a, b) && Precedes(s, b, c) ==> Precedes(s, a, c)
  {
  }

  /** Inserts `x` into the sorted list `l` behind every id it does not precede. */
  function Insert(s: Store, x: nat, l: seq<nat>): (r: seq<nat>)
    requires s.WellFormed() && x < |s.parent| && IdsBelow(l, |s.parent|)
    ensures IdsBelow(r, |s.parent|)
    ensures multiset(r) == multiset(l) + multiset{x}
  {
    if l == [] then [x]
    else if Precedes(s, x, l[0]) then [x] + l
    else
      assert l == [l[0]] + l[1..];
      [l[0]] + Insert(s, x, l[1..])
  }

  /** Inserting into a sorted list keeps it sorted. */
  lemma {:induction false} InsertSorted(s: Store, x: nat, l: seq<nat>)
    requires s.WellFormed() && x < |s.parent| && IdsBelow(l, |s.parent|) && SortedBy(s, l)
    ensures SortedBy(s, Insert(s, x, l))
  {
    if l == [] {
    } else if Precedes(s, x, l[0]) {
      var r := [x] + l;
      forall i, j | 0 <= i < j < |r| ensures !Precedes(s, r[j], r[i]) {
        if i == 0 {
          PrecedesStrictTotal(s, l[j - 1], x, l[0]);
        }
      }
    } else {
      InsertSorted(s, x, l[1..]);
      var t := Insert(s, x, l[1..]);
      InsertBehindHead(s, x, l, t);
      var r := [l[0]] + t;
      forall i, j | 0 <= i < j < |r| ensures !Precedes(s, r[j], r[i]) {
        if i == 0 {
          assert r[j] == t[j - 1] && r[i] == l[0];
          assert !Precedes(s, t[j - 1], l[0]);
        } else {
          assert r[i] == t[i - 1] && r[j] == t[j - 1];
          assert !Precedes(s, t[j - 1], t[i - 1]);
        }
      }
    }
  }

  /**
   * When `x` does not precede the head of a sorted list, nothing in the
   * insertion of `x` into the tail precedes the head.
   */
  lemma InsertBehindHead(s: Store, x: nat, l: seq<nat>, t: seq<nat>)
    requires s.WellFormed() && x < |s.parent| && IdsBelow(l, |s.parent|) && SortedBy(s, l)
    requires l != [] && !Precedes(s, x, l[0]) && t == Insert(s, x, l[1..])
    ensures forall j :: 0 <= j < |t| ==> !Precedes(s, t[j], l[0])
  {
    forall j | 0 <= j < |t| ensures !Precedes(s, t[j], l[0]) {
      assert t[j] in multiset(t);
      if t[j] != x {
        assert t[j] in multiset(l[1..]);
        var m :| 0 <= m < |l[1..]| && l[1..][m] == t[j];
        assert l[m + 1] == t[j];
      }
    }
  }

  /**
   * The priority order of the ids in `l` (ELKI's library sort,
   * specified by its outcome): a rearrangement of `l` sorted by Precedes.
   */
  function SortByPriority(s: Store, l: seq<nat>): (r: seq<nat>)
    requires s.WellFormed() && IdsBelow(l, |s.parent|)
    ensures IdsBelow(r, |s.parent|)
    ensures multiset(r) == multiset(l)
    ensures SortedBy(s, r)
  {
    if l == [] then []
    else
      assert l == [l[0]] + l[1..];
      var t := SortByPriority(s, l[1..]);
      InsertSorted(s, l[0], t);
      Insert(s, l[0], t)
  }

  /** The ids 0..n-1 in ascending order, as the store hands them out. */
  function IdList(n: nat): (l: seq<nat>)
    ensures |l| == n && forall k :: 0 <= k < n ==> l[k] == k
  {
    seq(n, k requires 0 <= k < n => k)
  }

  /**
   * The priority order lists every id exactly once, and an id comes before
   * every id it precedes; in particular, among ids with equal key the
   * smaller id comes first.
   */
  lemma {:induction false} PriorityOrderIsStrict(s: Store)
    requires s.WellFormed()
    ensures Perm(SortByPriority(s, IdList(|s.parent|)), |s.parent|)
    ensures var r := SortByPriority(s, IdList(|s.parent|));
      forall i, j :: 0 <= i < j < |r| ==> Precedes(s, r[i], r[j])
  {
    var n := |s.parent|;
    var l := IdList(n);
    var r := SortByPriority(s, l);
    assert |r| == |multiset(r)| == |multiset(l)| == n;
    forall x | 0 <= x < n ensures x in r {
      assert l[x] == x;
      assert x in multiset(l);
    }
    assert Distinct(l);
    forall x ensures multiset(r)[x] <= 1 {
      DistinctCount(l, x);
    }
    CountDistinct(r);
    forall i, j | 0 <= i < j < |r| ensures Precedes(s, r[i], r[j]) {
      PrecedesStrictTotal(s, r[i], r[j], r[j]);
    }
  }

  /** An id occurs at most once in a list without repetitions. */
  lemma {:induction false} DistinctCount(l: seq<nat>, x: nat)
    requires Distinct(l)
    ensures multiset(l)[x] <= 1
  {
    if l != [] {
      assert l == [l[0]] + l[1..];
      DistinctCount(l[1..], x);
      if l[0] == x {
        assert x !in l[1..];
      }
    }
  }

  /** A list in which every id occurs at most once has no repetitions. */
  lemma {:induction false} CountDistinct(l: seq<nat>)
    requires forall x :: multiset(l)[x] <= 1
    ensures Distinct(l)
  {
    if l != [] {
      assert l == [l[0]] + l[1..];
      forall x ensures multiset(l[1..])[x] <= 1 {
        assert multiset(l)[x] == multiset(l[1..])[x] + (if x == l[0] then 1 else 0);
      }
      CountDistinct(l[1..]);
      assert multiset(l)[l[0]] == multiset(l[1..])[l[0]] + 1;
      assert l[0] !in l[1..];
      forall a, b | 0 <= a < b < |l| ensures l[a] != l[b] {
        if a == 0 {
          assert l[b] == l[1..][b - 1];
        } else {
          assert l[a] == l[1..][a - 1] && l[b] == l[1..][b - 1];
        }
      }
    }
  }
}
