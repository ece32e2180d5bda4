/**
 * Sums of per-id integers (subtree sizes) over a range of a listing of the
 * ids, restricted to the children of one id, to the roots, or to all ids.
 */
module Sums {
  import opened Forest

  datatype Filter = ChildOf(x: nat) | Roots | All

  /** Whether id `y` is counted by the filter `f`. */
  predicate Keeps(parent: seq<nat>, f: Filter, y: nat)
    requires y < |parent|
  {
    match f
    case ChildOf(x) => parent[y] == x && y != x
    case Roots => parent[y] == y
    case All => true
  }

  /** The shape every sum needs: a listing of ids and one integer per id. */
  predicate Fits(parent: seq<nat>, o: seq<nat>, siz: seq<int>)
  {
    IdsBelow(o, |parent|) && |siz| == |parent|
  }

  /** The sum of siz[o[k]] over a <= k < b, over the ids kept by `f`. */
  function Sum(parent: seq<nat>, o: seq<nat>, siz: seq<int>, f: Filter, a: nat, b: nat): int
    requires Fits(parent, o, siz) && a <= b <= |o|
    decreases b - a
  {
    if a == b then 0
    else Sum(parent, o, siz, f, a, b - 1) + (if Keeps(parent, f, o[b - 1]) then siz[o[b - 1]] else 0)
  }

  /** A range sum splits at any point in between. */
  lemma {:induction false} SumSplit(parent: seq<nat>, o: seq<nat>, siz: seq<int>, f: Filter, a: nat, m: nat, b: nat)
    requires Fits(parent, o, siz) && a <= m <= b <= |o|
    ensures Sum(parent, o, siz, f, a, b) == Sum(parent, o, siz, f, a, m) + Sum(parent, o, siz, f, m, b)
    decreases b - m
  {
    if m < b {
      SumSplit(parent, o, siz, f, a, m, b - 1);
    }
  }

  /** A range of one index holds just the term of that index. */
  lemma SumSingle(parent: seq<nat>, o: seq<nat>, siz: seq<int>, f: Filter, a: nat)
    requires Fits(parent, o, siz) && a < |o|
    ensures Sum(parent, o, siz, f, a, a + 1) == if Keeps(parent, f, o[a]) then siz[o[a]] else 0
  {
  }

  /** A sum reads only the sizes of the ids listed in its range. */
  lemma {:induction false} SumFrame(parent: seq<nat>, o: seq<nat>, s1: seq<int>, s2: seq<int>, f: Filter, a: nat, b: nat)
    requires Fits(parent, o, s1) && Fits(parent, o, s2) && a <= b <= |o|
    requires forall k :: a <= k < b ==> s1[o[k]] == s2[o[k]]
    ensures Sum(parent, o, s1, f, a, b) == Sum(parent, o, s2, f, a, b)
    decreases b - a
  {
    if a < b {
      SumFrame(parent, o, s1, s2, f, a, b - 1);
    }
  }

  /** A sum of non-negative sizes is non-negative. */
  lemma {:induction false} SumNonneg(parent: seq<nat>, o: seq<nat>, siz: seq<int>, f: Filter, a: nat, b: nat)
    requires Fits(parent, o, siz) && a <= b <= |o|
    requires forall x :: 0 <= x < |siz| ==> siz[x] >= 0
    ensures Sum(parent, o, siz, f, a, b) >= 0
    decreases b - a
  {
    if a < b {
      SumNonneg(parent, o, siz, f, a, b - 1);
    }
  }

  /** A sum over a range none of whose ids is kept is zero. */
  lemma {:induction false} SumNone(parent: seq<nat>, o: seq<nat>, siz: seq<int>, f: Filter, a: nat, b: nat)
    requires Fits(parent, o, siz) && a <= b <= |o|
    requires forall k :: a <= k < b ==> !Keeps(parent, f, o[k])
    ensures Sum(parent, o, siz, f, a, b) == 0
    decreases b - a
  {
    if a < b {
      SumNone(parent, o, siz, f, a, b - 1);
    }
  }

  /** With every size 1, the unrestricted sum counts the range. */
  lemma {:induction false} SumOnes(parent: seq<nat>, o: seq<nat>, siz: seq<int>, a: nat, b: nat)
    requires Fits(parent, o, siz) && a <= b <= |o|
    requires forall x :: 0 <= x < |siz| ==> siz[x] == 1
    ensures Sum(parent, o, siz, All, a, b) == b - a
    decreases b - a
  {
    if a < b {
      SumOnes(parent, o, siz, a, b - 1);
    }
  }

  /** Changing the size of an id not listed in the range leaves the sum alone. */
  lemma SumOutside(parent: seq<nat>, o: seq<nat>, siz: seq<int>, f: Filter, a: nat, b: nat, y: nat, v: int)
    requires Fits(parent, o, siz) && a <= b <= |o| && y < |siz|
    requires forall k :: a <= k < b ==> o[k] != y
    ensures Sum(parent, o, siz[y := v], f, a, b) == Sum(parent, o, siz, f, a, b)
  {
    SumFrame(parent, o, siz[y := v], siz, f, a, b);
  }

  /**
   * Raising the size of the id listed once, at index j of the range, by d
   * raises the sum by d when the filter keeps that id.
   */
  lemma SumBump(parent: seq<nat>, o: seq<nat>, siz: seq<int>, f: Filter, a: nat, j: nat, b: nat, d: int)
    requires Fits(parent, o, siz) && Distinct(o) && a <= j < b <= |o|
    ensures Sum(parent, o, siz[o[j] := siz[o[j]] + d], f, a, b)
         == Sum(parent, o, siz, f, a, b) + (if Keeps(parent, f, o[j]) then d else 0)
  {
    var s' := siz[o[j] := siz[o[j]] + d];
    SumSplit(parent, o, siz, f, a, j, b);
    SumSplit(parent, o, siz, f, j, j + 1, b);
    SumSplit(parent, o, s', f, a, j, b);
    SumSplit(parent, o, s', f, j, j + 1, b);
    SumOutside(parent, o, siz, f, a, j, o[j], siz[o[j]] + d);
    SumOutside(parent, o, siz, f, j + 1, b, o[j], siz[o[j]] + d);
    SumSingle(parent, o, siz, f, j);
    SumSingle(parent, o, s', f, j);
  }

  /** A range sum is its first term plus the rest. */
  lemma SumFirst(parent: seq<nat>, o: seq<nat>, siz: seq<int>, f: Filter, a: nat, b: nat)
    requires Fits(parent, o, siz) && a < b <= |o|
    ensures Sum(parent, o, siz, f, a, b)
         == (if Keeps(parent, f, o[a]) then siz[o[a]] else 0) + Sum(parent, o, siz, f, a + 1, b)
  {
    SumSplit(parent, o, siz, f, a, a + 1, b);
  }
}

