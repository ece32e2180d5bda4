/**
 * The dendrogram layout (`getPositions`): a forward pass over the
 * children-first order accumulates subtree sizes into the parents; a
 * backward pass hands every id the right end of an interval of its size,
 * roots from a running offset and children from a cursor inside the parent.
 */
module Layout {
  import opened Forest
  import opened Sums

  /** Every size is at least one. */
  predicate Positive(siz: seq<int>)
  {
    forall x :: 0 <= x < |siz| ==> siz[x] >= 1
  }

  /**
   * The state of the forward pass after the ids o[0..i-1]: each id holds
   * one plus the sizes of its children listed so far, and the roots listed
   * so far together with every id not yet listed account for all ids.
   */
  predicate SizesUpTo(parent: seq<nat>, o: seq<nat>, siz: seq<int>, i: nat)
  {
    && Fits(parent, o, siz) && i <= |o|
    && (forall x :: 0 <= x < |siz| ==> siz[x] == 1 + Sum(parent, o, siz, ChildOf(x), 0, i))
    && Sum(parent, o, siz, Roots, 0, i) + Sum(parent, o, siz, All, i, |o|) == |parent|
  }

  /**
   * Sizes of a whole listing: every id is one more than the sum of its
   * children's sizes, and the root sizes add up to the number of ids.
   */
  predicate SizesOk(parent: seq<nat>, o: seq<nat>, siz: seq<int>)
  {
    SizesUpTo(parent, o, siz, |o|)
  }

  /** The forward pass's treatment of the id at index i. */
  function Accumulate(parent: seq<nat>, o: seq<nat>, siz: seq<int>, i: nat): (r: seq<int>)
    requires Fits(parent, o, siz) && i < |o| && Closed(parent)
    ensures |r| == |siz|
  {
    var x := o[i];
    if x == parent[x] then siz else siz[parent[x] := siz[parent[x]] + siz[x]]
  }

  /** In a children-first listing the parent of a non-root comes later. */
  lemma ParentLater(parent: seq<nat>, o: seq<nat>, i: nat) returns (j: nat)
    requires ChildrenFirst(parent, o) && i < |o| && o[i] < |parent| && parent[o[i]] != o[i]
    ensures i < j < |o| && o[j] == parent[o[i]]
  {
    var m :| 0 <= m < |o[i+1..]| && o[i+1..][m] == parent[o[i]];
    j := i + 1 + m;
  }

  /** With every size one, nothing listed yet accounts for all ids. */
  lemma SizesStart(parent: seq<nat>, o: seq<nat>, siz: seq<int>)
    requires Fits(parent, o, siz) && |o| == |parent|
    requires forall x :: 0 <= x < |siz| ==> siz[x] == 1
    ensures SizesUpTo(parent, o, siz, 0)
  {
    SumOnes(parent, o, siz, 0, |o|);
  }

  /** A step of the forward pass changes no child sum over the ids before it. */
  lemma AccumulateKeepsChildSums(parent: seq<nat>, o: seq<nat>, siz: seq<int>, i: nat)
    requires Closed(parent) && Perm(o, |parent|) && ChildrenFirst(parent, o)
    requires Fits(parent, o, siz) && i < |o|
    ensures forall y :: 0 <= y < |siz| ==>
      Sum(parent, o, Accumulate(parent, o, siz, i), ChildOf(y), 0, i) == Sum(parent, o, siz, ChildOf(y), 0, i)
  {
    var x := o[i];
    if x != parent[x] {
      var j := ParentLater(parent, o, i);
      forall y | 0 <= y < |siz|
        ensures Sum(parent, o, Accumulate(parent, o, siz, i), ChildOf(y), 0, i) == Sum(parent, o, siz, ChildOf(y), 0, i)
      {
        SumOutside(parent, o, siz, ChildOf(y), 0, i, parent[x], siz[parent[x]] + siz[x]);
      }
    }
  }

  /** A step of the forward pass keeps the roots-plus-unlisted total. */
  lemma AccumulateKeepsTotal(parent: seq<nat>, o: seq<nat>, siz: seq<int>, i: nat)
    requires Closed(parent) && Perm(o, |parent|) && ChildrenFirst(parent, o)
    requires Fits(parent, o, siz) && i < |o|
    ensures var s' := Accumulate(parent, o, siz, i);
      Sum(parent, o, s', Roots, 0, i + 1) + Sum(parent, o, s', All, i + 1, |o|)
      == Sum(parent, o, siz, Roots, 0, i) + Sum(parent, o, siz, All, i, |o|)
  {
    var x := o[i];
    var n := |o|;
    var s' := Accumulate(parent, o, siz, i);
    SumFirst(parent, o, siz, All, i, n);
    assert Sum(parent, o, s', Roots, 0, i + 1)
        == Sum(parent, o, s', Roots, 0, i) + (if x == parent[x] then s'[x] else 0);
    if x != parent[x] {
      var j := ParentLater(parent, o, i);
      assert s' == siz[o[j] := siz[o[j]] + siz[x]];
      SumOutside(parent, o, siz, Roots, 0, i, parent[x], siz[parent[x]] + siz[x]);
      SumBump(parent, o, siz, All, i + 1, j, n, siz[x]);
    }
  }

  /** One step of the forward pass keeps its invariant. */
  lemma AccumulateStep(parent: seq<nat>, o: seq<nat>, siz: seq<int>, i: nat)
    requires Closed(parent) && Perm(o, |parent|) && ChildrenFirst(parent, o)
    requires i < |o| && SizesUpTo(parent, o, siz, i)
    ensures SizesUpTo(parent, o, Accumulate(parent, o, siz, i), i + 1)
  {
    AccumulateKeepsChildSums(parent, o, siz, i);
    AccumulateKeepsTotal(parent, o, siz, i);
  }

  /**
   * The forward pass: every size starts at one and each non-root, in the
   * given order, adds its size into its parent's.  On a children-first
   * listing of all ids the result satisfies the size equations.
   */
  method ComputeSizes(parent: seq<nat>, order: seq<nat>) returns (siz: seq<int>)
    requires Closed(parent) && IdsBelow(order, |parent|)
    ensures |siz| == |parent| && Positive(siz)
    ensures Perm(order, |parent|) && ChildrenFirst(parent, order) ==> SizesOk(parent, order, siz)
  {
    var n := |parent|;
    var s := new int[n](_ => 1);
    ghost var good := Perm(order, n) && ChildrenFirst(parent, order);
    ghost var cur := s[..];
    if good {
      SizesStart(parent, order, cur);
    }
    for i := 0 to |order|
      invariant s[..] == cur && Positive(cur)
      invariant good ==> SizesUpTo(parent, order, cur, i)
    {
      var x := order[i];
      var p := parent[x];
      if good {
        AccumulateStep(parent, order, cur, i);
      }
      ghost var next := Accumulate(parent, order, cur, i);
      if x != p {
        s[p] := s[p] + s[x];
      }
      assert s[..] == next;
      cur := next;
    }
    siz := s[..];
  }

  /**
   * The backward pass's working state: the position store, the cursor store
   * `ins` (the next free slot inside each placed id's interval) and the
   * running offset for the next root.
   */
  datatype Placing = Placing(pos: seq<int>, ins: seq<int>, defins: int)

  /** The stores hold one entry per id. */
  predicate Sized(n: nat, st: Placing)
  {
    |st.pos| == n && |st.ins| == n
  }

  /** The left end of the interval whose right end is pos[x]. */
  function Lo(siz: seq<int>, pos: seq<int>, x: nat): int
    requires x < |siz| && x < |pos|
  {
    pos[x] - siz[x] + 1
  }

  /**
   * The backward pass's treatment of id `x`: an id whose parent has no
   * cursor yet, or that is a root, opens a fresh interval at the offset;
   * any other id takes the slots at its parent's cursor, which moves on.
   */
  function Place(parent: seq<nat>, siz: seq<int>, st: Placing, x: nat): (r: Placing)
    requires Closed(parent) && |siz| == |parent| && Sized(|parent|, st) && x < |parent|
    ensures Sized(|parent|, r)
  {
    var p := parent[x];
    var ipos := st.ins[p];
    if ipos < 0 || x == p then
      Placing(st.pos[x := st.defins + siz[x] - 1], st.ins[x := st.defins], st.defins + siz[x])
    else
      Placing(st.pos[x := ipos + siz[x] - 1], st.ins[x := ipos][p := ipos + siz[x]], st.defins)
  }

  /** Everything the pass needs, together. */
  predicate Shape(parent: seq<nat>, o: seq<nat>, siz: seq<int>, st: Placing)
  {
    Closed(parent) && Fits(parent, o, siz) && Sized(|parent|, st)
  }

  /** What the backward pass is run on. */
  predicate Ready(parent: seq<nat>, o: seq<nat>, siz: seq<int>)
  {
    && Closed(parent) && Perm(o, |parent|) && ChildrenFirst(parent, o)
    && |siz| == |parent| && Positive(siz) && SizesOk(parent, o, siz)
  }

  /** Placed ids o[i..] lie inside 0..defins-1, with the cursor inside the interval. */
  predicate Bounds(parent: seq<nat>, o: seq<nat>, siz: seq<int>, st: Placing, i: nat)
    requires Shape(parent, o, siz, st)
  {
    && 0 <= st.defins
    && forall k :: i <= k < |o| ==>
      0 <= Lo(siz, st.pos, o[k]) <= st.ins[o[k]] <= st.pos[o[k]] < st.defins
  }

  /** Each placed cursor sits past the intervals of the children placed so far. */
  predicate Cursors(parent: seq<nat>, o: seq<nat>, siz: seq<int>, st: Placing, i: nat)
    requires Shape(parent, o, siz, st) && i <= |o|
  {
    forall k :: i <= k < |o| ==>
      st.ins[o[k]] == Lo(siz, st.pos, o[k]) + Sum(parent, o, siz, ChildOf(o[k]), i, |o|)
  }

  /** A placed non-root's interval is inside its parent's, left of the parent's cursor. */
  predicate Nested(parent: seq<nat>, o: seq<nat>, siz: seq<int>, st: Placing, i: nat)
    requires Shape(parent, o, siz, st)
  {
    forall k :: i <= k < |o| && parent[o[k]] != o[k] ==>
      st.pos[o[k]] < st.ins[parent[o[k]]] && Lo(siz, st.pos, parent[o[k]]) <= Lo(siz, st.pos, o[k])
  }

  /** Slot `q` is in the free part ins[x]..pos[x]-1 of x's interval. */
  predicate InFree(st: Placing, x: nat, q: int)
    requires x < |st.pos| && x < |st.ins|
  {
    st.ins[x] <= q < st.pos[x]
  }

  /**
   * Placed ids have distinct positions, no placed position is in a free
   * part, and the free parts are disjoint.
   */
  predicate Apart(parent: seq<nat>, o: seq<nat>, siz: seq<int>, st: Placing, i: nat)
    requires Shape(parent, o, siz, st)
  {
    forall k1, k2 :: i <= k1 < |o| && i <= k2 < |o| && k1 != k2 ==>
      && st.pos[o[k1]] != st.pos[o[k2]]
      && !InFree(st, o[k1], st.pos[o[k2]])
      && (st.pos[o[k1]] <= st.ins[o[k2]] || st.pos[o[k2]] <= st.ins[o[k1]]
          || st.ins[o[k1]] == st.pos[o[k1]] || st.ins[o[k2]] == st.pos[o[k2]])
  }

  /** Two roots, or two children of the same id. */
  predicate Siblings(parent: seq<nat>, a: nat, b: nat)
    requires a < |parent| && b < |parent|
  {
    (parent[a] == a && parent[b] == b) || (parent[a] == parent[b] && parent[a] != a && parent[b] != b)
  }

  /** The intervals of placed siblings do not overlap. */
  predicate Disjoint(parent: seq<nat>, o: seq<nat>, siz: seq<int>, st: Placing, i: nat)
    requires Shape(parent, o, siz, st)
  {
    forall k1, k2 :: i <= k1 < |o| && i <= k2 < |o| && k1 != k2 && Siblings(parent, o[k1], o[k2]) ==>
      st.pos[o[k1]] < Lo(siz, st.pos, o[k2]) || st.pos[o[k2]] < Lo(siz, st.pos, o[k1])
  }

  /** The invariant of the backward pass once the ids o[i..] are placed. */
  predicate Placed(parent: seq<nat>, o: seq<nat>, siz: seq<int>, st: Placing, i: nat)
  {
    && Shape(parent, o, siz, st) && i <= |o|
    && Bounds(parent, o, siz, st, i) && Cursors(parent, o, siz, st, i)
    && Nested(parent, o, siz, st, i) && Apart(parent, o, siz, st, i)
    && Disjoint(parent, o, siz, st, i)
    && st.defins == Sum(parent, o, siz, Roots, i, |o|)
  }

  /** No id placed from index i on is a child of o[i]. */
  lemma NoPlacedChild(parent: seq<nat>, o: seq<nat>, i: nat)
    requires Closed(parent) && Perm(o, |parent|) && ChildrenFirst(parent, o) && i < |o|
    ensures forall k :: i <= k < |o| ==> !Keeps(parent, ChildOf(o[i]), o[k])
  {
    forall k | i < k < |o| && parent[o[k]] != o[k]
      ensures parent[o[k]] != o[i]
    {
      var j := ParentLater(parent, o, k);
    }
  }

  /** The id at index i has no placed children yet. */
  lemma NoPlacedChildren(parent: seq<nat>, o: seq<nat>, siz: seq<int>, i: nat)
    requires Ready(parent, o, siz) && i < |o|
    ensures Sum(parent, o, siz, ChildOf(o[i]), i, |o|) == 0
  {
    NoPlacedChild(parent, o, i);
    SumNone(parent, o, siz, ChildOf(o[i]), i, |o|);
  }

  /**
   * When the non-root o[i] is placed its parent is already placed, with room
   * for it left between the parent's cursor and the parent's position.
   */
  lemma ParentSlot(parent: seq<nat>, o: seq<nat>, siz: seq<int>, st: Placing, i: nat) returns (j: nat)
    requires Ready(parent, o, siz) && i < |o| && Placed(parent, o, siz, st, i + 1)
    requires parent[o[i]] != o[i]
    ensures Room(parent, o, siz, st, i, j)
    ensures Sum(parent, o, siz, ChildOf(o[j]), i, |o|) == siz[o[i]] + Sum(parent, o, siz, ChildOf(o[j]), i + 1, |o|)
  {
    j := ParentLater(parent, o, i);
    var p := o[j];
    SumFirst(parent, o, siz, ChildOf(p), i, |o|);
    SumSplit(parent, o, siz, ChildOf(p), 0, i, |o|);
    SumNonneg(parent, o, siz, ChildOf(p), 0, i);
    assert siz[p] == 1 + Sum(parent, o, siz, ChildOf(p), 0, |o|);
  }

  /** The ids placed after o[i] are all different from it. */
  predicate Fresh(o: seq<nat>, i: nat)
    requires i < |o|
  {
    forall k :: i < k < |o| ==> o[k] != o[i]
  }

  /**
   * For a non-root o[i]: its parent is the placed o[j], whose cursor has
   * room for o[i]'s interval before the parent's own position.
   */
  predicate Room(parent: seq<nat>, o: seq<nat>, siz: seq<int>, st: Placing, i: nat, j: nat)
    requires Shape(parent, o, siz, st) && i < |o|
  {
    && i < j < |o| && o[j] == parent[o[i]]
    && 0 <= Lo(siz, st.pos, o[j]) <= st.ins[o[j]]
    && st.ins[o[j]] + siz[o[i]] <= st.pos[o[j]] < st.defins
  }

  /** Placing o[i] keeps the bounds. */
  lemma StepBounds(parent: seq<nat>, o: seq<nat>, siz: seq<int>, st: Placing, i: nat, j: nat)
    requires Shape(parent, o, siz, st) && i < |o| && Positive(siz) && Fresh(o, i)
    requires Bounds(parent, o, siz, st, i + 1)
    requires parent[o[i]] != o[i] ==> Room(parent, o, siz, st, i, j)
    ensures Bounds(parent, o, siz, Place(parent, siz, st, o[i]), i)
  {
  }

  /** Placing o[i] keeps the cursors. */
  lemma StepCursors(parent: seq<nat>, o: seq<nat>, siz: seq<int>, st: Placing, i: nat, j: nat)
    requires Shape(parent, o, siz, st) && i < |o| && Fresh(o, i)
    requires Cursors(parent, o, siz, st, i + 1)
    requires parent[o[i]] != o[i] ==> Room(parent, o, siz, st, i, j)
    requires Sum(parent, o, siz, ChildOf(o[i]), i, |o|) == 0
    requires parent[o[i]] != o[i] ==>
      Sum(parent, o, siz, ChildOf(o[j]), i, |o|) == siz[o[i]] + Sum(parent, o, siz, ChildOf(o[j]), i + 1, |o|)
    ensures Cursors(parent, o, siz, Place(parent, siz, st, o[i]), i)
  {
    var x := o[i];
    var st' := Place(parent, siz, st, x);
    forall k | i < k < |o|
      ensures st'.ins[o[k]] == Lo(siz, st'.pos, o[k]) + Sum(parent, o, siz, ChildOf(o[k]), i, |o|)
    {
      SumFirst(parent, o, siz, ChildOf(o[k]), i, |o|);
    }
  }

  /** Placing o[i] keeps every placed interval inside its parent's. */
  lemma StepNested(parent: seq<nat>, o: seq<nat>, siz: seq<int>, st: Placing, i: nat, j: nat)
    requires Shape(parent, o, siz, st) && i < |o| && Positive(siz) && Fresh(o, i)
    requires Nested(parent, o, siz, st, i + 1)
    requires parent[o[i]] != o[i] ==> Room(parent, o, siz, st, i, j)
    requires forall k :: i <= k < |o| ==> !Keeps(parent, ChildOf(o[i]), o[k])
    ensures Nested(parent, o, siz, Place(parent, siz, st, o[i]), i)
  {
  }

  /** Placing o[i] keeps positions distinct and out of the free parts. */
  lemma StepApart(parent: seq<nat>, o: seq<nat>, siz: seq<int>, st: Placing, i: nat, j: nat)
    requires Shape(parent, o, siz, st) && i < |o| && Positive(siz) && Fresh(o, i)
    requires Bounds(parent, o, siz, st, i + 1) && Apart(parent, o, siz, st, i + 1)
    requires parent[o[i]] != o[i] ==> Room(parent, o, siz, st, i, j)
    ensures Apart(parent, o, siz, Place(parent, siz, st, o[i]), i)
  {
  }

  /** Placing o[i] keeps sibling intervals apart. */
  lemma StepDisjoint(parent: seq<nat>, o: seq<nat>, siz: seq<int>, st: Placing, i: nat, j: nat)
    requires Shape(parent, o, siz, st) && i < |o| && Positive(siz) && Fresh(o, i)
    requires Bounds(parent, o, siz, st, i + 1) && Nested(parent, o, siz, st, i + 1)
    requires Disjoint(parent, o, siz, st, i + 1)
    requires parent[o[i]] != o[i] ==> Room(parent, o, siz, st, i, j)
    ensures Disjoint(parent, o, siz, Place(parent, siz, st, o[i]), i)
  {
  }

  /** What one step of the backward pass relies on about o[i] and its parent o[j]. */
  predicate StepReady(parent: seq<nat>, o: seq<nat>, siz: seq<int>, st: Placing, i: nat, j: nat)
  {
    && Shape(parent, o, siz, st) && i < |o| && Positive(siz) && Fresh(o, i)
    && (parent[o[i]] != o[i] ==> Room(parent, o, siz, st, i, j))
    && (forall k :: i <= k < |o| ==> !Keeps(parent, ChildOf(o[i]), o[k]))
    && Sum(parent, o, siz, ChildOf(o[i]), i, |o|) == 0
  }

  /** The facts one step relies on, from the invariant. */
  lemma StepFacts(parent: seq<nat>, o: seq<nat>, siz: seq<int>, st: Placing, i: nat) returns (j: nat)
    requires Ready(parent, o, siz) && i < |o| && Placed(parent, o, siz, st, i + 1)
    ensures StepReady(parent, o, siz, st, i, j)
    ensures parent[o[i]] != o[i] ==>
      Sum(parent, o, siz, ChildOf(o[j]), i, |o|) == siz[o[i]] + Sum(parent, o, siz, ChildOf(o[j]), i + 1, |o|)
  {
    j := 0;
    if parent[o[i]] != o[i] {
      j := ParentSlot(parent, o, siz, st, i);
    }
    NoPlacedChild(parent, o, i);
    NoPlacedChildren(parent, o, siz, i);
  }

  /** One step of the backward pass keeps its invariant, given the step's facts. */
  lemma StepPlaced(parent: seq<nat>, o: seq<nat>, siz: seq<int>, st: Placing, i: nat, j: nat)
    requires StepReady(parent, o, siz, st, i, j) && Placed(parent, o, siz, st, i + 1)
    requires parent[o[i]] != o[i] ==>
      Sum(parent, o, siz, ChildOf(o[j]), i, |o|) == siz[o[i]] + Sum(parent, o, siz, ChildOf(o[j]), i + 1, |o|)
    ensures Placed(parent, o, siz, Place(parent, siz, st, o[i]), i)
  {
    StepBounds(parent, o, siz, st, i, j);
    StepCursors(parent, o, siz, st, i, j);
    StepNested(parent, o, siz, st, i, j);
    StepApart(parent, o, siz, st, i, j);
    StepDisjoint(parent, o, siz, st, i, j);
    SumFirst(parent, o, siz, Roots, i, |o|);
  }

  /** One step of the backward pass keeps its invariant. */
  lemma PlaceStep(parent: seq<nat>, o: seq<nat>, siz: seq<int>, st: Placing, i: nat)
    requires Ready(parent, o, siz) && i < |o| && Placed(parent, o, siz, st, i + 1)
    ensures Placed(parent, o, siz, Place(parent, siz, st, o[i]), i)
  {
    var j := StepFacts(parent, o, siz, st, i);
    StepPlaced(parent, o, siz, st, i, j);
  }

  /**
   * A dendrogram layout for the sizes `siz`: every id x owns the interval
   * Lo(x)..pos[x] inside 0..n-1 and is drawn at its right end; positions are
   * distinct; a child's interval lies inside its parent's and ends left of
   * the parent's position; intervals of two roots or of two children of the
   * same id do not overlap.
   */
  predicate IsLayout(parent: seq<nat>, siz: seq<int>, pos: seq<int>)
  {
    && Closed(parent) && |pos| == |parent| && |siz| == |parent|
    && (forall x :: 0 <= x < |pos| ==> 0 <= Lo(siz, pos, x) <= pos[x] < |pos|)
    && (forall x, y :: 0 <= x < |pos| && 0 <= y < |pos| && x != y ==> pos[x] != pos[y])
    && (forall x :: 0 <= x < |pos| && parent[x] != x ==>
          pos[x] < pos[parent[x]] && Lo(siz, pos, parent[x]) <= Lo(siz, pos, x))
    && (forall x, y :: 0 <= x < |pos| && 0 <= y < |pos| && x != y && Siblings(parent, x, y) ==>
          pos[x] < Lo(siz, pos, y) || pos[y] < Lo(siz, pos, x))
  }

  /** Before the backward pass nothing is placed. */
  lemma PlacedStart(parent: seq<nat>, o: seq<nat>, siz: seq<int>, st: Placing)
    requires Shape(parent, o, siz, st) && st.defins == 0
    ensures Placed(parent, o, siz, st, |o|)
  {
  }

  /** After the backward pass every cursor has reached its id's position. */
  lemma UsedUp(parent: seq<nat>, o: seq<nat>, siz: seq<int>, st: Placing)
    requires Ready(parent, o, siz) && Placed(parent, o, siz, st, 0)
    ensures forall k :: 0 <= k < |o| ==> st.ins[o[k]] == st.pos[o[k]]
    ensures st.defins == |o|
  {
    forall k | 0 <= k < |o| ensures st.ins[o[k]] == st.pos[o[k]] {
      assert siz[o[k]] == 1 + Sum(parent, o, siz, ChildOf(o[k]), 0, |o|);
    }
  }

  /** Placed intervals, restated over ids: inside 0..n-1. */
  lemma PlacedInRange(parent: seq<nat>, o: seq<nat>, siz: seq<int>, st: Placing)
    requires Shape(parent, o, siz, st) && Perm(o, |parent|)
    requires Bounds(parent, o, siz, st, 0) && st.defins == |o|
    ensures forall x :: 0 <= x < |st.pos| ==> 0 <= Lo(siz, st.pos, x) <= st.pos[x] < |st.pos|
  {
    forall x | 0 <= x < |st.pos| ensures 0 <= Lo(siz, st.pos, x) <= st.pos[x] < |st.pos| {
      var k := IndexOf(o, x);
    }
  }

  /** Placed positions, restated over ids: distinct, and sibling intervals apart. */
  lemma PlacedApart(parent: seq<nat>, o: seq<nat>, siz: seq<int>, st: Placing)
    requires Shape(parent, o, siz, st) && Perm(o, |parent|)
    requires Apart(parent, o, siz, st, 0) && Disjoint(parent, o, siz, st, 0)
    ensures forall x, y :: 0 <= x < |st.pos| && 0 <= y < |st.pos| && x != y ==> st.pos[x] != st.pos[y]
    ensures forall x, y :: 0 <= x < |st.pos| && 0 <= y < |st.pos| && x != y && Siblings(parent, x, y) ==>
      st.pos[x] < Lo(siz, st.pos, y) || st.pos[y] < Lo(siz, st.pos, x)
  {
    var n := |o|;
    forall x, y | 0 <= x < n && 0 <= y < n && x != y
      ensures st.pos[x] != st.pos[y]
      ensures Siblings(parent, x, y) ==> st.pos[x] < Lo(siz, st.pos, y) || st.pos[y] < Lo(siz, st.pos, x)
    {
      var kx, ky := IndexOf(o, x), IndexOf(o, y);
    }
  }

  /** Placed children, restated over ids: inside their parents, left of them. */
  lemma PlacedNested(parent: seq<nat>, o: seq<nat>, siz: seq<int>, st: Placing)
    requires Shape(parent, o, siz, st) && Perm(o, |parent|) && Nested(parent, o, siz, st, 0)
    requires forall k :: 0 <= k < |o| ==> st.ins[o[k]] == st.pos[o[k]]
    ensures forall x :: 0 <= x < |st.pos| && parent[x] != x ==>
      st.pos[x] < st.pos[parent[x]] && Lo(siz, st.pos, parent[x]) <= Lo(siz, st.pos, x)
  {
    var n := |o|;
    forall x | 0 <= x < n && parent[x] != x
      ensures st.pos[x] < st.pos[parent[x]] && Lo(siz, st.pos, parent[x]) <= Lo(siz, st.pos, x)
    {
      var k, kp := IndexOf(o, x), IndexOf(o, parent[x]);
    }
  }

  /** The pass's invariant, stated over listing indices, restated over ids. */
  lemma PlacedIds(parent: seq<nat>, o: seq<nat>, siz: seq<int>, st: Placing)
    requires Shape(parent, o, siz, st) && Perm(o, |parent|)
    requires Bounds(parent, o, siz, st, 0) && Nested(parent, o, siz, st, 0)
    requires Apart(parent, o, siz, st, 0) && Disjoint(parent, o, siz, st, 0)
    requires st.defins == |o| && forall k :: 0 <= k < |o| ==> st.ins[o[k]] == st.pos[o[k]]
    ensures IsLayout(parent, siz, st.pos)
  {
    PlacedInRange(parent, o, siz, st);
    PlacedApart(parent, o, siz, st);
    PlacedNested(parent, o, siz, st);
  }

  /** After the backward pass every free part is used up: the positions form a layout. */
  lemma PlacedDone(parent: seq<nat>, o: seq<nat>, siz: seq<int>, st: Placing)
    requires Ready(parent, o, siz) && Placed(parent, o, siz, st, 0)
    ensures IsLayout(parent, siz, st.pos)
  {
    UsedUp(parent, o, siz, st);
    PlacedIds(parent, o, siz, st);
  }

  /** The loop body of the backward pass, on the position and cursor stores. */
  method PlaceOne(parent: seq<nat>, siz: seq<int>, pos: array<int>, ins: array<int>, defins: int, x: nat)
      returns (defins': int)
    requires Closed(parent) && |siz| == |parent| && x < |parent|
    requires pos.Length == |parent| && ins.Length == |parent| && pos != ins
    modifies pos, ins
    ensures Placing(pos[..], ins[..], defins') == Place(parent, siz, Placing(old(pos[..]), old(ins[..]), defins), x)
  {
    var size := siz[x];
    var v := parent[x];
    var ipos := ins[v];
    if ipos < 0 || x == v {
      ins[x] := defins;
      pos[x] := defins + size - 1;
      defins' := defins + size;
      return;
    }
    pos[x] := ipos + size - 1;
    ins[x] := ipos;
    ins[v] := ins[v] + size;
    defins' := defins;
  }

  /**
   * The state of the backward pass once the ids o[i..] are placed, from the
   * last one down, starting from stores filled with -1 and offset 0.
   */
  function PlaceFrom(parent: seq<nat>, o: seq<nat>, siz: seq<int>, i: nat): (st: Placing)
    requires Closed(parent) && IdsBelow(o, |parent|) && |siz| == |parent| && i <= |o|
    ensures Sized(|parent|, st)
    decreases |o| - i
  {
    if i == |o| then Placing(seq(|parent|, _ => -1), seq(|parent|, _ => -1), 0)
    else Place(parent, siz, PlaceFrom(parent, o, siz, i + 1), o[i])
  }

  /**
   * Every state of the backward pass on children-first sizes, from index i
   * down, keeps the placement invariant.
   */
  lemma {:induction false} PlaceFromPlaced(parent: seq<nat>, o: seq<nat>, siz: seq<int>, i: nat)
    requires Ready(parent, o, siz) && i <= |o|
    ensures forall j :: i <= j <= |o| ==> Placed(parent, o, siz, PlaceFrom(parent, o, siz, j), j)
    decreases |o| - i
  {
    if i == |o| {
      PlaceFromStart(parent, o, siz);
    } else {
      PlaceFromPlaced(parent, o, siz, i + 1);
      PlaceFromStep(parent, o, siz, i);
    }
  }

  /** The backward pass starts from nothing placed. */
  lemma PlaceFromStart(parent: seq<nat>, o: seq<nat>, siz: seq<int>)
    requires Closed(parent) && IdsBelow(o, |parent|) && |siz| == |parent|
    ensures Placed(parent, o, siz, PlaceFrom(parent, o, siz, |o|), |o|)
  {
    PlacedStart(parent, o, siz, PlaceFrom(parent, o, siz, |o|));
  }

  /** One step of the backward pass, on the states it goes through. */
  lemma PlaceFromStep(parent: seq<nat>, o: seq<nat>, siz: seq<int>, i: nat)
    requires Ready(parent, o, siz) && i < |o| && Placed(parent, o, siz, PlaceFrom(parent, o, siz, i + 1), i + 1)
    ensures Placed(parent, o, siz, PlaceFrom(parent, o, siz, i), i)
  {
    var st := PlaceFrom(parent, o, siz, i + 1);
    assert PlaceFrom(parent, o, siz, i) == Place(parent, siz, st, o[i]);
    PlaceStep(parent, o, siz, st, i);
  }

  /** The backward pass on children-first sizes ends in a layout. */
  lemma PlaceFromLayout(parent: seq<nat>, o: seq<nat>, siz: seq<int>)
    requires Ready(parent, o, siz)
    ensures IsLayout(parent, siz, PlaceFrom(parent, o, siz, 0).pos)
  {
    PlaceFromPlaced(parent, o, siz, 0);
    assert Placed(parent, o, siz, PlaceFrom(parent, o, siz, 0), 0);
    PlacedDone(parent, o, siz, PlaceFrom(parent, o, siz, 0));
  }

  /**
   * The backward pass: from the last id of the order to the first, each id
   * takes the interval of its size at the offset (a root) or at its parent's
   * cursor.  Run on the sizes of a children-first listing of all ids, the
   * positions form a layout.
   */
  method PlacePositions(parent: seq<nat>, order: seq<nat>, siz: seq<int>) returns (positions: seq<int>)
    requires Closed(parent) && IdsBelow(order, |parent|) && |siz| == |parent|
    ensures positions == PlaceFrom(parent, order, siz, 0).pos
    ensures |positions| == |parent|
    ensures Ready(parent, order, siz) ==> IsLayout(parent, siz, positions)
  {
    var n := |parent|;
    var pos := new int[n](_ => -1);
    var ins := new int[n](_ => -1);
    var defins := 0;
    assert pos[..] == seq(n, _ => -1) && ins[..] == seq(n, _ => -1);
    var i: nat := |order|;
    while i > 0
      invariant i <= |order|
      invariant Placing(pos[..], ins[..], defins) == PlaceFrom(parent, order, siz, i)
    {
      i := i - 1;
      defins := PlaceOne(parent, siz, pos, ins, defins, order[i]);
    }
    positions := pos[..];
    if Ready(parent, order, siz) {
      PlaceFromLayout(parent, order, siz);
    }
  }

  /** In the backward pass only a root finds no cursor at its parent. */
  lemma OffsetOnlyForRoots(parent: seq<nat>, o: seq<nat>, siz: seq<int>, st: Placing, i: nat)
    requires Ready(parent, o, siz) && i < |o| && Placed(parent, o, siz, st, i + 1)
    ensures st.ins[parent[o[i]]] < 0 ==> parent[o[i]] == o[i]
  {
    if parent[o[i]] != o[i] {
      var j := ParentSlot(parent, o, siz, st, i);
    }
  }

  /** The set of positions in use. */
  function Image(pos: seq<int>): set<int>
  {
    set x | 0 <= x < |pos| :: pos[x]
  }

  /** The positions of m distinct ids are m distinct values. */
  lemma {:induction false} ImageSize(pos: seq<int>, m: nat)
    requires m <= |pos|
    requires forall x, y :: 0 <= x < |pos| && 0 <= y < |pos| && x != y ==> pos[x] != pos[y]
    ensures |set x | 0 <= x < m :: pos[x]| == m
  {
    if m > 0 {
      ImageSize(pos, m - 1);
      var before := set x | 0 <= x < m - 1 :: pos[x];
      assert (set x | 0 <= x < m :: pos[x]) == before + {pos[m - 1]};
    }
  }

  /** A layout uses every slot 0..n-1: positions are a permutation of the slots. */
  lemma LayoutFillsSlots(parent: seq<nat>, siz: seq<int>, pos: seq<int>)
    requires IsLayout(parent, siz, pos)
    ensures forall q :: 0 <= q < |pos| ==> q in Image(pos)
  {
    var n := |pos|;
    ImageSize(pos, n);
    forall q | 0 <= q < n ensures q in Image(pos) {
      if q !in Image(pos) {
        IdSetSize(Image(pos) + {q}, n);
      }
    }
  }
}
