/**
 * The pointer representation with prototypes (used by MiniMax linkage): the
 * prototype of a cluster is the one recorded at its last internal merge,
 * found as the member with the second-highest merge order.
 */
module Prototype {
  import opened Options
  import opened Ints
  import opened Forest
  import opened Hierarchy
  import opened PointerHierarchy

  /** The merge orders of the members, in iteration order. */
  function Values(mo: seq<Int32>, members: seq<nat>): (v: seq<int>)
    requires IdsBelow(members, |mo|)
    ensures |v| == |members| && forall k :: 0 <= k < |v| ==> v[k] == mo[members[k]]
  {
    seq(|members|, k requires 0 <= k < |members| => mo[members[k]])
  }

  /**
   * Among v[0..t-1], index i holds the highest value, it is above the
   * sentinel MinInt, and no earlier index holds that value.
   */
  ghost predicate IsTop(v: seq<int>, t: nat, i: nat)
    requires t <= |v|
  {
    && i < t && v[i] > MinInt
    && (forall k :: 0 <= k < t ==> v[k] <= v[i])
    && (forall k :: 0 <= k < i ==> v[k] < v[i])
  }

  /**
   * Among v[0..t-1] with the top index i set aside, index j holds the highest
   * value, it is above the sentinel, and no earlier index other than i holds
   * that value: the second-highest value counted with multiplicity.
   */
  ghost predicate IsRunnerUp(v: seq<int>, t: nat, i: nat, j: nat)
    requires t <= |v|
  {
    && j < t && j != i && v[j] > MinInt
    && (forall k :: 0 <= k < t && k != i ==> v[k] <= v[j])
    && (forall k :: 0 <= k < j && k != i ==> v[k] < v[j])
  }

  /** v[0..t-1] has a top and a runner-up. */
  ghost predicate HasRunnerUp(v: seq<int>, t: nat)
    requires t <= |v|
  {
    exists i: nat, j: nat :: IsTop(v, t, i) && IsRunnerUp(v, t, i, j)
  }

  /** The top and the runner-up are unique. */
  lemma TopAndRunnerUpUnique(v: seq<int>, t: nat, i1: nat, j1: nat, i2: nat, j2: nat)
    requires t <= |v| && IsTop(v, t, i1) && IsTop(v, t, i2)
    requires IsRunnerUp(v, t, i1, j1) && IsRunnerUp(v, t, i2, j2)
    ensures i1 == i2 && j1 == j2
  {
    assert v[i1] == v[i2];
    assert v[j1] == v[j2];
  }

  /** Either v[0..t-1] has a top, or no value there is above the sentinel. */
  lemma {:induction false} TopOf(v: seq<int>, t: nat) returns (found: bool, i: nat)
    requires t <= |v|
    ensures found ==> IsTop(v, t, i)
    ensures !found ==> forall k :: 0 <= k < t ==> v[k] <= MinInt
  {
    if t == 0 {
      found, i := false, 0;
    } else {
      found, i := TopOf(v, t - 1);
      if v[t - 1] > MinInt && (!found || v[t - 1] > v[i]) {
        found, i := true, t - 1;
      }
    }
  }

  /** The runner-up is the top once the top's value is replaced by the sentinel. */
  lemma RunnerUpIsTopWithout(v: seq<int>, t: nat, i: nat, j: nat)
    requires t <= |v| && i < |v|
    ensures IsRunnerUp(v, t, i, j) <==> IsTop(v[i := MinInt], t, j)
  {
    var w := v[i := MinInt];
    if IsTop(w, t, j) {
      assert j != i;
      forall k | 0 <= k < t && k != i ensures v[k] <= v[j] {
        assert w[k] == v[k];
      }
      forall k | 0 <= k < j && k != i ensures v[k] < v[j] {
        assert w[k] == v[k];
      }
    }
  }

  /**
   * A top and a runner-up exist exactly when two different positions hold
   * values above the sentinel.
   */
  lemma RunnerUpExists(v: seq<int>)
    ensures HasRunnerUp(v, |v|) <==>
      exists a: nat, b: nat :: a < |v| && b < |v| && a != b && v[a] > MinInt && v[b] > MinInt
  {
    if a: nat, b: nat :| a < |v| && b < |v| && a != b && v[a] > MinInt && v[b] > MinInt {
      var found, i := TopOf(v, |v|);
      var w := v[i := MinInt];
      assert w[a] > MinInt || w[b] > MinInt;
      var found2, j := TopOf(w, |v|);
      RunnerUpIsTopWithout(v, |v|, i, j);
    }
  }

  /**
   * When the members are the same set and their merge orders pairwise
   * different, the member found does not depend on the iteration order.
   */
  lemma RunnerUpOrderFree(mo: seq<Int32>, m1: seq<nat>, m2: seq<nat>, i1: nat, j1: nat, i2: nat, j2: nat)
    requires IdsBelow(m1, |mo|) && Distinct(m1) && Distinct(m2) && forall x :: x in m1 <==> x in m2
    requires forall a, b :: 0 <= a < |m1| && 0 <= b < |m1| && mo[m1[a]] == mo[m1[b]] ==> a == b
    requires IdsBelow(m2, |mo|)
    requires IsTop(Values(mo, m1), |m1|, i1) && IsRunnerUp(Values(mo, m1), |m1|, i1, j1)
    requires IsTop(Values(mo, m2), |m2|, i2) && IsRunnerUp(Values(mo, m2), |m2|, i2, j2)
    ensures m1[i1] == m2[i2] && m1[j1] == m2[j2]
  {
    var v1, v2 := Values(mo, m1), Values(mo, m2);
    var p := IndexOf(m1, m2[i2]);
    var q := IndexOf(m2, m1[i1]);
    assert v1[p] == v2[i2] && v2[q] == v1[i1];
    assert i1 == p;
    var p2 := IndexOf(m1, m2[j2]);
    var q2 := IndexOf(m2, m1[j1]);
    assert p2 != i1 && v1[p2] == v2[j2];
    assert q2 != i2;
    assert v2[q2] == v1[j1];
    assert j1 == p2;
  }

  /**
   * Whether a runner-up exists does not depend on the iteration order of
   * the members either: both orders list the same merge orders.
   */
  lemma RunnerUpExistsOrderFree(mo: seq<Int32>, m1: seq<nat>, m2: seq<nat>)
    requires IdsBelow(m1, |mo|) && IdsBelow(m2, |mo|) && Distinct(m1) && Distinct(m2)
    requires forall x :: x in m1 <==> x in m2
    ensures HasRunnerUp(Values(mo, m1), |m1|) <==> HasRunnerUp(Values(mo, m2), |m2|)
  {
    RunnerUpTransfers(mo, m1, m2);
    RunnerUpTransfers(mo, m2, m1);
  }

  /** One direction of RunnerUpExistsOrderFree. */
  lemma RunnerUpTransfers(mo: seq<Int32>, m1: seq<nat>, m2: seq<nat>)
    requires IdsBelow(m1, |mo|) && IdsBelow(m2, |mo|) && Distinct(m1) && Distinct(m2)
    requires forall x :: x in m1 <==> x in m2
    ensures HasRunnerUp(Values(mo, m1), |m1|) ==> HasRunnerUp(Values(mo, m2), |m2|)
  {
    var v1, v2 := Values(mo, m1), Values(mo, m2);
    RunnerUpExists(v1);
    RunnerUpExists(v2);
    if HasRunnerUp(v1, |m1|) {
      var a: nat, b: nat :| a < |v1| && b < |v1| && a != b && v1[a] > MinInt && v1[b] > MinInt;
      var a2, b2 := IndexOf(m2, m1[a]), IndexOf(m2, m1[b]);
      assert v2[a2] > MinInt && v2[b2] > MinInt && a2 != b2;
    }
  }

  class PointerPrototypeHierarchyResult {
    /** The underlying pointer representation. */
    const hierarchy: PointerHierarchyResult
    /** The prototype recorded for each id's merge. */
    const prototypes: seq<nat>

    /** The hierarchy is valid and there is one prototype per id. */
    ghost predicate Valid()
      reads this, hierarchy
    {
      hierarchy.Valid() && |prototypes| == |hierarchy.store.parent|
    }

    /** A result with a merge order, or with `None` for none. */
    constructor (parent: seq<nat>, parentDistance: seq<real>, mergeOrder: Option<seq<Int32>>, prototypes: seq<nat>)
      requires Store(parent, parentDistance, mergeOrder).WellFormed() && |prototypes| == |parent|
      ensures hierarchy.store == Store(parent, parentDistance, mergeOrder) && hierarchy.positions == None
      ensures this.prototypes == prototypes && fresh(hierarchy)
      ensures Valid()
    {
      hierarchy := new PointerHierarchyResult(parent, parentDistance, mergeOrder);
      this.prototypes := prototypes;
    }

    /** A result without a merge order (on which `FindPrototype` cannot be used). */
    constructor WithoutMergeOrder(parent: seq<nat>, parentDistance: seq<real>, prototypes: seq<nat>)
      requires Store(parent, parentDistance, None).WellFormed() && |prototypes| == |parent|
      ensures hierarchy.store == Store(parent, parentDistance, None) && hierarchy.positions == None
      ensures this.prototypes == prototypes && fresh(hierarchy)
      ensures Valid()
    {
      hierarchy := new PointerHierarchyResult(parent, parentDistance, None);
      this.prototypes := prototypes;
    }

    /**
     * One pass over the members tracking the highest merge order (`maxprio`,
     * at `last`) and the second-highest (`secprio`, at `proto`); the result is
     * the prototype recorded at `proto`, or None while `proto` was never set.
     */
    method FindPrototype(members: seq<nat>) returns (r: Option<nat>)
      requires hierarchy.store.WellFormed() && |prototypes| == |hierarchy.store.parent|
      requires hierarchy.store.mergeOrder.Some? && IdsBelow(members, |hierarchy.store.parent|)
      ensures var v := Values(hierarchy.store.mergeOrder.value, members);
        r.Some? <==> HasRunnerUp(v, |v|)
      ensures var v := Values(hierarchy.store.mergeOrder.value, members);
        forall i: nat, j: nat :: IsTop(v, |v|, i) && IsRunnerUp(v, |v|, i, j) ==> r == Some(prototypes[members[j]])
    {
      var mo := hierarchy.store.mergeOrder.value;
      ghost var v := Values(mo, members);
      var proto: Option<nat> := None;
      var last: Option<nat> := None;
      var maxprio: Int32 := MinInt;
      var secprio: Int32 := MinInt;
      ghost var top: nat := 0;
      ghost var second: nat := 0;
      for t := 0 to |members|
        invariant maxprio > MinInt ==> IsTop(v, t, top) && last == Some(members[top]) && maxprio == v[top]
        invariant maxprio == MinInt ==> last == None && forall k :: 0 <= k < t ==> v[k] == MinInt
        invariant secprio > MinInt ==>
          maxprio > MinInt && IsRunnerUp(v, t, top, second) && proto == Some(members[second]) && secprio == v[second]
        invariant secprio == MinInt ==> proto == None && forall k :: 0 <= k < t && k != top ==> v[k] == MinInt
        invariant secprio == MinInt && maxprio == MinInt ==> top == 0
      {
        var prio := mo[members[t]];
        if prio > maxprio {
          secprio := maxprio;
          proto := last;
          second := top;
          maxprio := prio;
          last := Some(members[t]);
          top := t;
        } else if prio > secprio {
          secprio := prio;
          proto := Some(members[t]);
          second := t;
        }
      }
      forall i: nat, j: nat | IsTop(v, |v|, i) && IsRunnerUp(v, |v|, i, j)
        ensures secprio > MinInt && i == top && j == second
      {
        assert v[i] > MinInt && v[j] > MinInt && v[top] == maxprio;
        TopAndRunnerUpUnique(v, |v|, i, j, top, second);
      }
      if proto.Some? {
        r := Some(prototypes[proto.value]);
      } else {
        r := None;
      }
    }
  }
}
