# Pointer hierarchy representation of ELKI, in Dafny

This project models the pointer representation of an agglomerative
hierarchical clustering from ELKI. It also models the one-element itemset
class of ELKI's frequent itemset mining.

Pointer representation:
- Each of the ids `0..n-1` has a parent. A root is its own parent.
- Each id also has the distance at which it joined its parent.
- An optional merge order is stored as 32-bit integers.

There are three operations:

- **Topological sort** (`Linearizer.TopologicalSort`):
  - The ids are sorted by priority: merge order descending, otherwise distance descending, with ties broken by ascending id.
  - Parent chains are walked, guarded by a set of ids already seen.
  - The array reversals are done in place.
  - The result always lists every id exactly once, even when the parent map has a cycle.
  - It lists every child before its parent exactly when the parent map is a valid forest.
- **Dendrogram positions** (`PointerHierarchy.PointerHierarchyResult.GetPositions`):
  - A forward pass over the order adds each subtree size into the parent (`Layout.ComputeSizes`).
  - A backward pass hands out nested intervals from per-id cursors and a running offset (`Layout.PlacePositions`).
  - The result is cached in the object.
  - On a valid forest, the sizes are the subtree sizes (`Subtrees.SizesAreSubtrees`).
  - The positions are then a layout (`Layout.IsLayout`), which means:
    - the positions are distinct and use each slot of `0..n-1`;
    - each id sits at the right end of an interval of its subtree size;
    - a child's interval lies inside its parent's, to the left of the parent;
    - the intervals of siblings and of roots do not overlap.
- **Prototype lookup** (`Prototype.PointerPrototypeHierarchyResult.FindPrototype`):
  - A single pass tracks the highest merge order among a cluster's members and the second-highest, counted with multiplicity.
  - It then returns the prototype stored for the runner-up.
  - The pass is proved against ghost predicates `IsTop` and `IsRunnerUp`.
  - Lemmas characterise when a runner-up exists and show that it does not depend on the iteration order when merge orders differ.

The itemset (`Itemsets.OneItemset`) is a datatype with its length, its one-step iterator protocol, equality by item and three-way comparison.

Modules and files:
- `forest.dfy` (Forest): forests, ranks and children-first and parent-first listings.
- `hierarchy.dfy` (Hierarchy): the store and the priority sort.
- `linearizer.dfy` (Linearizer): the topological sort.
- `sums.dfy` (Sums): range sums over a listing.
- `layout.dfy` (Layout): both passes of the position computation.
- `subtrees.dfy` (Subtrees): subtrees and their sizes.
- `pointer_hierarchy.dfy` (PointerHierarchy): the result class with its cache.
- `prototype.dfy` (Prototype): the prototype subclass.
- `one_itemset.dfy` (Itemsets): the itemset.
- `options.dfy` (Options): an `Option` type.
- `ints.dfy` (Ints): Java's 32-bit `int` range.

## Model

| member | source | states |
|---|---|---|
| Forest.ChildrenFirstMeansForest | elki/src/main/java/de/lmu/ifi/dbs/elki/algorithm/clustering/hierarchical/PointerHierarchyRepresentationResult.java:206-224 | a children-first listing of all ids exists only when the parent map is a valid forest (no cycle except root self-loops) |
| Forest.BackwardsIsChildrenFirst | elki/src/main/java/de/lmu/ifi/dbs/elki/algorithm/clustering/hierarchical/PointerHierarchyRepresentationResult.java:221-224 | reading a parent-first listing backwards gives a children-first listing |
| Hierarchy.PrecedesStrictTotal | elki/src/main/java/de/lmu/ifi/dbs/elki/algorithm/clustering/hierarchical/PointerHierarchyRepresentationResult.java:188-197 | the sort priority (key descending, then id ascending) is irreflexive, total on different ids, asymmetric and transitive |
| Hierarchy.Insert | elki/src/main/java/de/lmu/ifi/dbs/elki/algorithm/clustering/hierarchical/PointerHierarchyRepresentationResult.java:188-197 | inserting an id into a list adds exactly that id to its contents |
| Hierarchy.InsertSorted | elki/src/main/java/de/lmu/ifi/dbs/elki/algorithm/clustering/hierarchical/PointerHierarchyRepresentationResult.java:188-197 | inserting into a priority-sorted list keeps it sorted |
| Hierarchy.SortByPriority | elki/src/main/java/de/lmu/ifi/dbs/elki/algorithm/clustering/hierarchical/PointerHierarchyRepresentationResult.java:188-197 | the sorted list is a rearrangement of its input in which no later id precedes an earlier one |
| Hierarchy.PriorityOrderIsStrict | elki/src/main/java/de/lmu/ifi/dbs/elki/algorithm/clustering/hierarchical/PointerHierarchyRepresentationResult.java:188-197 | the sorted ids are a permutation of 0..n-1, and an id comes before every id it precedes |
| Linearizer.Reverse | elki/src/main/java/de/lmu/ifi/dbs/elki/algorithm/clustering/hierarchical/PointerHierarchyRepresentationResult.java:216-224 | the swap loop reverses the range lo..hi-1 of the array in place and leaves the rest unchanged |
| Linearizer.WalkUp | elki/src/main/java/de/lmu/ifi/dbs/elki/algorithm/clustering/hierarchical/PointerHierarchyRepresentationResult.java:206-215 | the parent walk writes the start id at the segment's first slot, then appends fresh ids only, each the parent of the previous, and stops at a root or at an id already seen; it terminates on any parent map |
| Linearizer.ListedAppend | elki/src/main/java/de/lmu/ifi/dbs/elki/algorithm/clustering/hierarchical/PointerHierarchyRepresentationResult.java:203-213 | appending an id not yet seen keeps the listing free of repeats and equal to the seen set, and the listing had room |
| Linearizer.ChainDeepening | elki/src/main/java/de/lmu/ifi/dbs/elki/algorithm/clustering/hierarchical/PointerHierarchyRepresentationResult.java:209-215 | on a forest, every id of a walked chain is at least as deep as the chain's last id, which is the shallowest |
| Linearizer.StopsAtListed | elki/src/main/java/de/lmu/ifi/dbs/elki/algorithm/clustering/hierarchical/PointerHierarchyRepresentationResult.java:209-212 | on a forest, a walk that stops at a seen id stops at an id listed before the chain started |
| Linearizer.WalkJoinsEarlier | elki/src/main/java/de/lmu/ifi/dbs/elki/algorithm/clustering/hierarchical/PointerHierarchyRepresentationResult.java:209-212 | on a forest, the walk that breaks at a seen id joins an earlier segment, never its own chain |
| Linearizer.ReversalKeepsListed | elki/src/main/java/de/lmu/ifi/dbs/elki/algorithm/clustering/hierarchical/PointerHierarchyRepresentationResult.java:216-219 | reversing a segment keeps the listing free of repeats and its set of ids |
| Linearizer.WalkParentFirst | elki/src/main/java/de/lmu/ifi/dbs/elki/algorithm/clustering/hierarchical/PointerHierarchyRepresentationResult.java:206-219 | a walked chain reversed in place, after a parent-first prefix, extends that prefix to a parent-first listing |
| Linearizer.ReversedChain | elki/src/main/java/de/lmu/ifi/dbs/elki/algorithm/clustering/hierarchical/PointerHierarchyRepresentationResult.java:216-219 | reversing a walked chain puts its start id last and its end first, and each id in the segment is then followed by one of its children |
| Linearizer.ListChain | elki/src/main/java/de/lmu/ifi/dbs/elki/algorithm/clustering/hierarchical/PointerHierarchyRepresentationResult.java:202-219 | one outer step lists at least the start id, keeps the earlier segments, writes the reversed walk: the start id last, each slot before another holding that id's parent (no root), the segment's first id a root or a parent seen before; on a forest it keeps the listing parent-first |
| Linearizer.ListAll | elki/src/main/java/de/lmu/ifi/dbs/elki/algorithm/clustering/hierarchical/PointerHierarchyRepresentationResult.java:199-220 | the outer loop lists every id exactly once, and on a forest parent-first |
| Linearizer.SortCovers | elki/src/main/java/de/lmu/ifi/dbs/elki/algorithm/clustering/hierarchical/PointerHierarchyRepresentationResult.java:188-197 | the priority-sorted ids contain every id |
| Linearizer.ReversedOrder | elki/src/main/java/de/lmu/ifi/dbs/elki/algorithm/clustering/hierarchical/PointerHierarchyRepresentationResult.java:221-225 | the final reversal gives a permutation of all ids that is children-first exactly on a forest |
| Linearizer.ChildrenFirstIndices | elki/src/main/java/de/lmu/ifi/dbs/elki/algorithm/clustering/hierarchical/PointerHierarchyRepresentationResult.java:221-225 | in a children-first listing without repeats every non-root sits at a smaller index than its parent |
| Linearizer.TopologicalSort | elki/src/main/java/de/lmu/ifi/dbs/elki/algorithm/clustering/hierarchical/PointerHierarchyRepresentationResult.java:187-226 | the order is a permutation of 0..n-1 for any parent map; it is children-first if and only if the parent map is a forest, and then every child's index is below its parent's |
| Sums.SumSplit | elki/src/main/java/de/lmu/ifi/dbs/elki/algorithm/clustering/hierarchical/PointerHierarchyRepresentationResult.java:150-157 | a range sum splits at any inner point |
| Sums.SumFrame | elki/src/main/java/de/lmu/ifi/dbs/elki/algorithm/clustering/hierarchical/PointerHierarchyRepresentationResult.java:150-157 | a range sum reads only the sizes of the ids listed in its range |
| Sums.SumBump | elki/src/main/java/de/lmu/ifi/dbs/elki/algorithm/clustering/hierarchical/PointerHierarchyRepresentationResult.java:156 | raising one listed id's size raises the sum by that amount when the filter keeps the id |
| Layout.SizesStart | elki/src/main/java/de/lmu/ifi/dbs/elki/algorithm/clustering/hierarchical/PointerHierarchyRepresentationResult.java:150 | with all sizes one, each id is one plus an empty child sum and the unlisted ids account for all n |
| Layout.AccumulateStep | elki/src/main/java/de/lmu/ifi/dbs/elki/algorithm/clustering/hierarchical/PointerHierarchyRepresentationResult.java:152-157 | one forward step, adding a non-root's size to its parent and skipping roots, keeps the size equations for the listed prefix |
| Layout.ComputeSizes | elki/src/main/java/de/lmu/ifi/dbs/elki/algorithm/clustering/hierarchical/PointerHierarchyRepresentationResult.java:150-157 | sizes are positive, one per id; on a children-first permutation each size is one plus the sum of its children's and the root sizes sum to n |
| Layout.ParentLater | elki/src/main/java/de/lmu/ifi/dbs/elki/algorithm/clustering/hierarchical/PointerHierarchyRepresentationResult.java:152-157 | in a children-first listing, a non-root's parent is listed later |
| Layout.PlaceOne | elki/src/main/java/de/lmu/ifi/dbs/elki/algorithm/clustering/hierarchical/PointerHierarchyRepresentationResult.java:163-176 | the arrays after one backward step are the step function applied to them: a fresh interval at the offset for an id whose parent has no cursor or that is a root; otherwise the slots at the parent's cursor, which advances by the size |
| Layout.PlaceStep | elki/src/main/java/de/lmu/ifi/dbs/elki/algorithm/clustering/hierarchical/PointerHierarchyRepresentationResult.java:162-177 | one backward step keeps the placement invariant: bounds, cursors, nesting, disjoint sibling intervals, offset equal to the root sizes placed |
| Layout.OffsetOnlyForRoots | elki/src/main/java/de/lmu/ifi/dbs/elki/algorithm/clustering/hierarchical/PointerHierarchyRepresentationResult.java:164-166 | while placing a children-first listing, an id whose parent has no cursor is a root |
| Layout.UsedUp | elki/src/main/java/de/lmu/ifi/dbs/elki/algorithm/clustering/hierarchical/PointerHierarchyRepresentationResult.java:167-171 | after the backward pass every cursor has reached its id's position, and the offset has reached n |
| Layout.PlacedDone | elki/src/main/java/de/lmu/ifi/dbs/elki/algorithm/clustering/hierarchical/PointerHierarchyRepresentationResult.java:158-179 | after the backward pass the positions form a layout |
| Layout.PlaceFromPlaced | elki/src/main/java/de/lmu/ifi/dbs/elki/algorithm/clustering/hierarchical/PointerHierarchyRepresentationResult.java:158-177 | every state of the backward pass on children-first sizes, from the last id down, keeps the placement invariant |
| Layout.PlaceFromLayout | elki/src/main/java/de/lmu/ifi/dbs/elki/algorithm/clustering/hierarchical/PointerHierarchyRepresentationResult.java:158-179 | the backward pass on children-first sizes ends in a layout |
| Layout.PlacePositions | elki/src/main/java/de/lmu/ifi/dbs/elki/algorithm/clustering/hierarchical/PointerHierarchyRepresentationResult.java:158-177 | the arrays after the loop hold the state of the backward pass over the whole order, one position per id; on children-first sizes the positions form a layout (distinct, within 0..n-1, nested, siblings disjoint) |
| Layout.LayoutFillsSlots | elki/src/main/java/de/lmu/ifi/dbs/elki/algorithm/clustering/hierarchical/PointerHierarchyRepresentationResult.java:158-179 | a layout uses every slot 0..n-1 |
| Subtrees.SiblingSubtrees | elki/src/main/java/de/lmu/ifi/dbs/elki/algorithm/clustering/hierarchical/PointerHierarchyRepresentationResult.java:152-157 | on a forest, two children of one id have disjoint subtrees |
| Subtrees.SubtreeSplit | elki/src/main/java/de/lmu/ifi/dbs/elki/algorithm/clustering/hierarchical/PointerHierarchyRepresentationResult.java:152-157 | a subtree is its top plus the union of its children's subtrees, and that union does not contain the top |
| Subtrees.KidsCount | elki/src/main/java/de/lmu/ifi/dbs/elki/algorithm/clustering/hierarchical/PointerHierarchyRepresentationResult.java:152-157 | summing children's sizes counts the union of their subtrees once those sizes are right |
| Subtrees.SizesAreSubtrees | elki/src/main/java/de/lmu/ifi/dbs/elki/algorithm/clustering/hierarchical/PointerHierarchyRepresentationResult.java:150-157 | the forward pass's sizes on a children-first permutation are exactly the subtree sizes |
| PointerHierarchy.PointerHierarchyResult.constructor | elki/src/main/java/de/lmu/ifi/dbs/elki/algorithm/clustering/hierarchical/PointerHierarchyRepresentationResult.java:102-108 | the result holds the given parent, distance and merge-order stores and no cached positions |
| PointerHierarchy.PointerHierarchyResult.WithoutMergeOrder | elki/src/main/java/de/lmu/ifi/dbs/elki/algorithm/clustering/hierarchical/PointerHierarchyRepresentationResult.java:90-92 | the three-argument constructor has no merge order |
| PointerHierarchy.PointerHierarchyResult.GetPositions | elki/src/main/java/de/lmu/ifi/dbs/elki/algorithm/clustering/hierarchical/PointerHierarchyRepresentationResult.java:142-180 | a cached result is returned unchanged; otherwise positions, one per id, are computed and cached; on a forest they are a layout by subtree sizes |
| Prototype.TopAndRunnerUpUnique | elki/src/main/java/de/lmu/ifi/dbs/elki/algorithm/clustering/hierarchical/PointerPrototypeHierarchyRepresentationResult.java:93-102 | the first-seen maximum and the runner-up are unique |
| Prototype.TopOf | elki/src/main/java/de/lmu/ifi/dbs/elki/algorithm/clustering/hierarchical/PointerPrototypeHierarchyRepresentationResult.java:90-98 | either some member has a merge order above the sentinel and a first-seen maximum exists, or none is above the sentinel |
| Prototype.RunnerUpIsTopWithout | elki/src/main/java/de/lmu/ifi/dbs/elki/algorithm/clustering/hierarchical/PointerPrototypeHierarchyRepresentationResult.java:92-102 | the runner-up is the first-seen maximum once the top's value is replaced by the sentinel |
| Prototype.RunnerUpExists | elki/src/main/java/de/lmu/ifi/dbs/elki/algorithm/clustering/hierarchical/PointerPrototypeHierarchyRepresentationResult.java:89-104 | a runner-up exists exactly when two different members have merge orders above the sentinel |
| Prototype.RunnerUpOrderFree | elki/src/main/java/de/lmu/ifi/dbs/elki/algorithm/clustering/hierarchical/PointerPrototypeHierarchyRepresentationResult.java:91-104 | for the same set of members with pairwise different merge orders, the top and runner-up members do not depend on the iteration order |
| Prototype.RunnerUpExistsOrderFree | elki/src/main/java/de/lmu/ifi/dbs/elki/algorithm/clustering/hierarchical/PointerPrototypeHierarchyRepresentationResult.java:85-105 | for the same set of members, a runner-up (and so a prototype) is found under one iteration order if and only if it is found under any other |
| Prototype.RunnerUpTransfers | elki/src/main/java/de/lmu/ifi/dbs/elki/algorithm/clustering/hierarchical/PointerPrototypeHierarchyRepresentationResult.java:85-105 | one direction of the above: a runner-up under one order gives a runner-up under another |
| Prototype.PointerPrototypeHierarchyResult.constructor | elki/src/main/java/de/lmu/ifi/dbs/elki/algorithm/clustering/hierarchical/PointerPrototypeHierarchyRepresentationResult.java:54-57 | the result holds a fresh pointer representation of the given stores and the prototypes |
| Prototype.PointerPrototypeHierarchyResult.WithoutMergeOrder | elki/src/main/java/de/lmu/ifi/dbs/elki/algorithm/clustering/hierarchical/PointerPrototypeHierarchyRepresentationResult.java:67-69 | the constructor without merge order passes none |
| Prototype.PointerPrototypeHierarchyResult.FindPrototype | elki/src/main/java/de/lmu/ifi/dbs/elki/algorithm/clustering/hierarchical/PointerPrototypeHierarchyRepresentationResult.java:85-105 | a result exists exactly when the members have a top and a runner-up, and it is the prototype stored for the runner-up (strict comparisons: the first-seen member wins ties) |
| Itemsets.OneItemset.Iter | elki/src/main/java/de/lmu/ifi/dbs/elki/algorithm/itemsetmining/OneItemset.java:74-78 | the iterator starts at a valid position |
| Itemsets.OneItemset.IterAdvance | elki/src/main/java/de/lmu/ifi/dbs/elki/algorithm/itemsetmining/OneItemset.java:86-90 | advancing leaves the valid positions |
| Itemsets.OneItemset.CompareTo | elki/src/main/java/de/lmu/ifi/dbs/elki/algorithm/itemsetmining/OneItemset.java:107-114 | the comparison is -1, 0 or +1, negative exactly when the item is smaller and positive exactly when it is larger |
| Itemsets.Single | elki/src/main/java/de/lmu/ifi/dbs/elki/algorithm/itemsetmining/OneItemset.java:47-49 | the one-argument constructor sets the item; the support keeps its default 0 |
| Itemsets.WithSupport | elki/src/main/java/de/lmu/ifi/dbs/elki/algorithm/itemsetmining/OneItemset.java:57-60 | the two-argument constructor sets the item and the support |
| Itemsets.WalkVisitsItem | elki/src/main/java/de/lmu/ifi/dbs/elki/algorithm/itemsetmining/OneItemset.java:74-97 | iterating from the start (valid only at 0, advancing to an invalid position) visits exactly one dimension, and the dimension reported is the item |
| Itemsets.WalkCoversLength | elki/src/main/java/de/lmu/ifi/dbs/elki/algorithm/itemsetmining/OneItemset.java:62-97 | an iteration from the start visits as many dimensions as the length reports: one |
| Itemsets.EqualsIsEquivalence | elki/src/main/java/de/lmu/ifi/dbs/elki/algorithm/itemsetmining/OneItemset.java:99-105 | equality is reflexive, symmetric, transitive and ignores the support |
| Itemsets.CompareToIsOrder | elki/src/main/java/de/lmu/ifi/dbs/elki/algorithm/itemsetmining/OneItemset.java:107-114 | the comparison is antisymmetric, transitive, zero exactly for equal itemsets, and equal itemsets compare alike |

## Left out

- The getters `getDBIDs`, `getParentStore`, `getParentDistanceStore` and `getPrototypes` are the public constant fields `store` and `prototypes`.
- The ids are dense indices `0..n-1`. The id set, data stores and id variables of the library are plain sequences and arrays.
- The `BasicResult` names and `ins.destroy()` are result bookkeeping and are left out.
- `containedIn` and `appendTo` of the itemset are left out. They are a floating-point test on a sparse vector and string building.
- The Java class inheritance of the prototype result is modelled as composition: a `hierarchy` field.
- Hierarchy.SortByPriority: the library sort with its comparators is not part of this model. The sort is an insertion sort specified by its outcome, a permutation sorted by the priority. The model also breaks merge-order ties by id; nothing proved about the topological order depends on the input order.
- Parent distances are Dafny reals. NaN and other double semantics are not modelled, and the distances are used only for comparison.
- Layout.ComputeSizes: sizes are unbounded integers. On a forest each is the size of a subtree. On a parent map with a cycle, Java `int` wrap-around of the accumulated sizes is not modelled.
- Layout.PlacePositions: positions are unbounded integers. On a forest they stay within `0..n`. On a parent map with a cycle, Java `int` wrap-around of positions computed from wrapped sizes is not modelled.
- Linearizer.TopologicalSort: the code does not detect cycles. On a parent map that is not a forest the order is proved a permutation and, by the if-and-only-if, proved not to be children-first; nothing more is stated about it there.
- The thread safety of the position cache is not modelled.
- `OneItemset.equals` and `compareTo` against itemsets of other classes defer to the superclass, which is not part of this model. Only one-itemsets are compared.
- `OneItemset.iterDim` asserts a zero position. The model returns the item for any position, as the code does with Java assertions disabled.
- Prototype.PointerPrototypeHierarchyResult.FindPrototype: when the runner-up variable is never set, the library's dereference of an unset id is unspecified. The model returns `None` in that case. It requires a merge order, as the code dereferences it.
- Prototype.PointerPrototypeHierarchyResult.FindPrototype: the members of a cluster are a sequence in iteration order, so ties resolve by first occurrence. Members whose merge order equals `Integer.MIN_VALUE` are never recorded, as in the code. Whether the members form a valid cluster is not checked, and the code leaves that case unspecified.
