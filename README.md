# Octree (Zenzyde/OctreeAlgorithm) in Dafny

This project models the octree of the Unity project Zenzyde/OctreeAlgorithm and
proves properties of the model. The source has two variants of the tree.

- `Octree` / `Octree.OctreeNode` keeps a `List<Vector3>` of positions and a
  `List<GameObject>` payload in every node. `Assets/Testing/OctTree/Octree.cs`
  holds the same class: it only lacks the `using System.Linq;` line, so line L
  (L >= 5) of `Assets/OctTree/Octree.cs` is line L-1 there. One model serves
  both files. The rows for the `PositionOctree` classes cite the Testing copy;
  all other non-generic rows cite `Assets/OctTree/Octree.cs`.
- `OctreeGeneric<T>` / `OctreeNodeGeneric<T>` keeps a `Dictionary<Vector3, T>`
  in every node. It has three `Remove` overloads, and its code can throw.

A node has a cube (a centre and a half side, `nodeRadius`), a capacity
(`maxNodesInPartition`), a counter (`currentNodesInPartition`), a depth budget
(`currentDepth`, counting down to 0), a "divided" flag, and, once divided, eight
children in a fixed sign order.

The model has two layers.

- **Functional specification.** `PositionModel` and `GenericModel` describe a
  node's subtree as a datatype value. They have one recursive function per C#
  method, and each follows the C# method branch by branch:
  - `Insert` and `InsertChildren` (the loop over children);
  - `PassDown` and `PassDownInto` (the two loops of `PassDownObjects`);
  - `Remove` and `RemoveChildren`;
  - `SubDivide`.
- **Imperative classes.** `PositionOctree` and `GenericOctree` have one class
  per C# class. Each has the C# fields, an `array` of eight nullable children
  and a ghost footprint. Each method is proved to leave the node in the state
  the function computes: `(ok, Model) == Insert(old(Model), p, obj)`. The
  helper methods (`InsertIntoChild`, `PassOne`, `RemoveStep`, ...) are loop
  bodies of the C# methods.

The lemmas are in `PositionProperties`, `GenericProperties`, `GenericRouting`
and `GenericQuery`, about the specification functions. They prove the
following.

- What each branch does.
- Which child takes an entry: the first one in index order that contains it
  and accepts it.
- Where `PassDownObjects` puts every entry: the child of its octant, when the
  children have room for all of the node's entries (`SplitRoutesEntries`).
- Nothing is created. The pass-down of a split keeps every entry under the
  same room condition; without it an entry can be lost (see the stale counter
  below).
- The invariants each operation keeps:
  - tree shape;
  - entries lie in their node's cube;
  - no duplicates, and unique dictionary keys;
  - a consistent counter;
  - payload objects only at the top.
- The collapse rule.
- The depth budget.
- The quirks the code has.

How the C# is represented:

- `Vector3` is a point with exact real coordinates. `IsInsideBoundingBox` is a
  closed interval test on each axis.
- The generic dictionary is an association list in enumeration order. `Add`
  appends, `Remove(key)` deletes the entry with that key, and `ToList` /
  `ToDictionary` keep the order.
- Exceptions are values. Every generic operation returns an `Outcome`: either
  `Returned(flag)` or `Threw(error)`. The errors are `DuplicateKey` (from
  `Dictionary.Add` or `ToDictionary`) and `NoElements` (from
  `Enumerable.First`). The state that comes with a throw is the partly updated
  state the C# leaves behind.
- `Remove(T obj)` selects its entry with `Where((x, y) => y.Equals(obj)).First()`.
  Here `y` is the element's index, so the entry chosen is the one at the index
  `obj` equals as an `Int32`. The model receives that integer as the
  `asIndex` argument of the `ByValue` request. It is `None` when `obj` is not
  a boxed `int`.
- The `GameObject` payload is an identity (`GameObject(id)`). A `null`
  argument is `None`.

The code differs from the intended design in several places. The model follows
the code.

- **Overflow drops the new entry.** The insert that splits a full leaf returns
  true, but the new position (or key) is stored nowhere, and only the old
  entries move down. So in the scenario "capacity 2, insert three points" the
  third point is lost (`PositionProperties.OverflowDropsPosition`,
  `GenericProperties.OverflowDropsEntry`).
- **The generic duplicate check is on the (key, value) pair.** Inserting a
  stored key with another value raises the counter, and then `Dictionary.Add`
  throws (`GenericProperties.LeafInsertRules`). A split never throws, because
  the keys it hands down are unique (`GenericProperties.PassDownNeverThrows`).
- **The generic code is not exception-free.**
  - `Remove(pos, obj)` on a leaf succeeds when `obj` is stored under any key.
    It then deletes key `pos` and lowers the counter, even when `pos` is not
    stored.
  - `Remove(T obj)` never succeeds unless `obj` is an `int`.
  - `Remove(T obj)` throws wherever it finds `obj` in a leaf and on every
    divided node whose own dictionary has no entry at that index.
- **Collapse happens only on a failed remove.** A successful remove returns
  before the check. The check counts the children whose own list was empty
  before each was probed; it does not look at their subtrees. A collapse
  discards everything below the node, and it leaves the counter at 0 while the
  node may still hold entries of its own
  (`PositionProperties.CollapseKeepsStaleCounter`).
- **A stale counter can lose a stored position.** After such a collapse every
  leaf remove drives the counter below 0, so the leaf appends past
  `maxNodesInPartition`. At its next split a child that fills up during
  `PassDownObjects` splits in turn. It returns true for the position that made
  it split and drops that position, and the parent removes it from its own
  list. `PositionProperties.StaleCounterLosesStoredPosition` follows a run of
  seven calls with capacity 1 in which a position that was stored is held
  nowhere afterwards.
- **Payload objects stay at the top.** Only the position is forwarded to the
  children, so the `GameObject` payload stays in the node that first received
  it. `RemovePosition` never touches `objects`.
- **Leaf inserts have no bounds check.** A leaf stores a position outside its
  own cube, and a later split leaves that position in the now divided node's
  own list.
- **The partition queries never reach a leaf.** See Findings.

## Model

| member | source | states |
|---|---|---|
| `Geometry.OctantIndex` | Assets/OctTree/Octree.cs:173-199 | the octant index of a point is one of the eight child indices 0..7 |
| `Geometry.ChildCenterOffsets` | Assets/OctTree/Octree.cs:175-199 | child i's centre is offset by exactly half the radius on each axis, with the sign pattern of index i (up, right, forward) |
| `Geometry.ChildBoxInsideParent` | Assets/OctTree/Octree.cs:201-215 | every point in a child's cube (centre offset, radius halved) lies in the parent's cube |
| `Geometry.OctantIndexIsFirstContainingChild` | Assets/OctTree/Octree.cs:210-215 | the eight child cubes cover the parent: a point of the parent lies in the child OctantIndex names and in no lower-indexed child |
| `Geometry.FirstContainingChildIsOctant` | Assets/OctTree/Octree.cs:80-87 | the first child in index order whose cube holds a point of the parent is that point's octant |
| `PositionModel.SubDivide` | Assets/OctTree/Octree.cs:173-208 | SubDivide makes exactly eight fresh children |
| `PositionModel.SubDivideAt` | Assets/OctTree/Octree.cs:177-207 | child k has centre ChildCenter(k), half the radius, the same capacity and maxDepth, depth one less, counter 0, no entries, not divided |
| `PositionModel.SubDivideIsEmpty` | Assets/OctTree/Octree.cs:173-208 | the children of a fresh split hold no positions |
| `PositionModel.Insert` | Assets/OctTree/Octree.cs:53-91 | a false return leaves the subtree unchanged, and any insert adds at most one position to the subtree |
| `PositionModel.InsertChildren` | Assets/OctTree/Octree.cs:78-90 | the child loop keeps eight children, changes nothing when it returns false, and adds at most one position |
| `PositionModel.PassDown` | Assets/OctTree/Octree.cs:217-230 | PassDownObjects keeps the eight children and never increases the number of positions held by the children and the parent |
| `PositionModel.PassDownInto` | Assets/OctTree/Octree.cs:221-228 | the inner loop over j = Count-1 down to 0 never increases the positions held by the child and the parent |
| `PositionModel.Remove` | Assets/OctTree/Octree.cs:93-130 | RemovePosition never adds a node to the subtree |
| `PositionModel.RemoveChildren` | Assets/OctTree/Octree.cs:106-118 | the remove loop keeps eight children and adds no node |
| `PositionProperties.RemoveFirstSplits` | Assets/OctTree/Octree.cs:100 | List.Remove deletes the first occurrence: the result is s with index i cut out, where s[i] == p and p does not occur before i |
| `PositionProperties.RemoveFirstMultiset` | Assets/OctTree/Octree.cs:100 | List.Remove takes out exactly one copy of a present position and changes nothing when it is absent |
| `PositionProperties.RemoveAtCount` | Assets/OctTree/Octree.cs:226 | RemoveAt(k) takes out exactly one copy of the position at k |
| `PositionProperties.InsertAddsAtMostP` | Assets/OctTree/Octree.cs:53-91 | for every point q, an insert of p adds at most one copy of p and no copy of any other point to the subtree |
| `PositionProperties.InsertChildrenAddsAtMostP` | Assets/OctTree/Octree.cs:78-88 | the child loop of an insert of p adds at most one copy of p and nothing else |
| `PositionProperties.PassDownKeeps` | Assets/OctTree/Octree.cs:217-230 | the pass-down creates no copy of any point: copies in children and parent together never increase |
| `PositionProperties.PassDownIntoKeeps` | Assets/OctTree/Octree.cs:221-228 | the inner loop for one child creates no copy of any point |
| `PositionProperties.RemoveTakesOutP` | Assets/OctTree/Octree.cs:93-130 | RemovePosition(p) creates nothing, and on success the subtree holds one copy of p fewer |
| `PositionProperties.RemoveChildrenTakesOutP` | Assets/OctTree/Octree.cs:106-118 | the remove loop creates nothing, and on success one copy of p is gone |
| `PositionProperties.OverflowDropsPosition` | Assets/OctTree/Octree.cs:70-77 | a new position inserted into a full leaf with depth left: true is returned, the node is divided with eight children and counter 0, no position gains a copy, and p is held nowhere |
| `PositionProperties.SubDivideShaped` | Assets/OctTree/Octree.cs:173-208 | SubDivide's eight children are the octant children of the node |
| `PositionProperties.InsertKeepsShape` | Assets/OctTree/Octree.cs:53-91 | an insert keeps every divided node with its eight octant children and every leaf without children, and keeps centre, radius, capacity and depth |
| `PositionProperties.InsertChildrenKeepsShape` | Assets/OctTree/Octree.cs:78-88 | the child loop keeps the eight octant children well shaped |
| `PositionProperties.PassDownKeepsShape` | Assets/OctTree/Octree.cs:217-230 | the pass-down keeps the eight octant children well shaped |
| `PositionProperties.PassDownIntoKeepsShape` | Assets/OctTree/Octree.cs:221-228 | offering positions to a child keeps the child's shape and configuration |
| `PositionProperties.RemoveKeepsShape` | Assets/OctTree/Octree.cs:93-130 | a remove, including a collapse, keeps the tree well shaped and the configuration unchanged |
| `PositionProperties.RemoveChildrenKeepsShape` | Assets/OctTree/Octree.cs:106-118 | the remove loop keeps the eight octant children well shaped |
| `PositionProperties.PassDownRestFromParent` | Assets/OctTree/Octree.cs:217-230 | a position the pass-down leaves in the parent was in the parent's list |
| `PositionProperties.InsertKeepsPlaced` | Assets/OctTree/Octree.cs:53-91 | below the node every position lies in its node's cube, and this is kept; if p is in the node's cube, an all-inside subtree stays all-inside |
| `PositionProperties.InsertChildrenKeepsPlaced` | Assets/OctTree/Octree.cs:78-88 | the child loop sends p only to a child whose cube contains it, so the children stay all-inside |
| `PositionProperties.PassDownKeepsPlaced` | Assets/OctTree/Octree.cs:217-230 | the pass-down moves a position only into a child whose cube contains it |
| `PositionProperties.PassDownIntoKeepsPlaced` | Assets/OctTree/Octree.cs:221-228 | the inner loop tests the box before inserting, so an all-inside child stays all-inside |
| `PositionProperties.RemoveKeepsPlaced` | Assets/OctTree/Octree.cs:93-130 | a remove keeps every position in its node's cube, below the node and in the whole subtree |
| `PositionProperties.RemoveChildrenKeepsPlaced` | Assets/OctTree/Octree.cs:106-118 | the remove loop keeps the children all-inside |
| `PositionProperties.NoDupRemoveAt` | Assets/OctTree/Octree.cs:226 | cutting index k out of a list without duplicates leaves none, and removes s[k] completely |
| `PositionProperties.RemoveFirstNoDup` | Assets/OctTree/Octree.cs:100 | List.Remove on a list without duplicates leaves none and removes p completely |
| `PositionProperties.InsertKeepsNoDup` | Assets/OctTree/Octree.cs:53-91 | the Contains check before the add keeps every node's list free of duplicates |
| `PositionProperties.InsertChildrenKeepsNoDup` | Assets/OctTree/Octree.cs:78-88 | the child loop keeps every child's lists free of duplicates |
| `PositionProperties.PassDownKeepsNoDup` | Assets/OctTree/Octree.cs:217-230 | the pass-down keeps the children and the parent free of duplicates |
| `PositionProperties.PassDownIntoKeepsNoDup` | Assets/OctTree/Octree.cs:221-228 | the inner loop keeps the child and the remaining list free of duplicates |
| `PositionProperties.RemoveKeepsNoDup` | Assets/OctTree/Octree.cs:93-130 | a remove keeps every list free of duplicates, and on a leaf p is gone afterwards |
| `PositionProperties.RemoveChildrenKeepsNoDup` | Assets/OctTree/Octree.cs:106-118 | the remove loop keeps the children free of duplicates |
| `PositionProperties.EmptyOwnCountFull` | Assets/OctTree/Octree.cs:106-110 | the number of children with an empty own list is at most their number, and reaches it exactly when all are empty |
| `PositionProperties.RemoveChildrenCountsEmpty` | Assets/OctTree/Octree.cs:106-118 | when no child removes p, activeChildCount ends as 8 minus the number of children whose own list was empty when visited |
| `PositionProperties.CollapseRule` | Assets/OctTree/Octree.cs:104-127 | a successful remove keeps the node divided; a failed one collapses it exactly when all eight children's own lists were empty; a collapsed node keeps only its own list, so all positions below it are gone |
| `PositionProperties.InsertChildrenAtDepthZero` | Assets/OctTree/Octree.cs:55-56 | children at depth 0 reject, so the child loop returns false and changes nothing |
| `PositionProperties.PassDownIntoAtDepthZero` | Assets/OctTree/Octree.cs:221-228 | a depth-0 child accepts nothing from the pass-down |
| `PositionProperties.PassDownAtDepthZero` | Assets/OctTree/Octree.cs:217-230 | with depth-0 children the pass-down moves nothing |
| `PositionProperties.DepthOneKeepsEntriesInParent` | Assets/OctTree/Octree.cs:53-91 | a divided depth-1 node accepts only positions of its own list, unchanged; a full depth-1 leaf splits into eight empty children and keeps all positions itself |
| `PositionProperties.FirstInSubDivide` | Assets/OctTree/Octree.cs:80-87 | scanning SubDivide's children in index order, the first cube containing a point of the parent is its octant, and a point outside the parent is in none |
| `PositionProperties.PassDownIntoPlaces` | Assets/OctTree/Octree.cs:221-228 | a leaf child with room takes exactly the offered positions its cube contains, they leave the list, duplicates and counts are kept |
| `PositionProperties.PassDownFrame` | Assets/OctTree/Octree.cs:219-229 | the outer loop leaves children before i alone and later ones leaves with the same configuration |
| `PositionProperties.PassDownRest` | Assets/OctTree/Octree.cs:217-230 | a position stays in the parent exactly when no child's cube contains it, and no position is lost or duplicated |
| `PositionProperties.PassDownChildGets` | Assets/OctTree/Octree.cs:217-230 | child k ends up with exactly the positions whose first containing child is k |
| `PositionProperties.SplitRoutesEntries` | Assets/OctTree/Octree.cs:70-77 | a split with depth left and room in the children: each position inside the cube moves to the child of its octant, each outside stays in the node, every copy is kept, and the new one is dropped |
| `PositionProperties.InsertKeepsCounted` | Assets/OctTree/Octree.cs:53-91 | the counter equals a leaf's list length and is 0 on a divided node, and an insert keeps this |
| `PositionProperties.InsertChildrenKeepsCounted` | Assets/OctTree/Octree.cs:78-88 | the child loop keeps the counters consistent |
| `PositionProperties.PassDownKeepsCounted` | Assets/OctTree/Octree.cs:217-230 | the pass-down keeps the counters consistent |
| `PositionProperties.PassDownIntoKeepsCounted` | Assets/OctTree/Octree.cs:221-228 | the inner loop keeps the child's counters consistent |
| `PositionProperties.RemoveKeepsCounted` | Assets/OctTree/Octree.cs:93-130 | while no divided node holds positions of its own, a remove keeps the counters consistent (the leaf branch decrements with the list) |
| `PositionProperties.RemoveChildrenKeepsCounted` | Assets/OctTree/Octree.cs:106-118 | while no divided node below holds positions of its own, the remove loop keeps the children's counters consistent |
| `PositionProperties.CollapseKeepsStaleCounter` | Assets/OctTree/Octree.cs:119-126 | a collapse of a node that still holds positions of its own leaves a leaf whose counter (0) no longer matches its list |
| `PositionProperties.PassDownIntoNoneContained` | Assets/OctTree/Octree.cs:221-228 | positions the child's cube does not contain are not offered to it, so the inner loop changes nothing |
| `PositionProperties.PassDownNoneContained` | Assets/OctTree/Octree.cs:217-230 | positions that no child's cube contains stay in the parent, and the children stay as they were |
| `PositionProperties.RemoveChildrenFromEmptyLeaves` | Assets/OctTree/Octree.cs:106-118 | over leaf children with empty lists the remove loop fails and counts every one as empty, so activeChildCount reaches 0 |
| `PositionProperties.StaleCounterAfterCollapse` | Assets/OctTree/Octree.cs:93-127 | with capacity 1: a split keeps a position outside the cube in the divided node, a failed remove collapses the node with the counter at 0, and removing that position takes the counter to -1 |
| `PositionProperties.OverfullChildDropsPosition` | Assets/OctTree/Octree.cs:221-228 | a fresh child with capacity 1 is offered two positions its cube contains; both inserts return true, so both leave the parent's list, yet the child, which split on the second, holds that one nowhere |
| `PositionProperties.StaleLeafGrowsPastCapacity` | Assets/OctTree/Octree.cs:61-73 | a leaf with counter -1 and capacity 1 appends two positions without splitting, so it holds two with its counter at 1 |
| `PositionProperties.OverfullLeafSplitLosesPosition` | Assets/OctTree/Octree.cs:61-77 | the next insert into that overfull leaf splits it, returns true, and loses one of the two stored positions |
| `PositionProperties.StaleCounterLosesStoredPosition` | Assets/OctTree/Octree.cs:53-130 | across the whole seven-call run every insert returns true, and a position that was stored after the sixth call is held nowhere after the seventh |
| `PositionProperties.LeafRemoveRules` | Assets/OctTree/Octree.cs:95-103 | RemovePosition on a leaf returns true exactly when p is in its list; then one copy of p is gone and the counter drops by one, with nothing else changed; false changes nothing |
| `PositionProperties.LeafInsertRules` | Assets/OctTree/Octree.cs:55-68 | depth 0 returns false unchanged; a stored position returns true unchanged; a leaf with room appends p, adds obj only when it is not null, and counts it |
| `PositionProperties.FirstAccepting` | Assets/OctTree/Octree.cs:80-87 | the index found is the first child from i on that contains p and accepts it, or 8 when none does |
| `PositionProperties.InsertChildrenTakesFirst` | Assets/OctTree/Octree.cs:78-88 | the divided branch gives p to the first accepting child in index order and changes only that child; when none accepts it returns false unchanged |
| `PositionProperties.RemoveChildrenSucceedsIff` | Assets/OctTree/Octree.cs:106-118 | the divided branch succeeds exactly when some child contains p and removes it |
| `PositionProperties.PayloadStaysAtTop` | Assets/OctTree/Octree.cs:53-91 | an insert leaves the children without payload objects, and the node's objects unchanged or extended by obj |
| `PositionProperties.InsertKeepsNoObjects` | Assets/OctTree/Octree.cs:84 | an insert without obj, as the children receive, adds no payload anywhere |
| `PositionProperties.InsertChildrenKeepsNoObjects` | Assets/OctTree/Octree.cs:78-88 | the child loop adds no payload to the children |
| `PositionProperties.PassDownKeepsNoObjects` | Assets/OctTree/Octree.cs:217-230 | the pass-down forwards positions only, never payload |
| `PositionProperties.PassDownIntoKeepsNoObjects` | Assets/OctTree/Octree.cs:221-228 | the inner loop adds no payload to the child |
| `PositionProperties.RemoveKeepsObjects` | Assets/OctTree/Octree.cs:93-130 | RemovePosition never changes the node's objects, and adds no payload below it |
| `PositionProperties.RemoveChildrenKeepsNoObjects` | Assets/OctTree/Octree.cs:106-118 | the remove loop adds no payload to the children |
| `PositionOctree.OctreeNode.constructor` | Assets/Testing/OctTree/Octree.cs:39-50 | a new node has the given configuration, counter 0, empty lists, eight null children and is not divided |
| `PositionOctree.OctreeNode.InsertPosition` | Assets/Testing/OctTree/Octree.cs:52-90 | the returned flag and the new subtree are exactly PositionModel.Insert of the old subtree |
| `PositionOctree.OctreeNode.InsertIntoChild` | Assets/Testing/OctTree/Octree.cs:81-86 | the call on children[i] returns what Insert of that child returns and replaces only child i; false changes nothing |
| `PositionOctree.OctreeNode.Split` | Assets/Testing/OctTree/Octree.cs:69-76 | after SubDivide and PassDownObjects the node is divided with counter 0, and children and list are PassDown of SubDivide and the old list |
| `PositionOctree.OctreeNode.MarkDivided` | Assets/Testing/OctTree/Octree.cs:73-74 | the counter reset and hasBeenDivided assignment, with the eight new children as the model's children |
| `PositionOctree.OctreeNode.SubDivide` | Assets/Testing/OctTree/Octree.cs:172-207 | the array holds eight fresh valid nodes whose models are SubDivide of the node |
| `PositionOctree.OctreeNode.AddChild` | Assets/Testing/OctTree/Octree.cs:176-206 | children[i] becomes a new node with the octant centre, half the radius, the same capacity and maxDepth and depth one less |
| `PositionOctree.OctreeNode.PassDownObjects` | Assets/Testing/OctTree/Octree.cs:216-229 | the children and the list are exactly what PassDown computes from the old list |
| `PositionOctree.OctreeNode.PassDownChild` | Assets/Testing/OctTree/Octree.cs:220-227 | the inner loop for child i computes PassDownInto and changes no other child |
| `PositionOctree.OctreeNode.PassOne` | Assets/Testing/OctTree/Octree.cs:222-226 | one inner step: the child becomes Insert of it, and on true positions[j] is cut out with RemoveAt |
| `PositionOctree.OctreeNode.RemovePosition` | Assets/Testing/OctTree/Octree.cs:92-129 | the returned flag and the new subtree are exactly PositionModel.Remove of the old subtree |
| `PositionOctree.OctreeNode.Collapse` | Assets/Testing/OctTree/Octree.cs:118-125 | all eight children set to null and hasBeenDivided false; the model loses its children and nothing else |
| `PositionOctree.OctreeNode.RemoveStep` | Assets/Testing/OctTree/Octree.cs:106-117 | one iteration of the remove loop agrees with RemoveChildren: a success ends it, otherwise the loop goes on from the next child |
| `PositionOctree.OctreeNode.RemoveFromChild` | Assets/Testing/OctTree/Octree.cs:112 | the call on children[i] returns what Remove of that child returns and replaces only child i |
| `PositionOctree.Octree.constructor` | Assets/Testing/OctTree/Octree.cs:7-16 | the root is a fresh node with the given centre, radius and capacity, and depth equal to maxDepth (default 4) |
| `PositionOctree.Octree.InsertPosition` | Assets/Testing/OctTree/Octree.cs:23-26 | forwards to the root: the result is PositionModel.Insert of the whole tree |
| `PositionOctree.Octree.RemovePosition` | Assets/Testing/OctTree/Octree.cs:28-31 | forwards to the root: the result is PositionModel.Remove of the whole tree |
| `GenericModel.RemoveEntry` | Assets/OctTree/Octree.cs:585 | List.Remove(item) takes out one entry when the item is present and changes nothing otherwise |
| `GenericModel.SubDivide` | Assets/OctTree/Octree.cs:531-566 | SubDivide makes exactly eight fresh children |
| `GenericModel.SubDivideAt` | Assets/OctTree/Octree.cs:535-565 | child k has the octant centre, half the radius, the same capacity and maxDepth, depth one less, and an empty dictionary |
| `GenericModel.SubDivideIsEmpty` | Assets/OctTree/Octree.cs:531-566 | the children of a fresh split hold no entries |
| `GenericModel.Insert` | Assets/OctTree/Octree.cs:341-377 | a false return leaves the subtree unchanged; a normal return adds at most one entry |
| `GenericModel.InsertChildren` | Assets/OctTree/Octree.cs:364-376 | the child loop keeps eight children, changes nothing when it returns false, adds at most one entry when it returns |
| `GenericModel.PassDown` | Assets/OctTree/Octree.cs:575-590 | PassDownObjects keeps eight children and, when nothing throws, never increases the entries held by children and parent |
| `GenericModel.PassDownInto` | Assets/OctTree/Octree.cs:579-587 | the inner loop never increases the entries held by the child and the list when nothing throws |
| `GenericModel.Remove` | Assets/OctTree/Octree.cs:379-496 | no Remove overload adds a node to the subtree |
| `GenericModel.RemoveChildren` | Assets/OctTree/Octree.cs:393-406 | the remove loop keeps eight children and adds no node |
| `GenericProperties.RemoveEntryAt` | Assets/OctTree/Octree.cs:585 | with unique keys, List.Remove(tempList[j]) cuts out exactly index j |
| `GenericProperties.KeysCons` | Assets/OctTree/Octree.cs:337 | the keys of an entry before a list, and when such a list has unique keys |
| `GenericProperties.RemoveKeyShrinks` | Assets/OctTree/Octree.cs:427 | Dictionary.Remove(key) adds no key, takes out one entry when the key is stored, changes nothing otherwise, and keeps keys unique with the key gone |
| `GenericProperties.KeysAppend` | Assets/OctTree/Octree.cs:352 | Dictionary.Add appends one key, and the keys stay unique exactly when the key was new |
| `GenericProperties.UniqueRemoveAt` | Assets/OctTree/Octree.cs:585 | cutting one entry out of a list adds no key and keeps keys unique |
| `GenericProperties.InsertThrowsOnlyOnStoredKey` | Assets/OctTree/Octree.cs:341-377 | while every dictionary has unique keys, an insert keeps them unique, adds no key but pos, and throws only DuplicateKey, and only when pos is already stored in the subtree |
| `GenericProperties.InsertChildrenKeys` | Assets/OctTree/Octree.cs:366-373 | the child loop keeps keys unique, adds only pos, and throws only on a pos already stored below |
| `GenericProperties.PassDownKeys` | Assets/OctTree/Octree.cs:575-590 | a dictionary with unique keys passed to empty children: nothing throws, keys stay unique, and no key is created |
| `GenericProperties.PassDownIntoKeys` | Assets/OctTree/Octree.cs:579-587 | offering entries whose keys the child lacks: nothing throws, keys stay unique, no key is created |
| `GenericProperties.PassDownNeverThrows` | Assets/OctTree/Octree.cs:356-363 | the pass-down of a split never throws, and leaves unique keys in the children and the parent |
| `GenericProperties.RemoveKeepsKeysUnique` | Assets/OctTree/Octree.cs:379-496 | every Remove overload keeps keys unique and adds no key, even when it throws |
| `GenericProperties.RemoveChildrenKeys` | Assets/OctTree/Octree.cs:393-406 | the remove loop keeps the children's keys unique and adds no key |
| `GenericProperties.RemoveChildKeys` | Assets/OctTree/Octree.cs:401 | the call on one child keeps keys unique, adds no key and no node |
| `GenericProperties.LeafRemoveByKey` | Assets/OctTree/Octree.cs:422-430 | Remove(pos) on a leaf returns true exactly when pos is a key, then takes out that entry and lowers the counter; false changes nothing; it never throws |
| `GenericProperties.LeafRemoveByKeyValue` | Assets/OctTree/Octree.cs:461-469 | Remove(pos, obj) on a leaf returns true exactly when obj is stored under some key; then it lowers the counter and deletes the entry under pos whatever it holds (none when pos is absent); false changes nothing; it never throws |
| `GenericProperties.LeafRemoveByKeyValueIgnoresPairing` | Assets/OctTree/Octree.cs:461-469 | an instance of that rule: obj stored under another key q makes the call delete q's entry, and an absent pos still returns true and lowers the counter |
| `GenericProperties.RemoveByValueNeedsIndex` | Assets/OctTree/Octree.cs:379-418 | Remove(T obj) returns true only when obj is a non-negative Int32; otherwise it throws NoElements on a leaf that holds obj (after lowering the counter) and on every divided node |
| `GenericProperties.RemoveChildrenByValue` | Assets/OctTree/Octree.cs:395-406 | the loop of Remove(T obj) returns true only when obj is a non-negative Int32 |
| `GenericProperties.LeafInsertRules` | Assets/OctTree/Octree.cs:343-354 | depth 0 returns false unchanged; a stored pair returns true unchanged; on a leaf with room a stored key with another value raises the counter and throws DuplicateKey, and a new key is appended and counted |
| `GenericProperties.OverflowDropsEntry` | Assets/OctTree/Octree.cs:356-363 | a new key inserted into a full leaf with depth left: true is returned, the node is divided with counter 0, only its old keys remain, and pos is held nowhere |
| `GenericProperties.FirstAccepting` | Assets/OctTree/Octree.cs:366-373 | the index found is the first child from i on that contains pos and does not return false, or 8 |
| `GenericProperties.InsertChildrenTakesFirst` | Assets/OctTree/Octree.cs:364-376 | the divided branch hands the entry to the first accepting child; its outcome (true or an exception) is the call's and only that child changes; otherwise false unchanged |
| `GenericProperties.RemoveChildrenStopsIff` | Assets/OctTree/Octree.cs:433-445 | the remove loop ends other than false exactly when some child contains the probe key and its own Remove ends other than false |
| `GenericProperties.EmptyOwnCountFull` | Assets/OctTree/Octree.cs:433-437 | the number of children with an empty own dictionary reaches eight exactly when all are empty |
| `GenericProperties.RemoveChildrenCountsEmpty` | Assets/OctTree/Octree.cs:433-445 | when every probed child returns false, activeChildCount ends as 8 minus the children whose dictionary was empty when visited |
| `GenericProperties.CollapseRule` | Assets/OctTree/Octree.cs:431-454 | without a probe key First() throws and nothing changes; a call ending other than false keeps the node divided; a false one collapses exactly when all eight own dictionaries were empty; a collapsed node keeps only its own dictionary |
| `GenericProperties.InsertChildrenAtDepthZero` | Assets/OctTree/Octree.cs:343-344 | children at depth 0 reject, so the child loop returns false unchanged |
| `GenericProperties.PassDownIntoAtDepthZero` | Assets/OctTree/Octree.cs:579-587 | a depth-0 child accepts nothing from the pass-down and nothing throws |
| `GenericProperties.PassDownAtDepthZero` | Assets/OctTree/Octree.cs:575-590 | with depth-0 children and unique keys the pass-down moves nothing and does not throw |
| `GenericProperties.DepthOneKeepsEntriesInParent` | Assets/OctTree/Octree.cs:341-377 | a divided depth-1 node accepts only a pair it stores, unchanged; a full depth-1 leaf splits into eight empty children and keeps its whole dictionary |
| `GenericRouting.FirstInSubDivide` | Assets/OctTree/Octree.cs:366-373 | scanning SubDivide's children in index order, the first cube containing a key inside the parent is its octant; a key outside is in none |
| `GenericRouting.RemoveAtMembers` | Assets/OctTree/Octree.cs:585 | with unique keys, cutting index k out leaves exactly the other entries |
| `GenericRouting.PassDownIntoPlaces` | Assets/OctTree/Octree.cs:579-587 | a leaf child with room, holding none of the offered keys, takes exactly the offered entries its cube contains; they leave the list; nothing throws; the count is kept |
| `GenericRouting.PassDownStepFresh` | Assets/OctTree/Octree.cs:577-589 | an outer iteration over a fresh child does not throw, keeps keys unique, keeps the count, and leaves the later children fresh |
| `GenericRouting.PassDownStepTakes` | Assets/OctTree/Octree.cs:579-588 | in that iteration child i takes exactly the entries whose key its cube contains, and ToDictionary keeps the others |
| `GenericRouting.PassDownFrame` | Assets/OctTree/Octree.cs:575-590 | the pass-down over fresh children does not throw, leaves earlier children alone and later ones leaves with the same configuration |
| `GenericRouting.PassDownRest` | Assets/OctTree/Octree.cs:575-590 | an entry stays in the parent exactly when no child's cube contains its key, and the number of entries is kept |
| `GenericRouting.PassDownChildGets` | Assets/OctTree/Octree.cs:575-590 | child k ends with exactly the entries whose key's first containing child is k |
| `GenericRouting.SplitRoutesEntries` | Assets/OctTree/Octree.cs:356-363 | a split with depth left and room in the children does not throw; each entry inside the cube moves to the child of its octant, each outside stays, the count is kept, and the new entry is dropped |
| `GenericQuery.LookupFinds` | Assets/OctTree/Octree.cs:600-604 | the foreach over a dictionary with unique keys finds v exactly when (key, v) is stored, and nothing exactly when the key is absent |
| `GenericQuery.AsWrittenNeverFinds` | Assets/OctTree/Octree.cs:594-636 | as written, GetObjectAtPartition and GetObjectsAtPartition never return anything stored: they dereference a null child or return null |
| `GenericQuery.ChildrenAsWrittenNeverFind` | Assets/OctTree/Octree.cs:609-613 | the as-written descent loop never returns anything stored |
| `GenericQuery.AsWrittenMissesStoredEntry` | Assets/OctTree/Octree.cs:594-616 | a root leaf holding (q, v): the query as written fails on a null child, while the corrected queries return v and [v] |
| `GenericQuery.Values` | Assets/OctTree/Octree.cs:624 | Values.ToList lists the values in enumeration order |
| `GenericQuery.LeafQueries` | Assets/OctTree/Octree.cs:596-605 | on a leaf containing q, the corrected GetObjectAtPartition returns v exactly when (q, v) is stored and nothing exactly when q is absent; GetObjectsAtPartition returns all the leaf's values |
| `GenericQuery.GetFromChildrenFirst` | Assets/OctTree/Octree.cs:609-613 | the descent answers from the first child whose cube contains q, with no fallback to later siblings |
| `GenericQuery.FindsAfterSplit` | Assets/OctTree/Octree.cs:356-363 | after a split whose children have room, the corrected query finds every entry that moved down, at its own key |
| `GenericOctree.OctreeNodeGeneric.constructor` | Assets/OctTree/Octree.cs:328-339 | a new node has the given configuration, counter 0, an empty dictionary, eight null children and is not divided |
| `GenericOctree.OctreeNodeGeneric.Insert` | Assets/OctTree/Octree.cs:341-377 | the outcome and the new subtree (also after an exception) are exactly GenericModel.Insert of the old subtree |
| `GenericOctree.OctreeNodeGeneric.InsertIntoChild` | Assets/OctTree/Octree.cs:368-371 | the call on children[i] ends as Insert of that child and replaces only child i; false changes nothing |
| `GenericOctree.OctreeNodeGeneric.Split` | Assets/OctTree/Octree.cs:356-363 | after SubDivide and PassDownObjects nothing has thrown, the node is divided with counter 0, and children and dictionary are PassDown of SubDivide |
| `GenericOctree.OctreeNodeGeneric.MarkDivided` | Assets/OctTree/Octree.cs:360-361 | the counter reset and hasBeenDivided assignment, with the new children as the model's children |
| `GenericOctree.OctreeNodeGeneric.SubDivide` | Assets/OctTree/Octree.cs:531-566 | the array holds eight fresh valid nodes whose models are SubDivide of the node |
| `GenericOctree.OctreeNodeGeneric.AddChild` | Assets/OctTree/Octree.cs:535-564 | children[i] becomes a new node with the octant centre, half the radius, the same capacity and maxDepth and depth one less |
| `GenericOctree.OctreeNodeGeneric.PassDownObjects` | Assets/OctTree/Octree.cs:575-590 | the escaping exception, the children and the dictionary are exactly what PassDown computes from the old dictionary |
| `GenericOctree.OctreeNodeGeneric.PassDownChild` | Assets/OctTree/Octree.cs:579-588 | the copy, the inner loop and ToDictionary for child i compute PassDownInto and change no other child |
| `GenericOctree.OctreeNodeGeneric.PassOne` | Assets/OctTree/Octree.cs:582-586 | one inner step: the child becomes Insert of it, and on true tempList[j] is removed with List.Remove |
| `GenericOctree.OctreeNodeGeneric.Remove` | Assets/OctTree/Octree.cs:379-496 | for each overload, the outcome and the new subtree are exactly GenericModel.Remove of the old subtree |
| `GenericOctree.OctreeNodeGeneric.RemoveFromLeaf` | Assets/OctTree/Octree.cs:381-390 | the leaf branch of each overload (also 422-430 and 461-469) is exactly GenericModel.Remove on a leaf |
| `GenericOctree.OctreeNodeGeneric.Collapse` | Assets/OctTree/Octree.cs:446-453 | all eight children set to null and hasBeenDivided false; the model loses its children and nothing else |
| `GenericOctree.OctreeNodeGeneric.RemoveStep` | Assets/OctTree/Octree.cs:434-445 | one iteration of the remove loop agrees with RemoveChildren: an outcome other than false ends it, otherwise the loop goes on |
| `GenericOctree.OctreeNodeGeneric.RemoveFromChild` | Assets/OctTree/Octree.cs:440 | the call on children[i] ends as Remove of that child and replaces only child i |
| `GenericOctree.OctreeGeneric.constructor` | Assets/OctTree/Octree.cs:282-291 | the root is a fresh node with the given centre, radius and capacity, and depth equal to maxDepth (default 4) |
| `GenericOctree.OctreeGeneric.Insert` | Assets/OctTree/Octree.cs:303-306 | forwards to the root: the result is GenericModel.Insert of the whole tree |
| `GenericOctree.OctreeGeneric.RemoveByValue` | Assets/OctTree/Octree.cs:308-311 | Remove(T obj) forwards to the root: the result is GenericModel.Remove with a ByValue request |
| `GenericOctree.OctreeGeneric.RemoveByKey` | Assets/OctTree/Octree.cs:313-316 | Remove(Vector3 pos) forwards to the root: the result is GenericModel.Remove with a ByKey request |
| `GenericOctree.OctreeGeneric.RemoveByKeyValue` | Assets/OctTree/Octree.cs:318-321 | Remove(Vector3 pos, T obj) forwards to the root: the result is GenericModel.Remove with a ByKeyValue request |

## Left out

- DrawGizmos (Assets/OctTree/Octree.cs:34-37, 132-171, 323-326, 498-529) only renders cubes and spheres through Unity's Gizmos API. It changes no state.
- Assets/Testing/OctTree/OctreeTester.cs drives the tree from Unity input and random numbers. It is engine code outside the octree.
- Floating point: coordinates are exact reals. The model does not capture float32 rounding in `nodeRadius / 2f` or in the box test.
- Vector3 equality: `List.Contains` and the dictionary use `Vector3.Equals`, which the model treats as exact equality. `operator ==`, used in the queries, is approximate in Unity (within 1e-5); there the model also uses exact equality.
- The non-generic `GetObjectAtPartition` and `GetObjectsAtPartition` (Assets/OctTree/Octree.cs:19-22, 234-276) are not modelled. They compare against `objects[i].transform.position`, live engine state the model does not hold. They test `children.Length == 0` in the same way as the generic queries under Findings.
- The generic query wrappers (Assets/OctTree/Octree.cs:293-301) are not modelled as methods. The node queries are modelled as functions on the model in `GenericQuery`.
- Dictionary layout: after `Dictionary.Remove`, .NET reuses the freed slot, so a later `Add` can enumerate in the middle. The model always appends at the end. Only the enumeration order in `PassDownObjects`, `ToList` and the index that `Remove(T obj)` selects can differ.
- `Remove(T obj)`: whether `obj` equals an `Int32` index is given by the caller as `asIndex`. The model does not derive it from the runtime type of `T`.
- 32-bit counters: `currentNodesInPartition`, `currentDepth` and the loop indices are unbounded integers. Wrap-around would need around 2^31 decrements by `Remove(pos, obj)` and is not modelled.
- Other .NET exceptions: the generic code raises no others on these paths (`Vector3` is a struct, so no key is null). The null children dereferenced by the queries appear as the `NullDereference` answer.
- The unused `subDivideIndex` parameter of `SubDivide` is dropped.
- Unity object lifetime: a destroyed `GameObject` compares equal to `null`. The model ignores this: a payload is either present or `None`.
- PositionProperties.RemoveKeepsCounted: proved only while no divided node holds positions of its own (`DividedEmpty`). Inserts do not keep that condition: a leaf stores positions outside its cube, and a split leaves them in the divided node (`StaleCounterAfterCollapse`). Without it the counter goes stale (`CollapseKeepsStaleCounter`).
- PositionProperties.RemoveChildrenKeepsCounted: proved under the same condition for the children (`KidsDividedEmpty`), for the same reason.

## Findings

| source | as written | input that shows it | evidently intended | confidence | as-written member | corrected member |
|---|---|---|---|---|---|---|
| Assets/OctTree/Octree.cs:594-636 | `GetObjectAtPartition` and `GetObjectsAtPartition` treat a node as a leaf when `children.Length == 0`, but the children array always has length 8 (line 332, and a collapse only nulls its elements). So a leaf runs the descent loop and calls `IsInsideBoundingBox` on the null `children[0]`. | a root leaf holding one entry (q, v), queried at q: NullReferenceException instead of v | descend while the node is divided; answer from the leaf's own dictionary | high; not executed | `GenericQuery.AsWrittenNeverFinds` | `GenericQuery.FindsAfterSplit` |
