# Dynamic bounding-volume hierarchy, in Dafny

This project models `BVHTree`, a dynamic bounding-volume hierarchy over named
2-D objects. Each object is an axis-aligned box (`AABB`). The objects are the
leaves of a strict binary tree. The box of every branch encloses the boxes of
its children. A name map beside the tree finds an object's leaf.

- **Insertion** (`addBVHMember`) walks down with `Findexisting`. At each branch
  it takes the child whose area would grow least, and the left child on a
  tie. The leaf it reaches becomes a new branch over the new leaf (left) and a
  copy of the old leaf (right). `updateParents` then walks up and grows every
  ancestor that does not cover the new branch (`iscovered`).
- **Removal** (`removeBVHMember`) puts the removed leaf's sibling in the
  parent's place below the grandparent. `updateRemoval` then recomputes every
  box from the grandparent up as the exact union of its children.
- **Move** (`moveBVHMember`) overwrites the leaf's box in place when the leaf
  is the root or its parent still covers the new box. Otherwise it removes the
  object and inserts it again.
- **Query** (`getCollidingObjects`, `getCollisions`) walks the whole tree and
  collects the names of the leaves whose boxes collide with the query box.

The nodes live in an arena: a sequence of `Node` records whose `parent`,
`leftChild` and `rightChild` are positions, with `Null` (-1) for the null
pointer. Allocating a node appends it. Deleting a node only drops it from the
ghost set `live`. A ghost `depth` per slot grows strictly from parent to
child, which gives every walk up or down the tree a termination measure.

Modules and files:
- `geometry.dfy` (module `Geometry`): boxes, union, area and coverage.
- `nodes.dfy` (`Nodes`): the node record, ancestry, and the structural invariant `Linked`.
- `refit.dfy` (`Refit`): the box invariants and the two refits, `updateParents` and `updateRemoval`.
- `surgery.dfy` (`Surgery`): the two rewirings, splitting a leaf and promoting a sibling.
- `index.dfy` (`Index`): the name map and the objects it registers.
- `query.dfy` (`Query`): the collision walk.
- `tree.dfy` (`Tree`): the class `BVHTree` and its public operations.

The class keeps `Valid()` through every operation. `Valid()` means:
- the live nodes form one strict binary tree whose links agree;
- every branch encloses its children;
- every map entry leads to a live leaf of that name.

Two further properties hold only conditionally, and the contracts state when:
- `IsTight()`: every branch is exactly the union of its children. Insertion
  and removal keep it. A move in place may loosen it.
- `IsConsistent()`: every live leaf is registered. The removal path that
  leaves an orphan leaf (below) breaks it.

Where the model deliberately departs from the code:
- `Findexisting` discards the result of its recursive calls
  (BVHTree.cpp:92, BVHTree.cpp:100), which is undefined behaviour in C++.
  The model returns the recursive result, the evident intent.
- Removing the root leaf calls `clear(root)`, which takes the root by value.
  So `BVHTree::root` and the map are never reset (BVHTree.cpp:252-256). The
  model empties the tree instead (`root := Null`, empty map).
- The code's other oddities are kept as written:
  - Removing a leaf whose parent is the root only erases the map entry; the
    leaf stays in the tree (BVHTree.cpp:257-262).
  - `RemoveBVHMember` proves that this breaks `IsConsistent()`.
  - Moving such a leaf out of its parent's box goes through that removal, so
    the object ends with two leaves of its name, one of them unregistered.
    `MoveBVHMember` proves that the tree is then inconsistent. In a tree
    whose leaves were all registered: if the new box is placed beside the
    old leaf, the map keeps the old box and the new leaf is the unregistered
    one; otherwise the map holds the new box and the old leaf stays
    unregistered; every other object keeps its box.
  - An insertion beside an unregistered leaf re-registers that leaf's name
    to the leaf's copy (BVHTree.cpp:209-210), which can replace the live
    entry of that name. So once a tree holds an unregistered leaf, a later
    insertion or move can change another object's registered box; the
    contracts about the registered objects therefore assume a tree whose
    leaves were all registered.

## Model

| member | source | states |
|---|---|---|
| Geometry.Union | BVHTree.cpp:167-170 | `a + b` encloses both boxes and is enclosed by every box that encloses both |
| Geometry.CoveredIffUnionAbsorbs | BVHTree.cpp:293-305 | `iscovered(node, branch)` holds exactly when merging `node` into `branch` leaves `branch` unchanged, so `updateParents` loses nothing by skipping covered ancestors |
| Geometry.IsCovered | BVHTree.cpp:293-305 | for a box holding any point, `iscovered(node, branch)` holds exactly when both corners of `node` lie in `branch` |
| Geometry.CoveredIsInclusion | BVHTree.cpp:293-305 | for a box holding any point, `iscovered(node, branch)` is point-set inclusion: every point of `node` lies in `branch`, and conversely |
| Geometry.Growth | BVHTree.cpp:82-85 | the area growth of the placement rule is 0 for a child whose box already covers the new box |
| Geometry.CoveredTransitive | BVHTree.cpp:293-305 | helper for the refit proofs, not an operation of the source: coverage chains, so a box covered by a box covered by a third is covered by the third |
| Geometry.UnionAssociates | BVHTree.cpp:167-170 | helper for the refit and split proofs, not an operation of the source: merging boxes into an ancestor in any grouping gives the same box |
| Refit.RefitStep | BVHTree.cpp:167-171 | one iteration of `updateParents`: whether or not the parent covered the node below, the parent ends up grown by exactly the new branch's box |
| Refit.RefitCovers | BVHTree.cpp:165-173 | after `updateParents` from the new branch, every live branch encloses both its children again |
| Refit.RefitKeepsTight | BVHTree.cpp:165-173 | if every branch but the new branch's parent was an exact union, `updateParents` makes every branch an exact union |
| Refit.RecomputeStep | BVHTree.cpp:235-243 | one call of `updateRemoval`: the node becomes the union of its children and the recursion recomputes every node above it |
| Refit.RecomputeCovers | BVHTree.cpp:230-245 | after `updateRemoval` from the grandparent, every live branch encloses its children |
| Refit.RecomputeKeepsTight | BVHTree.cpp:230-245 | if every branch but the grandparent was an exact union, every branch is one after `updateRemoval` |
| Surgery.SplitLeafKeepsLinks | BVHTree.cpp:199-224 | replacing a non-root leaf by a branch over the new leaf and its copy keeps the tree strict, binary and consistently linked |
| Surgery.SplitLeafCovers | BVHTree.cpp:199-224 | right after the split, every branch but the new branch's parent encloses its children |
| Surgery.SplitLeafKeepsTight | BVHTree.cpp:199-224 | a tight tree stays tight after the split except at the parent, which lacks exactly the new box |
| Surgery.SplitLeafTightElsewhere | BVHTree.cpp:199-224 | after the split of a tight tree, every branch other than the parent is an exact union |
| Surgery.SplitLeafParentGap | BVHTree.cpp:199-224 | after the split, the parent's children are in range, and the parent's box merged with the new branch's box is the union of its children's boxes |
| Surgery.PromotionKeepsLinks | BVHTree.cpp:263-282 | putting the sibling in the parent's place below the grandparent keeps the tree linked without the leaf and its parent |
| Surgery.PromotionCovers | BVHTree.cpp:263-282 | after the promotion every branch still encloses its children |
| Surgery.PromotionKeepsTight | BVHTree.cpp:263-282 | a tight tree stays tight after the promotion except at the grandparent |
| Index.SplitKeepsIndex | BVHTree.cpp:208-210 | registering the new leaf (as line 181 does) and moving the split leaf's name to its copy keeps every entry on a live leaf of that name; a complete map stays complete and gains exactly the new object |
| Index.MembersUpdated | BVHTree.cpp:176-227 | when every other name's leaf keeps its box and `name`'s leaf holds `v`, the registered objects are the old ones with `name` mapped to `v` |
| Index.PromotionKeepsIndex | BVHTree.cpp:257-282 | dropping the name keeps the map sound; a complete map stays complete and holds every object but the removed one |
| Query.WalkHits | BVHTree.cpp:327-367 | the leaves `getCollisions` reports below a node are exactly the live leaves there whose boxes collide, each once |
| Query.WalkIgnoresBranchBoxes | BVHTree.cpp:327-367 | the report does not depend on any branch box: same links and same leaf boxes give the same report |
| Query.HitsCombine | BVHTree.cpp:339-366 | the reports of the two subtrees of a branch, in either order, are the report of the branch |
| Query.QueryNames | BVHTree.cpp:370-374 | with every leaf registered, the names reported for the root are exactly the registered objects whose boxes collide, without repetition |
| Query.GetCollisions | BVHTree.cpp:327-367 | the result is the incoming `collisions` followed by the names of the leaves the walk reports, in the code's order |
| Tree.FirstLeaf | BVHTree.cpp:180-185 | inserting into the empty tree gives a valid tight tree of one leaf, registered under its name, holding exactly that object |
| Tree.LoneLeafSplit | BVHTree.cpp:186-197 | inserting into a one-leaf tree gives a valid tight tree: a root branch over the new leaf and a copy of the old one, with the union box; the map registers both |
| Tree.SplitRefitShape | BVHTree.cpp:198-226 | the split and the refit together give the arena `InsertedNextTo` describes: the branch in the leaf's place, and each ancestor grown by the branch's box |
| Tree.SplitLeafDone | BVHTree.cpp:198-226 | the general insertion restores the invariants, keeps tightness, and adds exactly the new object to a complete map |
| Tree.PromoteRecomputeShape | BVHTree.cpp:263-283 | the promotion and the recomputation together give the arena `RemovedAt` describes: the sibling in the parent's place, and every node above it an exact union |
| Tree.PromotionDone | BVHTree.cpp:263-291 | the general removal restores the invariants, keeps tightness, and removes exactly the named object from a complete map |
| Tree.RootLeafIsAll | BVHTree.cpp:252-256 | a name registered at the root leaf is the only object in the tree |
| Tree.MoveInPlace | BVHTree.cpp:312-320 | overwriting the leaf's box, when the leaf is the root or its parent covers the new box, keeps the invariants and changes exactly that object's box |
| Tree.BVHTree.constructor | BVHTree.cpp:16-18 | the new tree is empty, valid, tight and consistent |
| Tree.BVHTree.FindExisting | BVHTree.cpp:78-103 | the result is a live leaf of the given subtree, and at every branch on the path down to it, it lies below the right child exactly when the right child's growth is strictly smaller, and below the left child exactly when it is not larger (`StepsByGrowth`) |
| Tree.PathStepsByGrowth | BVHTree.cpp:86-101 | the placement rule at a branch, together with the rule along the path below the child taken, gives the rule along the whole path from the branch |
| Tree.BVHTree.UpdateParents | BVHTree.cpp:165-173 | every proper ancestor of the node grows by exactly the node's box and nothing else changes |
| Tree.BVHTree.UpdateRemoval | BVHTree.cpp:230-245 | a leaf is left alone; otherwise the node and every ancestor become exact unions of their children and nothing else changes |
| Tree.BVHTree.AddBVHMember | BVHTree.cpp:176-227 | a known name changes nothing; otherwise the new state is the one each of the three cases describes, the tree stays valid and tight, and a complete map gains exactly the new object |
| Tree.BVHTree.AddFirstLeaf | BVHTree.cpp:180-185 | the new leaf becomes the root and the only registered object |
| Tree.BVHTree.AddBesideRootLeaf | BVHTree.cpp:186-197 | the new root branch is the union of both boxes, with the new leaf on the left and the copy of the old root on the right, and both children point back at it |
| Tree.BVHTree.AddBesideLeaf | BVHTree.cpp:198-226 | the leaf FindExisting chose is split and its ancestors refitted, as `InsertedNextTo` describes |
| Tree.BVHTree.SplitLeaf | BVHTree.cpp:199-224 | the new branch takes the leaf's place on the same side of its parent, over the new leaf and the copy; the map points both names at the new leaves |
| Tree.BVHTree.RemoveBVHMember | BVHTree.cpp:248-291 | an unknown name changes nothing; the name always leaves the map; the general case is the promotion with exact unions above; the orphan case keeps the leaf and loses consistency |
| Tree.BVHTree.DetachLeaf | BVHTree.cpp:263-291 | the sibling takes the parent's place, the boxes from the grandparent up are recomputed, and the leaf and its parent leave the tree |
| Tree.BVHTree.PromoteSibling | BVHTree.cpp:263-282 | the four-way rewiring is the promotion `IsPromotion` describes and keeps the tree linked |
| Tree.BVHTree.MoveBVHMember | BVHTree.cpp:308-324 | in place only the leaf's box changes; otherwise the tree stays valid and tight. A consistent tree then holds the object with its new box and every other object with its old one. The exception is a leaf directly below the root that does not move in place: the tree becomes inconsistent, and in a tree that was consistent the registered objects are the old ones with the name mapped to its old box when the new box is placed beside its old leaf, and to the new box otherwise |
| Tree.BVHTree.ReinsertMember | BVHTree.cpp:321-322 | removing and reinserting an object whose leaf is not directly below the root keeps the tree valid and tight, and a consistent tree holds the object with its new box |
| Tree.BVHTree.ReinsertOrphan | BVHTree.cpp:321-322 | removing and reinserting an object whose leaf is directly below the root keeps the tree valid and tight but leaves it inconsistent; in a tree that was consistent every other object keeps its box, and the name ends on its old box when FindExisting picks the old leaf and on the new box otherwise |
| Tree.BVHTree.AddBesideOrphan | BVHTree.cpp:176-227 | inserting a name whose old leaf is still in the tree but unregistered keeps the tree valid and tight and leaves it inconsistent; from a complete map, every other object keeps its box and the name ends on its old box when the chosen leaf is the old leaf, on the new box otherwise |
| Tree.OrphanUnregistered | BVHTree.cpp:176-227 | that insertion leaves a live leaf of the name unregistered: the new leaf when the old leaf is split, the old leaf otherwise |
| Tree.OrphanReinserted | BVHTree.cpp:176-227 | from a complete map, the registered objects after that insertion are the old ones with the name mapped to its old box (the copy of the old leaf) when the old leaf is split, and to the new box otherwise |
| Tree.LeafBesideSplitKept | BVHTree.cpp:198-226 | an insertion next to one leaf leaves every other leaf exactly as it was |
| Tree.BVHTree.GetCollidingObjects | BVHTree.cpp:370-374 | the names reported are those of exactly the colliding live leaves, each once; empty for an empty tree; with every leaf registered, exactly the colliding objects without repetition |

## Left out

- `printNode` and `operator<<` (BVHTree.cpp:377-405) only format output.
- `clear`, `deletebranch`, `FindTBD` and the destructor (BVHTree.cpp:21-70, BVHTree.cpp:109-161) only release memory. In the arena, a released node simply leaves `live`.
- The `delete` calls and the clearing of the released nodes' links at the end of `removeBVHMember` (BVHTree.cpp:284-290) are not modelled. Released slots stay in the arena unchanged and outside the tree.
- The `AABB` class is not part of this model:
  - coordinates are unbounded integers, not floating point;
  - `AABB::collide` is a parameter `collide` of the query, since its treatment of touching boxes is not visible;
  - areas are exact integers, so the truncation of a floating-point growth to `int` (BVHTree.cpp:82-85) and 32-bit overflow are not modelled.
- Tree.BVHTree.MoveBVHMember: moving an unknown name is excluded by a precondition, because `map[name]` then inserts and dereferences a null pointer (BVHTree.cpp:309).
- Tree.BVHTree.MoveBVHMember: the reinsertion path is stated through the invariants, tightness and the registered objects, not as the exact arena that `removeBVHMember` followed by `addBVHMember` produces. The body makes exactly those two calls.
- Tree.BVHTree.MoveBVHMember: the claim that a consistent tree holds the object with its new box excludes a leaf directly below the root that does not move in place. There the removal keeps the leaf (BVHTree.cpp:257-262), so the object ends with two leaves of its name and the tree becomes inconsistent. In a tree whose leaves were all registered, when the reinsertion splits the old leaf, the map keeps the old box and the new leaf is unregistered; otherwise the map holds the new box and the old leaf stays unregistered. ReinsertOrphan states this path.
- Tree.BVHTree.RemoveBVHMember: removing the root leaf empties the tree, where the code leaves a dangling root and a stale map entry (BVHTree.cpp:252-256).
- Tree.BVHTree.FindExisting: returns the leaf its recursive call finds, where the code drops that value (BVHTree.cpp:92, BVHTree.cpp:100).
- Tree.BVHTree.GetCollidingObjects: relates the names to the registered objects only when every leaf is registered. An orphan leaf left by a removal below the root is still reported under its old name.
