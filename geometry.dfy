/** Axis-aligned bounding boxes in the plane, with the operations the tree
    uses: the enclosing union (`operator+`), area, the area growth used by the
    placement heuristic, and the "covered" test of `iscovered`.
    Coordinates are integers; whether two touching boxes collide is left to the
    caller, who passes a collision test to the query. */
module Geometry {

  datatype AABB = AABB(minX: int, minY: int, maxX: int, maxY: int)

  function Min(a: int, b: int): int { if a <= b then a else b }
  function Max(a: int, b: int): int { if a <= b then b else a }

  /** The point (x, y) lies in `box`, edges included. */
  predicate Contains(box: AABB, x: int, y: int) {
    box.minX <= x <= box.maxX && box.minY <= y <= box.maxY
  }

  /** `box` holds at least one point. */
  predicate NonEmpty(box: AABB) {
    box.minX <= box.maxX && box.minY <= box.maxY
  }

  /** `iscovered(node, branch)`: the box `node` lies inside `branch`,
      edges included, on both axes. For a box holding any point, that is:
      both its corners lie in `branch` (and see CoveredIsInclusion). */
  predicate IsCovered(node: AABB, branch: AABB): (r: bool)
    ensures NonEmpty(node) ==> (r <==> Contains(branch, node.minX, node.minY) && Contains(branch, node.maxX, node.maxY))
  {
    if branch.minX <= node.minX && branch.minY <= node.minY then
      branch.maxX >= node.maxX && branch.maxY >= node.maxY
    else
      false
  }

  /** `a + b`: the smallest box enclosing both boxes. */
  function Union(a: AABB, b: AABB): (r: AABB)
    ensures IsCovered(a, r) && IsCovered(b, r)
    ensures forall c :: IsCovered(a, c) && IsCovered(b, c) ==> IsCovered(r, c)
  {
    AABB(Min(a.minX, b.minX), Min(a.minY, b.minY), Max(a.maxX, b.maxX), Max(a.maxY, b.maxY))
  }

  /** `getArea()`: width times height. */
  function Area(a: AABB): int {
    (a.maxX - a.minX) * (a.maxY - a.minY)
  }

  /** `AABB::unionArea(a, b)`: the area of the union of two boxes. */
  function UnionArea(a: AABB, b: AABB): int {
    Area(Union(a, b))
  }

  /** The area a child's box would gain if the new box were merged into it,
      as `Findexisting` computes it. A child whose box already covers the new
      box does not grow. */
  function Growth(newBox: AABB, child: AABB): (r: int)
    ensures IsCovered(newBox, child) ==> r == 0
  {
    CoveredIffUnionAbsorbs(newBox, child);
    UnionCommutes(newBox, child);
    UnionArea(newBox, child) - Area(child)
  }

  /** A box is covered by another exactly when merging it in changes nothing:
      this is why the refit after an insertion may skip covered ancestors. */
  lemma CoveredIffUnionAbsorbs(node: AABB, branch: AABB)
    ensures IsCovered(node, branch) <==> Union(branch, node) == branch
  {
    if Union(branch, node) == branch {
      assert IsCovered(node, Union(branch, node));
    }
  }

  /** For a box holding any point, being covered is point-set inclusion:
      every point of `node` lies in `branch`. */
  lemma CoveredIsInclusion(node: AABB, branch: AABB)
    requires NonEmpty(node)
    ensures IsCovered(node, branch) <==> forall x, y :: Contains(node, x, y) ==> Contains(branch, x, y)
  {
    if forall x, y :: Contains(node, x, y) ==> Contains(branch, x, y) {
      assert Contains(node, node.minX, node.minY) && Contains(node, node.maxX, node.maxY);
    }
  }

  /** Coverage chains. */
  lemma CoveredTransitive(a: AABB, b: AABB, c: AABB)
    requires IsCovered(a, b) && IsCovered(b, c)
    ensures IsCovered(a, c)
  {
  }

  /** Union is commutative and associative, so the order in which boxes are
      merged into an ancestor does not matter. */
  lemma UnionCommutes(a: AABB, b: AABB)
    ensures Union(a, b) == Union(b, a)
  {
  }

  lemma UnionAssociates(a: AABB, b: AABB, c: AABB)
    ensures Union(Union(a, b), c) == Union(a, Union(b, c))
  {
  }
}
