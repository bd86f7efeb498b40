/** The box invariants of the hierarchy and the two ways the tree refits
    boxes on the way up: the growing refit after an insertion
    (`updateParents`) and the exact recomputation after a removal
    (`updateRemoval`). Everything here is stated over the arena of module
    Nodes. */
module Refit {
  import opened Geometry
  import opened Nodes

  /** Branch `i` encloses its child `c`. */
  ghost predicate ChildCovered(nodes: seq<Node>, i: int, c: int)
  {
    0 <= i < |nodes| && 0 <= c < |nodes| && IsCovered(nodes[c].aabb, nodes[i].aabb)
  }

  /** If `i` is a branch, it encloses both of its children, except possibly
      the child `x`. */
  ghost predicate BranchCovered(nodes: seq<Node>, i: int, x: int)
  {
    0 <= i < |nodes| && !nodes[i].isLeaf ==>
      && (nodes[i].leftChild != x ==> ChildCovered(nodes, i, nodes[i].leftChild))
      && (nodes[i].rightChild != x ==> ChildCovered(nodes, i, nodes[i].rightChild))
  }

  /** Every live branch encloses both of its children, except possibly the
      child `x` (pass `Null` for no exception: children are never null). */
  ghost predicate CoveredExcept(nodes: seq<Node>, live: set<int>, x: int)
  {
    forall i | i in live :: BranchCovered(nodes, i, x)
  }

  /** The invariant the tree keeps after every public operation: every branch
      box contains its children's boxes (possibly loosely). */
  ghost predicate Covered(nodes: seq<Node>, live: set<int>)
  {
    CoveredExcept(nodes, live, Null)
  }

  /** Branch `i`'s box is exactly the union of its children's boxes. */
  ghost predicate ExactUnion(nodes: seq<Node>, i: int)
  {
    && 0 <= i < |nodes|
    && 0 <= nodes[i].leftChild < |nodes| && 0 <= nodes[i].rightChild < |nodes|
    && nodes[i].aabb == Union(nodes[nodes[i].leftChild].aabb, nodes[nodes[i].rightChild].aabb)
  }

  /** If `i` is a branch, its box is the exact union of its children's. */
  ghost predicate BranchExact(nodes: seq<Node>, i: int)
  {
    0 <= i < |nodes| && !nodes[i].isLeaf ==> ExactUnion(nodes, i)
  }

  /** Every live branch other than `p` is the exact union of its children. */
  ghost predicate TightExcept(nodes: seq<Node>, live: set<int>, p: int)
  {
    forall i | i in live && i != p :: BranchExact(nodes, i)
  }

  /** The tight form of the box invariant: every live branch is exactly the
      union of its children. */
  ghost predicate Tight(nodes: seq<Node>, live: set<int>)
  {
    TightExcept(nodes, live, Null)
  }

  /** What the refit after an insertion does to the boxes: every proper
      ancestor of `x` grows by `x`'s box, and nothing else changes. */
  ghost predicate Refitted(before: seq<Node>, after: seq<Node>, depth: seq<nat>, x: int)
  {
    && SameLinks(before, after)
    && 0 <= x < |before|
    && forall i | 0 <= i < |before| ::
         if i != x && Above(before, depth, i, x) then after[i] == before[i].(aabb := Union(before[i].aabb, before[x].aabb))
         else after[i] == before[i]
  }

  /** What the refit after a removal does to the boxes: every node from `n` up
      to the root becomes the exact union of its children, and nothing else
      changes. */
  ghost predicate Recomputed(before: seq<Node>, after: seq<Node>, depth: seq<nat>, n: int)
  {
    && SameLinks(before, after)
    && forall i | 0 <= i < |before| ::
         if Above(before, depth, i, n) then ExactUnion(after, i) else after[i] == before[i]
  }

  /** If a child of a live branch lies on the chain above `x`, so does the
      branch, and the branch is not `x` itself. */
  lemma ChildOnPath(nodes: seq<Node>, depth: seq<nat>, live: set<int>, root: int, bound: nat, i: int, c: int, x: int)
    requires Linked(nodes, depth, live, root, bound) && i in live && !nodes[i].isLeaf
    requires c == nodes[i].leftChild || c == nodes[i].rightChild
    requires Above(nodes, depth, c, x)
    ensures Above(nodes, depth, i, x) && i != x
  {
    assert NodeLinked(nodes, depth, live, root, i);
    assert NodeLinked(nodes, depth, live, root, c);
    ParentAbove(nodes, depth, live, root, c);
    AboveTransitive(nodes, depth, i, c, x);
    if c != x { AboveDepth(nodes, depth, c, x); }
  }

  /** The growing refit restores the covering invariant that the new branch
      `x` broke at its parent. */
  lemma RefitCovers(before: seq<Node>, after: seq<Node>, depth: seq<nat>, live: set<int>, root: int, bound: nat, x: int)
    requires Linked(before, depth, live, root, bound) && x in live
    requires CoveredExcept(before, live, x)
    requires Refitted(before, after, depth, x)
    ensures Covered(after, live)
  {
    forall i | i in live && 0 <= i < |after| && !after[i].isLeaf
      ensures ChildCovered(after, i, after[i].leftChild) && ChildCovered(after, i, after[i].rightChild)
    {
      assert before[i].(aabb := after[i].aabb) == after[i];
      RefitCoversChild(before, after, depth, live, root, bound, x, i, before[i].leftChild);
      RefitCoversChild(before, after, depth, live, root, bound, x, i, before[i].rightChild);
    }
  }

  lemma RefitCoversChild(before: seq<Node>, after: seq<Node>, depth: seq<nat>, live: set<int>, root: int, bound: nat, x: int, i: int, c: int)
    requires Linked(before, depth, live, root, bound) && x in live
    requires CoveredExcept(before, live, x)
    requires Refitted(before, after, depth, x)
    requires i in live && !before[i].isLeaf && (c == before[i].leftChild || c == before[i].rightChild)
    ensures ChildCovered(after, i, c)
  {
    assert NodeLinked(before, depth, live, root, i);
    if Above(before, depth, c, x) {
      ChildOnPath(before, depth, live, root, bound, i, c, x);
      var u := Union(before[i].aabb, before[x].aabb);
      assert after[i].aabb == u;
      if c != x {
        assert ChildCovered(before, i, c);
        CoveredTransitive(before[c].aabb, before[i].aabb, u);
        assert after[c].aabb == Union(before[c].aabb, before[x].aabb);
      }
    } else {
      assert c != x;
      assert ChildCovered(before, i, c);
      assert after[c] == before[c];
      if i != x && Above(before, depth, i, x) {
        CoveredTransitive(before[c].aabb, before[i].aabb, after[i].aabb);
      }
    }
  }

  /** The growing refit keeps every branch an exact union, provided the only
      inexact branch before it was the parent `p` of the new branch `x`, and
      that merging `x`'s box into `p` makes `p` exact. */
  lemma RefitKeepsTight(before: seq<Node>, after: seq<Node>, depth: seq<nat>, live: set<int>, root: int, bound: nat, x: int)
    requires Linked(before, depth, live, root, bound) && x in live && x != root
    requires TightExcept(before, live, before[x].parent)
    requires var p := before[x].parent;
      0 <= p < |before| && 0 <= before[p].leftChild < |before| && 0 <= before[p].rightChild < |before| &&
      Union(before[p].aabb, before[x].aabb) == Union(before[before[p].leftChild].aabb, before[before[p].rightChild].aabb)
    requires Refitted(before, after, depth, x)
    ensures Tight(after, live)
  {
    forall i | i in live && 0 <= i < |after| && !after[i].isLeaf
      ensures ExactUnion(after, i)
    {
      assert before[i].(aabb := after[i].aabb) == after[i];
      RefitKeepsTightAt(before, after, depth, live, root, bound, x, i);
    }
  }

  lemma RefitKeepsTightAt(before: seq<Node>, after: seq<Node>, depth: seq<nat>, live: set<int>, root: int, bound: nat, x: int, i: int)
    requires Linked(before, depth, live, root, bound) && x in live && x != root
    requires TightExcept(before, live, before[x].parent)
    requires var p := before[x].parent;
      0 <= p < |before| && 0 <= before[p].leftChild < |before| && 0 <= before[p].rightChild < |before| &&
      Union(before[p].aabb, before[x].aabb) == Union(before[before[p].leftChild].aabb, before[before[p].rightChild].aabb)
    requires Refitted(before, after, depth, x)
    requires i in live && !before[i].isLeaf
    ensures ExactUnion(after, i)
  {
    assert NodeLinked(before, depth, live, root, i);
    assert NodeLinked(before, depth, live, root, x);
    var p := before[x].parent;
    var l, r := before[i].leftChild, before[i].rightChild;
    assert after[i].leftChild == l && after[i].rightChild == r;
    if i == p {
      // x keeps its box, and its sibling lies off the chain above x
      ParentAbove(before, depth, live, root, x);
      var s := if l == x then r else l;
      assert NodeLinked(before, depth, live, root, s);
      if Above(before, depth, s, x) {
        AboveDepth(before, depth, s, p);
        assert false;
      }
      assert after[x] == before[x] && after[s] == before[s];
    } else if i != x && Above(before, depth, i, x) {
      AboveSplit(before, depth, live, root, bound, i, x);
      SubtreesDisjoint(before, depth, live, root, bound, i, x);
      assert ExactUnion(before, i);
      var bx := before[x].aabb;
      if Above(before, depth, l, x) {
        assert l != x;
        assert !Above(before, depth, r, x);
        UnionAssociates(before[l].aabb, before[r].aabb, bx);
        UnionCommutes(before[r].aabb, bx);
        UnionAssociates(before[l].aabb, bx, before[r].aabb);
      } else {
        assert r != x;
        UnionAssociates(before[l].aabb, before[r].aabb, bx);
      }
    } else {
      if Above(before, depth, l, x) { ChildOnPath(before, depth, live, root, bound, i, l, x); }
      if Above(before, depth, r, x) { ChildOnPath(before, depth, live, root, bound, i, r, x); }
      assert ExactUnion(before, i);
    }
  }

  /** The exact recomputation after a removal keeps the covering invariant. */
  lemma RecomputeCovers(before: seq<Node>, after: seq<Node>, depth: seq<nat>, live: set<int>, root: int, bound: nat, n: int)
    requires Linked(before, depth, live, root, bound)
    requires Covered(before, live)
    requires Recomputed(before, after, depth, n)
    ensures Covered(after, live)
  {
    forall i | i in live && 0 <= i < |after| && !after[i].isLeaf
      ensures ChildCovered(after, i, after[i].leftChild) && ChildCovered(after, i, after[i].rightChild)
    {
      assert before[i].(aabb := after[i].aabb) == after[i];
      assert NodeLinked(before, depth, live, root, i);
      var l, r := before[i].leftChild, before[i].rightChild;
      if !Above(before, depth, i, n) {
        if Above(before, depth, l, n) { ChildOnPath(before, depth, live, root, bound, i, l, n); }
        if Above(before, depth, r, n) { ChildOnPath(before, depth, live, root, bound, i, r, n); }
        assert ChildCovered(before, i, l) && ChildCovered(before, i, r);
      }
    }
  }

  /** ... and makes every branch exact when the branches off the chain above
      `n` already were. */
  lemma RecomputeKeepsTight(before: seq<Node>, after: seq<Node>, depth: seq<nat>, live: set<int>, root: int, bound: nat, n: int)
    requires Linked(before, depth, live, root, bound)
    requires TightExcept(before, live, n)
    requires Recomputed(before, after, depth, n)
    ensures Tight(after, live)
  {
    forall i | i in live && 0 <= i < |after| && !after[i].isLeaf
      ensures ExactUnion(after, i)
    {
      assert before[i].(aabb := after[i].aabb) == after[i];
      assert NodeLinked(before, depth, live, root, i);
      var l, r := before[i].leftChild, before[i].rightChild;
      if !Above(before, depth, i, n) {
        if Above(before, depth, l, n) { ChildOnPath(before, depth, live, root, bound, i, l, n); }
        if Above(before, depth, r, n) { ChildOnPath(before, depth, live, root, bound, i, r, n); }
        assert ExactUnion(before, i);
      }
    }
  }

  /** The state of the growing refit once it has reached `cur` on its way up
      from `x`: the proper ancestors of `x` up to and including `cur` have
      grown by `x`'s box, and every other node is as it was. */
  ghost predicate RefitUpTo(before: seq<Node>, now: seq<Node>, depth: seq<nat>, x: int, cur: int)
  {
    && SameLinks(before, now)
    && 0 <= x < |before| && 0 <= cur < |before|
    && forall i | 0 <= i < |before| ::
         if i != x && Above(before, depth, i, x) && !(before[cur].parent != Null && Above(before, depth, i, before[cur].parent))
         then now[i] == before[i].(aabb := Union(before[i].aabb, before[x].aabb))
         else now[i] == before[i]
  }

  /** One step of the growing refit: the parent of `cur` absorbs `cur`'s box
      unless it already covers it. Either way the parent ends up grown by
      exactly `x`'s box. */
  lemma RefitStep(before: seq<Node>, now: seq<Node>, next: seq<Node>, depth: seq<nat>, live: set<int>, root: int, bound: nat,
                  x: int, cur: int)
    requires Linked(before, depth, live, root, bound) && CoveredExcept(before, live, x)
    requires x in live && cur in live && Above(before, depth, cur, x) && 0 <= before[cur].parent < |before|
    requires RefitUpTo(before, now, depth, x, cur)
    requires var par := before[cur].parent;
      next == if !IsCovered(now[cur].aabb, now[par].aabb)
              then now[par := now[par].(aabb := Union(now[par].aabb, now[cur].aabb))]
              else now
    ensures RefitUpTo(before, next, depth, x, before[cur].parent)
  {
    var par := before[cur].parent;
    assert NodeLinked(before, depth, live, root, cur);
    assert NodeLinked(before, depth, live, root, par);
    ParentAbove(before, depth, live, root, cur);
    AboveTransitive(before, depth, par, cur, x);
    if par == x { AboveDepth(before, depth, cur, x); }
    if before[par].parent != Null {
      assert NodeLinked(before, depth, live, root, before[par].parent);
      if Above(before, depth, par, before[par].parent) {
        AboveDepth(before, depth, par, before[par].parent);
      }
    }
    assert now[par] == before[par];
    var bx := before[x].aabb;
    var grown := Union(before[par].aabb, bx);
    // what `cur` holds now: x's box itself, or its own box grown by x's
    if cur == x {
      assert now[cur] == before[cur];
    } else {
      if Above(before, depth, cur, par) { AboveDepth(before, depth, cur, par); }
      assert now[cur].aabb == Union(before[cur].aabb, bx);
      assert ChildCovered(before, par, cur);
      CoveredIffUnionAbsorbs(before[cur].aabb, before[par].aabb);
      UnionAssociates(before[par].aabb, before[cur].aabb, bx);
    }
    assert IsCovered(bx, now[cur].aabb);
    if IsCovered(now[cur].aabb, now[par].aabb) {
      CoveredTransitive(bx, now[cur].aabb, now[par].aabb);
      CoveredIffUnionAbsorbs(bx, before[par].aabb);
      assert next[par] == before[par].(aabb := grown);
    } else {
      assert next[par] == before[par].(aabb := grown);
    }
    forall i | 0 <= i < |before|
      ensures if i != x && Above(before, depth, i, x) && !(before[par].parent != Null && Above(before, depth, i, before[par].parent))
              then next[i] == before[i].(aabb := Union(before[i].aabb, bx))
              else next[i] == before[i]
    {
      if i != par {
        assert next[i] == now[i];
      }
    }
  }

  /** One step of the exact recomputation: `n` becomes the union of its
      children, and the recomputation goes on from its parent `q`. */
  lemma RecomputeStep(before: seq<Node>, mid: seq<Node>, after: seq<Node>, depth: seq<nat>, live: set<int>, root: int, bound: nat, n: int)
    requires Linked(before, depth, live, root, bound) && n in live && !before[n].isLeaf && n != root
    requires 0 <= before[n].leftChild < |before| && 0 <= before[n].rightChild < |before|
    requires mid == before[n := before[n].(aabb := Union(before[before[n].leftChild].aabb, before[before[n].rightChild].aabb))]
    requires Recomputed(mid, after, depth, before[n].parent)
    ensures Recomputed(before, after, depth, n)
  {
    var q := before[n].parent;
    assert NodeLinked(before, depth, live, root, n);
    var l, r := before[n].leftChild, before[n].rightChild;
    assert NodeLinked(before, depth, live, root, l) && NodeLinked(before, depth, live, root, r);
    assert SameLinks(before, mid);
    forall i | 0 <= i < |before| ensures before[i].(aabb := after[i].aabb) == after[i] {
      assert mid[i].(aabb := after[i].aabb) == after[i];
    }
    forall i | 0 <= i < |before|
      ensures if Above(before, depth, i, n) then ExactUnion(after, i) else after[i] == before[i]
    {
      AboveIgnoresBoxes(before, mid, depth, i, q);
      if i == n {
        if Above(mid, depth, n, q) { AboveDepth(mid, depth, n, q); }
        if Above(mid, depth, l, q) { AboveDepth(mid, depth, l, q); }
        if Above(mid, depth, r, q) { AboveDepth(mid, depth, r, q); }
        assert after[n] == mid[n] && after[l] == mid[l] && after[r] == mid[r];
      } else if Above(before, depth, i, n) {
        assert Above(before, depth, i, q);
      } else {
        if Above(before, depth, i, q) {
          ParentAbove(before, depth, live, root, n);
          AboveTransitive(before, depth, i, q, n);
        }
      }
    }
  }

  /** Leaves are never on the chain above a live node, so the growing refit
      leaves every live leaf untouched. */
  lemma RefitKeepsLeaves(before: seq<Node>, after: seq<Node>, depth: seq<nat>, live: set<int>, root: int, bound: nat, x: int, i: int)
    requires Linked(before, depth, live, root, bound) && x in live && Refitted(before, after, depth, x)
    requires i in live && before[i].isLeaf
    ensures after[i] == before[i]
  {
    if i != x && Above(before, depth, i, x) {
      AboveSplit(before, depth, live, root, bound, i, x);
    }
  }

  /** Nor does the exact recomputation from a live branch. */
  lemma RecomputeKeepsLeaves(before: seq<Node>, after: seq<Node>, depth: seq<nat>, live: set<int>, root: int, bound: nat, n: int, i: int)
    requires Linked(before, depth, live, root, bound) && n in live && !before[n].isLeaf && Recomputed(before, after, depth, n)
    requires i in live && before[i].isLeaf
    ensures after[i] == before[i]
  {
    if Above(before, depth, i, n) && i != n {
      AboveSplit(before, depth, live, root, bound, i, n);
    }
  }
}
