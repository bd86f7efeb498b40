/** The node layer of the hierarchy (`BVHTreeNode`), laid out in an arena:
    a node is a record in a sequence and the `parent`, `leftChild` and
    `rightChild` pointers are positions in that sequence, `Null` standing for
    the null pointer. Allocating a node appends it; deleting a node only takes
    it out of the set of live slots.

    Two ghost companions make the pointer structure well founded: `live`, the
    slots that belong to the tree, and `depth`, a number per slot that strictly
    grows from a parent to its child. Walks up the tree decrease `depth`; walks
    down decrease `bound - depth`, `bound` being an upper bound of the depths. */
module Nodes {
  import opened Geometry

  const Null: int := -1

  datatype Node = Node(aabb: AABB, name: string, isLeaf: bool, parent: int, leftChild: int, rightChild: int)

  /** `a` lies on the parent chain that starts at `n` (`a` is `n` itself or one
      of its ancestors). */
  ghost predicate Above(nodes: seq<Node>, depth: seq<nat>, a: int, n: int)
    decreases if 0 <= n < |depth| then depth[n] else 0
  {
    n == a ||
    (0 <= n < |nodes| == |depth| &&
     var p := nodes[n].parent;
     0 <= p < |nodes| && depth[p] < depth[n] && Above(nodes, depth, a, p))
  }

  /** The links of live node `i` agree with those of its parent and children:
      only the root lacks a parent; every other node hangs below a live branch
      that has it as a child and lies strictly less deep; a leaf has no
      children; a branch has two distinct live children that point back at it. */
  ghost predicate NodeLinked(nodes: seq<Node>, depth: seq<nat>, live: set<int>, root: int, i: int)
  {
    && 0 <= i < |nodes| == |depth|
    && (i == root ==> nodes[i].parent == Null)
    && (i != root ==>
          var p := nodes[i].parent;
          && p in live && 0 <= p < |nodes|
          && !nodes[p].isLeaf
          && (nodes[p].leftChild == i || nodes[p].rightChild == i)
          && depth[p] < depth[i])
    && (nodes[i].isLeaf ==> nodes[i].leftChild == Null && nodes[i].rightChild == Null)
    && (!nodes[i].isLeaf ==>
          var l, r := nodes[i].leftChild, nodes[i].rightChild;
          && l in live && r in live && l != r
          && 0 <= l < |nodes| && 0 <= r < |nodes|
          && nodes[l].parent == i && nodes[r].parent == i)
  }

  /** The structural invariant of the tree: the root is live exactly when the
      tree is not empty, and every live node is linked and no deeper than
      `bound`. Together these say the live nodes form one strict binary tree
      under `root` (see RootAboveAll and SubtreesDisjoint). */
  ghost predicate Linked(nodes: seq<Node>, depth: seq<nat>, live: set<int>, root: int, bound: nat)
  {
    && |depth| == |nodes|
    && (root == Null ==> live == {})
    && (root != Null ==> root in live)
    && (forall i | i in live :: 0 <= i < |nodes|)
    && (forall i {:trigger NodeLinked(nodes, depth, live, root, i)} | i in live ::
          NodeLinked(nodes, depth, live, root, i) && depth[i] <= bound)
  }

  /** Two arenas that differ at most in the boxes of their nodes. */
  ghost predicate SameLinks(a: seq<Node>, b: seq<Node>)
  {
    |a| == |b| && forall i | 0 <= i < |a| :: a[i].(aabb := b[i].aabb) == b[i]
  }

  /** The parent step of the ancestry relation. */
  lemma ParentAbove(nodes: seq<Node>, depth: seq<nat>, live: set<int>, root: int, i: int)
    requires i in live && NodeLinked(nodes, depth, live, root, i) && i != root
    ensures Above(nodes, depth, nodes[i].parent, i)
  {
  }

  lemma {:induction false} AboveTransitive(nodes: seq<Node>, depth: seq<nat>, a: int, b: int, c: int)
    requires Above(nodes, depth, a, b) && Above(nodes, depth, b, c)
    ensures Above(nodes, depth, a, c)
    decreases if 0 <= c < |depth| then depth[c] else 0
  {
    if c != b {
      AboveTransitive(nodes, depth, a, b, nodes[c].parent);
    }
  }

  /** A proper ancestor is a real slot and lies strictly less deep. */
  lemma {:induction false} AboveDepth(nodes: seq<Node>, depth: seq<nat>, a: int, n: int)
    requires Above(nodes, depth, a, n) && a != n
    ensures 0 <= a < |nodes| == |depth| && 0 <= n < |nodes| && depth[a] < depth[n]
    decreases if 0 <= n < |depth| then depth[n] else 0
  {
    var p := nodes[n].parent;
    if p != a {
      AboveDepth(nodes, depth, a, p);
    }
  }

  /** Below a proper ancestor `b` of a live node, `b` is a live branch and the
      node lies in the subtree of one of `b`'s two children. */
  lemma {:induction false} AboveSplit(nodes: seq<Node>, depth: seq<nat>, live: set<int>, root: int, bound: nat, b: int, n: int)
    requires Linked(nodes, depth, live, root, bound) && n in live
    requires Above(nodes, depth, b, n) && b != n
    ensures b in live && 0 <= b < |nodes| && !nodes[b].isLeaf
    ensures Above(nodes, depth, nodes[b].leftChild, n) || Above(nodes, depth, nodes[b].rightChild, n)
    decreases depth[n]
  {
    assert NodeLinked(nodes, depth, live, root, n);
    var p := nodes[n].parent;
    if p != b {
      AboveSplit(nodes, depth, live, root, bound, b, p);
      var c := if Above(nodes, depth, nodes[b].leftChild, p) then nodes[b].leftChild else nodes[b].rightChild;
      AboveTransitive(nodes, depth, c, p, n);
    }
  }

  /** A live leaf has nothing below it but itself. */
  lemma LeafAboveOnlyItself(nodes: seq<Node>, depth: seq<nat>, live: set<int>, root: int, bound: nat, a: int, n: int)
    requires Linked(nodes, depth, live, root, bound) && a in live && n in live
    requires nodes[a].isLeaf && Above(nodes, depth, a, n)
    ensures n == a
  {
    if n != a {
      AboveSplit(nodes, depth, live, root, bound, a, n);
    }
  }

  /** The subtrees of the two children of a live branch share no node. */
  lemma {:induction false} SubtreesDisjoint(nodes: seq<Node>, depth: seq<nat>, live: set<int>, root: int, bound: nat, b: int, n: int)
    requires Linked(nodes, depth, live, root, bound) && b in live && !nodes[b].isLeaf
    ensures !(Above(nodes, depth, nodes[b].leftChild, n) && Above(nodes, depth, nodes[b].rightChild, n))
    decreases if 0 <= n < |depth| then depth[n] else 0
  {
    var l, r := nodes[b].leftChild, nodes[b].rightChild;
    assert NodeLinked(nodes, depth, live, root, b);
    assert NodeLinked(nodes, depth, live, root, l) && NodeLinked(nodes, depth, live, root, r);
    if Above(nodes, depth, l, n) && Above(nodes, depth, r, n) {
      if n == l {
        // r sits on the chain above l, hence on or above b, yet r is deeper than b
        AboveDepth(nodes, depth, r, l);
        assert Above(nodes, depth, r, b);
        if r != b { AboveDepth(nodes, depth, r, b); }
        assert false;
      } else if n == r {
        AboveDepth(nodes, depth, l, r);
        assert Above(nodes, depth, l, b);
        if l != b { AboveDepth(nodes, depth, l, b); }
        assert false;
      } else {
        SubtreesDisjoint(nodes, depth, live, root, bound, b, nodes[n].parent);
        assert false;
      }
    }
  }

  /** Every live node lies below the root: the tree is connected. */
  lemma {:induction false} RootAboveAll(nodes: seq<Node>, depth: seq<nat>, live: set<int>, root: int, bound: nat, n: int)
    requires Linked(nodes, depth, live, root, bound) && n in live
    ensures Above(nodes, depth, root, n)
    decreases depth[n]
  {
    assert NodeLinked(nodes, depth, live, root, n);
    if n != root {
      var p := nodes[n].parent;
      RootAboveAll(nodes, depth, live, root, bound, p);
    }
  }

  /** A tree whose root is a leaf consists of that leaf alone. */
  lemma LoneLeaf(nodes: seq<Node>, depth: seq<nat>, live: set<int>, root: int, bound: nat)
    requires Linked(nodes, depth, live, root, bound) && root != Null && nodes[root].isLeaf
    ensures live == {root}
  {
    forall n | n in live ensures n == root {
      RootAboveAll(nodes, depth, live, root, bound, n);
      LeafAboveOnlyItself(nodes, depth, live, root, bound, root, n);
    }
  }

  /** The ancestry relation reads only the links, never the boxes. */
  lemma {:induction false} AboveIgnoresBoxes(a: seq<Node>, b: seq<Node>, depth: seq<nat>, x: int, n: int)
    requires SameLinks(a, b)
    ensures Above(a, depth, x, n) <==> Above(b, depth, x, n)
    decreases if 0 <= n < |depth| then depth[n] else 0
  {
    if n != x && 0 <= n < |a| == |depth| {
      assert a[n].parent == b[n].parent;
      var p := a[n].parent;
      if 0 <= p < |a| && depth[p] < depth[n] {
        AboveIgnoresBoxes(a, b, depth, x, p);
      }
    }
  }

  /** Nor does the structural invariant. */
  lemma LinkedIgnoresBoxes(a: seq<Node>, b: seq<Node>, depth: seq<nat>, live: set<int>, root: int, bound: nat)
    requires SameLinks(a, b) && Linked(a, depth, live, root, bound)
    ensures Linked(b, depth, live, root, bound)
  {
    forall i | i in live ensures NodeLinked(b, depth, live, root, i) && depth[i] <= bound {
      assert NodeLinked(a, depth, live, root, i);
      var n := a[i];
      assert b[i].parent == n.parent && b[i].isLeaf == n.isLeaf;
      assert b[i].leftChild == n.leftChild && b[i].rightChild == n.rightChild;
      if i != root { assert b[n.parent] == a[n.parent].(aabb := b[n.parent].aabb); }
      if !n.isLeaf {
        assert b[n.leftChild] == a[n.leftChild].(aabb := b[n.leftChild].aabb);
        assert b[n.rightChild] == a[n.rightChild].(aabb := b[n.rightChild].aabb);
      }
    }
  }
}
