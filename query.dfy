/** What the collision query (`getCollisions`) collects: the leaves of a
    subtree whose boxes collide with the query box, each once. Whether two
    boxes collide is left to the caller as the function `collide`. */
module Query {
  import opened Geometry
  import opened Nodes
  import opened Index

  /** `hits` lists, each once, exactly the live leaves at or below `b` whose
      box collides with `objectBox`, the query box. Branch boxes play no part. */
  ghost predicate HitsOf(nodes: seq<Node>, depth: seq<nat>, live: set<int>, b: int,
                         objectBox: AABB, collide: (AABB, AABB) -> bool, hits: seq<int>)
  {
    && (forall j :: j in hits <==>
          j in live && 0 <= j < |nodes| && nodes[j].isLeaf && Above(nodes, depth, b, j) && collide(nodes[j].aabb, objectBox))
    && (forall k, m | 0 <= k < m < |hits| :: hits[k] != hits[m])
  }

  /** The names of the nodes `hits`, in order. */
  function NamesOf(nodes: seq<Node>, hits: seq<int>): seq<string>
    requires forall k | 0 <= k < |hits| :: 0 <= hits[k] < |nodes|
  {
    seq(|hits|, k requires 0 <= k < |hits| => nodes[hits[k]].name)
  }

  /** Naming distributes over concatenation. */
  lemma NamesOfAppend(nodes: seq<Node>, a: seq<int>, b: seq<int>)
    requires forall k | 0 <= k < |a| :: 0 <= a[k] < |nodes|
    requires forall k | 0 <= k < |b| :: 0 <= b[k] < |nodes|
    ensures forall k | 0 <= k < |a + b| :: 0 <= (a + b)[k] < |nodes|
    ensures NamesOf(nodes, a + b) == NamesOf(nodes, a) + NamesOf(nodes, b)
  {
  }

  /** The null subtree holds no leaf. */
  lemma NullHits(nodes: seq<Node>, depth: seq<nat>, live: set<int>, root: int, bound: nat,
                 objectBox: AABB, collide: (AABB, AABB) -> bool)
    requires Linked(nodes, depth, live, root, bound)
    ensures HitsOf(nodes, depth, live, Null, objectBox, collide, [])
  {
    forall j | j in live && Above(nodes, depth, Null, j) ensures false {
      AboveDepth(nodes, depth, Null, j);
    }
  }

  /** A live leaf is the only leaf of its subtree: it is hit exactly when its
      own box collides. */
  lemma LeafHits(nodes: seq<Node>, depth: seq<nat>, live: set<int>, root: int, bound: nat, leaf: int,
                 objectBox: AABB, collide: (AABB, AABB) -> bool)
    requires Linked(nodes, depth, live, root, bound) && leaf in live && nodes[leaf].isLeaf
    ensures HitsOf(nodes, depth, live, leaf, objectBox, collide, if collide(nodes[leaf].aabb, objectBox) then [leaf] else [])
  {
    forall j | j in live && Above(nodes, depth, leaf, j) ensures j == leaf {
      LeafAboveOnlyItself(nodes, depth, live, root, bound, leaf, j);
    }
  }

  /** The hits below a branch are those below its left child together with
      those below its right child, in either order. */
  lemma {:induction false} HitsCombine(nodes: seq<Node>, depth: seq<nat>, live: set<int>, root: int, bound: nat, b: int,
                                       objectBox: AABB, collide: (AABB, AABB) -> bool, h1: seq<int>, h2: seq<int>)
    requires Linked(nodes, depth, live, root, bound) && b in live && !nodes[b].isLeaf
    requires HitsOf(nodes, depth, live, nodes[b].leftChild, objectBox, collide, h1)
    requires HitsOf(nodes, depth, live, nodes[b].rightChild, objectBox, collide, h2)
    ensures HitsOf(nodes, depth, live, b, objectBox, collide, h1 + h2)
    ensures HitsOf(nodes, depth, live, b, objectBox, collide, h2 + h1)
  {
    var l, r := nodes[b].leftChild, nodes[b].rightChild;
    assert NodeLinked(nodes, depth, live, root, b);
    assert NodeLinked(nodes, depth, live, root, l) && NodeLinked(nodes, depth, live, root, r);
    ParentAbove(nodes, depth, live, root, l);
    ParentAbove(nodes, depth, live, root, r);
    forall j | j in live && 0 <= j < |nodes| && nodes[j].isLeaf
      ensures Above(nodes, depth, b, j) <==> Above(nodes, depth, l, j) || Above(nodes, depth, r, j)
      ensures !(Above(nodes, depth, l, j) && Above(nodes, depth, r, j))
    {
      if Above(nodes, depth, b, j) {
        AboveSplit(nodes, depth, live, root, bound, b, j);
      }
      if Above(nodes, depth, l, j) { AboveTransitive(nodes, depth, b, l, j); }
      if Above(nodes, depth, r, j) { AboveTransitive(nodes, depth, b, r, j); }
      SubtreesDisjoint(nodes, depth, live, root, bound, b, j);
    }
    forall k, m | 0 <= k < |h1| && 0 <= m < |h2| ensures h1[k] != h2[m] {
      assert h1[k] in h1 && h2[m] in h2;
    }
  }

  /** The leaves `getCollisions` reports below `branch`, in its order: a
      leaf reports itself when it collides; a branch reports its left subtree
      and then its right one, except that a leaf on the right is reported
      before a left subtree that is a branch. */
  ghost function Walk(nodes: seq<Node>, depth: seq<nat>, live: set<int>, root: int, bound: nat, branch: int,
                      objectBox: AABB, collide: (AABB, AABB) -> bool): (r: seq<int>)
    requires Linked(nodes, depth, live, root, bound) && (branch == Null || branch in live)
    ensures forall k | 0 <= k < |r| :: 0 <= r[k] < |nodes|
    decreases if branch in live then bound - depth[branch] + 1 else 0
  {
    if branch == Null then []
    else
      assert NodeLinked(nodes, depth, live, root, branch);
      if nodes[branch].isLeaf then
        if collide(nodes[branch].aabb, objectBox) then [branch] else []
      else
        var left, right := nodes[branch].leftChild, nodes[branch].rightChild;
        assert NodeLinked(nodes, depth, live, root, left) && NodeLinked(nodes, depth, live, root, right);
        var l := Walk(nodes, depth, live, root, bound, left, objectBox, collide);
        var r := Walk(nodes, depth, live, root, bound, right, objectBox, collide);
        if nodes[right].isLeaf && !nodes[left].isLeaf then r + l else l + r
  }

  /** At a leaf the walk names the leaf when it collides. */
  lemma WalkLeaf(nodes: seq<Node>, depth: seq<nat>, live: set<int>, root: int, bound: nat, leaf: int,
                 objectBox: AABB, collide: (AABB, AABB) -> bool)
    requires Linked(nodes, depth, live, root, bound) && leaf in live && nodes[leaf].isLeaf
    ensures NamesOf(nodes, Walk(nodes, depth, live, root, bound, leaf, objectBox, collide))
         == if collide(nodes[leaf].aabb, objectBox) then [nodes[leaf].name] else []
  {
  }

  /** At a branch the walk joins the walks of the two children, appended
      after `collisions`; a leaf child's walk names it when it collides. */
  lemma WalkBranch(nodes: seq<Node>, depth: seq<nat>, live: set<int>, root: int, bound: nat, branch: int,
                   objectBox: AABB, collide: (AABB, AABB) -> bool, collisions: seq<string>)
    requires Linked(nodes, depth, live, root, bound) && branch in live && !nodes[branch].isLeaf
    ensures var left, right := nodes[branch].leftChild, nodes[branch].rightChild;
      && left in live && right in live
      && depth[branch] < depth[left] <= bound && depth[branch] < depth[right] <= bound
      && (nodes[left].isLeaf ==>
            (NamesOf(nodes, Walk(nodes, depth, live, root, bound, left, objectBox, collide))
             == if collide(nodes[left].aabb, objectBox) then [nodes[left].name] else []))
      && (nodes[right].isLeaf ==>
            (NamesOf(nodes, Walk(nodes, depth, live, root, bound, right, objectBox, collide))
             == if collide(nodes[right].aabb, objectBox) then [nodes[right].name] else []))
      && var l := NamesOf(nodes, Walk(nodes, depth, live, root, bound, left, objectBox, collide));
      && var r := NamesOf(nodes, Walk(nodes, depth, live, root, bound, right, objectBox, collide));
      && collisions + NamesOf(nodes, Walk(nodes, depth, live, root, bound, branch, objectBox, collide))
         == if nodes[right].isLeaf && !nodes[left].isLeaf then collisions + r + l else collisions + l + r
  {
    assert NodeLinked(nodes, depth, live, root, branch);
    var left, right := nodes[branch].leftChild, nodes[branch].rightChild;
    assert NodeLinked(nodes, depth, live, root, left) && NodeLinked(nodes, depth, live, root, right);
    var wl := Walk(nodes, depth, live, root, bound, left, objectBox, collide);
    var wr := Walk(nodes, depth, live, root, bound, right, objectBox, collide);
    NamesOfAppend(nodes, wl, wr);
    NamesOfAppend(nodes, wr, wl);
    assert collisions + NamesOf(nodes, wl) + NamesOf(nodes, wr) == collisions + (NamesOf(nodes, wl) + NamesOf(nodes, wr));
    assert collisions + NamesOf(nodes, wr) + NamesOf(nodes, wl) == collisions + (NamesOf(nodes, wr) + NamesOf(nodes, wl));
    if nodes[left].isLeaf { WalkLeaf(nodes, depth, live, root, bound, left, objectBox, collide); }
    if nodes[right].isLeaf { WalkLeaf(nodes, depth, live, root, bound, right, objectBox, collide); }
  }

  /** The walk reports, each once, exactly the colliding live leaves of the
      subtree. */
  lemma {:induction false} WalkHits(nodes: seq<Node>, depth: seq<nat>, live: set<int>, root: int, bound: nat, branch: int,
                                    objectBox: AABB, collide: (AABB, AABB) -> bool)
    requires Linked(nodes, depth, live, root, bound) && (branch == Null || branch in live)
    ensures HitsOf(nodes, depth, live, branch, objectBox, collide, Walk(nodes, depth, live, root, bound, branch, objectBox, collide))
    decreases if branch in live then bound - depth[branch] + 1 else 0
  {
    if branch == Null {
      NullHits(nodes, depth, live, root, bound, objectBox, collide);
    } else {
      assert NodeLinked(nodes, depth, live, root, branch);
      if nodes[branch].isLeaf {
        LeafHits(nodes, depth, live, root, bound, branch, objectBox, collide);
      } else {
        var left, right := nodes[branch].leftChild, nodes[branch].rightChild;
        assert NodeLinked(nodes, depth, live, root, left) && NodeLinked(nodes, depth, live, root, right);
        WalkHits(nodes, depth, live, root, bound, left, objectBox, collide);
        WalkHits(nodes, depth, live, root, bound, right, objectBox, collide);
        HitsCombine(nodes, depth, live, root, bound, branch, objectBox, collide,
                    Walk(nodes, depth, live, root, bound, left, objectBox, collide),
                    Walk(nodes, depth, live, root, bound, right, objectBox, collide));
      }
    }
  }

  /** The walk never looks at a branch box: two arenas with the same links
      and the same leaf boxes give the same walk. */
  lemma {:induction false} WalkIgnoresBranchBoxes(a: seq<Node>, b: seq<Node>, depth: seq<nat>, live: set<int>, root: int, bound: nat,
                                                  branch: int, objectBox: AABB, collide: (AABB, AABB) -> bool)
    requires Linked(a, depth, live, root, bound) && SameLinks(a, b)
    requires forall i | i in live && 0 <= i < |a| && a[i].isLeaf :: b[i].aabb == a[i].aabb
    requires branch == Null || branch in live
    ensures Linked(b, depth, live, root, bound)
    ensures Walk(a, depth, live, root, bound, branch, objectBox, collide) == Walk(b, depth, live, root, bound, branch, objectBox, collide)
    decreases if branch in live then bound - depth[branch] + 1 else 0
  {
    LinkedIgnoresBoxes(a, b, depth, live, root, bound);
    if branch != Null {
      assert NodeLinked(a, depth, live, root, branch);
      assert a[branch].(aabb := b[branch].aabb) == b[branch];
      if !a[branch].isLeaf {
        var left, right := a[branch].leftChild, a[branch].rightChild;
        assert NodeLinked(a, depth, live, root, left) && NodeLinked(a, depth, live, root, right);
        assert a[left].(aabb := b[left].aabb) == b[left];
        assert a[right].(aabb := b[right].aabb) == b[right];
        WalkIgnoresBranchBoxes(a, b, depth, live, root, bound, left, objectBox, collide);
        WalkIgnoresBranchBoxes(a, b, depth, live, root, bound, right, objectBox, collide);
      }
    }
  }

  /** Read through a name map that registers every live leaf, the hits of
      the whole tree are exactly the registered objects whose boxes collide,
      each named once. */
  lemma QueryNames(nodes: seq<Node>, depth: seq<nat>, live: set<int>, root: int, bound: nat, index: map<string, int>,
                   objectBox: AABB, collide: (AABB, AABB) -> bool, hits: seq<int>)
    requires Linked(nodes, depth, live, root, bound) && IndexOk(nodes, live, index) && Consistent(nodes, live, index)
    requires HitsOf(nodes, depth, live, root, objectBox, collide, hits)
    ensures forall k | 0 <= k < |hits| :: 0 <= hits[k] < |nodes|
    ensures var names := NamesOf(nodes, hits);
      && (forall n :: n in names <==> n in MembersOf(nodes, index) && collide(MembersOf(nodes, index)[n], objectBox))
      && (forall k, m | 0 <= k < m < |names| :: names[k] != names[m])
  {
    assert forall k | 0 <= k < |hits| :: hits[k] in hits;
    var names := NamesOf(nodes, hits);
    var members := MembersOf(nodes, index);
    forall n ensures n in names <==> n in members && collide(members[n], objectBox) {
      if n in names {
        var k :| 0 <= k < |hits| && names[k] == n;
        assert hits[k] in hits;
      }
      if n in members && collide(members[n], objectBox) {
        var j := index[n];
        RootAboveAll(nodes, depth, live, root, bound, j);
        assert j in hits;
        var k :| 0 <= k < |hits| && hits[k] == j;
        assert names[k] == n;
      }
    }
    forall k, m | 0 <= k < m < |names| ensures names[k] != names[m] {
      assert hits[k] in hits && hits[m] in hits;
    }
  }

  /** `getCollisions`, a function outside the class that reads the tree
      through `branch`: appends to `collisions` the names of the leaves at or
      below `branch` whose boxes collide with `objectBox`, in the order of
      Walk, and returns the result. */
  method GetCollisions(nodes: seq<Node>, ghost depth: seq<nat>, ghost live: set<int>, ghost root: int, ghost bound: nat,
                       objectBox: AABB, collide: (AABB, AABB) -> bool, collisions: seq<string>, branch: int)
      returns (result: seq<string>)
    requires Linked(nodes, depth, live, root, bound)
    requires branch == Null || branch in live
    ensures result == collisions + NamesOf(nodes, Walk(nodes, depth, live, root, bound, branch, objectBox, collide))
    decreases if branch in live then bound - depth[branch] + 1 else 0
  {
    if branch == Null {
      assert NamesOf(nodes, Walk(nodes, depth, live, root, bound, branch, objectBox, collide)) == [];
      return collisions;
    }
    assert NodeLinked(nodes, depth, live, root, branch);
    if nodes[branch].isLeaf {
      WalkLeaf(nodes, depth, live, root, bound, branch, objectBox, collide);
      if collide(nodes[branch].aabb, objectBox) {
        return collisions + [nodes[branch].name];
      }
      return collisions;
    }
    var left, right := nodes[branch].leftChild, nodes[branch].rightChild;
    WalkBranch(nodes, depth, live, root, bound, branch, objectBox, collide, collisions);
    if nodes[left].isLeaf && nodes[right].isLeaf {
      result := collisions;
      if collide(nodes[left].aabb, objectBox) {
        result := result + [nodes[left].name];
      }
      if collide(nodes[right].aabb, objectBox) {
        result := result + [nodes[right].name];
      }
    } else if nodes[left].isLeaf && !nodes[right].isLeaf {
      result := collisions;
      if collide(nodes[left].aabb, objectBox) {
        result := result + [nodes[left].name];
      }
      result := GetCollisions(nodes, depth, live, root, bound, objectBox, collide, result, right);
    } else if nodes[right].isLeaf && !nodes[left].isLeaf {
      result := collisions;
      if collide(nodes[right].aabb, objectBox) {
        result := result + [nodes[right].name];
      }
      result := GetCollisions(nodes, depth, live, root, bound, objectBox, collide, result, left);
    } else {
      result := GetCollisions(nodes, depth, live, root, bound, objectBox, collide, collisions, left);
      result := GetCollisions(nodes, depth, live, root, bound, objectBox, collide, result, right);
    }
  }
}
