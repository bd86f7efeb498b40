/** `BVHTree`: a dynamic bounding-volume hierarchy over named objects. The
    objects are the leaves of a strict binary tree whose branch boxes enclose
    their children's; a name map finds an object's leaf. Objects are
    inserted next to the leaf whose box grows least, removed by promoting
    their sibling, and moved in place while their parent still covers them.
    A collision query walks the tree from the root. */
module Tree {
  import opened Geometry
  import opened Nodes
  import opened Refit
  import opened Surgery
  import opened Index
  import opened Query

  /** The arena after inserting the object `name` with box `box` next to leaf
      `t`, the arena growing by three slots N, N+1 and N+2 (N the old size): a
      branch at N+2 takes `t`'s place below `t`'s parent `p`, with the new
      leaf (N) on the left and a copy of `t` (N+1) on the right; `p` and every
      node above it grow by the branch's box; all else is as it was. */
  ghost predicate InsertedNextTo(before: seq<Node>, after: seq<Node>, depth: seq<nat>, t: int, box: AABB, name: string)
  {
    var N := |before|;
    && 0 <= t < N
    && var p := before[t].parent;
    && 0 <= p < N
    && |after| == N + 3
    && after[N] == Node(box, name, true, N + 2, Null, Null)
    && after[N + 1] == Node(before[t].aabb, before[t].name, true, N + 2, Null, Null)
    && after[N + 2] == Node(Union(before[t].aabb, box), "branch", false, p, N, N + 1)
    && after[p] == ReplaceChild(before[p], t, N + 2).(aabb := Union(before[p].aabb, after[N + 2].aabb))
    && forall i | 0 <= i < N && i != p ::
         after[i] == if Above(after, depth, i, p) then before[i].(aabb := Union(before[i].aabb, after[N + 2].aabb)) else before[i]
  }

  /** The arena after removing leaf `tbr` whose parent `temp` is not the
      root: `temp`'s other child `sib` takes `temp`'s place below `temp`'s
      parent `anc`, and `anc` and every node above it become the exact union
      of their children; all else is as it was. */
  ghost predicate RemovedAt(before: seq<Node>, after: seq<Node>, depth: seq<nat>, tbr: int)
  {
    && 0 <= tbr < |before|
    && var temp := before[tbr].parent;
    && 0 <= temp < |before|
    && var anc := before[temp].parent;
    && var sib := if before[temp].leftChild == tbr then before[temp].rightChild else before[temp].leftChild;
    && 0 <= anc < |before| && 0 <= sib < |before|
    && |after| == |before|
    && after[sib] == before[sib].(parent := anc)
    && forall i | 0 <= i < |before| && i != sib ::
         if Above(after, depth, i, anc) then
           && ExactUnion(after, i)
           && after[i] == (if i == anc then ReplaceChild(before[anc], temp, sib) else before[i]).(aabb := after[i].aabb)
         else after[i] == before[i]
  }

  /** A leaf split followed by the growing refit from the new branch gives
      the arena InsertedNextTo describes. */
  lemma SplitRefitShape(before: seq<Node>, depth: seq<nat>, live: set<int>, root: int, bound: nat,
                        mid: seq<Node>, after: seq<Node>, t: int, box: AABB, name: string)
    requires Linked(before, depth, live, root, bound)
    requires t in live && t != root && before[t].isLeaf
    requires IsLeafSplit(before, mid, t, box, name)
    requires Refitted(mid, after, depth + [depth[t] + 1, depth[t] + 1, depth[t]], |before| + 2)
    ensures InsertedNextTo(before, after, depth + [depth[t] + 1, depth[t] + 1, depth[t]], t, box, name)
  {
    var N := |before|;
    var depth' := depth + [depth[t] + 1, depth[t] + 1, depth[t]];
    var p := before[t].parent;
    assert NodeLinked(before, depth, live, root, t);
    SplitLeafKeepsLinks(before, depth, live, root, bound, mid, t, box, name);
    if Above(mid, depth', N, N + 2) { AboveDepth(mid, depth', N, N + 2); }
    if Above(mid, depth', N + 1, N + 2) { AboveDepth(mid, depth', N + 1, N + 2); }
    assert after[N] == mid[N] && after[N + 1] == mid[N + 1] && after[N + 2] == mid[N + 2];
    assert Above(mid, depth', p, N + 2);
    forall i | 0 <= i < N && i != p
      ensures after[i] == if Above(after, depth', i, p) then before[i].(aabb := Union(before[i].aabb, after[N + 2].aabb)) else before[i]
    {
      AboveIgnoresBoxes(mid, after, depth', i, p);
      assert Above(mid, depth', i, N + 2) <==> Above(mid, depth', i, p);
    }
  }

  /** The placement rule of `Findexisting` at branch `b` on the way to leaf
      `r`: `r` lies below the right child exactly when the right child's
      growth is strictly smaller, and below the left child exactly when it is
      not larger (ties go left). */
  ghost predicate StepsByGrowth(nodes: seq<Node>, depth: seq<nat>, b: int, r: int, newBox: AABB)
  {
    && 0 <= b < |nodes|
    && var right, left := nodes[b].rightChild, nodes[b].leftChild;
    && 0 <= right < |nodes| && 0 <= left < |nodes|
    && (Above(nodes, depth, right, r) <==> Growth(newBox, nodes[right].aabb) < Growth(newBox, nodes[left].aabb))
    && (Above(nodes, depth, left, r) <==> Growth(newBox, nodes[left].aabb) <= Growth(newBox, nodes[right].aabb))
  }

  /** `b` is a branch on the path from `node` down to `r`: at or below
      `node`, strictly above `r`. */
  ghost predicate OnPath(nodes: seq<Node>, depth: seq<nat>, node: int, b: int, r: int)
  {
    Above(nodes, depth, node, b) && Above(nodes, depth, b, r) && b != r
  }

  /** No branch lies on the path from a leaf to itself. */
  lemma LeafPathEmpty(nodes: seq<Node>, depth: seq<nat>, live: set<int>, root: int, bound: nat, leaf: int)
    requires Linked(nodes, depth, live, root, bound) && leaf in live && nodes[leaf].isLeaf
    ensures forall b :: !OnPath(nodes, depth, leaf, b, leaf)
  {
    forall b | OnPath(nodes, depth, leaf, b, leaf) ensures false {
      AboveSplit(nodes, depth, live, root, bound, b, leaf);
      LeafAboveOnlyItself(nodes, depth, live, root, bound, leaf, b);
    }
  }

  /** If the rule holds at branch `node` and, below its child `c` on the way
      to leaf `r`, at every branch of that path, it holds at every branch of
      the path from `node` to `r`. */
  lemma PathStepsByGrowth(nodes: seq<Node>, depth: seq<nat>, live: set<int>, root: int, bound: nat,
                          node: int, c: int, r: int, newBox: AABB)
    requires Linked(nodes, depth, live, root, bound) && node in live && !nodes[node].isLeaf
    requires c == nodes[node].leftChild || c == nodes[node].rightChild
    requires r in live && nodes[r].isLeaf && Above(nodes, depth, c, r)
    requires StepsByGrowth(nodes, depth, node, r, newBox)
    requires !nodes[c].isLeaf ==> forall b | OnPath(nodes, depth, c, b, r) :: StepsByGrowth(nodes, depth, b, r, newBox)
    ensures forall b | OnPath(nodes, depth, node, b, r) :: StepsByGrowth(nodes, depth, b, r, newBox)
  {
    assert NodeLinked(nodes, depth, live, root, node);
    var other := if c == nodes[node].leftChild then nodes[node].rightChild else nodes[node].leftChild;
    forall b | OnPath(nodes, depth, node, b, r)
      ensures StepsByGrowth(nodes, depth, b, r, newBox)
    {
      if b != node {
        AboveSplit(nodes, depth, live, root, bound, b, r);
        AboveSplit(nodes, depth, live, root, bound, node, b);
        if Above(nodes, depth, other, b) {
          AboveTransitive(nodes, depth, other, b, r);
          SubtreesDisjoint(nodes, depth, live, root, bound, node, r);
        }
        if nodes[c].isLeaf {
          // a leaf child ends the path, so no branch lies below it
          LeafAboveOnlyItself(nodes, depth, live, root, bound, c, b);
          LeafAboveOnlyItself(nodes, depth, live, root, bound, c, r);
        }
        assert OnPath(nodes, depth, c, b, r);
      }
    }
  }

  /** Reinserting `name` next to leaf `t` after its removal kept its leaf
      `orphan` in the tree (`index0` is the map before the removal) leaves
      the tree inconsistent: one leaf named `name` is unregistered, the new
      leaf when `t` is the orphan itself and the orphan otherwise. */
  lemma OrphanUnregistered(before: seq<Node>, depth: seq<nat>, live: set<int>, root: int, bound: nat, index0: map<string, int>,
                           after: seq<Node>, depth': seq<nat>, live': set<int>, index': map<string, int>,
                           t: int, orphan: int, box: AABB, name: string)
    requires Linked(before, depth, live, root, bound) && IndexOk(before, live, index0)
    requires name in index0 && index0[name] == orphan
    requires t in live && before[t].isLeaf
    requires InsertedNextTo(before, after, depth', t, box, name)
    requires index' == (index0 - {name})[name := |before|][before[t].name := |before| + 1]
    requires live' == SplitLive(live, t, |before|)
    ensures !Consistent(after, live', index')
  {
    var N := |before|;
    if t == orphan {
      assert N in live' && after[N].isLeaf && after[N].name == name && index'[name] == N + 1;
    } else {
      assert NodeLinked(before, depth, live, root, t);
      assert orphan in live' && 0 <= orphan < N && orphan != before[t].parent;
      assert after[orphan].isLeaf && after[orphan].name == name && index'[name] != orphan;
    }
  }

  /** The same reinsertion into a tree whose map was complete: every other
      object keeps its box, and `name` lands on the copy of the orphan, with
      the old box, when `t` is the orphan itself, and on the new leaf, with
      the new box, otherwise. */
  lemma OrphanReinserted(before: seq<Node>, depth: seq<nat>, live: set<int>, root: int, bound: nat, index0: map<string, int>,
                         after: seq<Node>, depth': seq<nat>, live': set<int>, bound': nat, index': map<string, int>,
                         t: int, orphan: int, box: AABB, name: string)
    requires Linked(before, depth, live, root, bound) && IndexOk(before, live, index0) && Consistent(before, live, index0)
    requires name in index0 && index0[name] == orphan
    requires t in live && before[t].isLeaf
    requires InsertedNextTo(before, after, depth', t, box, name)
    requires index' == (index0 - {name})[name := |before|][before[t].name := |before| + 1]
    requires live' == SplitLive(live, t, |before|)
    requires Linked(after, depth', live', root, bound')
    ensures var members0 := MembersOf(before, index0);
      && name in members0
      && MembersOf(after, index') == members0[name := if t == orphan then members0[name] else box]
  {
    var N := |before|;
    assert index0[before[t].name] == t;
    assert after[N].aabb == box && after[N + 1].aabb == before[t].aabb;
    forall n | n in index0 && n != name && n != before[t].name
      ensures 0 <= index0[n] < |after| && after[index0[n]] == before[index0[n]]
    {
      LeafBesideSplitKept(before, depth, live, root, bound, after, depth', live', bound', t, box, name, index0[n]);
    }
    MembersUpdated(before, after, index0, index', name, if t == orphan then before[orphan].aabb else box);
  }

  /** A leaf other than the split leaf `t` is untouched by the insertion:
      it is not on the path above `t`, where boxes grow. */
  lemma LeafBesideSplitKept(before: seq<Node>, depth: seq<nat>, live: set<int>, root: int, bound: nat,
                            after: seq<Node>, depth': seq<nat>, live': set<int>, bound': nat,
                            t: int, box: AABB, name: string, k: int)
    requires Linked(before, depth, live, root, bound) && t in live && before[t].isLeaf
    requires InsertedNextTo(before, after, depth', t, box, name)
    requires live' == SplitLive(live, t, |before|) && Linked(after, depth', live', root, bound')
    requires k in live && before[k].isLeaf && k != t
    ensures 0 <= k < |after| && after[k] == before[k]
  {
    assert NodeLinked(before, depth, live, root, t);
    var p := before[t].parent;
    assert k in live' && k != p && p in live';
    if Above(after, depth', k, p) {
      LeafAboveOnlyItself(after, depth', live', root, bound', k, p);
    }
  }

  /** A sibling promotion followed by the exact recomputation from the
      removed leaf's grandparent gives the arena RemovedAt describes. */
  lemma PromoteRecomputeShape(before: seq<Node>, depth: seq<nat>, live: set<int>, root: int, bound: nat,
                              mid: seq<Node>, after: seq<Node>, tbr: int)
    requires Linked(before, depth, live, root, bound)
    requires tbr in live && tbr != root && before[tbr].isLeaf && before[tbr].parent != root
    requires IsPromotion(before, mid, tbr)
    requires Recomputed(mid, after, depth, before[before[tbr].parent].parent)
    ensures RemovedAt(before, after, depth, tbr)
  {
    var temp := before[tbr].parent;
    var anc := before[temp].parent;
    var sib := if before[temp].leftChild == tbr then before[temp].rightChild else before[temp].leftChild;
    assert NodeLinked(before, depth, live, root, tbr);
    assert NodeLinked(before, depth, live, root, temp);
    assert NodeLinked(before, depth, live, root, sib);
    if Above(mid, depth, sib, anc) { AboveDepth(mid, depth, sib, anc); }
    forall i | 0 <= i < |before| && i != sib
      ensures if Above(after, depth, i, anc) then
           && ExactUnion(after, i)
           && after[i] == (if i == anc then ReplaceChild(before[anc], temp, sib) else before[i]).(aabb := after[i].aabb)
         else after[i] == before[i]
    {
      AboveIgnoresBoxes(mid, after, depth, i, anc);
      assert mid[i].(aabb := after[i].aabb) == after[i];
    }
  }

  /** Everything an insertion next to leaf `t` establishes, once the split
      arena `mid` has been refitted into `after`: the tree invariants hold
      again, tight boxes stay tight, a complete name map stays complete and
      gains the new object, and the arena has the shape InsertedNextTo
      describes. */
  lemma SplitLeafDone(before: seq<Node>, depth: seq<nat>, live: set<int>, root: int, bound: nat, index: map<string, int>,
                      mid: seq<Node>, after: seq<Node>, t: int, box: AABB, name: string)
    requires Linked(before, depth, live, root, bound) && Covered(before, live) && IndexOk(before, live, index)
    requires t in live && t != root && before[t].isLeaf
    requires IsLeafSplit(before, mid, t, box, name)
    requires Refitted(mid, after, depth + [depth[t] + 1, depth[t] + 1, depth[t]], |before| + 2)
    ensures var N := |before|;
      var depth' := depth + [depth[t] + 1, depth[t] + 1, depth[t]];
      var live' := SplitLive(live, t, N);
      var index' := index[name := N][before[t].name := N + 1];
      && Linked(after, depth', live', root, if bound < depth[t] + 1 then depth[t] + 1 else bound)
      && Covered(after, live')
      && IndexOk(after, live', index')
      && (Tight(before, live) ==> Tight(after, live'))
      && (Consistent(before, live, index) && name !in index ==>
            Consistent(after, live', index') && MembersOf(after, index') == MembersOf(before, index)[name := box])
      && InsertedNextTo(before, after, depth', t, box, name)
  {
    SplitRefitCovers(before, depth, live, root, bound, mid, after, t, box, name);
    SplitRefitRegisters(before, depth, live, root, bound, index, mid, after, t, box, name);
    if Tight(before, live) {
      SplitRefitTight(before, depth, live, root, bound, mid, after, t, box, name);
    }
    SplitRefitShape(before, depth, live, root, bound, mid, after, t, box, name);
  }

  /** The structural and covering invariants after an insertion next to
      `t`; the refit leaves every leaf of the split arena as it was. */
  lemma SplitRefitCovers(before: seq<Node>, depth: seq<nat>, live: set<int>, root: int, bound: nat,
                         mid: seq<Node>, after: seq<Node>, t: int, box: AABB, name: string)
    requires Linked(before, depth, live, root, bound) && Covered(before, live)
    requires t in live && t != root && before[t].isLeaf
    requires IsLeafSplit(before, mid, t, box, name)
    requires Refitted(mid, after, depth + [depth[t] + 1, depth[t] + 1, depth[t]], |before| + 2)
    ensures var N := |before|;
      var depth' := depth + [depth[t] + 1, depth[t] + 1, depth[t]];
      var live' := SplitLive(live, t, N);
      && Linked(after, depth', live', root, if bound < depth[t] + 1 then depth[t] + 1 else bound)
      && Covered(after, live')
  {
    var N := |before|;
    var depth' := depth + [depth[t] + 1, depth[t] + 1, depth[t]];
    var live' := SplitLive(live, t, N);
    var bound' := if bound < depth[t] + 1 then depth[t] + 1 else bound;
    SplitLeafKeepsLinks(before, depth, live, root, bound, mid, t, box, name);
    SplitLeafCovers(before, depth, live, root, bound, mid, t, box, name);
    RefitCovers(mid, after, depth', live', root, bound', N + 2);
    LinkedIgnoresBoxes(mid, after, depth', live', root, bound');
  }

  /** The name map after an insertion next to `t`. */
  lemma SplitRefitRegisters(before: seq<Node>, depth: seq<nat>, live: set<int>, root: int, bound: nat, index: map<string, int>,
                            mid: seq<Node>, after: seq<Node>, t: int, box: AABB, name: string)
    requires Linked(before, depth, live, root, bound) && IndexOk(before, live, index)
    requires t in live && t != root && before[t].isLeaf
    requires IsLeafSplit(before, mid, t, box, name)
    requires Refitted(mid, after, depth + [depth[t] + 1, depth[t] + 1, depth[t]], |before| + 2)
    ensures var N := |before|;
      var live' := SplitLive(live, t, N);
      var index' := index[name := N][before[t].name := N + 1];
      && IndexOk(after, live', index')
      && (Consistent(before, live, index) && name !in index ==>
            Consistent(after, live', index') && MembersOf(after, index') == MembersOf(before, index)[name := box])
  {
    var N := |before|;
    var depth' := depth + [depth[t] + 1, depth[t] + 1, depth[t]];
    var live' := SplitLive(live, t, N);
    var bound' := if bound < depth[t] + 1 then depth[t] + 1 else bound;
    var index' := index[name := N][before[t].name := N + 1];
    SplitLeafKeepsLinks(before, depth, live, root, bound, mid, t, box, name);
    SplitKeepsIndex(before, depth, live, root, bound, mid, t, box, name, index);
    forall i | i in live' && 0 <= i < |mid| && mid[i].isLeaf ensures after[i] == mid[i] {
      RefitKeepsLeaves(mid, after, depth', live', root, bound', N + 2, i);
    }
    IndexFollowsLeaves(mid, after, live', index');
  }

  /** Tight boxes stay tight through an insertion next to `t`. */
  lemma SplitRefitTight(before: seq<Node>, depth: seq<nat>, live: set<int>, root: int, bound: nat,
                        mid: seq<Node>, after: seq<Node>, t: int, box: AABB, name: string)
    requires Linked(before, depth, live, root, bound) && Tight(before, live)
    requires t in live && t != root && before[t].isLeaf
    requires IsLeafSplit(before, mid, t, box, name)
    requires Refitted(mid, after, depth + [depth[t] + 1, depth[t] + 1, depth[t]], |before| + 2)
    ensures Tight(after, SplitLive(live, t, |before|))
  {
    var N := |before|;
    var depth' := depth + [depth[t] + 1, depth[t] + 1, depth[t]];
    var live' := SplitLive(live, t, N);
    var bound' := if bound < depth[t] + 1 then depth[t] + 1 else bound;
    var p := before[t].parent;
    SplitLeafKeepsLinks(before, depth, live, root, bound, mid, t, box, name);
    SplitLeafKeepsTight(before, depth, live, root, bound, mid, t, box, name);
    assert mid[N + 2].parent == p;
    RefitKeepsTight(mid, after, depth', live', root, bound', N + 2);
  }

  /** Everything a removal of leaf `tbr` below a non-root parent establishes,
      once the promoted arena `mid` has been recomputed into `after`. */
  lemma PromotionDone(before: seq<Node>, depth: seq<nat>, live: set<int>, root: int, bound: nat, index: map<string, int>,
                      mid: seq<Node>, after: seq<Node>, tbr: int, name: string)
    requires Linked(before, depth, live, root, bound) && Covered(before, live) && IndexOk(before, live, index)
    requires name in index && index[name] == tbr && tbr != root && before[tbr].parent != root
    requires IsPromotion(before, mid, tbr)
    requires Recomputed(mid, after, depth, before[before[tbr].parent].parent)
    ensures var live' := live - {tbr, before[tbr].parent};
      && Linked(after, depth, live', root, bound)
      && Covered(after, live')
      && IndexOk(after, live', index - {name})
      && (Tight(before, live) ==> Tight(after, live'))
      && (Consistent(before, live, index) ==>
            Consistent(after, live', index - {name}) && MembersOf(after, index - {name}) == MembersOf(before, index) - {name})
      && RemovedAt(before, after, depth, tbr)
  {
    var temp := before[tbr].parent;
    var anc := before[temp].parent;
    var live' := live - {tbr, temp};
    assert NodeLinked(before, depth, live, root, tbr);
    PromotionKeepsLinks(before, depth, live, root, bound, mid, tbr);
    PromotionCovers(before, depth, live, root, bound, mid, tbr);
    PromotionKeepsIndex(before, depth, live, root, bound, mid, tbr, name, index);
    assert NodeLinked(before, depth, live, root, temp);
    assert NodeLinked(mid, depth, live', root, anc);
    RecomputeCovers(mid, after, depth, live', root, bound, anc);
    if Tight(before, live) {
      PromotionKeepsTight(before, depth, live, root, bound, mid, tbr);
      RecomputeKeepsTight(mid, after, depth, live', root, bound, anc);
    }
    forall i | i in live' && 0 <= i < |mid| && mid[i].isLeaf ensures after[i] == mid[i] {
      RecomputeKeepsLeaves(mid, after, depth, live', root, bound, anc, i);
    }
    IndexFollowsLeaves(mid, after, live', index - {name});
    LinkedIgnoresBoxes(mid, after, depth, live', root, bound);
    PromoteRecomputeShape(before, depth, live, root, bound, mid, after, tbr);
  }

  /** Inserting into a tree of one leaf: a new root branch over the new leaf
      (left) and a copy of the old leaf (right) is a valid, tight tree; the
      map gains the new leaf and moves the old name to the copy. */
  lemma LoneLeafSplit(before: seq<Node>, depth: seq<nat>, live: set<int>, root: int, bound: nat, index: map<string, int>,
                      box: AABB, name: string)
    requires Linked(before, depth, live, root, bound) && IndexOk(before, live, index)
    requires root != Null && before[root].isLeaf
    ensures var N := |before|;
      var after := before + [Node(box, name, true, N + 2, Null, Null),
                             Node(before[root].aabb, before[root].name, true, N + 2, Null, Null),
                             Node(Union(before[root].aabb, box), "branch", false, Null, N, N + 1)];
      var index' := index[name := N][before[root].name := N + 1];
      && Linked(after, depth + [1, 1, 0], {N, N + 1, N + 2}, N + 2, if bound < 1 then 1 else bound)
      && Covered(after, {N, N + 1, N + 2}) && Tight(after, {N, N + 1, N + 2})
      && IndexOk(after, {N, N + 1, N + 2}, index')
      && (Consistent(before, live, index) && name !in index ==>
            Consistent(after, {N, N + 1, N + 2}, index') && MembersOf(after, index') == MembersOf(before, index)[name := box])
  {
    var N := |before|;
    var after := before + [Node(box, name, true, N + 2, Null, Null),
                           Node(before[root].aabb, before[root].name, true, N + 2, Null, Null),
                           Node(Union(before[root].aabb, box), "branch", false, Null, N, N + 1)];
    var depth' := depth + [1, 1, 0];
    var live' := {N, N + 1, N + 2};
    var bound' := if bound < 1 then 1 else bound;
    var index' := index[name := N][before[root].name := N + 1];
    assert NodeLinked(after, depth', live', N + 2, N);
    assert NodeLinked(after, depth', live', N + 2, N + 1);
    assert NodeLinked(after, depth', live', N + 2, N + 2);
    UnionCommutes(box, before[root].aabb);
    assert ExactUnion(after, N + 2);
    LoneLeaf(before, depth, live, root, bound);
    assert forall n | n in index :: index[n] == root && n == before[root].name;
    if Consistent(before, live, index) && name !in index {
      assert index == map[before[root].name := root];
      assert MembersOf(after, index') == MembersOf(before, index)[name := box];
    }
  }

  /** Inserting into the empty tree: the new leaf alone is a valid tree,
      whatever released slots the arena still holds. */
  lemma FirstLeaf(before: seq<Node>, depth: seq<nat>, live: set<int>, bound: nat, index: map<string, int>,
                  box: AABB, name: string)
    requires Linked(before, depth, live, Null, bound) && IndexOk(before, live, index)
    ensures var N := |before|;
      var after := before + [Node(box, name, true, Null, Null, Null)];
      && index == map[]
      && Linked(after, depth + [0], {N}, N, bound) && Covered(after, {N}) && Tight(after, {N})
      && IndexOk(after, {N}, map[name := N]) && Consistent(after, {N}, map[name := N])
      && MembersOf(after, map[name := N]) == map[name := box]
  {
    var N := |before|;
    assert forall n | n in index :: false;
    assert NodeLinked(before + [Node(box, name, true, Null, Null, Null)], depth + [0], {N}, N, N);
  }

  /** The root leaf is the only leaf and `name` the only registered name. */
  lemma RootLeafIsAll(nodes: seq<Node>, depth: seq<nat>, live: set<int>, root: int, bound: nat, index: map<string, int>, name: string)
    requires Linked(nodes, depth, live, root, bound) && IndexOk(nodes, live, index)
    requires name in index && index[name] == root
    ensures live == {root} && index == map[name := root]
  {
    LoneLeaf(nodes, depth, live, root, bound);
  }

  /** Moving the object `name` in place, when its leaf is the root or its
      parent's box covers the new box: only that leaf's box changes, the tree
      invariants still hold, and the object now has the new box. */
  lemma MoveInPlace(nodes: seq<Node>, depth: seq<nat>, live: set<int>, root: int, bound: nat, index: map<string, int>,
                    name: string, location: AABB)
    requires Linked(nodes, depth, live, root, bound) && Covered(nodes, live) && IndexOk(nodes, live, index)
    requires name in index
    requires var p := nodes[index[name]].parent;
      p == Null || (0 <= p < |nodes| && IsCovered(location, nodes[p].aabb))
    ensures var t := index[name];
      var after := nodes[t := nodes[t].(aabb := location)];
      && Linked(after, depth, live, root, bound) && Covered(after, live) && IndexOk(after, live, index)
      && (Consistent(nodes, live, index) ==>
            Consistent(after, live, index) && MembersOf(after, index) == MembersOf(nodes, index)[name := location])
  {
    var t := index[name];
    var after := nodes[t := nodes[t].(aabb := location)];
    assert SameLinks(nodes, after);
    LinkedIgnoresBoxes(nodes, after, depth, live, root, bound);
    forall i | i in live ensures BranchCovered(after, i, Null) {
      assert NodeLinked(nodes, depth, live, root, i);
      assert BranchCovered(nodes, i, Null);
    }
    var m, m' := MembersOf(nodes, index)[name := location], MembersOf(after, index);
    assert m.Keys == m'.Keys;
  }

  class BVHTree {
    /** The arena of nodes; a slot is part of the tree when it is in `live`. */
    var nodes: seq<Node>
    var root: int
    /** `map`: the leaf of each registered object. */
    var index: map<string, int>
    ghost var live: set<int>
    ghost var depth: seq<nat>
    ghost var bound: nat

    /** The invariant every public operation keeps: the live nodes form one
        strict binary tree under `root`, every branch encloses its children,
        and every name in the map leads to a live leaf of that name. */
    ghost predicate Valid()
      reads this
    {
      && Linked(nodes, depth, live, root, bound)
      && Covered(nodes, live)
      && IndexOk(nodes, live, index)
    }

    /** Branch boxes are exactly the unions of their children. Insertions and
        removals keep this; a move in place does not. */
    ghost predicate IsTight()
      reads this
    {
      Tight(nodes, live)
    }

    /** Every live leaf is registered under its name. Removing a leaf whose
        parent is the root breaks this (see RemoveBVHMember). */
    ghost predicate IsConsistent()
      reads this
    {
      Consistent(nodes, live, index)
    }

    /** The registered objects and their boxes. */
    ghost function Members(): map<string, AABB>
      reads this
    {
      MembersOf(nodes, index)
    }

    /** `BVHTree()`: the empty tree. */
    constructor()
      ensures Valid() && IsTight() && IsConsistent()
      ensures root == Null && index == map[] && Members() == map[]
    {
      nodes := [];
      root := Null;
      index := map[];
      live := {};
      depth := [];
      bound := 0;
    }

    /** `Findexisting`: descends from `node` to the leaf next to which a new
        box grows the tree least, taking at each branch the child whose area
        would grow less, and the left child on a tie. */
    function FindExisting(node: int, newBox: AABB): (r: int)
      reads this`nodes, this`depth, this`live, this`root, this`bound
      requires Linked(nodes, depth, live, root, bound) && node in live
      ensures r in live && nodes[r].isLeaf && Above(nodes, depth, node, r)
      ensures forall b | OnPath(nodes, depth, node, b, r) :: StepsByGrowth(nodes, depth, b, r, newBox)
      decreases bound - depth[node]
    {
      if nodes[node].isLeaf then
        LeafPathEmpty(nodes, depth, live, root, bound, node);
        node
      else
        assert NodeLinked(nodes, depth, live, root, node);
        var right, left := nodes[node].rightChild, nodes[node].leftChild;
        assert NodeLinked(nodes, depth, live, root, right) && NodeLinked(nodes, depth, live, root, left);
        SubtreesDisjoint(nodes, depth, live, root, bound, node, right);
        SubtreesDisjoint(nodes, depth, live, root, bound, node, left);
        var increaseInRightTreeSize := Growth(newBox, nodes[right].aabb);
        var increaseInLeftTreeSize := Growth(newBox, nodes[left].aabb);
        if increaseInRightTreeSize < increaseInLeftTreeSize then
          var r := if nodes[right].isLeaf then right else FindExisting(right, newBox);
          ParentAbove(nodes, depth, live, root, right);
          AboveTransitive(nodes, depth, node, right, r);
          SubtreesDisjoint(nodes, depth, live, root, bound, node, r);
          PathStepsByGrowth(nodes, depth, live, root, bound, node, right, r, newBox);
          r
        else
          var r := if nodes[left].isLeaf then left else FindExisting(left, newBox);
          ParentAbove(nodes, depth, live, root, left);
          AboveTransitive(nodes, depth, node, left, r);
          SubtreesDisjoint(nodes, depth, live, root, bound, node, r);
          PathStepsByGrowth(nodes, depth, live, root, bound, node, left, r, newBox);
          r
    }

    /** `updateParents`: walks up from `node` to the root, growing each
        parent that does not yet cover the node just below it. The result is
        that every proper ancestor of `node` grows by exactly `node`'s box. */
    method UpdateParents(node: int)
      requires Linked(nodes, depth, live, root, bound) && node in live
      requires CoveredExcept(nodes, live, node)
      modifies this`nodes
      ensures Refitted(old(nodes), nodes, depth, node)
    {
      ghost var nodes0 := nodes;
      var temp := node;
      assert NodeLinked(nodes, depth, live, root, node);
      while nodes[temp].parent != Null
        invariant temp in live && Above(nodes0, depth, temp, node)
        invariant RefitUpTo(nodes0, nodes, depth, node, temp)
        decreases depth[temp]
      {
        assert NodeLinked(nodes0, depth, live, root, temp);
        assert nodes0[temp].(aabb := nodes[temp].aabb) == nodes[temp];
        var parent := nodes[temp].parent;
        ghost var now := nodes;
        if !IsCovered(nodes[temp].aabb, nodes[parent].aabb) {
          nodes := nodes[parent := nodes[parent].(aabb := Union(nodes[parent].aabb, nodes[temp].aabb))];
        }
        RefitStep(nodes0, now, nodes, depth, live, root, bound, node, temp);
        ParentAbove(nodes0, depth, live, root, temp);
        AboveTransitive(nodes0, depth, parent, temp, node);
        temp := parent;
      }
      assert nodes0[temp].(aabb := nodes[temp].aabb) == nodes[temp];
    }

    /** `updateRemoval`: recomputes the box of `node` and of each of its
        ancestors as the exact union of its children, bottom up. A leaf is
        left alone. */
    method UpdateRemoval(node: int)
      requires Linked(nodes, depth, live, root, bound) && node in live
      modifies this`nodes
      ensures old(nodes[node].isLeaf) ==> nodes == old(nodes)
      ensures !old(nodes[node].isLeaf) ==> Recomputed(old(nodes), nodes, depth, node)
      decreases depth[node]
    {
      assert NodeLinked(nodes, depth, live, root, node);
      if nodes[node].isLeaf {
        return;
      }
      ghost var before := nodes;
      var adjusted := Union(nodes[nodes[node].leftChild].aabb, nodes[nodes[node].rightChild].aabb);
      nodes := nodes[node := nodes[node].(aabb := adjusted)];
      assert SameLinks(before, nodes);
      if nodes[node].parent == Null {
        forall i | 0 <= i < |before| && Above(before, depth, i, node) ensures i == node { }
      } else {
        LinkedIgnoresBoxes(before, nodes, depth, live, root, bound);
        assert NodeLinked(before, depth, live, root, node);
        UpdateRemoval(nodes[node].parent);
        RecomputeStep(before, old(nodes)[node := old(nodes)[node].(aabb := adjusted)], nodes, depth, live, root, bound, node);
      }
    }
    /** `addBVHMember`: registers the object `name` with box `objectarea`. A
        name already present is ignored. An empty tree gets the new leaf as
        its root; a tree of one leaf gets a new root branch over the new leaf
        and a copy of the old one; otherwise the leaf chosen by FindExisting
        is split and the ancestors of the new branch grow to cover it. */
    method AddBVHMember(objectarea: AABB, name: string)
      requires Valid()
      modifies this
      ensures Valid() && name in index
      ensures name in old(index) ==>
        nodes == old(nodes) && root == old(root) && index == old(index) && live == old(live)
      ensures name !in old(index) && old(root) == Null ==> IsFirstLeaf(objectarea, name)
      ensures name !in old(index) && old(root) != Null && old(nodes[root].isLeaf) ==>
        IsBesideRootLeaf(old(nodes), old(root), old(index), objectarea, name)
      ensures name !in old(index) && old(root) != Null && !old(nodes[root].isLeaf) ==>
        IsBesideLeaf(old(nodes), old(root), old(live), old(index), old(FindExisting(root, objectarea)), objectarea, name)
      ensures old(IsTight()) ==> IsTight()
      ensures old(IsConsistent()) && name !in old(index) ==>
        IsConsistent() && Members() == old(Members())[name := objectarea]
    {
      if name in index {
        return;
      }
      if root == Null {
        AddFirstLeaf(objectarea, name);
      } else if nodes[root].leftChild == Null {
        assert NodeLinked(nodes, depth, live, root, root);
        AddBesideRootLeaf(objectarea, name);
      } else {
        assert NodeLinked(nodes, depth, live, root, root);
        var t := FindExisting(root, objectarea);
        AddBesideLeaf(t, objectarea, name);
      }
    }

    /** After an insertion into the empty tree: the new leaf is the root and
        the only node, and the only registered name. */
    ghost predicate IsFirstLeaf(objectarea: AABB, name: string)
      reads this
    {
      && live == {root} && 0 <= root < |nodes|
      && nodes[root] == Node(objectarea, name, true, Null, Null, Null)
      && index == map[name := root]
    }

    /** After an insertion into a tree of one leaf `oldRoot`: a new root
        branch at slot N+2 (N the old size of the arena) over the new leaf at
        N (left) and a copy of the old leaf at N+1 (right). */
    ghost predicate IsBesideRootLeaf(oldNodes: seq<Node>, oldRoot: int, oldIndex: map<string, int>, objectarea: AABB, name: string)
      reads this
    {
      var N := |oldNodes|;
      && 0 <= oldRoot < N
      && root == N + 2 && |nodes| == N + 3
      && nodes[N + 2] == Node(Union(oldNodes[oldRoot].aabb, objectarea), "branch", false, Null, N, N + 1)
      && nodes[N] == Node(objectarea, name, true, N + 2, Null, Null)
      && nodes[N + 1] == Node(oldNodes[oldRoot].aabb, oldNodes[oldRoot].name, true, N + 2, Null, Null)
      && live == {N, N + 1, N + 2}
      && index == oldIndex[name := N][oldNodes[oldRoot].name := N + 1]
    }

    /** After an insertion next to leaf `t`: see InsertedNextTo; the map
        registers the new leaf and moves `t`'s name to its copy. */
    ghost predicate IsBesideLeaf(oldNodes: seq<Node>, oldRoot: int, oldLive: set<int>, oldIndex: map<string, int>,
                                 t: int, objectarea: AABB, name: string)
      reads this
    {
      var N := |oldNodes|;
      && 0 <= t < N
      && root == oldRoot
      && InsertedNextTo(oldNodes, nodes, depth, t, objectarea, name)
      && index == oldIndex[name := N][oldNodes[t].name := N + 1]
      && live == SplitLive(oldLive, t, N)
    }

    /** The empty-tree case of `addBVHMember`. */
    method AddFirstLeaf(objectarea: AABB, name: string)
      requires Valid() && root == Null
      modifies this
      ensures Valid() && IsTight() && IsConsistent()
      ensures IsFirstLeaf(objectarea, name) && Members() == map[name := objectarea]
      ensures index == old(index)[name := root] && old(index) == map[]
    {
      FirstLeaf(nodes, depth, live, bound, index, objectarea, name);
      var tba := |nodes|;  // the slot of the new leaf `Tba`
      nodes, index, root, live, depth :=
        nodes + [Node(objectarea, name, true, Null, Null, Null)], index[name := tba], tba, {tba}, depth + [0];
    }

    /** The one-leaf case of `addBVHMember`. */
    method AddBesideRootLeaf(objectarea: AABB, name: string)
      requires Valid() && root != Null && nodes[root].isLeaf
      modifies this
      ensures Valid() && IsTight()
      ensures IsBesideRootLeaf(old(nodes), old(root), old(index), objectarea, name)
      ensures old(IsConsistent()) && name !in old(index) ==>
        IsConsistent() && Members() == old(Members())[name := objectarea]
    {
      LoneLeafSplit(nodes, depth, live, root, bound, index, objectarea, name);
      var tba := |nodes|;  // the slot of the new leaf `Tba`
      var leaf := root;
      // the new nodes are appended with their final links
      var temp, branch := tba + 1, tba + 2;
      var nodes' := nodes + [Node(objectarea, name, true, branch, Null, Null),
                             Node(nodes[leaf].aabb, nodes[leaf].name, true, branch, Null, Null),
                             Node(Union(nodes[leaf].aabb, objectarea), "branch", false, Null, tba, temp)];
      var index' := index[name := tba][nodes[leaf].name := temp];
      ghost var live', depth', bound' := {tba, temp, branch}, depth + [1, 1, 0], if bound < 1 then 1 else bound;
      nodes, index, root, live, depth, bound := nodes', index', branch, live', depth', bound';
    }

    /** The general case of `addBVHMember`: leaf `t`, found by FindExisting,
        is split and the ancestors of the new branch are refitted. */
    method AddBesideLeaf(t: int, objectarea: AABB, name: string)
      requires Valid() && t in live && t != root && nodes[t].isLeaf
      modifies this
      ensures Valid()
      ensures IsBesideLeaf(old(nodes), old(root), old(live), old(index), t, objectarea, name)
      ensures old(IsTight()) ==> IsTight()
      ensures old(IsConsistent()) && name !in old(index) ==>
        IsConsistent() && Members() == old(Members())[name := objectarea]
    {
      ghost var nodes0, live0, depth0, bound0, index0 := nodes, live, depth, bound, index;
      var branch := SplitLeaf(t, objectarea, name);
      ghost var split := nodes;
      UpdateParents(branch);
      SplitLeafDone(nodes0, depth0, live0, root, bound0, index0, split, nodes, t, objectarea, name);
    }

    /** The rewiring of the general case of `addBVHMember`: the new leaf
        `Tba`, a copy `newtemp` of leaf `t` and a branch over the two are
        allocated, and the branch takes `t`'s place below `t`'s parent. */
    method SplitLeaf(t: int, objectarea: AABB, name: string) returns (branch: int)
      requires Valid() && t in live && t != root && nodes[t].isLeaf
      modifies this
      ensures branch == |old(nodes)| + 2
      ensures IsLeafSplit(old(nodes), nodes, t, objectarea, name)
      ensures root == old(root)
      ensures index == old(index)[name := |old(nodes)|][old(nodes[t].name) := |old(nodes)| + 1]
      ensures live == SplitLive(old(live), t, |old(nodes)|)
      ensures depth == old(depth) + [old(depth[t]) + 1, old(depth[t]) + 1, old(depth[t])]
      ensures bound == if old(bound) < old(depth[t]) + 1 then old(depth[t]) + 1 else old(bound)
      ensures Linked(nodes, depth, live, root, bound) && CoveredExcept(nodes, live, branch)
    {
      var tba := |nodes|;  // the slot of the new leaf `Tba`
      assert NodeLinked(nodes, depth, live, root, t);
      var parent := nodes[t].parent;
      // the new nodes are appended with their final links; the branch takes
      // `t`'s place on the same side of `parent`
      var newtemp := tba + 1;
      branch := tba + 2;
      var split := nodes + [Node(objectarea, name, true, branch, Null, Null),
                            Node(nodes[t].aabb, nodes[t].name, true, branch, Null, Null),
                            Node(Union(nodes[t].aabb, objectarea), "branch", false, parent, tba, newtemp)];
      if nodes[parent].leftChild == t {
        split := split[parent := split[parent].(leftChild := branch)];
      } else {
        split := split[parent := split[parent].(rightChild := branch)];
      }
      assert IsLeafSplit(nodes, split, t, objectarea, name);
      SplitLeafKeepsLinks(nodes, depth, live, root, bound, split, t, objectarea, name);
      SplitLeafCovers(nodes, depth, live, root, bound, split, t, objectarea, name);
      var index' := index[name := tba][nodes[t].name := newtemp];
      ghost var live', depth' := SplitLive(live, t, tba), depth + [depth[t] + 1, depth[t] + 1, depth[t]];
      ghost var bound' := if bound < depth[t] + 1 then depth[t] + 1 else bound;
      nodes, index, live, depth, bound := split, index', live', depth', bound';
    }

    /** `removeBVHMember`: unregisters the object `name`. An unknown name is
        ignored; removing the root leaf empties the tree. A leaf whose parent
        is the root only loses its name and stays in the tree. Otherwise the
        leaf's sibling takes the parent's place and the boxes from the
        grandparent up are recomputed exactly. */
    method RemoveBVHMember(name: string)
      requires Valid()
      modifies this
      ensures Valid()
      ensures index == old(index) - {name}
      ensures depth == old(depth) && bound == old(bound)
      ensures name !in old(index) || old(LeftOrphan(name)) ==>
        nodes == old(nodes) && root == old(root) && live == old(live)
      ensures name in old(index) && old(index[name]) == old(root) ==>
        root == Null && live == {}
      ensures name in old(index) && old(index[name]) != old(root) && !old(LeftOrphan(name)) ==>
        var tbr := old(index[name]);
        && root == old(root)
        && RemovedAt(old(nodes), nodes, depth, tbr)
        && live == old(live) - {tbr, old(nodes[tbr].parent)}
      ensures old(IsTight()) ==> IsTight()
      ensures old(IsConsistent()) && !old(LeftOrphan(name)) ==>
        IsConsistent() && Members() == old(Members()) - {name}
      ensures old(LeftOrphan(name)) ==> !IsConsistent()
    {
      if name !in index {
        return;
      }
      var tbr := index[name];
      if tbr == root {
        // `clear(root)`: the tree held this one leaf
        RootLeafIsAll(nodes, depth, live, root, bound, index, name);
        root, index, live := Null, map[], {};
        return;
      }
      index := index - {name};
      assert NodeLinked(nodes, depth, live, root, tbr);
      var temp := nodes[tbr].parent;
      assert NodeLinked(nodes, depth, live, root, temp);
      var ancestor := nodes[temp].parent;
      if ancestor == Null {
        // the leaf stays in the tree without an entry in the map
        assert !Consistent(nodes, live, index) by {
          assert tbr in live && nodes[tbr].isLeaf && nodes[tbr].name !in index;
        }
        return;
      }
      DetachLeaf(tbr, old(index), name);
    }

    /** The last part of `removeBVHMember`, for a leaf `tbr` whose parent is
        not the root: `tbr`'s sibling takes the parent's place below the
        grandparent, the boxes from the grandparent up are recomputed, and
        `tbr` and its parent are released. `name` is the name just dropped
        from the map `index0`. */
    method DetachLeaf(tbr: int, ghost index0: map<string, int>, ghost name: string)
      requires Linked(nodes, depth, live, root, bound) && Covered(nodes, live) && IndexOk(nodes, live, index0)
      requires name in index0 && index0[name] == tbr && index == index0 - {name}
      requires tbr != root && nodes[tbr].parent != root
      modifies this`nodes, this`live
      ensures Valid()
      ensures RemovedAt(old(nodes), nodes, depth, tbr) && live == old(live) - {tbr, old(nodes[tbr].parent)}
      ensures Tight(old(nodes), old(live)) ==> IsTight()
      ensures Consistent(old(nodes), old(live), index0) ==>
        IsConsistent() && Members() == MembersOf(old(nodes), index0) - {name}
    {
      ghost var nodes0, live0 := nodes, live;
      assert NodeLinked(nodes, depth, live, root, tbr);
      var temp := nodes[tbr].parent;
      assert NodeLinked(nodes, depth, live, root, temp);
      var ancestor := nodes[temp].parent;
      PromoteSibling(tbr);
      ghost var promoted := nodes;
      UpdateRemoval(ancestor);
      PromotionDone(nodes0, depth, live0, root, bound, index0, promoted, nodes, tbr, name);
    }

    /** The rewiring of `removeBVHMember`: the sibling of leaf `tbr` takes the
        place of `tbr`'s parent `temp` below `temp`'s parent, on the same
        side; `tbr` and `temp` are released. */
    method PromoteSibling(tbr: int)
      requires Linked(nodes, depth, live, root, bound)
      requires tbr in live && tbr != root && nodes[tbr].isLeaf && nodes[tbr].parent != root
      modifies this`nodes, this`live
      ensures IsPromotion(old(nodes), nodes, tbr)
      ensures live == old(live) - {tbr, old(nodes[tbr].parent)}
      ensures Linked(nodes, depth, live, root, bound)
    {
      assert NodeLinked(nodes, depth, live, root, tbr);
      var temp := nodes[tbr].parent;
      assert NodeLinked(nodes, depth, live, root, temp);
      var ancestor := nodes[temp].parent;
      assert NodeLinked(nodes, depth, live, root, ancestor);
      assert NodeLinked(nodes, depth, live, root, nodes[temp].leftChild);
      assert NodeLinked(nodes, depth, live, root, nodes[temp].rightChild);
      var promoted := nodes;
      if nodes[temp].leftChild == tbr {
        if nodes[ancestor].leftChild == temp {
          promoted := promoted[ancestor := promoted[ancestor].(leftChild := nodes[temp].rightChild)];
        } else {
          promoted := promoted[ancestor := promoted[ancestor].(rightChild := nodes[temp].rightChild)];
        }
        promoted := promoted[nodes[temp].rightChild := promoted[nodes[temp].rightChild].(parent := ancestor)];
      } else {
        if nodes[ancestor].leftChild == temp {
          promoted := promoted[ancestor := promoted[ancestor].(leftChild := nodes[temp].leftChild)];
        } else {
          promoted := promoted[ancestor := promoted[ancestor].(rightChild := nodes[temp].leftChild)];
        }
        promoted := promoted[nodes[temp].leftChild := promoted[nodes[temp].leftChild].(parent := ancestor)];
      }
      assert IsPromotion(nodes, promoted, tbr);
      PromotionKeepsLinks(nodes, depth, live, root, bound, promoted, tbr);
      // `tbr` and `temp` are released
      nodes, live := promoted, live - {tbr, temp};
    }

    /** Removing `name` takes the early exit of `removeBVHMember`: its leaf
        hangs directly below the root (its grandparent is null), so the name
        is dropped but the leaf stays in the tree. */
    ghost predicate LeftOrphan(name: string)
      reads this
      requires Valid()
    {
      name in index && index[name] != root &&
      assert NodeLinked(nodes, depth, live, root, index[name]);
      nodes[index[name]].parent == root
    }
    /** The test `moveBVHMember` makes before moving the leaf of `name` in
        place: the leaf has no parent, or its parent's box covers the new box. */
    ghost predicate MovesInPlace(name: string, location: AABB)
      reads this
      requires Valid() && name in index
    {
      assert NodeLinked(nodes, depth, live, root, index[name]);
      var p := nodes[index[name]].parent;
      p == Null || IsCovered(location, nodes[p].aabb)
    }

    /** `moveBVHMember`: gives the object `name` the box `location`. While
        the parent still covers the new box, only the leaf's box changes;
        otherwise the object is removed and inserted again. When its leaf
        hangs directly below the root, the removal keeps the leaf (see
        LeftOrphan), so the object ends up with two leaves of its name and
        one of them is unregistered. In a tree whose leaves were all
        registered, if the new box is placed beside the old leaf, the map
        keeps the old box and the new leaf is the unregistered one; otherwise
        the map holds the new box and the old leaf is. */
    method MoveBVHMember(name: string, location: AABB)
      requires Valid() && name in index
      modifies this
      ensures Valid() && name in index
      ensures old(MovesInPlace(name, location)) ==>
        var t := old(index[name]);
        && nodes == old(nodes)[t := old(nodes[t]).(aabb := location)]
        && root == old(root) && index == old(index) && live == old(live)
      ensures !old(MovesInPlace(name, location)) && old(IsTight()) ==> IsTight()
      ensures old(IsConsistent()) && (old(MovesInPlace(name, location)) || !old(LeftOrphan(name))) ==>
        IsConsistent() && Members() == old(Members())[name := location]
      ensures !old(MovesInPlace(name, location)) && old(LeftOrphan(name)) ==>
        && !IsConsistent()
        && (old(IsConsistent()) ==>
              Members() == old(Members())[name := if old(FindExisting(root, location)) == old(index[name]) then old(Members()[name]) else location])
    {
      var tbm := index[name];
      assert NodeLinked(nodes, depth, live, root, tbm);
      if nodes[tbm].parent == Null || IsCovered(location, nodes[nodes[tbm].parent].aabb) {
        MoveInPlace(nodes, depth, live, root, bound, index, name, location);
        nodes := nodes[tbm := nodes[tbm].(aabb := location)];
        return;
      }
      if nodes[tbm].parent == root {
        ReinsertOrphan(name, location);
      } else {
        ReinsertMember(name, location);
      }
    }

    /** The fallback of `moveBVHMember` for a leaf below a branch other than
        the root: remove the object, then insert it with its new box. */
    method ReinsertMember(name: string, location: AABB)
      requires Valid() && name in index && !LeftOrphan(name)
      modifies this
      ensures Valid() && name in index
      ensures old(IsTight()) ==> IsTight()
      ensures old(IsConsistent()) ==> IsConsistent() && Members() == old(Members())[name := location]
    {
      ghost var members0 := Members();
      RemoveBVHMember(name);
      AddBVHMember(location, name);
      assert (members0 - {name})[name := location] == members0[name := location];
    }

    /** The fallback of `moveBVHMember` for a leaf directly below the root:
        the removal keeps the leaf, so the reinsertion leaves two leaves of
        the name, one unregistered. In a tree whose leaves were all
        registered, the map keeps the old box when the new box is placed
        beside the old leaf and holds the new box otherwise, and every other
        object keeps its box. */
    method ReinsertOrphan(name: string, location: AABB)
      requires Valid() && LeftOrphan(name)
      modifies this
      ensures Valid() && name in index
      ensures old(IsTight()) ==> IsTight()
      ensures !IsConsistent()
      ensures old(IsConsistent()) ==>
        Members() == old(Members())[name := if old(FindExisting(root, location)) == old(index[name]) then old(Members()[name]) else location]
    {
      ghost var tbm := index[name];
      assert NodeLinked(nodes, depth, live, root, tbm);
      ghost var nodes0, live0, index0 := nodes, live, index;
      ghost var t0 := FindExisting(root, location);
      RemoveBVHMember(name);
      assert nodes == nodes0 && live == live0 && index == index0 - {name};
      assert name !in index && !nodes[root].isLeaf && FindExisting(root, location) == t0;
      AddBesideOrphan(location, name, index0, tbm, t0);
    }

    /** The reinsertion half of ReinsertOrphan: `name` is inserted while its
        old leaf `tbm`, dropped from `index0` by the removal, is still in the
        tree. */
    method AddBesideOrphan(location: AABB, name: string, ghost index0: map<string, int>, ghost tbm: int, ghost t0: int)
      requires Valid() && root != Null && !nodes[root].isLeaf
      requires IndexOk(nodes, live, index0) && name in index0 && index0[name] == tbm && index == index0 - {name}
      requires t0 == FindExisting(root, location)
      modifies this
      ensures Valid() && name in index
      ensures old(IsTight()) ==> IsTight()
      ensures !IsConsistent()
      ensures Consistent(old(nodes), old(live), index0) ==>
        Members() == MembersOf(old(nodes), index0)[name := if t0 == tbm then MembersOf(old(nodes), index0)[name] else location]
    {
      ghost var nodes0, live0, depth0, bound0 := nodes, live, depth, bound;
      AddBVHMember(location, name);
      assert IsBesideLeaf(nodes0, root, live0, index0 - {name}, t0, location, name);
      OrphanUnregistered(nodes0, depth0, live0, root, bound0, index0, nodes, depth, live, index, t0, tbm, location, name);
      if Consistent(nodes0, live0, index0) {
        OrphanReinserted(nodes0, depth0, live0, root, bound0, index0, nodes, depth, live, bound, index, t0, tbm, location, name);
      }
    }

    /** `getCollidingObjects`: the names of the objects whose boxes collide
        with `objectBox`. `hits` are their leaves: every live leaf whose box
        collides, each once. With every leaf registered, the names are exactly
        the colliding registered objects, without repetition. */
    method GetCollidingObjects(objectBox: AABB, collide: (AABB, AABB) -> bool) returns (collisions: seq<string>, ghost hits: seq<int>)
      requires Valid()
      ensures forall k | 0 <= k < |hits| :: 0 <= hits[k] < |nodes|
      ensures collisions == NamesOf(nodes, hits)
      ensures HitsOf(nodes, depth, live, root, objectBox, collide, hits)
      ensures root == Null ==> collisions == []
      ensures IsConsistent() ==>
        && (forall n :: n in collisions <==> n in Members() && collide(Members()[n], objectBox))
        && (forall k, m | 0 <= k < m < |collisions| :: collisions[k] != collisions[m])
    {
      collisions := GetCollisions(nodes, depth, live, root, bound, objectBox, collide, [], root);
      hits := Walk(nodes, depth, live, root, bound, root, objectBox, collide);
      WalkHits(nodes, depth, live, root, bound, root, objectBox, collide);
      if root == Null {
        assert forall j | j in hits :: false;
      }
      if IsConsistent() {
        QueryNames(nodes, depth, live, root, bound, index, objectBox, collide, hits);
      }
    }
  }
}
