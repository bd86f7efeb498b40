/** The two rewirings of the tree, stated on arena values: splitting a leaf
    into a branch when an object is inserted, and promoting a sibling when a
    leaf is removed. Each lemma shows the rewiring keeps the structure linked
    and says which box invariants hold right after it, before the refit. */
module Surgery {
  import opened Geometry
  import opened Nodes
  import opened Refit

  /** The node that replaces child `was` of branch `b` by `now`, on the same side. */
  function ReplaceChild(b: Node, was: int, now: int): Node
  {
    if b.leftChild == was then b.(leftChild := now) else b.(rightChild := now)
  }

  /** The insertion rewiring: leaf `t`, child of `p`, is replaced on the same
      side by a fresh branch at slot N+2 whose left child is the new leaf (slot
      N) and whose right child is a copy of `t` (slot N+1). */
  ghost predicate IsLeafSplit(before: seq<Node>, after: seq<Node>, t: int, box: AABB, name: string)
  {
    var N := |before|;
    && 0 <= t < N
    && var p := before[t].parent;
    && 0 <= p < N
    && |after| == N + 3
    && (forall i | 0 <= i < N && i != p :: after[i] == before[i])
    && after[p] == ReplaceChild(before[p], t, N + 2)
    && after[N] == Node(box, name, true, N + 2, Null, Null)
    && after[N + 1] == Node(before[t].aabb, before[t].name, true, N + 2, Null, Null)
    && after[N + 2] == Node(Union(before[t].aabb, box), "branch", false, p, N, N + 1)
  }

  /** The arena slots in the tree after a leaf split: the split leaf leaves,
      the three new nodes join. */
  function SplitLive(live: set<int>, t: int, N: int): set<int>
  {
    live - {t} + {N, N + 1, N + 2}
  }

  /** Splitting a live leaf other than the root keeps the tree linked: the new
      branch sits one level where the leaf was, its two leaves one below. */
  lemma SplitLeafKeepsLinks(before: seq<Node>, depth: seq<nat>, live: set<int>, root: int, bound: nat,
                            after: seq<Node>, t: int, box: AABB, name: string)
    requires Linked(before, depth, live, root, bound)
    requires t in live && t != root && before[t].isLeaf
    requires IsLeafSplit(before, after, t, box, name)
    ensures Linked(after, depth + [depth[t] + 1, depth[t] + 1, depth[t]], SplitLive(live, t, |before|), root,
                   if bound < depth[t] + 1 then depth[t] + 1 else bound)
  {
    var N := |before|;
    var depth' := depth + [depth[t] + 1, depth[t] + 1, depth[t]];
    var live' := SplitLive(live, t, N);
    var bound' := if bound < depth[t] + 1 then depth[t] + 1 else bound;
    forall i | i in live' ensures NodeLinked(after, depth', live', root, i) && depth'[i] <= bound' {
      SplitLeafNodeLinked(before, depth, live, root, bound, after, t, box, name, i);
    }
  }

  lemma SplitLeafNodeLinked(before: seq<Node>, depth: seq<nat>, live: set<int>, root: int, bound: nat,
                            after: seq<Node>, t: int, box: AABB, name: string, i: int)
    requires Linked(before, depth, live, root, bound)
    requires t in live && t != root && before[t].isLeaf
    requires IsLeafSplit(before, after, t, box, name)
    requires i in SplitLive(live, t, |before|)
    ensures var depth' := depth + [depth[t] + 1, depth[t] + 1, depth[t]];
      NodeLinked(after, depth', SplitLive(live, t, |before|), root, i) &&
      depth'[i] <= if bound < depth[t] + 1 then depth[t] + 1 else bound
  {
    var N := |before|;
    var p := before[t].parent;
    var depth' := depth + [depth[t] + 1, depth[t] + 1, depth[t]];
    var live' := SplitLive(live, t, N);
    assert NodeLinked(before, depth, live, root, t);
    assert NodeLinked(before, depth, live, root, p);
    if i >= N {
      assert p in live';
      assert depth'[p] == depth[p];
    } else if i == p {
      SplitLeafParentLinked(before, depth, live, root, bound, after, t, box, name);
    } else {
      assert NodeLinked(before, depth, live, root, i);
      SplitLeafOtherLinked(before, depth, live, root, bound, after, t, box, name, i);
    }
  }

  lemma SplitLeafParentLinked(before: seq<Node>, depth: seq<nat>, live: set<int>, root: int, bound: nat,
                              after: seq<Node>, t: int, box: AABB, name: string)
    requires Linked(before, depth, live, root, bound)
    requires t in live && t != root && before[t].isLeaf
    requires IsLeafSplit(before, after, t, box, name)
    ensures NodeLinked(after, depth + [depth[t] + 1, depth[t] + 1, depth[t]], SplitLive(live, t, |before|), root, before[t].parent)
  {
    var N := |before|;
    var p := before[t].parent;
    var depth' := depth + [depth[t] + 1, depth[t] + 1, depth[t]];
    var live' := SplitLive(live, t, N);
    assert NodeLinked(before, depth, live, root, t);
    assert NodeLinked(before, depth, live, root, p);
    if p != root {
      var q := before[p].parent;
      assert NodeLinked(before, depth, live, root, q);
      assert q != t && q != p && q < N;
      assert after[q] == before[q];
      assert q in live';
      assert depth'[q] == depth[q] && depth'[p] == depth[p];
    }
    var s := if before[p].leftChild == t then before[p].rightChild else before[p].leftChild;
    assert NodeLinked(before, depth, live, root, s);
    assert s in live' && s < N && s != p && after[s] == before[s];
    assert N + 2 in live';
  }

  lemma SplitLeafOtherLinked(before: seq<Node>, depth: seq<nat>, live: set<int>, root: int, bound: nat,
                             after: seq<Node>, t: int, box: AABB, name: string, i: int)
    requires Linked(before, depth, live, root, bound)
    requires t in live && t != root && before[t].isLeaf
    requires IsLeafSplit(before, after, t, box, name)
    requires i in live && i != t && i != before[t].parent
    ensures NodeLinked(after, depth + [depth[t] + 1, depth[t] + 1, depth[t]], SplitLive(live, t, |before|), root, i)
  {
    var N := |before|;
    var p := before[t].parent;
    var depth' := depth + [depth[t] + 1, depth[t] + 1, depth[t]];
    var live' := SplitLive(live, t, N);
    assert NodeLinked(before, depth, live, root, t);
    assert NodeLinked(before, depth, live, root, i);
    assert after[i] == before[i] && depth'[i] == depth[i];
    if i != root {
      var q := before[i].parent;
      assert NodeLinked(before, depth, live, root, q);
      assert q != t && q in live' && depth'[q] == depth[q];
      if q == p {
        assert after[p] == ReplaceChild(before[p], t, N + 2);
      } else {
        assert after[q] == before[q];
      }
    }
    if !before[i].isLeaf {
      var l, r := before[i].leftChild, before[i].rightChild;
      assert NodeLinked(before, depth, live, root, l);
      assert NodeLinked(before, depth, live, root, r);
      assert l != t && r != t;
      assert l in live' && r in live';
      assert after[l].parent == before[l].parent;
      assert after[r].parent == before[r].parent;
    }
  }

  /** Right after the split every branch still encloses its children, except
      the parent over the new branch. */
  lemma SplitLeafCovers(before: seq<Node>, depth: seq<nat>, live: set<int>, root: int, bound: nat,
                        after: seq<Node>, t: int, box: AABB, name: string)
    requires Linked(before, depth, live, root, bound) && Covered(before, live)
    requires t in live && t != root && before[t].isLeaf
    requires IsLeafSplit(before, after, t, box, name)
    ensures CoveredExcept(after, SplitLive(live, t, |before|), |before| + 2)
  {
    var N := |before|;
    forall i | i in SplitLive(live, t, N) && 0 <= i < |after| && !after[i].isLeaf
      ensures (after[i].leftChild != N + 2 ==> ChildCovered(after, i, after[i].leftChild))
           && (after[i].rightChild != N + 2 ==> ChildCovered(after, i, after[i].rightChild))
    {
      if i < N {
        assert NodeLinked(before, depth, live, root, i);
        assert ChildCovered(before, i, before[i].leftChild) && ChildCovered(before, i, before[i].rightChild);
        if before[i].leftChild == t || before[i].rightChild == t {
          assert NodeLinked(before, depth, live, root, t);
        }
      }
    }
  }

  /** A tight tree stays tight after the split except at the parent `p` of the
      new branch, and `p` becomes exact once the new branch's box is merged
      into it. */
  lemma SplitLeafKeepsTight(before: seq<Node>, depth: seq<nat>, live: set<int>, root: int, bound: nat,
                            after: seq<Node>, t: int, box: AABB, name: string)
    requires Linked(before, depth, live, root, bound) && Tight(before, live)
    requires t in live && t != root && before[t].isLeaf
    requires IsLeafSplit(before, after, t, box, name)
    ensures var p := before[t].parent; var N := |before|;
      && TightExcept(after, SplitLive(live, t, N), p)
      && 0 <= after[p].leftChild < |after| && 0 <= after[p].rightChild < |after|
      && Union(after[p].aabb, after[N + 2].aabb) == Union(after[after[p].leftChild].aabb, after[after[p].rightChild].aabb)
  {
    SplitLeafTightElsewhere(before, depth, live, root, bound, after, t, box, name);
    SplitLeafParentGap(before, depth, live, root, bound, after, t, box, name);
  }

  /** Below and beside the split, every branch but the parent stays exact. */
  lemma SplitLeafTightElsewhere(before: seq<Node>, depth: seq<nat>, live: set<int>, root: int, bound: nat,
                                after: seq<Node>, t: int, box: AABB, name: string)
    requires Linked(before, depth, live, root, bound) && Tight(before, live)
    requires t in live && t != root && before[t].isLeaf
    requires IsLeafSplit(before, after, t, box, name)
    ensures TightExcept(after, SplitLive(live, t, |before|), before[t].parent)
  {
    var N := |before|;
    var p := before[t].parent;
    assert NodeLinked(before, depth, live, root, t);
    forall i | i in SplitLive(live, t, N) && 0 <= i < |after| && !after[i].isLeaf && i != p
      ensures ExactUnion(after, i)
    {
      if i < N {
        assert NodeLinked(before, depth, live, root, i);
        assert ExactUnion(before, i);
      }
    }
  }

  /** The parent of the split leaf lacks exactly the new box. */
  lemma SplitLeafParentGap(before: seq<Node>, depth: seq<nat>, live: set<int>, root: int, bound: nat,
                           after: seq<Node>, t: int, box: AABB, name: string)
    requires Linked(before, depth, live, root, bound) && Tight(before, live)
    requires t in live && t != root && before[t].isLeaf
    requires IsLeafSplit(before, after, t, box, name)
    ensures var p := before[t].parent; var N := |before|;
      && 0 <= after[p].leftChild < |after| && 0 <= after[p].rightChild < |after|
      && Union(after[p].aabb, after[N + 2].aabb) == Union(after[after[p].leftChild].aabb, after[after[p].rightChild].aabb)
  {
    var p := before[t].parent;
    assert NodeLinked(before, depth, live, root, t);
    assert NodeLinked(before, depth, live, root, p);
    var s := if before[p].leftChild == t then before[p].rightChild else before[p].leftChild;
    var bt, bs := before[t].aabb, before[s].aabb;
    assert ExactUnion(before, p);
    UnionAssociates(bs, bt, box);
    UnionCommutes(bs, bt);
    UnionAssociates(bt, bs, Union(bt, box));
    UnionAssociates(bt, bt, box);
    UnionCommutes(bs, Union(bt, box));
    UnionCommutes(bt, bs);
  }

  /** The removal rewiring: the removed leaf's parent `temp` leaves the tree
      and its other child `sib` takes `temp`'s slot under `anc`, on the same
      side, pointing back at `anc`. */
  ghost predicate IsPromotion(before: seq<Node>, after: seq<Node>, tbr: int)
  {
    && 0 <= tbr < |before|
    && var temp := before[tbr].parent;
    && 0 <= temp < |before|
    && var anc := before[temp].parent;
    && var sib := if before[temp].leftChild == tbr then before[temp].rightChild else before[temp].leftChild;
    && 0 <= anc < |before| && 0 <= sib < |before|
    && |after| == |before|
    && (forall i | 0 <= i < |before| && i != anc && i != sib :: after[i] == before[i])
    && after[anc] == ReplaceChild(before[anc], temp, sib)
    && after[sib] == before[sib].(parent := anc)
  }

  /** Promoting the sibling of a removed leaf whose parent is not the root
      keeps the tree linked without the leaf and its parent. */
  lemma PromotionKeepsLinks(before: seq<Node>, depth: seq<nat>, live: set<int>, root: int, bound: nat,
                            after: seq<Node>, tbr: int)
    requires Linked(before, depth, live, root, bound)
    requires tbr in live && tbr != root && before[tbr].isLeaf
    requires before[tbr].parent != root
    requires IsPromotion(before, after, tbr)
    ensures Linked(after, depth, live - {tbr, before[tbr].parent}, root, bound)
  {
    var temp := before[tbr].parent;
    var live' := live - {tbr, temp};
    forall i | i in live' ensures NodeLinked(after, depth, live', root, i) && depth[i] <= bound {
      PromotionNodeLinked(before, depth, live, root, bound, after, tbr, i);
    }
  }

  lemma PromotionNodeLinked(before: seq<Node>, depth: seq<nat>, live: set<int>, root: int, bound: nat,
                            after: seq<Node>, tbr: int, i: int)
    requires Linked(before, depth, live, root, bound)
    requires tbr in live && tbr != root && before[tbr].isLeaf
    requires before[tbr].parent != root
    requires IsPromotion(before, after, tbr)
    requires i in live - {tbr, before[tbr].parent}
    ensures NodeLinked(after, depth, live - {tbr, before[tbr].parent}, root, i) && depth[i] <= bound
  {
    var temp := before[tbr].parent;
    assert NodeLinked(before, depth, live, root, tbr);
    assert NodeLinked(before, depth, live, root, temp);
    var anc := before[temp].parent;
    var sib := if before[temp].leftChild == tbr then before[temp].rightChild else before[temp].leftChild;
    assert NodeLinked(before, depth, live, root, i);
    if i == anc {
      PromotionAncestorLinked(before, depth, live, root, bound, after, tbr);
    } else if i == sib {
      PromotionSiblingLinked(before, depth, live, root, bound, after, tbr);
    } else {
      PromotionOtherLinked(before, depth, live, root, bound, after, tbr, i);
    }
  }

  lemma PromotionAncestorLinked(before: seq<Node>, depth: seq<nat>, live: set<int>, root: int, bound: nat,
                                after: seq<Node>, tbr: int)
    requires Linked(before, depth, live, root, bound)
    requires tbr in live && tbr != root && before[tbr].isLeaf
    requires before[tbr].parent != root
    requires IsPromotion(before, after, tbr)
    ensures NodeLinked(after, depth, live - {tbr, before[tbr].parent}, root, before[before[tbr].parent].parent)
  {
    var temp := before[tbr].parent;
    var live' := live - {tbr, temp};
    assert NodeLinked(before, depth, live, root, tbr);
    assert NodeLinked(before, depth, live, root, temp);
    var anc := before[temp].parent;
    var sib := if before[temp].leftChild == tbr then before[temp].rightChild else before[temp].leftChild;
    assert NodeLinked(before, depth, live, root, anc);
    assert NodeLinked(before, depth, live, root, sib);
    var other := if before[anc].leftChild == temp then before[anc].rightChild else before[anc].leftChild;
    assert NodeLinked(before, depth, live, root, other);
    assert other != sib && other != tbr && other != temp;
    assert after[other] == before[other];
    if anc != root {
      var q := before[anc].parent;
      assert NodeLinked(before, depth, live, root, q);
      assert q != sib && q != anc && q != temp && q != tbr;
      assert after[q] == before[q];
    }
  }

  lemma PromotionSiblingLinked(before: seq<Node>, depth: seq<nat>, live: set<int>, root: int, bound: nat,
                               after: seq<Node>, tbr: int)
    requires Linked(before, depth, live, root, bound)
    requires tbr in live && tbr != root && before[tbr].isLeaf
    requires before[tbr].parent != root
    requires IsPromotion(before, after, tbr)
    ensures var temp := before[tbr].parent;
      NodeLinked(after, depth, live - {tbr, temp}, root,
                 if before[temp].leftChild == tbr then before[temp].rightChild else before[temp].leftChild)
  {
    var temp := before[tbr].parent;
    assert NodeLinked(before, depth, live, root, tbr);
    assert NodeLinked(before, depth, live, root, temp);
    var anc := before[temp].parent;
    var sib := if before[temp].leftChild == tbr then before[temp].rightChild else before[temp].leftChild;
    assert NodeLinked(before, depth, live, root, anc);
    assert NodeLinked(before, depth, live, root, sib);
    assert sib != anc && sib != root;
    if !before[sib].isLeaf {
      var l, r := before[sib].leftChild, before[sib].rightChild;
      assert NodeLinked(before, depth, live, root, l);
      assert NodeLinked(before, depth, live, root, r);
      assert l != anc && r != anc && l != sib && r != sib && l != tbr && r != tbr && l != temp && r != temp;
      assert after[l] == before[l] && after[r] == before[r];
    }
  }

  lemma PromotionOtherLinked(before: seq<Node>, depth: seq<nat>, live: set<int>, root: int, bound: nat,
                             after: seq<Node>, tbr: int, i: int)
    requires Linked(before, depth, live, root, bound)
    requires tbr in live && tbr != root && before[tbr].isLeaf
    requires before[tbr].parent != root
    requires IsPromotion(before, after, tbr)
    requires var temp := before[tbr].parent;
      i in live - {tbr, temp} && i != before[temp].parent &&
      i != (if before[temp].leftChild == tbr then before[temp].rightChild else before[temp].leftChild)
    ensures NodeLinked(after, depth, live - {tbr, before[tbr].parent}, root, i)
  {
    var temp := before[tbr].parent;
    assert NodeLinked(before, depth, live, root, tbr);
    assert NodeLinked(before, depth, live, root, temp);
    var anc := before[temp].parent;
    var sib := if before[temp].leftChild == tbr then before[temp].rightChild else before[temp].leftChild;
    assert NodeLinked(before, depth, live, root, i);
    assert after[i] == before[i];
    if i != root {
      var q := before[i].parent;
      assert NodeLinked(before, depth, live, root, q);
      assert q != temp && q != tbr;
      if q == anc {
        assert after[anc] == ReplaceChild(before[anc], temp, sib);
      } else if q == sib {
        assert after[sib] == before[sib].(parent := anc);
      } else {
        assert after[q] == before[q];
      }
    }
    if !before[i].isLeaf {
      var l, r := before[i].leftChild, before[i].rightChild;
      assert NodeLinked(before, depth, live, root, l);
      assert NodeLinked(before, depth, live, root, r);
      assert l != tbr && r != tbr && l != temp && r != temp && l != sib && r != sib;
      assert after[l].parent == before[l].parent;
      assert after[r].parent == before[r].parent;
    }
  }

  /** The promoted sibling is still enclosed by its new parent, which enclosed
      the old one: every branch keeps covering its children. */
  lemma PromotionCovers(before: seq<Node>, depth: seq<nat>, live: set<int>, root: int, bound: nat,
                        after: seq<Node>, tbr: int)
    requires Linked(before, depth, live, root, bound) && Covered(before, live)
    requires tbr in live && tbr != root && before[tbr].isLeaf
    requires before[tbr].parent != root
    requires IsPromotion(before, after, tbr)
    ensures Covered(after, live - {tbr, before[tbr].parent})
  {
    var temp := before[tbr].parent;
    assert NodeLinked(before, depth, live, root, tbr);
    assert NodeLinked(before, depth, live, root, temp);
    var anc := before[temp].parent;
    var sib := if before[temp].leftChild == tbr then before[temp].rightChild else before[temp].leftChild;
    assert NodeLinked(before, depth, live, root, anc);
    forall i | i in live - {tbr, temp} && 0 <= i < |after| && !after[i].isLeaf
      ensures ChildCovered(after, i, after[i].leftChild) && ChildCovered(after, i, after[i].rightChild)
    {
      assert NodeLinked(before, depth, live, root, i);
      assert ChildCovered(before, i, before[i].leftChild) && ChildCovered(before, i, before[i].rightChild);
      if i == anc {
        assert ChildCovered(before, temp, sib);
        CoveredTransitive(before[sib].aabb, before[temp].aabb, before[anc].aabb);
      }
    }
  }

  /** After the promotion every branch but `anc` is as exact as before. */
  lemma PromotionKeepsTight(before: seq<Node>, depth: seq<nat>, live: set<int>, root: int, bound: nat,
                            after: seq<Node>, tbr: int)
    requires Linked(before, depth, live, root, bound) && Tight(before, live)
    requires tbr in live && tbr != root && before[tbr].isLeaf
    requires before[tbr].parent != root
    requires IsPromotion(before, after, tbr)
    ensures TightExcept(after, live - {tbr, before[tbr].parent}, before[before[tbr].parent].parent)
  {
    var temp := before[tbr].parent;
    assert NodeLinked(before, depth, live, root, tbr);
    assert NodeLinked(before, depth, live, root, temp);
    var anc := before[temp].parent;
    forall i | i in live - {tbr, temp} && 0 <= i < |after| && !after[i].isLeaf && i != anc
      ensures ExactUnion(after, i)
    {
      assert NodeLinked(before, depth, live, root, i);
      assert ExactUnion(before, i);
    }
  }
}
