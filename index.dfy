/** The name map of the tree (`map` in `BVHTree`, from an object's name to
    its leaf) and how the rewirings of module Surgery carry it along. */
module Index {
  import opened Geometry
  import opened Nodes
  import opened Surgery

  /** Every entry of the name map leads to a live leaf carrying that name. */
  ghost predicate IndexOk(nodes: seq<Node>, live: set<int>, index: map<string, int>)
  {
    forall n | n in index ::
      index[n] in live && 0 <= index[n] < |nodes| && nodes[index[n]].isLeaf && nodes[index[n]].name == n
  }

  /** Every live leaf is registered under its name: the map and the leaves of
      the tree are in one-to-one correspondence. */
  ghost predicate Consistent(nodes: seq<Node>, live: set<int>, index: map<string, int>)
  {
    forall i | i in live && 0 <= i < |nodes| && nodes[i].isLeaf ::
      nodes[i].name in index && index[nodes[i].name] == i
  }

  /** The objects the tree holds, as the name map sees them: each name with
      the box of its leaf. */
  ghost function MembersOf(nodes: seq<Node>, index: map<string, int>): map<string, AABB>
  {
    map n | n in index && 0 <= index[n] < |nodes| :: nodes[index[n]].aabb
  }

  /** Splitting leaf `t` for a new object, and registering the new leaf and
      the copy of `t` under their names, keeps the name map sound; and when
      the map was complete and the name was new, the map stays complete and
      the tree holds the same objects plus the new one. */
  lemma SplitKeepsIndex(before: seq<Node>, depth: seq<nat>, live: set<int>, root: int, bound: nat,
                        after: seq<Node>, t: int, box: AABB, name: string, index: map<string, int>)
    requires Linked(before, depth, live, root, bound) && IndexOk(before, live, index)
    requires t in live && t != root && before[t].isLeaf
    requires IsLeafSplit(before, after, t, box, name)
    ensures var N := |before|;
      var index' := index[name := N][before[t].name := N + 1];
      && IndexOk(after, SplitLive(live, t, N), index')
      && (Consistent(before, live, index) && name !in index ==>
            && Consistent(after, SplitLive(live, t, N), index')
            && MembersOf(after, index') == MembersOf(before, index)[name := box])
  {
    var N := |before|;
    var p := before[t].parent;
    var live' := SplitLive(live, t, N);
    var index' := index[name := N][before[t].name := N + 1];
    assert NodeLinked(before, depth, live, root, t);
    forall n | n in index'
      ensures index'[n] in live' && 0 <= index'[n] < |after| && after[index'[n]].isLeaf && after[index'[n]].name == n
    {
      if n != name && n != before[t].name {
        assert index[n] != p;
      }
    }
    if Consistent(before, live, index) && name !in index {
      assert index[before[t].name] == t;
      forall i | i in live' && 0 <= i < |after| && after[i].isLeaf
        ensures after[i].name in index' && index'[after[i].name] == i
      {
        if i < N {
          assert i != p;
          assert after[i] == before[i];
        }
      }
      var m, m' := MembersOf(before, index)[name := box], MembersOf(after, index');
      assert m.Keys == m'.Keys;
      forall n | n in m ensures m[n] == m'[n] {
        if n != name && n != before[t].name {
          assert index[n] != p;
        }
      }
    }
  }

  /** Promoting the sibling of a removed leaf, and dropping the leaf's name,
      keeps the name map sound; a complete map stays complete and now holds
      every object but the removed one. */
  lemma PromotionKeepsIndex(before: seq<Node>, depth: seq<nat>, live: set<int>, root: int, bound: nat,
                            after: seq<Node>, tbr: int, name: string, index: map<string, int>)
    requires Linked(before, depth, live, root, bound) && IndexOk(before, live, index)
    requires name in index && index[name] == tbr && tbr != root && before[tbr].parent != root
    requires IsPromotion(before, after, tbr)
    ensures var live' := live - {tbr, before[tbr].parent};
      && IndexOk(after, live', index - {name})
      && (Consistent(before, live, index) ==>
            && Consistent(after, live', index - {name})
            && MembersOf(after, index - {name}) == MembersOf(before, index) - {name})
  {
    var temp := before[tbr].parent;
    var anc := before[temp].parent;
    var live' := live - {tbr, temp};
    assert NodeLinked(before, depth, live, root, tbr);
    assert NodeLinked(before, depth, live, root, temp);
    // every node keeps its box, name and kind; only the ancestor and the sibling are relinked
    assert forall i | 0 <= i < |before| :: after[i].aabb == before[i].aabb && after[i].name == before[i].name && after[i].isLeaf == before[i].isLeaf;
    var m, m' := MembersOf(before, index) - {name}, MembersOf(after, index - {name});
    assert m.Keys == m'.Keys;
  }

  /** The name map looks only at leaves: an update that keeps the links and
      every live leaf keeps what the map says. */
  lemma IndexFollowsLeaves(a: seq<Node>, b: seq<Node>, live: set<int>, index: map<string, int>)
    requires SameLinks(a, b) && IndexOk(a, live, index)
    requires forall i | i in live && 0 <= i < |a| && a[i].isLeaf :: b[i] == a[i]
    ensures IndexOk(b, live, index)
    ensures Consistent(a, live, index) ==> Consistent(b, live, index)
    ensures MembersOf(b, index) == MembersOf(a, index)
  {
    assert forall i | 0 <= i < |a| :: a[i].(aabb := b[i].aabb) == b[i];
    if Consistent(a, live, index) {
      forall i | i in live && 0 <= i < |b| && b[i].isLeaf
        ensures b[i].name in index && index[b[i].name] == i
      {
        assert a[i].(aabb := b[i].aabb) == b[i];
      }
    }
  }

  /** Two maps over the same names that agree on every entry's box except
      `name`'s: the objects are the same, with `name` given the box `v`. */
  lemma MembersUpdated(before: seq<Node>, after: seq<Node>, index0: map<string, int>, index': map<string, int>,
                       name: string, v: AABB)
    requires forall n :: n in index' <==> n in index0
    requires forall n | n in index0 :: 0 <= index0[n] < |before| && 0 <= index'[n] < |after|
    requires name in index0 && after[index'[name]].aabb == v
    requires forall n | n in index0 && n != name :: after[index'[n]].aabb == before[index0[n]].aabb
    ensures name in MembersOf(before, index0)
    ensures MembersOf(after, index') == MembersOf(before, index0)[name := v]
  {
  }
}
