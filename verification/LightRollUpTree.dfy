/** packages/tree/src/light-rollup-tree.ts: the tree object and its methods. */
module LightRollUpTrees {
  import opened Options
  import opened Bits
  import opened Hashers
  import opened MerkleProofs
  import opened LightTreeSpec
  import opened LightTreeProofs

  datatype BootstrapError = InvalidBootstrapProof | BehindDatabase
  datatype BootstrapResult<!T> = Bootstrapped(tree: LightRollUpTree<T>) | Refused(error: BootstrapError)

  class LightRollUpTree<T(==)> {
    const hasher: Hasher<T>
    const fullSync: bool
    const depth: nat
    var data: TreeData<T>
    // metadata
    var start: nat
    var end: nat
    // TreeNode rows of this tree
    var nodes: map<nat, T>

    constructor (hasher: Hasher<T>, fullSync: bool, st: TreeState<T>)
      requires |st.data.siblings| < |hasher.preHash|
      ensures Valid() && this.hasher == hasher && this.fullSync == fullSync && State() == st
    {
      this.hasher := hasher;
      this.fullSync := fullSync;
      this.depth := |st.data.siblings|;
      this.data := st.data;
      this.start := st.start;
      this.end := st.end;
      this.nodes := st.nodes;
    }

    ghost predicate Valid()
      reads this
    {
      |data.siblings| == depth < |hasher.preHash|
    }

    ghost function State(): TreeState<T>
      reads this
    {
      TreeState(data, start, end, nodes)
    }

    method DryAppend(items: seq<Leaf<T>>) returns (result: TreeData<T>)
      requires Valid()
      ensures result == AppendAll(hasher, data, Hashes(items))
    {
      var latestSiblings := data.siblings;
      var root := data.root;
      var index := data.index;
      for i := 0 to |items|
        invariant TreeData(root, index, latestSiblings) == AppendAll(hasher, data, Hashes(items)[..i])
      {
        var item := items[i];
        var leafIndex := OrBit(depth, index);
        var node := item.hash;
        ghost var siblings := latestSiblings;
        for level := 0 to depth
          invariant Walk(node, latestSiblings) == WalkTo(hasher, index, item.hash, siblings, level)
        {
          var pathIndex := Shr(leafIndex, level);
          if pathIndex % 2 == 0 {
            latestSiblings := latestSiblings[level := node];
            node := hasher.parentOf(node, hasher.preHash[level]);
          } else {
            node := hasher.parentOf(latestSiblings[level], node);
          }
        }
        root := node;
        index := index + 1;
        assert Hashes(items)[..i + 1][..i] == Hashes(items)[..i];
      }
      assert Hashes(items)[..|items|] == Hashes(items);
      result := TreeData(root, index, latestSiblings);
    }

    /** Whether `node` is the sibling of some tracked leaf's path. */
    method IsTracked(tracking: seq<nat>, node: nat) returns (tracked: bool)
      requires 0 < node < 2 * Pow2(depth)
      ensures tracked == ShouldTrack(depth, tracking, node)
    {
      for i := 0 to |tracking|
        invariant forall k :: 0 <= k < i ==> !IsPathSibling(depth, tracking[k], node)
      {
        NodeNotLongerThanLeaf(depth, tracking[i], node);
        var leafIndex := OrBit(depth, tracking[i]);
        var pathIndex := Shr(leafIndex, BitLength(leafIndex) - BitLength(node));
        if Xor1(pathIndex) == node { return true; }
      }
      return false;
    }

    /** The two conditional writes of one level of `_append`. */
    method CacheOneLevel(index: nat, level: nat, node: T, siblings: seq<T>, trackingLeaves: seq<nat>,
                         before: map<nat, T>)
      returns (cached: map<nat, T>)
      requires |siblings| == depth && index < Pow2(depth) && level < depth
      ensures cached == CacheLevel(depth, fullSync, trackingLeaves, index, level, Walk(node, siblings), before)
    {
      cached := before;
      PathInTree(depth, index, level);
      var pathIndex := Shr(OrBit(depth, index), level);
      var tracked := IsTracked(trackingLeaves, pathIndex);
      if fullSync || tracked { cached := cached[pathIndex := node]; }
      if index > 0 {
        PathInTree(depth, index - 1, level);
        var prevIndexPath := OrBit(depth, index - 1);
        var prevSibIndex := Xor1(Shr(prevIndexPath, level));
        tracked := IsTracked(trackingLeaves, prevSibIndex);
        if prevSibIndex % 2 == 0 && (fullSync || tracked) {
          cached := cached[prevSibIndex := siblings[level]];
        }
      }
    }

    /** The inner loop of `_append`: the path of one leaf, from the bottom up. */
    method WalkPath(index: nat, leaf: T, siblings: seq<T>, trackingLeaves: seq<nat>, before: map<nat, T>)
      returns (node: T, latestSiblings: seq<T>, cached: map<nat, T>)
      requires Valid() && |siblings| == depth && index < Pow2(depth)
      ensures Walk(node, latestSiblings) == WalkTo(hasher, index, leaf, siblings, depth)
      ensures cached == CacheTo(hasher, fullSync, trackingLeaves, index, leaf, siblings, before, depth)
    {
      var leafNodeIndex := OrBit(depth, index);
      node, latestSiblings, cached := leaf, siblings, before;
      for level := 0 to depth
        invariant Walk(node, latestSiblings) == WalkTo(hasher, index, leaf, siblings, level)
        invariant cached == CacheTo(hasher, fullSync, trackingLeaves, index, leaf, siblings, before, level)
      {
        var pathIndex := Shr(leafNodeIndex, level);
        cached := CacheOneLevel(index, level, node, latestSiblings, trackingLeaves, cached);
        if pathIndex % 2 == 0 {
          latestSiblings := latestSiblings[level := node];
          node := hasher.parentOf(node, hasher.preHash[level]);
        } else {
          node := hasher.parentOf(latestSiblings[level], node);
        }
      }
    }

    /** One turn of the outer loop of `_append`, the last leaf of `upTo`. */
    method WalkLeaf(index: nat, leaf: Leaf<T>, root: T, siblings: seq<T>, before: map<nat, T>, trackingLeaves: seq<nat>,
                    ghost observed: seq<nat>, ghost upTo: seq<Leaf<T>>)
      returns (node: T, latestSiblings: seq<T>, cached: map<nat, T>, tracking: seq<nat>)
      requires Valid() && upTo != [] && leaf == upTo[|upTo| - 1]
      requires index == data.index + |upTo| - 1 < Pow2(depth)
      requires BatchReached(hasher, fullSync, observed, data, upTo[..|upTo| - 1], TreeData(root, index, siblings),
                            trackingLeaves, before)
      ensures BatchReached(hasher, fullSync, observed, data, upTo, TreeData(node, index + 1, latestSiblings), tracking,
                           cached)
    {
      tracking := if leaf.shouldTrack then trackingLeaves + [index] else trackingLeaves;
      assert |siblings| == depth;
      node, latestSiblings, cached := WalkPath(index, leaf.hash, siblings, tracking, before);
      BatchWalked(hasher, fullSync, observed, data, upTo, TreeData(root, index, siblings), trackingLeaves, before,
                  Walk(node, latestSiblings), tracking);
    }

    /** The outer loop of `_append`. */
    method WalkAll(leaves: seq<Leaf<T>>, observed: seq<nat>)
      returns (root: T, latestSiblings: seq<T>, cached: map<nat, T>, trackingLeaves: seq<nat>)
      requires Valid() && data.index + |leaves| <= Pow2(depth)
      ensures BatchReached(hasher, fullSync, observed, data, leaves,
                           TreeData(root, data.index + |leaves|, latestSiblings), trackingLeaves, cached)
    {
      root, latestSiblings, cached, trackingLeaves := data.root, data.siblings, map[], observed;
      for i := 0 to |leaves|
        invariant BatchReached(hasher, fullSync, observed, data, leaves[..i],
                               TreeData(root, data.index + i, latestSiblings), trackingLeaves, cached)
      {
        ghost var upTo := leaves[..i + 1];
        assert upTo[..i] == leaves[..i];
        root, latestSiblings, cached, trackingLeaves :=
          WalkLeaf(i + data.index, leaves[i], root, latestSiblings, cached, trackingLeaves, observed, upTo);
      }
      assert leaves[..|leaves|] == leaves;
    }

    /** `observed` is what indexesOfTrackingLeaves() returns. */
    method Append(leaves: seq<Leaf<T>>, observed: seq<nat>) returns (result: TreeData<T>)
      requires Valid() && data.index + |leaves| <= Pow2(depth)
      modifies this
      ensures Valid() && State() == LightTreeSpec.Append(hasher, fullSync, observed, old(State()), leaves)
      ensures result == data
    {
      var first := data.index;
      var root, latestSiblings, cached, _ := WalkAll(leaves, observed);
      data := TreeData(root, first + |leaves|, latestSiblings);
      end := first + |leaves|;
      nodes := nodes + cached;
      result := data;
    }

    method GetStartingLeafProof() returns (result: TreeData<T>)
      requires Valid()
      ensures result == TreeData(data.root, data.index, Normalised(hasher, data))
    {
      var siblings := data.siblings;
      var path := data.index;
      for i := 0 to depth
        invariant |siblings| == depth && path == Shr(data.index, i)
        invariant forall l :: 0 <= l < i ==> siblings[l] == Normalised(hasher, data)[l]
        invariant forall l :: i <= l < depth ==> siblings[l] == data.siblings[l]
      {
        if path % 2 == 0 { siblings := siblings[i := hasher.preHash[i]]; }
        path := path / 2;
      }
      assert siblings == Normalised(hasher, data);
      result := TreeData(data.root, data.index, siblings);
    }

    /** TreeCache.getCachedSiblings: the stored rows among the siblings of one path, unless the index has the bit that
        marks leaves. */
    method GetCachedSiblings(leafIndex: nat) returns (result: Option<map<nat, T>>)
      ensures result.None? <==> OrBit(depth, leafIndex) <= leafIndex
      ensures result.Some? ==> IsRowsOfSiblings(leafIndex, result.value)
    {
      if OrBit(depth, leafIndex) <= leafIndex { return None; }
      var rows := map[];
      for level := 0 to depth
        invariant forall k :: k in rows ==> k in nodes && rows[k] == nodes[k]
        invariant forall k :: k in rows ==> exists l :: 0 <= l < level && k == SiblingIndex(depth, leafIndex, l)
        invariant forall l :: 0 <= l < level && SiblingIndex(depth, leafIndex, l) in nodes ==>
          SiblingIndex(depth, leafIndex, l) in rows
      {
        var siblingIndex := SiblingIndex(depth, leafIndex, level);
        if siblingIndex in nodes { rows := rows[siblingIndex := nodes[siblingIndex]]; }
      }
      return Some(rows);
    }

    /** The stored rows among the siblings of one path, all of them and no others. */
    ghost predicate IsRowsOfSiblings(leafIndex: nat, rows: map<nat, T>)
      reads this
    {
      && (forall k :: k in rows ==> k in nodes && rows[k] == nodes[k])
      && (forall k :: k in rows ==> exists l :: 0 <= l < depth && k == SiblingIndex(depth, leafIndex, l))
      && (forall l :: 0 <= l < depth && SiblingIndex(depth, leafIndex, l) in nodes ==>
            SiblingIndex(depth, leafIndex, l) in rows)
    }

    method GetSiblings(leafIndex: nat) returns (result: Option<seq<T>>)
      requires Valid()
      ensures result == if OrBit(depth, leafIndex) <= leafIndex then None
                        else Some(SiblingsOf(hasher, depth, end, nodes, leafIndex))
    {
      var cached := GetCachedSiblings(leafIndex);
      if cached.None? { return None; }
      var cachedSiblings := cached.value;
      var siblings := [];
      var leafNodeIndex := OrBit(depth, leafIndex);
      for level := 0 to depth
        invariant |siblings| == level
        invariant forall l :: 0 <= l < level ==> siblings[l] == SiblingAt(hasher, depth, end, nodes, leafIndex, l)
      {
        var pathNodeIndex := Shr(leafNodeIndex, level);
        var siblingNodeIndex := Xor1(pathNodeIndex);
        assert siblingNodeIndex == SiblingIndex(depth, leafIndex, level);
        var usePreHashed := siblingNodeIndex > Shr(OrBit(depth, end), level);
        if usePreHashed {
          siblings := siblings + [hasher.preHash[level]];
        } else if siblingNodeIndex !in cachedSiblings {
          siblings := siblings + [hasher.preHash[level]];
        } else {
          siblings := siblings + [cachedSiblings[siblingNodeIndex]];
        }
      }
      assert siblings == SiblingsOf(hasher, depth, end, nodes, leafIndex);
      return Some(siblings);
    }

    method MerkleProofFor(hash: T, index: nat) returns (result: ProofResult<T>)
      requires Valid()
      ensures result == ProofOf(hasher, State(), hash, index)
    {
      var siblings := GetSiblings(index);
      if siblings.None? { return Failed(LeafIndexOutOfRange); }
      if start > index || end <= index { return Failed(NotInRange); }
      var proof := MerkleProof(data.root, index, hash, siblings.value);
      var ok := VerifyProof(hasher, proof);
      if !ok { return Failed(InvalidProof); }
      return Proved(proof);
    }

    /** initTreeFromDatabase: `existingIndex` is the index of the tree already in the database, zero if there is none,
        and `table` holds the node rows already there. */
    static method Bootstrap(hasher: Hasher<T>, fullSync: bool, forceUpdate: bool, existingIndex: nat,
                            data: TreeData<T>, table: map<nat, T>) returns (result: BootstrapResult<T>)
      requires |data.siblings| < |hasher.preHash|
      ensures !IsStartingLeafProof(hasher, data.root, data.index, data.siblings) ==>
        result == Refused(InvalidBootstrapProof)
      ensures IsStartingLeafProof(hasher, data.root, data.index, data.siblings) ==>
        if !forceUpdate && data.index <= existingIndex then result == Refused(BehindDatabase)
        else
          && result.Bootstrapped? && fresh(result.tree) && result.tree.Valid()
          && result.tree.hasher == hasher && result.tree.fullSync == fullSync
          && result.tree.State() == Resumed(data.root, data.index, data.siblings, table)
    {
      var ok := StartingLeafProof(hasher, data.root, data.index, data.siblings);
      if !ok { return Refused(InvalidBootstrapProof); }
      if !forceUpdate && data.index <= existingIndex { return Refused(BehindDatabase); }
      var tree := new LightRollUpTree(hasher, fullSync, Resumed(data.root, data.index, data.siblings, table));
      return Bootstrapped(tree);
    }
  }
}
