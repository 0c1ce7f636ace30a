/** packages/tree/src/nullifier-tree.ts: the tree object and its methods. */
module NullifierTrees {
  import opened Options
  import opened Bits
  import opened Hashers
  import opened FullTree
  import opened MerkleProofs
  import opened NullifierSpec
  import opened NullifierTheorems

  class NullifierTree<T(==)> {
    const hasher: Hasher<T>
    const depth: nat
    const filled: T
    var rootNode: Option<T>
    // TreeNode rows of this tree
    var nodes: map<nat, T>

    constructor (hasher: Hasher<T>, depth: nat, filled: T, nodes: map<nat, T>)
      requires |hasher.preHash| == depth + 1 && forall k :: k in nodes ==> k < 2 * Pow2(depth)
      ensures Valid() && this.hasher == hasher && this.depth == depth && this.filled == filled
      ensures State() == SmtState(nodes, None)
    {
      this.hasher := hasher;
      this.depth := depth;
      this.filled := filled;
      this.rootNode := None;
      this.nodes := nodes;
    }

    /** The rows of this tree are nodes of this tree. */
    ghost predicate Valid()
      reads this
    {
      |hasher.preHash| == depth + 1 && InTree(nodes)
    }

    ghost predicate InTree(rows: map<nat, T>) {
      forall k :: k in rows ==> k < 2 * Pow2(depth)
    }

    ghost function State(): SmtState<T>
      reads this
    {
      SmtState(nodes, rootNode)
    }

    /** Loads the root on first use; the answer and its meaning do not change, and it is the root of the set the rows
        stand for. */
    method GetRootNode() returns (root: T)
      requires Valid()
      modifies this`rootNode
      ensures root == old(CurrentRoot(hasher, State())) && rootNode == Some(root)
      ensures forall members :: NullifierSpec.Represents(hasher, depth, filled, old(State()), members) ==>
        root == RootOf(hasher, MemberFn(hasher, filled, members), depth)
    {
      if rootNode.None? {
        rootNode := Some(if 1 in nodes then nodes[1] else GenesisRoot(hasher));
      }
      root := rootNode.value;
    }

    /** Node `key` is the level-l sibling of one of the first n paths. */
    ghost predicate IsSibling(leaves: seq<LeafUpdate>, n: nat, key: nat)
      requires n <= |leaves|
    {
      exists i, l :: 0 <= i < n && 0 <= l < depth && key == SiblingIndex(depth, leaves[i].index, l)
    }

    /** The stored rows among the siblings of all the given paths, all of them and no others. */
    method GetSiblingNodes(leaves: seq<LeafUpdate>) returns (rows: map<nat, T>)
      ensures forall k :: k in rows ==> k in nodes && rows[k] == nodes[k] && IsSibling(leaves, |leaves|, k)
      ensures forall i, l :: 0 <= i < |leaves| && 0 <= l < depth ==>
        Covers(rows, SiblingIndex(depth, leaves[i].index, l))
    {
      rows := map[];
      for i := 0 to |leaves|
        invariant forall k :: k in rows ==> k in nodes && rows[k] == nodes[k] && IsSibling(leaves, i, k)
        invariant forall j, l :: 0 <= j < i && 0 <= l < depth ==> Covers(rows, SiblingIndex(depth, leaves[j].index, l))
      {
        var before := rows;
        assert forall k :: IsSibling(leaves, i, k) ==> IsSibling(leaves, i + 1, k);
        rows := AddSiblingNodes(leaves[i].index, before);
      }
    }

    /** The paths of one leaf. */
    method AddSiblingNodes(index: nat, before: map<nat, T>) returns (rows: map<nat, T>)
      requires forall k :: k in before ==> k in nodes && before[k] == nodes[k]
      ensures forall k :: k in rows ==> k in nodes && rows[k] == nodes[k]
      ensures before.Keys <= rows.Keys
      ensures forall k :: k in rows ==> k in before || exists l :: 0 <= l < depth && k == SiblingIndex(depth, index, l)
      ensures forall l :: 0 <= l < depth ==> Covers(rows, SiblingIndex(depth, index, l))
    {
      rows := before;
      for level := 0 to depth
        invariant forall k :: k in rows ==> k in nodes && rows[k] == nodes[k]
        invariant before.Keys <= rows.Keys
        invariant forall k :: k in rows ==>
          k in before || exists l :: 0 <= l < level && k == SiblingIndex(depth, index, l)
        invariant forall l :: 0 <= l < level ==> Covers(rows, SiblingIndex(depth, index, l))
      {
        var siblingIndex := SiblingIndex(depth, index, level);
        if siblingIndex in nodes { rows := rows[siblingIndex := nodes[siblingIndex]]; }
      }
    }

    /** `rows` answers for `key` as the whole table does. */
    ghost predicate Covers(rows: map<nat, T>, key: nat)
      reads this
    {
      key in nodes ==> key in rows
    }

    /** The inner loop of `dryRun`: the path of one leaf. There is no way on where the list of empty subtrees is read
        before its start. */
    method WalkPath(siblingNodes: map<nat, T>, index: nat, val: T, before: map<nat, T>)
      returns (walked: Option<Climbing<T>>)
      requires Valid() && OrBit(depth, index) > index && InTree(before)
      requires forall k :: k in siblingNodes ==> k in nodes && siblingNodes[k] == nodes[k]
      requires forall l :: 0 <= l < depth ==> Covers(siblingNodes, SiblingIndex(depth, index, l))
      ensures walked.None? <==> depth > 0 && index >= Pow2(depth)
      ensures walked.Some? ==>
        walked.value == PathTo(hasher, depth, nodes, before, index, val, depth) && InTree(walked.value.updated)
    {
      var leafNodeIndex := OrBit(depth, index);
      if index >= Pow2(depth) { MissedIsLonger(depth, index); }
      var node, updatedNodes := val, before;
      for level := 0 to depth
        invariant level > 0 ==> index < Pow2(depth)
        invariant level > 0 || depth == 0 || index < Pow2(depth) || (node == val && updatedNodes == before)
        invariant index < Pow2(depth) || depth == 0 ==>
          Climbing(node, updatedNodes) == PathTo(hasher, depth, nodes, before, index, val, level)
        invariant InTree(updatedNodes)
      {
        var pathIndex := Shr(leafNodeIndex, level);
        var sibIndex := Xor1(pathIndex);
        assert sibIndex == SiblingIndex(depth, index, level) && Covers(siblingNodes, sibIndex);
        if index < Pow2(depth) { PathInRange(depth, index, level); }
        updatedNodes := updatedNodes[pathIndex := node];
        var sibling;
        if sibIndex in updatedNodes {
          sibling := updatedNodes[sibIndex];
        } else if sibIndex in siblingNodes {
          sibling := siblingNodes[sibIndex];
        } else if BitLength(pathIndex) - 1 <= depth {
          sibling := hasher.preHash[depth - (BitLength(pathIndex) - 1)];
        } else {
          return None;
        }
        assert sibling == SiblingOf(hasher, depth, nodes, updatedNodes, pathIndex);
        if pathIndex % 2 == 0 {
          node := hasher.parentOf(node, sibling);
        } else {
          node := hasher.parentOf(sibling, node);
        }
      }
      return Some(Climbing(node, updatedNodes));
    }

    method DryRun(leaves: seq<LeafUpdate>, strictUpdate: bool) returns (result: DryRunResult<T>)
      requires Valid()
      modifies this`rootNode
      ensures result == NullifierSpec.DryRun(hasher, depth, filled, old(State()), leaves, strictUpdate)
      ensures rootNode == Some(old(CurrentRoot(hasher, State())))
      ensures result.Updated? ==> InTree(result.updatedNodes)
    {
      var siblingNodes := GetSiblingNodes(leaves);
      var updatedNodes: map<nat, T> := map[];
      var root := GetRootNode();
      var newRoot := root;
      for i := 0 to |leaves|
        invariant rootNode == Some(root) && InTree(updatedNodes)
        invariant Updated(updatedNodes, newRoot) == Process(hasher, depth, filled, nodes, root, leaves[..i],
                                                            strictUpdate)
        invariant forall j, l :: 0 <= j < |leaves| && 0 <= l < depth ==>
          Covers(siblingNodes, SiblingIndex(depth, leaves[j].index, l))
      {
        var LeafUpdate(index, val) := leaves[i];
        assert leaves[..i + 1][..i] == leaves[..i];
        if OrBit(depth, index) <= index {
          RejectedPrefix(hasher, depth, filled, nodes, root, leaves, i + 1, strictUpdate);
          return Rejected(IndexOutOfRange(index));
        }
        var walked := WalkPath(siblingNodes, index, ValueOf(hasher, filled, val), updatedNodes);
        if walked.None? {
          RejectedPrefix(hasher, depth, filled, nodes, root, leaves, i + 1, strictUpdate);
          return Rejected(SiblingUndefined(index));
        }
        if strictUpdate && newRoot == walked.value.node {
          RejectedPrefix(hasher, depth, filled, nodes, root, leaves, i + 1, strictUpdate);
          return Rejected(RootNotChanged(index));
        }
        updatedNodes, newRoot := walked.value.updated, walked.value.node;
      }
      assert leaves[..|leaves|] == leaves;
      result := Updated(updatedNodes[1 := newRoot], newRoot);
    }

    method Update(leaves: seq<LeafUpdate>, strictUpdate: bool) returns (result: DryRunResult<T>)
      requires Valid()
      modifies this
      ensures Valid()
      ensures result == NullifierSpec.DryRun(hasher, depth, filled, old(State()), leaves, strictUpdate)
      ensures result.Updated? ==>
        State() == NullifierSpec.Update(hasher, depth, filled, old(State()), leaves, strictUpdate)
      ensures result.Rejected? ==> nodes == old(nodes) && rootNode == Some(old(CurrentRoot(hasher, State())))
    {
      result := DryRun(leaves, strictUpdate);
      if result.Updated? {
        nodes := nodes + result.updatedNodes;
        assert result.updatedNodes[1] == result.newRoot;
        rootNode := Some(result.updatedNodes[1]);
      }
    }

    method Nullify(indices: seq<nat>) returns (result: DryRunResult<T>)
      requires Valid()
      modifies this
      ensures Valid()
      ensures result == NullifierSpec.DryRun(hasher, depth, filled, old(State()), Leaves(indices, FILLED), true)
      ensures result.Updated? ==> State() == NullifyState(hasher, depth, filled, old(State()), indices)
      ensures result.Rejected? ==> nodes == old(nodes) && rootNode == Some(old(CurrentRoot(hasher, State())))
    {
      result := Update(Leaves(indices, FILLED), true);
    }

    method Recover(indices: seq<nat>) returns (result: DryRunResult<T>)
      requires Valid()
      modifies this
      ensures Valid()
      ensures result == NullifierSpec.DryRun(hasher, depth, filled, old(State()), Leaves(indices, EMPTY), true)
      ensures result.Updated? ==>
        State() == NullifierSpec.Update(hasher, depth, filled, old(State()), Leaves(indices, EMPTY), true)
      ensures result.Rejected? ==> nodes == old(nodes) && rootNode == Some(old(CurrentRoot(hasher, State())))
    {
      result := Update(Leaves(indices, EMPTY), true);
    }

    method DryRunNullify(indices: seq<nat>) returns (result: DryRunResult<T>)
      requires Valid()
      modifies this`rootNode
      ensures result == NullifierSpec.DryRun(hasher, depth, filled, old(State()), Leaves(indices, FILLED), true)
      ensures rootNode == Some(old(CurrentRoot(hasher, State())))
    {
      result := DryRun(Leaves(indices, FILLED), true);
    }

    method GetSiblings(index: nat) returns (siblings: seq<T>)
      requires Valid()
      ensures siblings == StoredSiblings(hasher, depth, nodes, index)
    {
      var leafNodeIndex := OrBit(depth, index);
      siblings := [];
      for level := 0 to depth
        invariant |siblings| == level
        invariant forall l :: 0 <= l < level ==>
          siblings[l] == Stored(hasher, nodes, Xor1(Shr(OrBit(depth, index), l)), l)
      {
        var siblingNodeIndex := Xor1(Shr(leafNodeIndex, level));
        siblings := siblings +
          [if siblingNodeIndex in nodes then nodes[siblingNodeIndex] else hasher.preHash[level]];
      }
    }

    /** getInclusionProof for FILLED, getNonInclusionProof for EMPTY. */
    method GetProof(index: nat, val: SMTLeaf) returns (result: SmtProof<T>)
      requires Valid()
      modifies this`rootNode
      ensures result == ProofFor(hasher, depth, filled, old(State()), index, val)
      ensures CurrentRoot(hasher, State()) == old(CurrentRoot(hasher, State()))
    {
      if OrBit(depth, index) <= index { return SmtOutOfRange; }
      var siblings := GetSiblings(index);
      var root := GetRootNode();
      var proof := MerkleProof(root, index, ValueOf(hasher, filled, val), siblings);
      var ok := VerifyProof(hasher, proof);
      if !ok { return SmtInvalid; }
      return SmtProved(proof);
    }

    /** The query names no tree: `others` are the node indices of filled rows that other trees own. The answer names
        the leaf of the row found; below 2^depth that is the nullifier asked for. */
    method FindUsedNullifier(nullifiers: seq<nat>, others: set<nat>) returns (used: set<nat>)
      ensures used == set k | 0 <= k < |nullifiers| && Matches(nullifiers[k], others) :: LeafOf(nullifiers[k])
      ensures AllInRange(depth, nullifiers) ==>
        forall members :: NullifierSpec.Represents(hasher, depth, filled, State(), members) ==>
          used == SetOf(nullifiers) * members
                  + set k | 0 <= k < |nullifiers| && OrBit(depth, nullifiers[k]) in others :: nullifiers[k]
    {
      used := {};
      for i := 0 to |nullifiers|
        invariant used == set k | 0 <= k < i && Matches(nullifiers[k], others) :: LeafOf(nullifiers[k])
      {
        var nodeIndex := OrBit(depth, nullifiers[i]);
        if (nodeIndex in nodes && nodes[nodeIndex] == filled) || nodeIndex in others {
          used := used + {LeafOf(nullifiers[i])};
        }
      }
      if AllInRange(depth, nullifiers) {
        forall members | NullifierSpec.Represents(hasher, depth, filled, State(), members)
          ensures used == SetOf(nullifiers) * members
                  + set k | 0 <= k < |nullifiers| && OrBit(depth, nullifiers[k]) in others :: nullifiers[k]
        {
          forall i | 0 <= i < |nullifiers|
            ensures IsFilled(nullifiers[i]) <==> nullifiers[i] in members
            ensures LeafOf(nullifiers[i]) == nullifiers[i]
          {
            OrBitInRange(depth, nullifiers[i]);
            FindUsedExact(hasher, depth, filled, State(), members, nullifiers[i]);
          }
        }
      }
    }

    predicate Matches(nullifier: nat, others: set<nat>)
      reads this
    {
      IsFilled(nullifier) || OrBit(depth, nullifier) in others
    }

    predicate IsFilled(nullifier: nat)
      reads this
    {
      OrBit(depth, nullifier) in nodes && nodes[OrBit(depth, nullifier)] == filled
    }

    function LeafOf(nullifier: nat): nat {
      OrBitAtLeast(depth, nullifier);
      OrBit(depth, nullifier) - Pow2(depth)
    }
  }

  /** A rejection is final: later leaves are not looked at. */
  lemma {:induction false} RejectedPrefix<T>(h: Hasher<T>, d: nat, filled: T, nodes: map<nat, T>, root: T,
                                             leaves: seq<LeafUpdate>, n: nat, strict: bool)
    requires |h.preHash| == d + 1 && n <= |leaves|
    requires Process(h, d, filled, nodes, root, leaves[..n], strict).Rejected?
    ensures Process(h, d, filled, nodes, root, leaves, strict)
         == Process(h, d, filled, nodes, root, leaves[..n], strict)
    decreases |leaves| - n
  {
    if n == |leaves| {
      assert leaves[..n] == leaves;
    } else {
      assert leaves[..n + 1][..n] == leaves[..n];
      RejectedPrefix(h, d, filled, nodes, root, leaves, n + 1, strict);
    }
  }
}
