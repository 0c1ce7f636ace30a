/** packages/tree/src/grove.ts: the grove object over its three trees. */
module Groves {
  import opened Options
  import opened Bits
  import opened Hashers
  import opened FullTree
  import opened MerkleProofs
  import opened LightTreeSpec
  import opened LightTreeProofs
  import opened LightRollUpTrees
  import opened NullifierTrees
  import opened GroveSpec

  class Grove<U(==), W(==), V(==)> {
    const config: GroveConfig<U, W, V>
    const utxoTree: LightRollUpTree<U>
    const withdrawalTree: LightRollUpTree<W>
    // only a full node manages the nullifier tree
    const nullifierTree: NullifierTree?<V>

    constructor (config: GroveConfig<U, W, V>, utxoTree: LightRollUpTree<U>, withdrawalTree: LightRollUpTree<W>,
                 nullifierTree: NullifierTree?<V>)
      requires utxoTree.Valid() && utxoTree.hasher == config.utxoHasher && utxoTree.fullSync == config.fullSync
      requires withdrawalTree.Valid() && withdrawalTree.hasher == config.withdrawalHasher
      requires withdrawalTree.fullSync == config.fullSync && utxoTree as object != withdrawalTree
      requires config.utxoSubTreeSize > 0 && config.withdrawalSubTreeSize > 0
      requires |config.nullifierHasher.preHash| == config.nullifierTreeDepth + 1
      requires nullifierTree != null ==>
        && nullifierTree.Valid() && nullifierTree.hasher == config.nullifierHasher
        && nullifierTree.depth == config.nullifierTreeDepth && nullifierTree.filled == config.filled
      ensures Valid() && this.config == config
      ensures this.utxoTree == utxoTree && this.withdrawalTree == withdrawalTree && this.nullifierTree == nullifierTree
    {
      this.config := config;
      this.utxoTree := utxoTree;
      this.withdrawalTree := withdrawalTree;
      this.nullifierTree := nullifierTree;
    }

    ghost predicate Valid()
      reads Trees
    {
      && utxoTree.Valid() && utxoTree.hasher == config.utxoHasher && utxoTree.fullSync == config.fullSync
      && withdrawalTree.Valid() && withdrawalTree.hasher == config.withdrawalHasher
      && withdrawalTree.fullSync == config.fullSync
      && utxoTree as object != withdrawalTree
      && config.utxoSubTreeSize > 0 && config.withdrawalSubTreeSize > 0
      && |config.nullifierHasher.preHash| == config.nullifierTreeDepth + 1
      && (nullifierTree != null ==>
            && nullifierTree.Valid() && nullifierTree.hasher == config.nullifierHasher
            && nullifierTree.depth == config.nullifierTreeDepth && nullifierTree.filled == config.filled)
    }

    ghost const Trees: set<object> :=
      {utxoTree as object, withdrawalTree as object} + (if nullifierTree != null then {nullifierTree as object} else {})

    ghost const OwnNullifierTree: set<NullifierTree<V>> := if nullifierTree != null then {nullifierTree} else {}

    ghost function State(): GroveState<U, W, V>
      reads Trees
    {
      GroveState(utxoTree.State(), withdrawalTree.State(),
                 if nullifierTree != null then Some(nullifierTree.State()) else None)
    }

    method DryPatch(patch: GrovePatch<U, W>) returns (result: DryPatchResult<U, W, V>)
      requires Valid()
      modifies OwnNullifierTree`rootNode
      ensures Valid() && result == GroveSpec.DryPatch(config, old(State()), patch)
    {
      var utxoResult := utxoTree.DryAppend(patch.utxos);
      var withdrawalResult := withdrawalTree.DryAppend(patch.withdrawals);
      var nullifierRoot: Option<V> := None;
      if nullifierTree != null {
        var dryRun := nullifierTree.DryRunNullify(patch.nullifiers);
        if dryRun.Rejected? { return DryPatchFailed(NullifierRejected(dryRun.error)); }
        nullifierRoot := Some(dryRun.newRoot);
      }
      var utxoFixedSizeLen := PaddedLen(|patch.utxos|, config.utxoSubTreeSize);
      var withdrawalFixedSizeLen := PaddedLen(|patch.withdrawals|, config.withdrawalSubTreeSize);
      result := Snapshot(GroveSnapshot(
        utxoResult.index + utxoFixedSizeLen - |patch.utxos|, utxoResult.root,
        withdrawalResult.index + withdrawalFixedSizeLen - |patch.withdrawals|, withdrawalResult.root,
        nullifierRoot));
    }

    /** Appends the utxos, padded with empty leaves, unless the tree would overflow. */
    method AppendUTXOs(utxos: seq<Leaf<U>>, observed: seq<nat>) returns (ok: bool)
      requires Valid()
      modifies utxoTree
      ensures Valid()
      ensures ok <==> old(utxoTree.data.index) + PaddedLen(|utxos|, config.utxoSubTreeSize) <= Pow2(utxoTree.depth)
      ensures ok ==>
        utxoTree.State() == Append(config.utxoHasher, config.fullSync, observed, old(utxoTree.State()),
                                   Padded(utxos, config.utxoHasher.preHash[0], config.utxoSubTreeSize))
      ensures !ok ==> utxoTree.State() == old(utxoTree.State())
    {
      var totalItemLen := PaddedLen(|utxos|, config.utxoSubTreeSize);
      if utxoTree.data.index + totalItemLen <= Pow2(utxoTree.depth) {
        var _ := utxoTree.Append(Padded(utxos, config.utxoHasher.preHash[0], config.utxoSubTreeSize), observed);
        return true;
      }
      return false;
    }

    method AppendWithdrawals(withdrawals: seq<Leaf<W>>, observed: seq<nat>) returns (ok: bool)
      requires Valid()
      modifies withdrawalTree
      ensures Valid()
      ensures ok <==>
        old(withdrawalTree.data.index) + PaddedLen(|withdrawals|, config.withdrawalSubTreeSize)
        <= Pow2(withdrawalTree.depth)
      ensures ok ==>
        withdrawalTree.State() == Append(config.withdrawalHasher, config.fullSync, observed,
                                         old(withdrawalTree.State()),
                                         Padded(withdrawals, config.withdrawalHasher.preHash[0],
                                                config.withdrawalSubTreeSize))
      ensures !ok ==> withdrawalTree.State() == old(withdrawalTree.State())
    {
      var totalItemLen := PaddedLen(|withdrawals|, config.withdrawalSubTreeSize);
      if withdrawalTree.data.index + totalItemLen <= Pow2(withdrawalTree.depth) {
        var _ := withdrawalTree.Append(
          Padded(withdrawals, config.withdrawalHasher.preHash[0], config.withdrawalSubTreeSize), observed);
        return true;
      }
      return false;
    }

    /** The three trees in turn; the first one that refuses stops the patch and leaves the later ones alone. */
    method ApplyGrovePatch(patch: GrovePatch<U, W>, observed: Observed)
      returns (error: Option<GroveError>, bootstrap: Option<BootstrapRecord<U, W>>)
      requires Valid()
      modifies Trees
      ensures Valid()
      ensures match ApplyPatch(config, old(State()), patch, observed)
        case Applied(state) => error == None && State() == state
        case PatchFailed(e) => error == Some(e)
      ensures error == Some(UtxoTreeFlushes) ==> State() == old(State())
      ensures error == Some(WithdrawalTreeFlushes) ==>
        State().withdrawal == old(State().withdrawal) && State().nullifier == old(State().nullifier)
      ensures error.Some? && error.value.NullifierRejected? ==>
        nullifierTree != null && nullifierTree.nodes == old(nullifierTree.nodes)
      ensures error == Some(UtxoTreeFlushes) <==>
        old(utxoTree.data.index) + PaddedLen(|patch.utxos|, config.utxoSubTreeSize) > Pow2(utxoTree.depth)
      ensures bootstrap.Some? <==> error.None? && config.fullSync
      ensures bootstrap.Some? ==>
        && bootstrap == Some(RecordOf(State()))
        && bootstrap.value.utxoBootstrap == utxoTree.data.siblings
        && bootstrap.value.withdrawalBootstrap == withdrawalTree.data.siblings
    {
      bootstrap := None;
      var ok := AppendUTXOs(patch.utxos, observed.utxos);
      if !ok { return Some(UtxoTreeFlushes), None; }
      ok := AppendWithdrawals(patch.withdrawals, observed.withdrawals);
      if !ok { return Some(WithdrawalTreeFlushes), None; }
      if nullifierTree != null {
        var nullified := nullifierTree.Nullify(patch.nullifiers);
        if nullified.Rejected? { return Some(NullifierRejected(nullified.error)), None; }
      }
      error := None;
      if config.fullSync { bootstrap := Some(BootstrapRecord(utxoTree.data.siblings, withdrawalTree.data.siblings)); }
    }

    /** The sibling list is built from the stored rows by their own height, over a copy of the empty subtrees. */
    method UtxoMerkleProof(hash: U, index: nat) returns (result: ProofResult<U>)
      requires Valid() && |config.utxoHasher.preHash| == utxoTree.depth + 1
      ensures result == Failed(LeafIndexOutOfRange) <==> OrBit(utxoTree.depth, index) <= index
      ensures index < Pow2(utxoTree.depth) ==>
        var proof := MerkleProof(utxoTree.data.root, index, hash,
                                 StoredSiblings(config.utxoHasher, utxoTree.depth, utxoTree.nodes, index));
        result == if Verifies(config.utxoHasher, proof) then Proved(proof) else Failed(InvalidProof)
      ensures result.Proved? ==>
        Verifies(config.utxoHasher, result.proof) && result.proof.index == index && result.proof.leaf == hash
    {
      if index < Pow2(utxoTree.depth) { OrBitInRange(utxoTree.depth, index); }
      var cached := utxoTree.GetCachedSiblings(index);
      if cached.None? { return Failed(LeafIndexOutOfRange); }
      var root, siblings := PlaceSiblings(index, cached.value);
      var proof := MerkleProof(root, index, hash, siblings);
      var isValid := VerifyProof(config.utxoHasher, proof);
      if !isValid { return Failed(InvalidProof); }
      return Proved(proof);
    }

    /** Every row goes where its own height says. */
    method PlaceSiblings(index: nat, cachedSiblings: map<nat, U>) returns (root: U, siblings: seq<U>)
      requires Valid() && |config.utxoHasher.preHash| == utxoTree.depth + 1
      requires utxoTree.IsRowsOfSiblings(index, cachedSiblings)
      ensures index < Pow2(utxoTree.depth) ==>
        && root == utxoTree.data.root
        && siblings == StoredSiblings(config.utxoHasher, utxoTree.depth, utxoTree.nodes, index)
    {
      var depth := utxoTree.depth;
      root, siblings := utxoTree.data.root, config.utxoHasher.preHash[..depth];
      ghost var inTree := index < Pow2(depth);
      var rest := cachedSiblings.Keys;
      while rest != {}
        invariant rest <= cachedSiblings.Keys && |siblings| == depth
        invariant inTree ==> root == utxoTree.data.root
        invariant inTree ==> forall l :: 0 <= l < depth ==>
          siblings[l] == if SiblingIndex(depth, index, l) in cachedSiblings.Keys - rest
                         then cachedSiblings[SiblingIndex(depth, index, l)] else config.utxoHasher.preHash[l]
      {
        var nodeIndex :| nodeIndex in rest;
        if inTree { SiblingHeights(depth, index, nodeIndex); }
        var level := 1 + depth - BitLength(nodeIndex);
        if level == depth {
          // never for an index of the tree: a sibling is not as high as the root
          root := cachedSiblings[nodeIndex];
        } else if 0 <= level < depth {
          siblings := siblings[level := cachedSiblings[nodeIndex]];
        }
        rest := rest - {nodeIndex};
      }
      if inTree { assert siblings == StoredSiblings(config.utxoHasher, depth, utxoTree.nodes, index); }
    }
  }

  /** bootstrapUtxoTree and bootstrapWithdrawalTree: from a starting-leaf proof, or an empty tree without one. */
  method BootstrapTree<T(==)>(hasher: Hasher<T>, fullSync: bool, starting: Option<MerkleProof<T>>, table: map<nat, T>)
    returns (tree: LightRollUpTree?<T>)
    requires |hasher.preHash| > 0
    requires starting.Some? ==> |starting.value.siblings| < |hasher.preHash|
    ensures tree == null <==>
      starting.Some? && !IsStartingLeafProof(hasher, starting.value.root, starting.value.index, starting.value.siblings)
    ensures tree != null ==> fresh(tree) && tree.Valid() && tree.hasher == hasher && tree.fullSync == fullSync
    ensures tree != null ==>
      tree.State() == if starting.Some?
                      then Resumed(starting.value.root, starting.value.index, starting.value.siblings, table)
                      else Genesis(hasher).(nodes := table)
  {
    if starting.Some? {
      var ok := StartingLeafProof(hasher, starting.value.root, starting.value.index, starting.value.siblings);
      if !ok { return null; }
      tree := new LightRollUpTree(hasher, fullSync,
        Resumed(starting.value.root, starting.value.index, starting.value.siblings, table));
    } else {
      tree := new LightRollUpTree(hasher, fullSync, Genesis(hasher).(nodes := table));
    }
  }

  /** The level formula of a stored row gives back the height at which it is a sibling, and no other. */
  lemma SiblingHeights(depth: nat, index: nat, nodeIndex: nat)
    requires index < Pow2(depth)
    ensures forall l :: 0 <= l < depth && nodeIndex == Xor1(Shr(OrBit(depth, index), l)) ==>
      1 + depth - BitLength(nodeIndex) == l
  {
    forall l | 0 <= l < depth && nodeIndex == Xor1(Shr(OrBit(depth, index), l))
      ensures 1 + depth - BitLength(nodeIndex) == l
    {
      SiblingKey(depth, index, l);
      BitLengthOfKey(depth - l, Xor1(Shr(index, l)));
    }
  }
}
