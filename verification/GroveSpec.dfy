/** What packages/tree/src/grove.ts computes over its three trees, on values, and why a dry run predicts a patch. */
module GroveSpec {
  import opened Options
  import opened Sequences
  import opened Bits
  import opened Hashers
  import opened FullTree
  import opened LightTreeSpec
  import opened LightTreeRefinement
  import opened LightTreeStore
  import opened LightTreeRuns
  import opened LightTreeProofs
  import opened MerkleProofs
  import N = NullifierSpec
  import NT = NullifierTheorems

  datatype GrovePatch<U, W> = GrovePatch(utxos: seq<Leaf<U>>, withdrawals: seq<Leaf<W>>, nullifiers: seq<nat>)

  /** `nullifierTreeRoot` is present when the grove manages a nullifier tree. */
  datatype GroveSnapshot<U, W, V> = GroveSnapshot(
    utxoTreeIndex: int, utxoTreeRoot: U, withdrawalTreeIndex: int, withdrawalTreeRoot: W, nullifierTreeRoot: Option<V>)

  datatype GroveError = UtxoTreeFlushes | WithdrawalTreeFlushes | NullifierRejected(error: N.SmtError)
  datatype DryPatchResult<U, W, V> = Snapshot(snapshot: GroveSnapshot<U, W, V>) | DryPatchFailed(error: GroveError)

  /** subTreeSize * ceil(n / subTreeSize) */
  function PaddedLen(n: nat, subTreeSize: nat): (r: nat)
    requires subTreeSize > 0
    ensures r >= n
  {
    CeilingIsEnough(n, subTreeSize);
    subTreeSize * ((n + subTreeSize - 1) / subTreeSize)
  }

  lemma CeilingIsEnough(n: nat, size: nat)
    requires size > 0
    ensures size * ((n + size - 1) / size) >= n
  {
    var q := (n + size - 1) / size;
    assert n + size - 1 == q * size + (n + size - 1) % size;
    assert size * q == q * size;
  }

  /** It is the least multiple of the sub-tree size that holds n leaves. */
  lemma PaddedLenLeast(n: nat, size: nat, k: nat)
    requires size > 0 && k * size >= n
    ensures PaddedLen(n, size) % size == 0
    ensures PaddedLen(n, size) <= k * size
  {
    var q := (n + size - 1) / size;
    MultipleModulo(q, size);
    assert n + size - 1 == q * size + (n + size - 1) % size;
    MultipleBounds(q - k, size);
    assert (q - k) * size == q * size - k * size;
    assert size * q == q * size;
  }

  lemma MultipleModulo(q: nat, size: nat)
    requires size > 0
    ensures (size * q) % size == 0
  {
    DivisionUnique(size * q, size, q, 0);
    assert size * q == q * size;
  }

  function Padded<T>(leaves: seq<Leaf<T>>, zero: T, subTreeSize: nat): (r: seq<Leaf<T>>)
    requires subTreeSize > 0
    ensures |r| == PaddedLen(|leaves|, subTreeSize) && leaves <= r
    ensures forall i :: |leaves| <= i < |r| ==> r[i] == Leaf(zero, false)
  {
    leaves + seq(PaddedLen(|leaves|, subTreeSize) - |leaves|, _ => Leaf(zero, false))
  }

  /** One tree: the unpadded dry run already has the root of the padded append, and the index it is corrected to. */
  lemma DryAppendPredicts<T>(h: Hasher<T>, d: nat, fullSync: bool, observed: seq<nat>, st: TreeState<T>, s: seq<T>,
                             leaves: seq<Leaf<T>>, size: nat)
    requires Consistent(h, d, st, s) && size > 0
    requires |s| + PaddedLen(|leaves|, size) <= Pow2(d)
    ensures var dry := AppendAll(h, st.data, Hashes(leaves));
      var after := Append(h, fullSync, observed, st, Padded(leaves, h.preHash[0], size));
      && after.data.root == dry.root
      && after.data.index == dry.index + PaddedLen(|leaves|, size) - |leaves|
  {
    var padded := Padded(leaves, h.preHash[0], size);
    var extra := Hashes(padded[|leaves|..]);
    assert Hashes(padded) == Hashes(leaves) + extra;
    AppendRefines(h, d, st.data, s, Hashes(leaves));
    AppendRefines(h, d, st.data, s, Hashes(padded));
    PaddingInvisible(h, s + Hashes(leaves), extra, d, 0);
    assert s + Hashes(padded) == s + Hashes(leaves) + extra;
  }

  /** Every leaf of a patch that is tracked, or kept in full sync, can be proved right after it under its own index,
      unless nothing follows it, not even padding. */
  lemma PatchLeafProofs<T>(h: Hasher<T>, d: nat, fullSync: bool, observed: seq<nat>, st: TreeState<T>, s: seq<T>,
                           leaves: seq<Leaf<T>>, size: nat, i: nat, padded: seq<Leaf<T>>, t: nat, now: TreeState<T>)
    requires Consistent(h, d, st, s) && OnlyOccupied(d, |s|, st.nodes) && size > 0
    requires padded == Padded(leaves, h.preHash[0], size) && |s| + |padded| < Pow2(d)
    requires i < |leaves| && i + 1 < |padded| && t == |s| + i && (fullSync || leaves[i].shouldTrack)
    requires now == Append(h, fullSync, observed, st, padded)
    ensures ProofOf(h, now, leaves[i].hash, t).Proved?
  {
    PaddedLeafAt(s, leaves, padded, i, t);
    var batch := Batch(observed, padded);
    assert fullSync || Watched(batch, |s|, t);
    BatchProofs(h, d, fullSync, st, s, batch, t, now, s + Hashes(padded));
  }

  lemma PaddedLeafAt<T>(s: seq<T>, leaves: seq<Leaf<T>>, padded: seq<Leaf<T>>, i: nat, t: nat)
    requires leaves <= padded && i < |leaves| && t == |s| + i
    ensures padded[i] == leaves[i] && (s + Hashes(padded))[t] == leaves[i].hash
  {}

  // ----- the whole grove

  datatype GroveConfig<!U, !W, !V> = GroveConfig(
    utxoHasher: Hasher<U>, withdrawalHasher: Hasher<W>, nullifierHasher: Hasher<V>, filled: V,
    nullifierTreeDepth: nat, utxoSubTreeSize: nat, withdrawalSubTreeSize: nat, fullSync: bool)

  datatype GroveState<U, W, V> = GroveState(utxo: TreeState<U>, withdrawal: TreeState<W>,
                                            nullifier: Option<N.SmtState<V>>)

  /** What the addresses under observation make the two append-only trees track. */
  datatype Observed = Observed(utxos: seq<nat>, withdrawals: seq<nat>)

  ghost predicate ValidGrove<U, W, V>(c: GroveConfig<U, W, V>, g: GroveState<U, W, V>) {
    && |g.utxo.data.siblings| < |c.utxoHasher.preHash|
    && |g.withdrawal.data.siblings| < |c.withdrawalHasher.preHash|
    && |c.nullifierHasher.preHash| == c.nullifierTreeDepth + 1
    && c.utxoSubTreeSize > 0 && c.withdrawalSubTreeSize > 0
  }

  function NullifyResult<U, W, V(==)>(c: GroveConfig<U, W, V>, g: GroveState<U, W, V>,
                                      nullifiers: seq<nat>): Option<N.DryRunResult<V>>
    requires |c.nullifierHasher.preHash| == c.nullifierTreeDepth + 1
  {
    match g.nullifier
    case None => None
    case Some(tree) =>
      Some(N.DryRun(c.nullifierHasher, c.nullifierTreeDepth, c.filled, tree, NT.Leaves(nullifiers, N.FILLED), true))
  }

  function DryPatch<U, W, V(==)>(c: GroveConfig<U, W, V>, g: GroveState<U, W, V>,
                                 patch: GrovePatch<U, W>): DryPatchResult<U, W, V>
    requires ValidGrove(c, g)
  {
    var utxo := AppendAll(c.utxoHasher, g.utxo.data, Hashes(patch.utxos));
    var withdrawal := AppendAll(c.withdrawalHasher, g.withdrawal.data, Hashes(patch.withdrawals));
    var nullified := NullifyResult(c, g, patch.nullifiers);
    if nullified.Some? && nullified.value.Rejected? then DryPatchFailed(NullifierRejected(nullified.value.error))
    else
      Snapshot(GroveSnapshot(
        utxo.index + PaddedLen(|patch.utxos|, c.utxoSubTreeSize) - |patch.utxos|,
        utxo.root,
        withdrawal.index + PaddedLen(|patch.withdrawals|, c.withdrawalSubTreeSize) - |patch.withdrawals|,
        withdrawal.root,
        if nullified.Some? then Some(nullified.value.newRoot) else None))
  }

  predicate Fits<T>(st: TreeState<T>, n: nat, subTreeSize: nat)
    requires subTreeSize > 0
  {
    st.data.index + PaddedLen(n, subTreeSize) <= Pow2(|st.data.siblings|)
  }

  /** What `recordBootstrap` stores of a state: the siblings of both trees as they are. */
  datatype BootstrapRecord<U, W> = BootstrapRecord(utxoBootstrap: seq<U>, withdrawalBootstrap: seq<W>)

  function RecordOf<U, W, V>(g: GroveState<U, W, V>): BootstrapRecord<U, W> {
    BootstrapRecord(g.utxo.data.siblings, g.withdrawal.data.siblings)
  }

  datatype PatchResult<U, W, V> = Applied(state: GroveState<U, W, V>) | PatchFailed(error: GroveError)

  function ApplyPatch<U, W, V(==)>(c: GroveConfig<U, W, V>, g: GroveState<U, W, V>, patch: GrovePatch<U, W>,
                                   o: Observed):
    PatchResult<U, W, V>
    requires ValidGrove(c, g)
  {
    if !Fits(g.utxo, |patch.utxos|, c.utxoSubTreeSize) then PatchFailed(UtxoTreeFlushes)
    else if !Fits(g.withdrawal, |patch.withdrawals|, c.withdrawalSubTreeSize) then PatchFailed(WithdrawalTreeFlushes)
    else
      var utxo := Append(c.utxoHasher, c.fullSync, o.utxos, g.utxo,
                         Padded(patch.utxos, c.utxoHasher.preHash[0], c.utxoSubTreeSize));
      var withdrawal := Append(c.withdrawalHasher, c.fullSync, o.withdrawals, g.withdrawal,
                               Padded(patch.withdrawals, c.withdrawalHasher.preHash[0], c.withdrawalSubTreeSize));
      match NullifyResult(c, g, patch.nullifiers)
      case None => Applied(GroveState(utxo, withdrawal, None))
      case Some(Rejected(e)) => PatchFailed(NullifierRejected(e))
      case Some(Updated(nodes, root)) =>
        Applied(GroveState(utxo, withdrawal, Some(N.SmtState(g.nullifier.value.nodes + nodes, Some(root)))))
  }

  /** The snapshot of a state: its roots and indices. */
  function SnapshotOf<U, W, V>(c: GroveConfig<U, W, V>, g: GroveState<U, W, V>): GroveSnapshot<U, W, V>
    requires |c.nullifierHasher.preHash| > 0
  {
    GroveSnapshot(g.utxo.data.index, g.utxo.data.root, g.withdrawal.data.index, g.withdrawal.data.root,
      if g.nullifier.Some? then Some(N.CurrentRoot(c.nullifierHasher, g.nullifier.value)) else None)
  }

  /** The grove stands for two lists of leaves and a set of nullifiers. */
  ghost predicate GroveStandsFor<U, W, V>(c: GroveConfig<U, W, V>, g: GroveState<U, W, V>, utxos: seq<U>,
                                          withdrawals: seq<W>, used: set<nat>) {
    && Consistent(c.utxoHasher, |g.utxo.data.siblings|, g.utxo, utxos)
    && Consistent(c.withdrawalHasher, |g.withdrawal.data.siblings|, g.withdrawal, withdrawals)
    && (g.nullifier.Some? ==> N.Represents(c.nullifierHasher, c.nullifierTreeDepth, c.filled, g.nullifier.value, used))
  }

  /** One append-only tree of a patch. */
  lemma TreePatched<T>(h: Hasher<T>, fullSync: bool, observed: seq<nat>, st: TreeState<T>, s: seq<T>,
                       leaves: seq<Leaf<T>>, size: nat)
    requires size > 0 && Consistent(h, |st.data.siblings|, st, s) && Fits(st, |leaves|, size)
    ensures var dry := AppendAll(h, st.data, Hashes(leaves));
      var padded := Padded(leaves, h.preHash[0], size);
      var after := Append(h, fullSync, observed, st, padded);
      && |after.data.siblings| == |st.data.siblings|
      && after.data.root == dry.root
      && after.data.index == dry.index + PaddedLen(|leaves|, size) - |leaves|
      && Consistent(h, |st.data.siblings|, after, s + Hashes(padded))
  {
    DryAppendPredicts(h, |st.data.siblings|, fullSync, observed, st, s, leaves, size);
    BatchConsistent(h, |st.data.siblings|, fullSync, observed, st, s, Padded(leaves, h.preHash[0], size));
  }

  /** The nullifier tree of a patch. */
  lemma NullifiersPatched<V>(h: Hasher<V>, d: nat, filled: V, st: N.SmtState<V>, used: set<nat>, nullifiers: seq<nat>)
    requires N.Represents(h, d, filled, st, used) && NT.AllNoticed(d, nullifiers)
    ensures var r := N.DryRun(h, d, filled, st, NT.Leaves(nullifiers, N.FILLED), true);
      r.Updated? ==>
        N.Represents(h, d, filled, N.SmtState(st.nodes + r.updatedNodes, Some(r.newRoot)), used + NT.SetOf(nullifiers))
  {
    NT.UpdateRefines(h, d, filled, st, used, NT.Leaves(nullifiers, N.FILLED), true);
    NT.SetAfterFill(used, nullifiers);
  }

  /** A patch applies exactly when its dry run succeeds and both append-only trees have room for whole sub-trees, which
      only the patch checks; of several reasons to refuse, the utxo tree comes first and the nullifiers last. */
  lemma PatchAppliesIff<U, W, V>(c: GroveConfig<U, W, V>, g: GroveState<U, W, V>, patch: GrovePatch<U, W>, o: Observed)
    requires ValidGrove(c, g)
    ensures var utxosFit := g.utxo.data.index + PaddedLen(|patch.utxos|, c.utxoSubTreeSize)
                              <= Pow2(|g.utxo.data.siblings|);
      var withdrawalsFit := g.withdrawal.data.index + PaddedLen(|patch.withdrawals|, c.withdrawalSubTreeSize)
                              <= Pow2(|g.withdrawal.data.siblings|);
      var r, dry := ApplyPatch(c, g, patch, o), DryPatch(c, g, patch);
      && (r.Applied? <==> dry.Snapshot? && utxosFit && withdrawalsFit)
      && (r == PatchFailed(UtxoTreeFlushes) <==> !utxosFit)
      && (r == PatchFailed(WithdrawalTreeFlushes) <==> utxosFit && !withdrawalsFit)
      && (r.PatchFailed? && r.error.NullifierRejected? <==> utxosFit && withdrawalsFit && dry.DryPatchFailed?)
      && (r.PatchFailed? && r.error.NullifierRejected? ==> dry == DryPatchFailed(r.error))
  {}

  /** What a patch that applies leaves in each tree. */
  lemma PatchParts<U, W, V>(c: GroveConfig<U, W, V>, g: GroveState<U, W, V>, patch: GrovePatch<U, W>, o: Observed)
    requires ValidGrove(c, g)
    requires ApplyPatch(c, g, patch, o).Applied?
    ensures Fits(g.utxo, |patch.utxos|, c.utxoSubTreeSize)
    ensures Fits(g.withdrawal, |patch.withdrawals|, c.withdrawalSubTreeSize)
    ensures var after := ApplyPatch(c, g, patch, o).state;
      && after.utxo == Append(c.utxoHasher, c.fullSync, o.utxos, g.utxo,
                              Padded(patch.utxos, c.utxoHasher.preHash[0], c.utxoSubTreeSize))
      && after.withdrawal == Append(c.withdrawalHasher, c.fullSync, o.withdrawals, g.withdrawal,
                                    Padded(patch.withdrawals, c.withdrawalHasher.preHash[0], c.withdrawalSubTreeSize))
      && (after.nullifier.Some? <==> g.nullifier.Some?)
      && (g.nullifier.Some? ==>
            var r := N.DryRun(c.nullifierHasher, c.nullifierTreeDepth, c.filled, g.nullifier.value,
                              NT.Leaves(patch.nullifiers, N.FILLED), true);
            && r.Updated?
            && after.nullifier.value == N.SmtState(g.nullifier.value.nodes + r.updatedNodes, Some(r.newRoot)))
  {}

  /** The dry run predicts the patch: whenever the patch applies, the snapshot shows exactly the roots and indices it
      reaches, those of the full trees over all leaves. */
  lemma DryPatchPredicts<U, W, V>(c: GroveConfig<U, W, V>, g: GroveState<U, W, V>, patch: GrovePatch<U, W>, o: Observed,
                                  utxos: seq<U>, withdrawals: seq<W>)
    requires ValidGrove(c, g)
    requires Consistent(c.utxoHasher, |g.utxo.data.siblings|, g.utxo, utxos)
    requires Consistent(c.withdrawalHasher, |g.withdrawal.data.siblings|, g.withdrawal, withdrawals)
    requires ApplyPatch(c, g, patch, o).Applied?
    ensures DryPatch(c, g, patch) == Snapshot(SnapshotOf(c, ApplyPatch(c, g, patch, o).state))
    ensures var shown := SnapshotOf(c, ApplyPatch(c, g, patch, o).state);
      && shown.utxoTreeIndex == |utxos| + PaddedLen(|patch.utxos|, c.utxoSubTreeSize)
      && shown.utxoTreeRoot == RootOf(c.utxoHasher, LeafFn(c.utxoHasher,
           utxos + Hashes(Padded(patch.utxos, c.utxoHasher.preHash[0], c.utxoSubTreeSize))), |g.utxo.data.siblings|)
      && shown.withdrawalTreeIndex == |withdrawals| + PaddedLen(|patch.withdrawals|, c.withdrawalSubTreeSize)
      && shown.withdrawalTreeRoot == RootOf(c.withdrawalHasher, LeafFn(c.withdrawalHasher,
           withdrawals + Hashes(Padded(patch.withdrawals, c.withdrawalHasher.preHash[0], c.withdrawalSubTreeSize))),
           |g.withdrawal.data.siblings|)
  {
    PatchParts(c, g, patch, o);
    PatchAppliesIff(c, g, patch, o);
    TreePatched(c.utxoHasher, c.fullSync, o.utxos, g.utxo, utxos, patch.utxos, c.utxoSubTreeSize);
    TreePatched(c.withdrawalHasher, c.fullSync, o.withdrawals, g.withdrawal, withdrawals, patch.withdrawals,
                c.withdrawalSubTreeSize);
  }

  /** By sets: a dry run fails exactly on a nullifier that is out of range, repeated or already used, and otherwise
      shows the root of the full tree over all nullifiers; without a nullifier tree it neither fails nor shows one. */
  lemma DryPatchBySets<U, W, V(!new)>(c: GroveConfig<U, W, V>, g: GroveState<U, W, V>, patch: GrovePatch<U, W>,
                                      used: set<nat>)
    requires ValidGrove(c, g) && Injective(c.nullifierHasher.parentOf)
    requires NT.AllNoticed(c.nullifierTreeDepth, patch.nullifiers)
    requires g.nullifier.Some? ==>
      N.Represents(c.nullifierHasher, c.nullifierTreeDepth, c.filled, g.nullifier.value, used)
    ensures DryPatch(c, g, patch).Snapshot? <==>
      g.nullifier.None? ||
      (&& NT.AllInRange(c.nullifierTreeDepth, patch.nullifiers) && Distinct(patch.nullifiers)
       && NT.SetOf(patch.nullifiers) !! used)
    ensures DryPatch(c, g, patch).Snapshot? ==>
      var root := DryPatch(c, g, patch).snapshot.nullifierTreeRoot;
      var members := N.MemberFn(c.nullifierHasher, c.filled, used + NT.SetOf(patch.nullifiers));
      root == if g.nullifier.None? then None else Some(RootOf(c.nullifierHasher, members, c.nullifierTreeDepth))
  {
    if g.nullifier.Some? {
      NT.NullifyAcceptedIff(c.nullifierHasher, c.nullifierTreeDepth, c.filled, g.nullifier.value, used,
                            patch.nullifiers);
      NullifiersPatched(c.nullifierHasher, c.nullifierTreeDepth, c.filled, g.nullifier.value, used, patch.nullifiers);
    }
  }

  /** A recorded bootstrap can be resumed from exactly where the siblings to the right of the next leaf happen to be
      recorded as empty subtrees; the siblings of `getStartingLeafProof` always can. */
  lemma RecordResumesIff<U(!new), W(!new), V>(c: GroveConfig<U, W, V>, g: GroveState<U, W, V>, utxos: seq<U>,
                                              withdrawals: seq<W>)
    requires Consistent(c.utxoHasher, |g.utxo.data.siblings|, g.utxo, utxos) && |utxos| < Pow2(|g.utxo.data.siblings|)
    requires Consistent(c.withdrawalHasher, |g.withdrawal.data.siblings|, g.withdrawal, withdrawals)
    requires |withdrawals| < Pow2(|g.withdrawal.data.siblings|)
    ensures var utxo := g.utxo.data;
      IsStartingLeafProof(c.utxoHasher, utxo.root, utxo.index, RecordOf(g).utxoBootstrap)
      <==> utxo.siblings == Normalised(c.utxoHasher, utxo)
    ensures var withdrawal := g.withdrawal.data;
      IsStartingLeafProof(c.withdrawalHasher, withdrawal.root, withdrawal.index, RecordOf(g).withdrawalBootstrap)
      <==> withdrawal.siblings == Normalised(c.withdrawalHasher, withdrawal)
  {
    RawSiblingsPassIff(c.utxoHasher, |g.utxo.data.siblings|, g.utxo.data, utxos);
    RawSiblingsPassIff(c.withdrawalHasher, |g.withdrawal.data.siblings|, g.withdrawal.data, withdrawals);
  }

  /** The grove goes on standing for its leaves, padding included, and its nullifiers. */
  lemma PatchRefines<U, W, V>(c: GroveConfig<U, W, V>, g: GroveState<U, W, V>, patch: GrovePatch<U, W>, o: Observed,
                              utxos: seq<U>, withdrawals: seq<W>, used: set<nat>)
    requires ValidGrove(c, g) && NT.AllNoticed(c.nullifierTreeDepth, patch.nullifiers)
    requires GroveStandsFor(c, g, utxos, withdrawals, used)
    requires ApplyPatch(c, g, patch, o).Applied?
    ensures ValidGrove(c, ApplyPatch(c, g, patch, o).state)
    ensures GroveStandsFor(c, ApplyPatch(c, g, patch, o).state,
              utxos + Hashes(Padded(patch.utxos, c.utxoHasher.preHash[0], c.utxoSubTreeSize)),
              withdrawals + Hashes(Padded(patch.withdrawals, c.withdrawalHasher.preHash[0], c.withdrawalSubTreeSize)),
              used + NT.SetOf(patch.nullifiers))
    ensures ApplyPatch(c, g, patch, o).state.nullifier.Some? <==> g.nullifier.Some?
  {
    PatchParts(c, g, patch, o);
    TreePatched(c.utxoHasher, c.fullSync, o.utxos, g.utxo, utxos, patch.utxos, c.utxoSubTreeSize);
    TreePatched(c.withdrawalHasher, c.fullSync, o.withdrawals, g.withdrawal, withdrawals, patch.withdrawals,
                c.withdrawalSubTreeSize);
    if g.nullifier.Some? {
      NullifiersPatched(c.nullifierHasher, c.nullifierTreeDepth, c.filled, g.nullifier.value, used, patch.nullifiers);
    }
  }
}
