# Zkopru, verified models

A Dafny model of the parts of Zkopru whose correctness rests on index arithmetic, caches and conservation:

- the Merkle forest of `packages/tree`: the append-only tree that stores one sibling per level and a selective node
  cache, the batched sparse tree of nullifiers, and the grove that puts them together and can be dry-run;
- the transaction builder of `packages/transaction`: coin selection for ether, ERC20 tokens and NFTs, a fee that grows
  with the number of inputs, change, and the final assertions;
- the mempool of `packages/coordinator` with its swap matching, and the transaction root that keys its queue;
- the binary format of transactions and memos, printer and parser;
- the write cache of `packages/database` that holds operations back until their block is confirmed.

Code that works by changing things is a class or a method with loops, proved equal to a function on values
(`LightRollUpTree` and `LightTreeSpec`, `NullifierTree` and `NullifierSpec`, `Grove` and `GroveSpec`, `TxMemPool` and
`TxPoolSpec` with `TxQueueSpec`, `BlockCache` and `BlockCacheSpec`, `Queue` and the parsers of `ZkTxCodec`). What the
source promises is proved about those functions, over every input, every run and every reachable state.
`FullTree.Node`, the complete binary tree over a function from positions to leaves, is the reference meaning of all
trees.

Hashes are abstract: a `Hasher` is a two-argument function with the roots of its empty trees. Collision freedom is a
hypothesis (`Injective`) of exactly the statements that need it. Amounts are natural numbers.

`dafny verify dfyconfig.toml` checks everything. Each file holds one module; a file that says `Spec` holds functions
on values and the file of the same name without it the code.

## What was found on the way

- `LightTreeProofs.StaleRowFails`: a bootstrap keeps the rows already in the table, also those beyond the index it
  resumes at. An empty tree over one left-over row of a second leaf cannot prove the first leaf appended, neither from
  the tree nor from the grove, in full sync. `RunProofIff` says over any table, run and mode exactly when a leaf that is
  kept can be proved: the tree needs the one row at the frontier, the right sibling the next leaf is about to enter, to
  be absent or empty; the Grove list needs that of every sibling without leaves. `RunProofs` is the case of a table that
  never held more leaves, where all proofs succeed.
- `LightTreeLastLeaf.LightModeLastLeafIff`: appending a leaf stores the left siblings it shares with its predecessor,
  not those of the subtrees its predecessor finished; these follow with the next leaf. In light mode the last leaf can
  be proved exactly when those finished subtrees are empty and nothing stale is at the frontier: the first leaf of a new
  tree always, the second (`SecondLeafProofIff`) only when the first is empty. `LightModeProofs` holds from one further
  leaf on.
- `LightTreeLastLeaf.RunLastLeafIff` and `FirstLeafProofIff`: in either mode and over any table, the last leaf can be
  proved exactly when the table knew those subtrees before it came and has nothing stale at the frontier. Right after a
  bootstrap that concerns the first leaf, and over an empty table it means that they are empty.
- `LightTreeFull.FullTreeProofIff`: once a tree is completely full, the comparison with the end of the tree hides
  stored siblings. In both modes proofs then survive only where the hidden siblings are empty.
- `LightTreeRefinement.RawSiblingsFailAfterOneLeaf`: the siblings a tree keeps, stored as they are, do not pass the
  starting-leaf check; those of `getStartingLeafProof` always do while there is room.
- `NullifierSpec.RangeGuardExact`: the guard `(1 << d | i) <= i` rejects exactly the indices whose bit d is set. An index
  beyond the tree with that bit clear is refused one step later and by accident: its path is longer than that of a leaf
  (`MissedIsLonger`), the empty subtree is looked up before the start of the list, and the hasher throws. Only in a tree
  of depth zero, which has no path, would it pass. At the depth of 254 that the tests of the grove use neither arises:
  nullifiers are below `Fp.ORDER`, which is below 2^254.
- `TxBuilderExamples.Erc20WithEtherFails`, `LargerNoteFails`: an ERC20 note that carries ether, as `sendERC20` with
  `eth` creates them, may be taken for its ether. Its token then comes in and does not go out, and the assertion on
  ERC20 amounts fires. With regular notes and distinct amounts per token, `TxBuilderSpec.DecidedByInput` says when, from
  the notes provided and sent: a note is spent for its token exactly when all smaller notes of the token together fall
  short of what is sent (`SpentNotes.PilesFixed`), and with distinct ether values the assertion fires exactly when an
  ERC20 note among those left is one of the most valuable ones, as many as the least number that affords the
  transaction.
- `TxBuilderExamples.DescendingNftsFail`: sending two NFTs of one contract, the higher number first, fails in the last
  assertion, because the inputs list them by number. With regular notes (no address is both an ERC20 token and an NFT
  contract) the assertion holds exactly when every contract's NFTs are sent in ascending order and none comes in with
  the ether.
- `TokenSelection.SpliceOut`: a note that is already being spent has index -1, and `splice(-1, 1)` takes the last
  spendable note instead. `SpliceMoves` shows that this still only moves a note from one pile to the other.
- `TxRoot.ExpansionIff`: without parent hashes among the leaves the transaction root fixes exactly the height of the tree
  and the list as the tree repeats it. Lists of one length are always bound (`SameLengthBinding`); lists of different
  length collide exactly when one spells out the repetitions of the other, as `RepetitionCollides` shows.
- `ZkTxCodec.EncodedSize`: the size estimate leaves out the 32 bytes of the fee, so `TxBuilderFee.FeePaysForSize`: a
  transaction pays for every other byte it will take up.
- `TxPickOrder.DearerPairFirst`: pairs compete by the fee of their cheaper side alone, and come after every single
  transaction (`PickedByFee`), whatever they pay together.
- `BlockCacheFate.SubmittedIsHeld`: the one way besides `clearChangesForBlockHash` to lose an operation is a failing
  write at once, which the caller is told of.
- `ZkTxLength.SizeKeptIff`: a decoded transaction remembers the length of its buffer as its size, which is the length it
  encodes to only if the buffer reaches its last field and nothing follows. Only for the empty buffer is it computed
  anew. `CutShortPrintsLonger`: one byte decodes to a transaction of size 1 that encodes to 291 bytes.
- `MemoCodec.ShortPrepayFails`: a prepay memo cut off before its length field is refused by accident, as the cut into
  notes happens to be impossible for every memo that short.

## Model

| member | source | states |
|---|---|---|
| Hashers.GetPreHash | packages/tree/src/hasher.ts:12-24 | the list holds the root of the empty tree of every height, starting from the zero leaf |
| FullTree.NodeBinding | packages/tree/src/hasher.ts:7-10 | with a collision-free hash, equal nodes have equal leaves below them |
| MerkleProofs.MerkleRoot | packages/tree/src/merkle-proof.ts:11-30 | the loop over path bits computes the recursive climb |
| MerkleProofs.VerifyProof | packages/tree/src/merkle-proof.ts:32-38 | accepts exactly the proofs whose climb ends in the root |
| MerkleProofs.StartingLeafProof | packages/tree/src/merkle-proof.ts:40-62 | accepts exactly when every right sibling is an empty subtree and the empty leaf climbs to the root |
| MerkleProofs.ClimbTrueSiblings | packages/tree/src/merkle-proof.ts:11-30 | climbing along true siblings from any leaf value gives the node of the tree with that leaf put in place |
| MerkleProofs.TrueProofVerifies | packages/tree/src/merkle-proof.ts:32-38 | completeness: the true leaf with its true siblings verifies |
| MerkleProofs.ClimbBinding | packages/tree/src/merkle-proof.ts:11-30 | soundness: equal climbs mean equal leaf and equal siblings |
| MerkleProofs.ProofExact | packages/tree/src/merkle-proof.ts:32-38 | a proof verifies against a tree if and only if it carries the true leaf and the true siblings |
| LightRollUpTrees.LightRollUpTree.DryAppend | packages/tree/src/light-rollup-tree.ts:140-192 | returns, without changing the tree, the root, index and siblings that an append installs |
| LightRollUpTrees.LightRollUpTree.WalkPath | packages/tree/src/light-rollup-tree.ts:345-391 | the inner loop: the node reached, the latest siblings changed in place and the nodes cached on the way |
| LightRollUpTrees.LightRollUpTree.WalkAll | packages/tree/src/light-rollup-tree.ts:333-394 | the outer loop: data, tracked leaves and cached nodes after the whole batch |
| LightRollUpTrees.LightRollUpTree.Append | packages/tree/src/light-rollup-tree.ts:317-458 | the whole new state: data, range and node table, each as the specification function gives it |
| LightRollUpTrees.LightRollUpTree.IsTracked | packages/tree/src/light-rollup-tree.ts:552-562 | true exactly for the siblings, at their own height, of tracked leaves' paths |
| LightRollUpTrees.LightRollUpTree.GetStartingLeafProof | packages/tree/src/light-rollup-tree.ts:194-215 | root and index unchanged, right-hand siblings of the next leaf replaced by empty subtrees |
| LightRollUpTrees.LightRollUpTree.GetCachedSiblings | packages/tree/src/utils/tree-cache.ts:35-67 | the stored rows among the siblings of one path, all of them and no others, or the out-of-range error |
| LightRollUpTrees.LightRollUpTree.GetSiblings | packages/tree/src/light-rollup-tree.ts:262-293 | level by level the stored sibling, or the empty subtree past the end of the tree or where nothing is stored; the out-of-range error passed on |
| LightRollUpTrees.LightRollUpTree.MerkleProofFor | packages/tree/src/light-rollup-tree.ts:217-260 | the proof or the error, per index range, metadata range and verification |
| LightRollUpTrees.LightRollUpTree.Bootstrap | packages/tree/src/light-rollup-tree.ts:460-546 | refused on a failing starting-leaf check or when behind the database, otherwise a fresh tree in exactly the given state |
| LightTreeStore.ShouldTrackExact | packages/tree/src/light-rollup-tree.ts:552-562 | a node is tracked if and only if it is the sibling, at its height, of some tracked leaf's path |
| LightTreeStore.ReadBack | packages/tree/src/light-rollup-tree.ts:345-391 | what the two conditional writes of every level of a walk leave at any node of the table |
| LightTreeStore.StepSiblingKnown | packages/tree/src/light-rollup-tree.ts:345-391 | one append keeps the table right about every sibling of a tracked leaf |
| LightTreeRefinement.WalkComputesNodes | packages/tree/src/light-rollup-tree.ts:345-391 | the walk of a new leaf computes true nodes of the full tree and leaves complete left subtrees behind |
| LightTreeRefinement.AppendLeafRefines | packages/tree/src/light-rollup-tree.ts:333-394 | one append keeps root and siblings equal to those of the full tree |
| LightTreeRefinement.AppendRefines | packages/tree/src/light-rollup-tree.ts:317-407 | any batch that fits: the root is that of the full tree over all leaves, and for every set bit of the count the sibling of that level is the complete left subtree |
| LightTreeRefinement.AppendBatches | packages/tree/src/light-rollup-tree.ts:317-407 | appending a ++ b is appending a, then b, siblings included |
| LightTreeRefinement.RootBindsLeaves | packages/tree/src/light-rollup-tree.ts:82-84 | root and index determine every leaf appended |
| LightTreeRefinement.NormalisedAreTrue | packages/tree/src/light-rollup-tree.ts:194-215 | the siblings handed out are the true siblings of the next leaf |
| LightTreeRefinement.StartingLeafProofPasses | packages/tree/src/light-rollup-tree.ts:194-215 | the proof handed out passes the check if and only if there is room for a leaf or everything is empty |
| LightTreeRefinement.StartingLeafProofUnique | packages/tree/src/merkle-proof.ts:40-62 | for a root and index with room, exactly the siblings handed out pass the check |
| LightTreeRefinement.BootstrapAsGoodAsReplay | packages/tree/src/light-rollup-tree.ts:460-546 | a tree resumed from that proof agrees with the original on root and index after every later append |
| LightTreeRefinement.RawSiblingsPassIff | packages/tree/src/grove.ts:227-250 | the siblings recorded as they are pass the check if and only if they are already normalised |
| LightTreeRefinement.RawSiblingsFailAfterOneLeaf | packages/tree/src/grove.ts:227-250 | after one leaf they are not and do not pass |
| LightTreeRuns.GenesisConsistent | packages/tree/src/grove.ts:402-451 | the empty tree satisfies the invariant of all runs |
| LightTreeRuns.ResumedConsistent | packages/tree/src/light-rollup-tree.ts:460-546 | so does a resumed tree over any rows |
| LightTreeRuns.RunConsistent | packages/tree/src/light-rollup-tree.ts:317-458 | every run of batches keeps the invariant: true root and siblings, fresh left siblings |
| LightTreeRuns.RunKeepsRow | packages/tree/src/light-rollup-tree.ts:317-458 | a run neither writes nor clears a row for a subtree that holds no leaf |
| LightTreeRuns.RunSiblingsKnown | packages/tree/src/light-rollup-tree.ts:333-391 | a leaf tracked throughout a run finds every sibling it may need in the table, with its true value |
| LightTreeRuns.TrackingExact | packages/tree/src/light-rollup-tree.ts:333-344 | the leaves tracked in a batch are exactly those under observation and those of the batch that ask for it |
| LightTreeSelective.RunIgnores | packages/tree/src/light-rollup-tree.ts:345-391 | light mode, every run: a row that is no sibling of a leaf tracked at the time is neither written nor cleared |
| LightTreeProofs.RunProofIff | packages/tree/src/light-rollup-tree.ts:217-315 | both modes, every run, any table, bootstrapped or not: a leaf that is kept is provable if and only if the table the run started from has nothing stale at the frontier; the Grove list verifies if and only if it has nothing stale at any sibling without leaves |
| LightTreeProofs.ProofSound | packages/tree/src/light-rollup-tree.ts:217-260 | with a collision-free hash, whatever is proved is the leaf at that index with its true siblings, and each of the two range errors comes exactly for its indices |
| LightTreeProofs.RunProofs | packages/tree/src/light-rollup-tree.ts:217-315 | over a table that never held more leaves, every leaf that is kept gets a verifying proof of its true siblings, from the tree below capacity and from the grove even at capacity |
| LightTreeProofs.StaleRowFails | packages/tree/src/grove.ts:402-451 | one row left behind by an earlier tree makes the first leaf of a new one unprovable |
| LightTreeProofs.LightModeProofs | packages/tree/src/light-rollup-tree.ts:217-293 | light mode, over a table that never held more leaves: at every later state with one more leaf and room, a tracked leaf gets its true siblings and a verifying proof |
| LightTreeLastLeaf.LightModeLastLeafIff | packages/tree/src/light-rollup-tree.ts:333-391 | light mode, every run: the last leaf, tracked, is provable if and only if the subtrees its predecessor finished are empty and nothing stale is at the frontier |
| LightTreeLastLeaf.SecondLeafProofIff | packages/tree/src/light-rollup-tree.ts:358-373 | at every depth from two up, the second leaf of a tree is provable while it is last if and only if the first is empty |
| LightTreeLastLeaf.RunLastLeafIff | packages/tree/src/light-rollup-tree.ts:333-391 | both modes, every run, any table: the last leaf is provable if and only if the table knew, before it came, the subtrees its predecessor finished and had nothing stale at the frontier when the run began; the Grove list likewise |
| LightTreeProofs.FullSyncProofs | packages/tree/src/light-rollup-tree.ts:217-315 | full sync, over a table that never held more leaves: every leaf since the start has a verifying proof of true siblings when there is room and the tree started empty or holds two leaves since its start |
| LightTreeLastLeaf.FirstLeafProofIff | packages/tree/src/light-rollup-tree.ts:358-373 | both modes, any table: exactly when the only leaf since a bootstrap is provable; over an empty table, exactly when the subtrees it does not share with its predecessor are empty |
| LightTreeFull.FullTreeProofIff | packages/tree/src/light-rollup-tree.ts:271-276 | exactly when a leaf of a completely full tree is provable: every true sibling off the left edge is empty and the one on it is stored |
| LightTreeFull.RunFullTreeIff | packages/tree/src/light-rollup-tree.ts:271-276 | after every run that fills the tree, in both modes and over any table: a leaf that is kept is provable if and only if its siblings off the left edge are empty |
| LightTreeFull.FullTreeLastLeafIff | packages/tree/src/light-rollup-tree.ts:271-276 | and so is the last leaf of the tree, tracked or in full sync; only in a tree of two leaves must the table have known its sibling |
| NullifierSpec.RangeGuardExact | packages/tree/src/nullifier-tree.ts:309-312 | the range guard rejects exactly the indices whose bit d is set |
| NullifierSpec.MissedIsLonger | packages/tree/src/nullifier-tree.ts:298-305 | an index beyond the tree that the guard misses has a path with no sibling among nodes of the tree and no empty subtree for it |
| NullifierSpec.EmptyTreeRepresents | packages/tree/src/nullifier-tree.ts:98-114 | a tree with no rows stands for the empty set |
| NullifierSpec.PathReadBack | packages/tree/src/nullifier-tree.ts:307-333 | what the path of one leaf leaves at any node, siblings shared within the batch included |
| NullifierSpec.PathComputesNodes | packages/tree/src/nullifier-tree.ts:307-333 | the path computes true nodes of the tree over the updated set |
| NullifierSpec.RootUnchangedIff | packages/tree/src/nullifier-tree.ts:307-333 | a leaf leaves the root alone exactly when it already has that value |
| NullifierSpec.ProcessRefines | packages/tree/src/nullifier-tree.ts:288-334 | an accepted batch stands for the updated set: every stored node true, every absent node empty |
| NullifierSpec.LaxProcessAccepts | packages/tree/src/nullifier-tree.ts:288-334 | without strict update a batch is accepted if and only if it is in range |
| NullifierSpec.StrictProcessExact | packages/tree/src/nullifier-tree.ts:288-334 | strict update accepts a batch if and only if every leaf changes the set at its turn |
| NullifierSpec.RejectedBecause | packages/tree/src/nullifier-tree.ts:309-326 | the error of a rejected strict batch belongs to the first leaf refused, and says why: out of range, or already as asked for, with its index |
| NullifierTheorems.UpdateRefines | packages/tree/src/nullifier-tree.ts:250-286 | an update moves the tree to the updated set or changes nothing |
| NullifierTheorems.ReopenedRepresents | packages/tree/src/nullifier-tree.ts:98-114 | a tree newly constructed over the table of another stands for the same set, its root read from the stored row |
| NullifierTheorems.RunRefines | packages/tree/src/nullifier-tree.ts:98-179 | over every sequence of nullify and recover calls and restarts, in which only the table survives, the tree stands for the set those calls leave, decided by sets alone |
| NullifierTheorems.NullifyAcceptedIff | packages/tree/src/nullifier-tree.ts:153-194 | nullify and dryRunNullify throw exactly on an index out of range, repeated or already used |
| NullifierTheorems.RecoverAcceptedIff | packages/tree/src/nullifier-tree.ts:168-179 | recover throws exactly on an index out of range, repeated or not in use |
| NullifierTheorems.NullifyComposes | packages/tree/src/nullifier-tree.ts:153-166 | nullify(a) then nullify(b) is accepted exactly when nullify(a ++ b) is, with the same root and the same answer for every node |
| NullifierTheorems.NullifyOrderIrrelevant | packages/tree/src/nullifier-tree.ts:153-166 | acceptance and result do not depend on the order of the batch |
| NullifierTheorems.RecoverUndoesNullify | packages/tree/src/nullifier-tree.ts:153-179 | recover after nullify restores the root and the answer for every node |
| NullifierTheorems.MembershipExact | packages/tree/src/nullifier-tree.ts:116-151 | inclusion is provable exactly for members, non-inclusion exactly for the others |
| NullifierTheorems.MarkedNotProved | packages/tree/src/nullifier-tree.ts:196-219 | an index the guard rejects gets the out-of-range error for either kind of proof |
| NullifierTheorems.FindUsedExact | packages/tree/src/nullifier-tree.ts:82-96 | a leaf row holds the filled value exactly for members |
| NullifierTrees.NullifierTree.GetRootNode | packages/tree/src/nullifier-tree.ts:98-114 | whenever the rows stand for a set, remembered root or not, the answer is the root of the full tree over that set, and it is remembered |
| NullifierTrees.NullifierTree.GetSiblingNodes | packages/tree/src/nullifier-tree.ts:221-245 | the stored rows among the siblings of all paths of a batch, all of them and no others |
| NullifierTrees.NullifierTree.WalkPath | packages/tree/src/nullifier-tree.ts:307-333 | the inner loop of a dry run, over rows fetched beforehand; no way on exactly for an index beyond the tree |
| NullifierTrees.NullifierTree.DryRun | packages/tree/src/nullifier-tree.ts:288-334 | for any indices: the updated nodes and new root, or the error of the first leaf that is rejected |
| NullifierTrees.NullifierTree.Update | packages/tree/src/nullifier-tree.ts:250-286 | the whole new state; a rejected batch leaves nodes and root as they were |
| NullifierTrees.NullifierTree.Nullify | packages/tree/src/nullifier-tree.ts:153-166 | strict update with filled leaves |
| NullifierTrees.NullifierTree.Recover | packages/tree/src/nullifier-tree.ts:168-179 | strict update with empty leaves |
| NullifierTrees.NullifierTree.DryRunNullify | packages/tree/src/nullifier-tree.ts:181-194 | the answer of nullify with the node table untouched |
| NullifierTrees.NullifierTree.GetSiblings | packages/tree/src/nullifier-tree.ts:196-219 | level by level the stored sibling or the empty subtree |
| NullifierTrees.NullifierTree.GetProof | packages/tree/src/nullifier-tree.ts:116-151 | the proof or the error, for both kinds of proof |
| NullifierTrees.NullifierTree.FindUsedNullifier | packages/tree/src/nullifier-tree.ts:82-96 | the leaves of the filled rows found, for any index asked; in range, the queried members of the set the tree stands for and those whose node index another tree has filled |
| GroveSpec.PaddedLenLeast | packages/tree/src/grove.ts:257-283 | the padded length is the least multiple of the sub-tree size that holds the leaves |
| GroveSpec.DryAppendPredicts | packages/tree/src/grove.ts:195-225 | the unpadded dry append already has the root of the padded append, and the corrected index is its index |
| GroveSpec.PatchAppliesIff | packages/tree/src/grove.ts:172-225 | by the numbers: a patch applies exactly when its dry run succeeds and the index plus the padded length is within both append-only trees; otherwise which of the three errors it is |
| GroveSpec.DryPatchPredicts | packages/tree/src/grove.ts:195-225 | whenever a patch applies, the dry run shows exactly the indices it reaches and the roots of the full trees over old leaves, patch and padding |
| GroveSpec.DryPatchBySets | packages/tree/src/grove.ts:195-225 | a dry run fails exactly on a nullifier out of range, repeated or already used, and otherwise shows the root of the full tree over all nullifiers |
| GroveSpec.PatchRefines | packages/tree/src/grove.ts:172-193 | the grove goes on standing for its leaves, padding included, and its nullifiers |
| GroveSpec.PatchLeafProofs | packages/tree/src/grove.ts:257-283 | every leaf of a patch that is kept and not the last of its padding has a verifying proof at its own index afterwards |
| GroveSpec.RecordResumesIff | packages/tree/src/grove.ts:227-250 | each sibling list of the record passes the starting-leaf check of a bootstrap if and only if it already is the list handed out by a starting-leaf proof |
| Groves.Grove.DryPatch | packages/tree/src/grove.ts:195-225 | the snapshot or the rejection, changing no tree |
| Groves.Grove.AppendUTXOs | packages/tree/src/grove.ts:257-283 | exactly when the index plus the padded length is within the tree, the padded append; nothing otherwise |
| Groves.Grove.AppendWithdrawals | packages/tree/src/grove.ts:285-311 | the same for withdrawals |
| Groves.Grove.ApplyGrovePatch | packages/tree/src/grove.ts:172-193 | the three trees in turn, which error comes first by the numbers, what is left alone when one of them refuses, and in full sync the siblings recorded for a bootstrap |
| Groves.Grove.UtxoMerkleProof | packages/tree/src/grove.ts:324-359 | for an index of the tree the sibling list assembled from stored rows by their own height, verified; the out-of-range error exactly where the guard fires; whatever is returned verifies |
| Groves.SiblingHeights | packages/tree/src/grove.ts:331-350 | the level formula gives back the height at which a row is a sibling |
| Groves.BootstrapTree | packages/tree/src/grove.ts:402-503 | null on a failing starting-leaf proof, a resumed tree on a passing one, an empty tree without one |
| NoteSum.EtherFrom | packages/transaction/src/note-sum.ts:36-42 | the loop computes the sum of ether |
| NoteSum.Erc20From | packages/transaction/src/note-sum.ts:44-54 | an entry for exactly the tokens with an amount, holding the total |
| NoteSum.NftsFrom | packages/transaction/src/note-sum.ts:56-68 | an entry for exactly the contracts with an NFT, listing the numbers in note order |
| NoteSum.SumFrom | packages/transaction/src/note-sum.ts:70-76 | every query of a sum gives the total or list of the notes, nothing standing for zero |
| NoteSum.Erc20KeysExact | packages/transaction/src/note-sum.ts:44-54 | entries are distinct, and an address has one if and only if its total is positive |
| NoteSum.NftKeysExact | packages/transaction/src/note-sum.ts:56-68 | entries are distinct, and an address has one if and only if some NFT is listed |
| NoteSum.NftsCounted | packages/transaction/src/note-sum.ts:56-68 | an NFT is listed as often as notes carry it |
| NoteSum.NoteCounts | packages/transaction/src/note-sum.ts:36-68 | what a single note counts for: its ether always, its amount only without an NFT, its NFT only without an amount |
| NoteSum.KeysGrow | packages/transaction/src/note-sum.ts:44-68 | entries stay in the order of the first note that makes them |
| EtherSelection.Exchange | packages/transaction/src/tx-builder.ts:269-301 | no choice of k notes is worth more than the k most valuable ones |
| EtherSelection.SpendEther | packages/transaction/src/tx-builder.ts:269-301 | the loop ends; it succeeds if and only if some choice of notes, of any number, makes the ether exceed what that number of inputs requires; then it takes the least number that can do, and the most valuable notes |
| EtherSelection.ChosenKind | packages/transaction/src/tx-builder.ts:269-301 | which kinds of note are taken, read off the pool: only notes with equal ether leave it open |
| TokenSelection.SpliceMoves | packages/transaction/src/tx-builder.ts:201-203 | a splice moves one note from the spendable to the spent, whether or not the note asked for is there |
| TokenSelection.SpliceAsDefined | packages/transaction/src/tx-builder.ts:201-203 | the removal is `splice(indexOf(x), 1)` as JavaScript defines both, index -1 included |
| TokenSelection.SelectErc20 | packages/transaction/src/tx-builder.ts:157-177 | takes notes of one token, none larger than one left, until the target is reached and not beyond: without the largest it is not; fails if and only if all there is falls short |
| TokenSelection.SelectAllErc20 | packages/transaction/src/tx-builder.ts:156-177 | over all tokens: fails, naming the first one in order that falls short, if and only if some token does; otherwise of every token the smallest notes are spent and no more than needed |
| SpentNotes.PilesFixed | packages/transaction/src/tx-builder.ts:156-204 | with distinct amounts the notes spent are those whose smaller notes of the token fall short of what is sent and those with an NFT that is sent, and the notes left are the others |
| TokenSelection.SelectNfts | packages/transaction/src/tx-builder.ts:180-204 | fails, with the error for the number or the one for the list, if and only if the NFTs sent from a contract are not there, once each; otherwise their notes are spent |
| TokenSelection.AscendingUnique | packages/transaction/src/tx-builder.ts:193-200 | two ascending lists with the same numbers are equal, so the pairwise comparison decides equality as multisets |
| NftPhase.SelectAllNfts | packages/transaction/src/tx-builder.ts:179-204 | over all contracts: fails, with the error of the first one that is not covered, if and only if some contract is not; the notes taken are exactly those with the NFTs sent and list them ascending |
| TokenChange.Erc20Changes | packages/transaction/src/tx-builder.ts:206-223 | for every token change plus sent equals spent, the subtraction never goes below zero, and there is one change note for every token of which more is spent than sent |
| TokenChange.NftChanges | packages/transaction/src/tx-builder.ts:224-250 | for every contract exactly the NFTs spent and not sent, in order |
| TxBuilderSpec.RequiredGrows | packages/transaction/src/tx-builder.ts:252-267 | what the transaction requires never falls as inputs are added |
| TxBuilderSpec.EtherBalances | packages/transaction/src/tx-builder.ts:303-318 | the two assertions on ether always hold |
| TxBuilderSpec.Erc20Balances | packages/transaction/src/tx-builder.ts:319-324 | checking the tokens that come in decides balance for all tokens |
| TxBuilderSpec.Erc20FailsIff | packages/transaction/src/tx-builder.ts:319-324 | the assertion fails if and only if a note taken for its ether brings a token along |
| TxBuilderSpec.BringsIff | packages/transaction/src/tx-builder.ts:269-301 | whether that happens, from the notes left to the ether phase: with distinct ether values exactly when such a note is among the most valuable ones, as many as the least number that affords |
| TxBuilderSpec.DecidedByTokens | packages/transaction/src/tx-builder.ts:269-333 | which assertion on tokens fires and when a transaction comes out, by the notes left to the ether phase and the order in which NFTs are sent |
| TxBuilderSpec.DecidedByInput | packages/transaction/src/tx-builder.ts:144-343 | the same by the notes provided and sent alone, with regular notes and distinct amounts |
| TxBuilderSpec.NftsBalance | packages/transaction/src/tx-builder.ts:325-333 | checking the contracts that come in decides balance for all contracts |
| TxBuilderSpec.NftsFailIff | packages/transaction/src/tx-builder.ts:325-333 | when the notes spent list the NFTs sent in ascending order, the assertion holds if and only if they are sent so and none comes in with the ether |
| TxBuilderSpec.OneEachInOrder | packages/transaction/src/tx-builder.ts:325-333 | at most one NFT per contract is enough |
| TxBuilders.TxBuilder.Provide | packages/transaction/src/tx-builder.ts:42-45 | the notes are added at the end |
| TxBuilders.TxBuilder.Send | packages/transaction/src/tx-builder.ts:345-363 | one outflow with the assets of the note and the recipient and fee of its exit; what it adds to the first-layer fee and to the number of cross-layer outflows; a withdrawal wins over a migration |
| TxBuilders.SentAsGiven | packages/transaction/src/tx-builder.ts:345-363 | an exit has the recipient and fee of its withdrawal, or else its migration, and nothing else of the note changes |
| TxBuilders.SendingAdds | packages/transaction/src/tx-builder.ts:148-154 | sending adds the fee of its withdrawal, or else of its migration, to the first-layer fee, and one to the cross-layer outflows exactly when it has one |
| TxBuilders.TxBuilder.PickTokens | packages/transaction/src/tx-builder.ts:144-250 | each token error exactly when its asset cannot be covered; otherwise the smallest notes of every token sent are spent and no more than needed, the change is made, and with regular notes and distinct amounts all piles are fixed by the input |
| TxBuilders.TxBuilder.PayEther | packages/transaction/src/tx-builder.ts:252-343 | fails exactly when no choice of notes pays for itself; otherwise the assertions decide |
| TxBuilders.TxBuilder.Build | packages/transaction/src/tx-builder.ts:144-343 | each error exactly when its asset cannot be covered; otherwise an assertion on tokens fires exactly as the notes left to the ether phase and the order of the NFTs decide, with regular notes and distinct amounts as the notes provided and sent decide; or ether, every token and every NFT list balance, each note is spent at most once, everything asked for is sent and the rest goes back to the owner |
| TxBuilderFee.FeePaysForSize | packages/transaction/src/tx-builder.ts:252-267 | the fee of a transaction that is built is the price of every byte of its own encoding, exits included, short of the 32 bytes of the fee |
| TxBuilderExamples.DescendingNftsFail | packages/transaction/src/tx-builder.ts:325-333 | two NFTs of one contract sent in descending order fail, although both are provided and an ether note pays for everything |
| TxBuilderExamples.Erc20WithEtherFails | packages/transaction/src/tx-builder.ts:319-324 | one ERC20 note with ether and nothing to send: the assertion on ERC20 amounts fires |
| TxBuilderExamples.LargerNoteFails | packages/transaction/src/tx-builder.ts:319-324 | two notes of a token with ether, the smaller one's worth sent with more ether than it carries: the larger one is taken for its ether and the assertion fires |
| TxRoot.Root | packages/utils/src/index.ts:92-117 | terminates by halving and computes the duplicate-last tree; the empty list gives zero |
| TxRoot.RootIsFullTree | packages/utils/src/index.ts:92-117 | the root is that of the complete tree over the list with the last node of every odd level repeated |
| TxRoot.SameHeightIff | packages/utils/src/index.ts:92-117 | lists of one height have the same root if and only if they fill that tree in the same way, repetitions and parent hashes included |
| TxRoot.RootIff | packages/utils/src/index.ts:92-117 | any two lists have the same root if and only if the higher tree, at the height of the lower one, fills it in the same way |
| TxRoot.ExpansionIff | packages/utils/src/index.ts:92-117 | without parent hashes among the leaves: equal roots if and only if equal height and the same tree filled, repetitions included |
| TxRoot.SameLengthBinding | packages/utils/src/index.ts:92-117 | lists of one length: equal roots if and only if equal lists, repetitions and parent hashes included |
| TxRoot.SameHeightBinding | packages/utils/src/index.ts:92-117 | lists of one height without repetitions and with the same root are equal |
| TxRoot.RootBinding | packages/utils/src/index.ts:92-117 | across lengths, equal roots if and only if equal lists, without repetitions and parent hashes among the leaves |
| TxRoot.RepetitionCollides | packages/utils/src/index.ts:92-117 | across lengths, a last leaf spelled out twice and a leaf that is a parent hash collide |
| TxPoolSpec.PairUpConserves | packages/coordinator/src/tx-pool.ts:192-213 | every swap transaction is in exactly one pair or left alone |
| TxPoolSpec.PairUpMutual | packages/coordinator/src/tx-pool.ts:201-212 | both sides of every pair create the note the other asks for |
| TxPoolSpec.PairUpMaximal | packages/coordinator/src/tx-pool.ts:192-213 | no two transactions left alone could have swapped |
| TxPickOrder.PairsByFee | packages/coordinator/src/tx-pool.ts:192-213 | pairs are found in ascending order of their cheaper side |
| TxPickOrder.PairPrefers | packages/coordinator/src/tx-pool.ts:192-213 | the cheaper side gets the cheapest partner there is: any cheaper one it matches was taken by an earlier pair |
| TxPoolSpec.TakeWithinBudget | packages/coordinator/src/tx-pool.ts:221-256 | bytes picked plus bytes left is the budget, and it is never exceeded |
| TxPoolSpec.TakeSaturated | packages/coordinator/src/tx-pool.ts:221-256 | an entry that pays its price is picked or larger than the bytes left |
| TxPoolSpec.PendingConserves | packages/coordinator/src/tx-pool.ts:183-219 | the pending list and the swaps left alone are the pool, each transaction once |
| TxPoolSpec.PickSound | packages/coordinator/src/tx-pool.ts:179-259 | picked: distinct pool members within the budget, each entry paying its price, each swap next to its partner |
| TxPoolSpec.PickSaturated | packages/coordinator/src/tx-pool.ts:179-259 | nothing that pays its price and still fits is left behind |
| TxPickOrder.PickedByFee | packages/coordinator/src/tx-pool.ts:215-256 | what is picked comes single transactions first, by falling fee, then pairs by falling fee of the cheaper side |
| TxPickOrder.DearerFirst | packages/coordinator/src/tx-pool.ts:221-256 | a transaction without swap that pays its price and loses against another no smaller one does not pay more |
| TxPickOrder.DearerPairFirst | packages/coordinator/src/tx-pool.ts:221-256 | the same for pairs, by the fee of the cheaper side |
| TxPickOrder.PassedOverLarger | packages/coordinator/src/tx-pool.ts:227-255 | an entry that pays its price and is passed over is larger than every entry picked after it |
| TxQueueSpec.RevertUndoesMark | packages/coordinator/src/tx-pool.ts:261-277 | reverting a block gives the pool back as it was and forgets the block |
| TxQueueSpec.RevertGivesBack | packages/coordinator/src/tx-pool.ts:271-277 | reverting gives back exactly what is queued under the key, whatever the pool holds by then, and a key that is not queued changes nothing |
| TxQueueSpec.BlocksDoNotCollide | packages/coordinator/src/tx-pool.ts:261-277 | two different blocks have different keys, so each can be dropped or reverted by itself |
| TxQueueSpec.IncludedLeavePool | packages/coordinator/src/tx-pool.ts:261-269 | the transactions included leave the pool and no others, the block is queued under its key and no other block is touched; dropping it gives the queue back without it |
| TxQueueSpec.LastAddedStays | packages/coordinator/src/tx-pool.ts:163-169 | of several transactions added with one hash the last one stays |
| TxPools.TxMemPool.AddToTxPool | packages/coordinator/src/tx-pool.ts:163-169 | the pool with the transactions added under their hashes |
| TxPools.TxMemPool.MarkAsIncluded | packages/coordinator/src/tx-pool.ts:261-265 | the queue gains the block under its root, the pool loses its transactions |
| TxPools.TxMemPool.Drop | packages/coordinator/src/tx-pool.ts:267-269 | the queue forgets the block |
| TxPools.TxMemPool.Revert | packages/coordinator/src/tx-pool.ts:271-277 | the pool gets the transactions of the block back |
| TxPools.TxMemPool.GetSortedTxs | packages/coordinator/src/tx-pool.ts:285-287 | exactly the pool, by ascending fee, each hash once |
| TxPools.TxMemPool.PickTxs | packages/coordinator/src/tx-pool.ts:171-259 | prunes, sorts, pairs and picks as the specification function says |
| TxPools.PairSwaps | packages/coordinator/src/tx-pool.ts:192-213 | the matching loop computes the recursive pairing |
| TxPools.PickItems | packages/coordinator/src/tx-pool.ts:221-256 | the picking loop computes the recursive pick and the bytes left |
| BlockCacheSpec.RunSound | packages/database/src/block-cache.ts:57-116 | every run keeps one identity per operation, submission order among the waiting, and at most one, confirmed, write |
| BlockCacheSpec.WrittenOnceWhenConfirmed | packages/database/src/block-cache.ts:96-116 | in every run an operation is written at most once and only when confirmed |
| BlockCacheSpec.ClearedNeverWritten | packages/database/src/block-cache.ts:89-93 | an operation still pending when its block is cleared is never written, whatever happens next |
| BlockCacheSpec.ClearKeepsOthers | packages/database/src/block-cache.ts:89-93 | clearing touches no other operation and no write |
| BlockCacheSpec.HeaderLeavesUnconfirmed | packages/database/src/block-cache.ts:96-116 | after a header exactly the unconfirmed operations and failed writes are pending |
| BlockCacheSpec.WritesInSubmissionOrder | packages/database/src/block-cache.ts:96-116 | in every run of successful writes with known block numbers, operations with non-decreasing block numbers are written in submission order |
| BlockCacheFate.SubmissionHeld | packages/database/src/block-cache.ts:169-194 | after a submission the operation with its number, hash and payload is pending exactly when it has to wait, and written exactly when it does not and the write succeeds |
| BlockCacheFate.SubmittedIsHeld | packages/database/src/block-cache.ts:57-288 | in every run an operation submitted is pending or written at the end, unless its immediate write failed or its own block was cleared after it |
| BlockCacheFate.ConfirmedIsWritten | packages/database/src/block-cache.ts:96-116 | and it is written at the latest by any header that confirms it and whose write of it succeeds |
| BlockCacheFate.NothingInvented | packages/database/src/block-cache.ts:57-288 | whatever is pending or written was submitted at some step of the run with that number, hash and payload |
| BlockCacheFate.LatestHeaderKnown | packages/database/src/block-cache.ts:68-87 | the number known is that of the latest header, whatever the chain would answer |
| BlockCacheFate.FirstAnswerKnown | packages/database/src/block-cache.ts:81-87 | without any header it is what the chain answered first |
| BlockCaches.BlockCache.OnBlockHeader | packages/database/src/block-cache.ts:68-78 | the new number, then the writes that are due |
| BlockCaches.BlockCache.WriteChangesIfNeeded | packages/database/src/block-cache.ts:96-116 | writes what is due in order, keeps the rest and what failed |
| BlockCaches.BlockCache.ClearChangesForBlockHash | packages/database/src/block-cache.ts:89-93 | drops exactly the operations of that block |
| BlockCaches.BlockCache.BlockNumber | packages/database/src/block-cache.ts:81-87 | asks the chain only while nothing is known |
| BlockCaches.BlockCache.Submit | packages/database/src/block-cache.ts:169-288 | written at once when confirmed or without confirmations, queued otherwise; fails only when the immediate write does |
| Bytes.BigEndianRoundTrip | packages/transaction/src/zk-tx.ts:118-158 | reading back a number printed big-endian |
| Bytes.BigEndianExact | packages/transaction/src/zk-tx.ts:263-352 | printing back a number read big-endian, in as many bytes |
| Bytes.BigEndianFirst | packages/transaction/src/zk-tx.ts:118-158 | the first byte is the most significant one |
| ZkTxDecoder.Queue.Dequeue | packages/utils/src/index.ts:194-209 | what is there of the next n bytes, and the cursor moved past them |
| ZkTxDecoder.DecodeInflows | packages/transaction/src/zk-tx.ts:266-276 | the loop over the queue parses the counted list |
| ZkTxDecoder.DecodeOutflows | packages/transaction/src/zk-tx.ts:277-302 | the same for outflows, whose data depends on their type |
| ZkTxDecoder.DecodeTail | packages/transaction/src/zk-tx.ts:327-347 | swap and memo by the bits of the switch |
| ZkTxDecoder.DecodeBuffer | packages/transaction/src/zk-tx.ts:263-352 | computes the parser function, and so gives back every transaction whose encoding it is given |
| ZkTxCodec.RoundTrip | packages/transaction/src/zk-tx.ts:102-159 | decoding an encoded canonical transaction gives back every field |
| ZkTxCodec.DecodedIsCanonical | packages/transaction/src/zk-tx.ts:263-352 | whatever the buffer, the parser answers with a canonical transaction |
| ZkTxCodec.RoundTripIff | packages/transaction/src/zk-tx.ts:102-159 | an encodable transaction survives encoding and decoding if and only if it is canonical |
| ZkTxCodec.EncodedSize | packages/utils/src/index.ts:65-90 | without a memo or with a version-one memo the encoded length is the estimate plus 32 |
| ZkTxLayout.InflowLayout | packages/transaction/src/zk-tx.ts:106-113 | one byte counts the inflows; root and nullifier of each stand at their own offset |
| ZkTxLayout.OutflowLayout | packages/transaction/src/zk-tx.ts:114-137 | one byte counts the outflows; note, type and public data of each stand at an offset that counts the exits before it |
| ZkTxLayout.DataFields | packages/transaction/src/zk-tx.ts:118-135 | recipient, ether, token, amount, NFT and fee of an exit at their offsets |
| ZkTxLayout.EndLayout | packages/transaction/src/zk-tx.ts:138-159 | fee, proof and tail follow the outflows, and nothing follows the tail |
| ZkTxLayout.ProofFields | packages/transaction/src/zk-tx.ts:139-146 | the eight coordinates at their offsets, those of the second group in reversed pairs |
| ZkTxLayout.TailLayout | packages/transaction/src/zk-tx.ts:147-159 | the bits of the switch byte, the swap, and the memo, which has its length in front exactly in version two |
| ZkTxLength.SizeKeptIff | packages/transaction/src/zk-tx.ts:208-213 | every buffer decodes to something that encodes, in exactly the size it answers if and only if the buffer is empty or the switch byte, the swap and the memo length are there and the memo takes up the rest; a buffer that ends before the switch byte encodes longer |
| ZkTxLength.CutShortPrintsLonger | packages/transaction/src/zk-tx.ts:349 | a buffer of one byte encodes to 291 bytes |
| ZkTxStrict.ReencodeIff | packages/transaction/src/zk-tx.ts:263-352 | a buffer survives decoding and encoding if and only if it is strict: complete, every number below the field order, a switch byte below 6, nothing following |
| MemoCodec.ParseMemoData | packages/transaction/src/zk-tx.ts:374-443 | the parser over the queue computes the parser function, error cases included |
| MemoCodec.MemoByVersion | packages/transaction/src/zk-tx.ts:374-391 | no memo gives no notes, version one the whole memo as one note, and any version but one and two an error |
| MemoCodec.HashedSelectors | packages/transaction/src/zk-tx.ts:374-443 | a hashed selector reads like the zero selector of its kind, and a fifth selector is an error |
| MemoCodec.ShortPrepayFails | packages/transaction/src/zk-tx.ts:414-427 | the length field of a prepay memo is missing exactly up to 76 bytes, and then the memo is an error |
| MemoCodec.PrepayMemoRoundTrip | packages/zk-wizard/src/zk-wizard.ts:325-349 | the prepay memo parses back to the same notes, fees, expiration and signature |
| MemoCodec.PrepayLayout | packages/zk-wizard/src/zk-wizard.ts:325-349 | both fees, expiration, length and signature of a prepay memo at their offsets, zero bytes behind |
| MemoCodec.DefaultMemoRoundTrip | packages/zk-wizard/src/zk-wizard.ts:286-295 | the memo without prepayment parses back to the same notes |
| MemoCodec.DefaultMemoExact | packages/transaction/src/zk-tx.ts:398-410 | any body of a memo without prepayment is refused if and only if it is no whole number of notes, and otherwise the notes put it together again |
| MemoCodec.PrepayMemoChunked | packages/zk-wizard/src/zk-wizard.ts:325-349 | the prepay header and the padded signature fill whole 81-byte chunks |

## Left out

- Poseidon, keccak, EdDSA, curve points, chacha20 and SNARKs: hashes are abstract functions and encrypted notes are byte strings.
- Field arithmetic modulo `Fp.ORDER`: amounts are natural numbers, so the model says nothing about sums that reach the order.
- Locks, promises and transactions of the database: every locked section is one step and every transaction commits. In particular two `nullify` calls inside one uncommitted database transaction are not modelled; `getSiblingNodes` reads the database only.
- The in-memory half of `TreeCache`: one map from node index to value stands for the table and the cache.
- `db.onError` rollback in the trees.
- Leaf lookup by hash in `_merkleProof` and `utxoMerkleProof`: the index is a parameter. `withdrawalMerkleProof` is the same code for the other tree.
- LightRollUpTrees.LightRollUpTree.Append: asks for room for the batch; beyond it the source goes on counting, and only the grove checks.
- LightRollUpTrees.LightRollUpTree.WalkAll: asks for the same room.
- NullifierTheorems.RunRefines: in a tree of depth zero it asks that indices be in range or caught by the guard; there the source takes any even index for its single leaf.
- NullifierTheorems.NullifyAcceptedIff: asks the same in a tree of depth zero.
- NullifierTheorems.RecoverAcceptedIff: asks the same in a tree of depth zero.
- NullifierTheorems.NullifyComposes: asks the same in a tree of depth zero.
- NullifierTheorems.NullifyOrderIrrelevant: asks the same in a tree of depth zero.
- NullifierTheorems.UpdateRefines: asks the same in a tree of depth zero.
- NullifierSpec.LaxProcessAccepts: asks the same in a tree of depth zero.
- NullifierSpec.StrictProcessExact: asks the same in a tree of depth zero.
- NullifierSpec.RejectedBecause: asks the same in a tree of depth zero.
- GroveSpec.PatchRefines: asks the same in a tree of depth zero.
- GroveSpec.DryPatchBySets: asks the same in a tree of depth zero.
- Groves.Grove.UtxoMerkleProof: for an index beyond the tree that the guard misses, the contract says only that what is returned verifies.
- Groves.Grove.ApplyGrovePatch: the record for a bootstrap is returned; the block it is filed under is not modelled.
- Ties in `sort`: the comparisons of the source never return 0, so the order of equal fees and amounts is left open.
- TxBuilders.TxBuilder.Build: notes are values; the salt of change notes is not modelled, the owner stands in their `id`.
- `sendEther`, `sendERC20` and `sendNFT`, which build a note and call `send`; `sendEther` alone refuses a withdrawal together with a migration.
- ZkTxCodec.RoundTrip: the cached `size` and `hash` of a transaction are not fields of the model; `ZkTxLength` relates the size.
- TxPools.TxMemPool.AddToTxPool: storing the added transactions in the database is left out.
- ZkTxDecoder.DecodeBuffer: a byte missing at the end of the buffer reads as zero, and an empty slice as zero.
- MemoCodec.ParseMemoData: works on bytes where the source slices a hexadecimal string; `parseInt` is exact, which it is below 2^53. Slices past the end read as what is there.
- MemoCodec.HashedSelectors: asks that the selectors of the two kinds differ, as the hashes do.
- GroveSpec.PatchLeafProofs: for the last leaf, a full tree or a table with other rows, `RunProofIff`, `RunLastLeafIff` and `RunFullTreeIff` say when.
- Verification of the prepay signature and the version-one memo of the wizard.
- `loadPendingTx`, `storePendingTx` and the queries of `verifiedTx`: pruning removes a given set of hashes.
- Payloads of cached operations: `upsertCache`, `updateCache` and `transactionCache` differ only in the payload, and the database is the log of its writes. Overlapping calls of `writeChangesIfNeeded` are not modelled.
- Coordinator, block processor, client, CLI, contracts, wallets other than memo building, and everything that is network or user interface.
