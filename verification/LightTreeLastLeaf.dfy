/** The most recent leaf of a tree: exactly when it can be proved before another one follows it. */
module LightTreeLastLeaf {
  import opened Bits
  import opened Hashers
  import opened FullTree
  import opened MerkleProofs
  import opened LightTreeSpec
  import opened LightTreeStore
  import opened LightTreeRuns
  import opened LightTreeProofs

  /** A left sibling of leaf t that is not also one of leaf t - 1: the subtree that leaf t - 1 finished. */
  predicate Unshared(t: nat, l: nat) {
    t > 0 && Shr(t, l) % 2 == 1 && Shr(t - 1, l) != Shr(t, l)
  }

  /** Leaf t - 1 is in that subtree, and leaf t just right of it. */
  lemma FinishedSubtree(d: nat, t: nat, l: nat)
    requires t < Pow2(d) && l < d && Unshared(t, l)
    ensures 0 < Shr(t, l) < Pow2(d - l) && Shr(t - 1, l) == Shr(t, l) - 1
  {
    ShrBound(t, d, l);
    ShrSucc(t - 1, l);
  }

  // ----- one append

  /** Appending a leaf stores every left sibling it shares with its predecessor. */
  lemma SharedStored<T>(h: Hasher<T>, d: nat, fullSync: bool, tracking: seq<nat>, st: TreeState<T>, s: seq<T>, x: T,
                        l: nat)
    requires Consistent(h, d, st, s) && 0 < |s| < Pow2(d) && l < d && (fullSync || |s| in tracking)
    requires Shr(|s|, l) % 2 == 1 && Shr(|s| - 1, l) == Shr(|s|, l)
    ensures var after := CacheTo(h, fullSync, tracking, |s|, x, st.data.siblings, st.nodes, d);
      Stored(h, after, Key(d, l, Shr(|s|, l) - 1), l) == TrueSibling(h, LeafFn(h, s + [x]), |s|, l)
  {
    var p := Shr(|s|, l);
    KeepsOwnSibling(d, fullSync, tracking, |s|, l, p - 1);
    ReadBack(h, fullSync, tracking, |s|, x, st.data.siblings, st.nodes, d, l, p - 1);
    AppendOffPath(h, s, x, l, p - 1);
  }

  /** It does not touch the one that its predecessor finished. */
  lemma UnsharedUntouched<T>(h: Hasher<T>, d: nat, fullSync: bool, tracking: seq<nat>, st: TreeState<T>, s: seq<T>,
                             x: T, l: nat)
    requires Consistent(h, d, st, s) && |s| < Pow2(d) && l < d && Unshared(|s|, l)
    ensures var after := CacheTo(h, fullSync, tracking, |s|, x, st.data.siblings, st.nodes, d);
      Stored(h, after, Key(d, l, Shr(|s|, l) - 1), l) == Stored(h, st.nodes, Key(d, l, Shr(|s|, l) - 1), l)
  {
    var p := Shr(|s|, l) - 1;
    FinishedSubtree(d, |s|, l);
    assert !IsPrevLeftSibling(|s|, l, p) && p != Shr(|s|, l);
    ReadBack(h, fullSync, tracking, |s|, x, st.data.siblings, st.nodes, d, l, p);
  }

  lemma LeftStored<T>(h: Hasher<T>, d: nat, fullSync: bool, tracking: seq<nat>, st: TreeState<T>, s: seq<T>, x: T,
                      l: nat, after: map<nat, T>)
    requires Consistent(h, d, st, s) && |s| < Pow2(d) && l < d && (fullSync || |s| in tracking) && Shr(|s|, l) % 2 == 1
    requires after == CacheTo(h, fullSync, tracking, |s|, x, st.data.siblings, st.nodes, d)
    ensures Stored(h, after, Key(d, l, Shr(|s|, l) - 1), l)
      == if Unshared(|s|, l) then Stored(h, st.nodes, Key(d, l, Shr(|s|, l) - 1), l)
         else TrueSibling(h, LeafFn(h, s + [x]), |s|, l)
  {
    if |s| == 0 { ShrOfZero(l); }
    if Unshared(|s|, l) {
      UnsharedUntouched(h, d, fullSync, tracking, st, s, x, l);
    } else {
      SharedStored(h, d, fullSync, tracking, st, s, x, l);
    }
  }

  /** The subtree of height l that leaf t - 1 finished is stored with its true value, or absent and truly empty. */
  ghost predicate KnownAt<T>(h: Hasher<T>, d: nat, s: seq<T>, nodes: map<nat, T>, t: nat, l: nat)
    requires l < d < |h.preHash| && Unshared(t, l)
  {
    Stored(h, nodes, Key(d, l, Shr(t, l) - 1), l) == TrueSibling(h, LeafFn(h, s), t, l)
  }

  ghost predicate UnsharedKnown<T>(h: Hasher<T>, d: nat, s: seq<T>, nodes: map<nat, T>, t: nat)
    requires d < |h.preHash|
  {
    forall l :: 0 <= l < d && Unshared(t, l) ==> KnownAt(h, d, s, nodes, t, l)
  }

  /** A right sibling of the last leaf is empty, hidden or at the frontier. */
  lemma LastLeafRight<T>(h: Hasher<T>, d: nat, s: seq<T>, nodes: map<nat, T>, t: nat, l: nat)
    requires IsHasher(h, d) && |s| == t + 1 <= Pow2(d) && l < d && Shr(t, l) % 2 == 0
    ensures TrueSibling(h, LeafFn(h, s), t, l) == h.preHash[l] && !Occupied(t + 1, l, Xor1(Shr(t, l)))
    ensures t + 1 < Pow2(d) ==>
      (SiblingAt(h, d, t + 1, nodes, t, l) == h.preHash[l]
       <==> Frontier(t + 1, t, l) ==> RowEmpty(h, d, nodes, l, Xor1(Shr(t, l))))
  {
    UnoccupiedNode(h, d, s, l, Xor1(Shr(t, l)));
    if t + 1 < Pow2(d) { UnoccupiedUsed(h, d, t + 1, nodes, t, l); }
  }

  /** A left sibling is never past the end of the tree. */
  lemma LastLeafLeft<T>(h: Hasher<T>, d: nat, nodes: map<nat, T>, t: nat, l: nat)
    requires IsHasher(h, d) && t + 1 < Pow2(d) && l < d && Shr(t, l) % 2 == 1
    ensures SiblingAt(h, d, t + 1, nodes, t, l) == Stored(h, nodes, Key(d, l, Shr(t, l) - 1), l)
  {
    SiblingKey(d, t, l);
    PathKey(d, t + 1, l);
    ShrSucc(t, l);
  }

  /** The sibling the tree uses for its last leaf. */
  lemma LastLeafSibling<T>(h: Hasher<T>, d: nat, fullSync: bool, tracking: seq<nat>, st: TreeState<T>, s: seq<T>, x: T,
                           l: nat, after: map<nat, T>, all: seq<T>, t: nat, n: nat)
    requires Consistent(h, d, st, s) && |s| == t && n == t + 1 < Pow2(d) && l < d && (fullSync || t in tracking)
    requires after == CacheTo(h, fullSync, tracking, |s|, x, st.data.siblings, st.nodes, d) && all == s + [x]
    ensures SiblingAt(h, d, n, after, t, l) == TrueSibling(h, LeafFn(h, all), t, l)
       <==> && (Unshared(t, l) ==> KnownAt(h, d, all, st.nodes, t, l))
            && (Frontier(n, t, l) ==> RowEmpty(h, d, after, l, Xor1(Shr(t, l))))
  {
    if Shr(t, l) % 2 == 0 {
      LastLeafRight(h, d, all, after, t, l);
    } else {
      LastLeafLeft(h, d, after, t, l);
      LeftStored(h, d, fullSync, tracking, st, s, x, l, after);
    }
  }

  /** The sibling the grove uses for it. */
  lemma LastLeafStored<T>(h: Hasher<T>, d: nat, fullSync: bool, tracking: seq<nat>, st: TreeState<T>, s: seq<T>, x: T,
                          l: nat, after: map<nat, T>)
    requires Consistent(h, d, st, s) && |s| < Pow2(d) && l < d && (fullSync || |s| in tracking)
    requires after == CacheTo(h, fullSync, tracking, |s|, x, st.data.siblings, st.nodes, d)
    ensures Stored(h, after, Xor1(Shr(OrBit(d, |s|), l)), l) == TrueSibling(h, LeafFn(h, s + [x]), |s|, l)
       <==> && (Unshared(|s|, l) ==> KnownAt(h, d, s + [x], st.nodes, |s|, l))
            && (!Occupied(|s| + 1, l, Xor1(Shr(|s|, l))) ==> RowEmpty(h, d, after, l, Xor1(Shr(|s|, l))))
  {
    SiblingKey(d, |s|, l);
    if Shr(|s|, l) % 2 == 0 {
      LastLeafRight(h, d, s + [x], after, |s|, l);
    } else {
      LeftStored(h, d, fullSync, tracking, st, s, x, l, after);
    }
  }

  function After<T>(h: Hasher<T>, fullSync: bool, tracking: seq<nat>, st: TreeState<T>, x: T): TreeState<T>
    requires |st.data.siblings| <= |h.preHash| && st.data.index < Pow2(|st.data.siblings|)
  {
    TreeState(AppendLeaf(h, st.data, x), st.start, st.data.index + 1,
              CacheTo(h, fullSync, tracking, st.data.index, x, st.data.siblings, st.nodes, |st.data.siblings|))
  }

  lemma LastLeafSiblings<T>(h: Hasher<T>, d: nat, fullSync: bool, tracking: seq<nat>, st: TreeState<T>, s: seq<T>, x: T,
                            after: map<nat, T>)
    requires Consistent(h, d, st, s) && |s| + 1 < Pow2(d) && (fullSync || |s| in tracking)
    requires after == CacheTo(h, fullSync, tracking, |s|, x, st.data.siblings, st.nodes, d)
    ensures SiblingsOf(h, d, |s| + 1, after, |s|) == TrueSiblings(h, LeafFn(h, s + [x]), |s|, d)
       <==> UnsharedKnown(h, d, s + [x], st.nodes, |s|) && FrontierEmpty(h, d, |s| + 1, after, |s|)
  {
    var all, t, n := s + [x], |s|, |s| + 1;
    var used, wanted := SiblingsOf(h, d, n, after, t), TrueSiblings(h, LeafFn(h, all), t, d);
    forall l | 0 <= l < d
      ensures used[l] == wanted[l]
         <==> && (Unshared(t, l) ==> KnownAt(h, d, all, st.nodes, t, l))
              && (Frontier(n, t, l) ==> RowEmpty(h, d, after, l, Xor1(Shr(t, l))))
    {
      LastLeafSibling(h, d, fullSync, tracking, st, s, x, l, after, all, t, n);
    }
    SameAtEveryLevel(used, wanted);
  }

  lemma LastLeafStoredSiblings<T>(h: Hasher<T>, d: nat, fullSync: bool, tracking: seq<nat>, st: TreeState<T>,
                                  s: seq<T>, x: T, after: map<nat, T>)
    requires Consistent(h, d, st, s) && |s| < Pow2(d) && (fullSync || |s| in tracking)
    requires after == CacheTo(h, fullSync, tracking, |s|, x, st.data.siblings, st.nodes, d)
    ensures StoredSiblings(h, d, after, |s|) == TrueSiblings(h, LeafFn(h, s + [x]), |s|, d)
       <==> UnsharedKnown(h, d, s + [x], st.nodes, |s|) && AheadEmpty(h, d, |s| + 1, after, |s|)
  {
    var all, t := s + [x], |s|;
    var used, wanted := StoredSiblings(h, d, after, t), TrueSiblings(h, LeafFn(h, all), t, d);
    forall l | 0 <= l < d
      ensures used[l] == wanted[l]
         <==> && (Unshared(t, l) ==> KnownAt(h, d, all, st.nodes, t, l))
              && (!Occupied(t + 1, l, Xor1(Shr(t, l))) ==> RowEmpty(h, d, after, l, Xor1(Shr(t, l))))
    {
      LastLeafStored(h, d, fullSync, tracking, st, s, x, l, after);
    }
    SameAtEveryLevel(used, wanted);
  }

  lemma SameAtEveryLevel<T>(used: seq<T>, wanted: seq<T>)
    requires |used| == |wanted|
    ensures used == wanted <==> forall l :: 0 <= l < |used| ==> used[l] == wanted[l]
  {}

  // ----- whole runs

  /** The state of a run right before its last leaf. */
  function BeforeLast<T>(h: Hasher<T>, fullSync: bool, st: TreeState<T>, batches: seq<Batch<T>>): TreeState<T>
    requires |st.data.siblings| <= |h.preHash| && TotalLeaves(batches) > 0
    requires st.data.index + TotalLeaves(batches) <= Pow2(|st.data.siblings|)
  {
    var n := |batches| - 1;
    var Batch(observed, leaves) := batches[n];
    if leaves == [] then BeforeLast(h, fullSync, st, batches[..n])
    else Append(h, fullSync, observed, Run(h, fullSync, st, batches[..n]), leaves[..|leaves| - 1])
  }

  /** A batch ends with its last leaf. */
  lemma LastOfBatch<T>(h: Hasher<T>, d: nat, fullSync: bool, batch: Batch<T>, st: TreeState<T>, s: seq<T>)
    requires Consistent(h, d, st, s) && |s| + |batch.leaves| <= Pow2(d) && batch.leaves != []
    ensures var last := |batch.leaves| - 1;
      var before := Append(h, fullSync, batch.observed, st, batch.leaves[..last]);
      && Consistent(h, d, before, s + Hashes(batch.leaves[..last])) && before.start == st.start
      && Append(h, fullSync, batch.observed, st, batch.leaves)
         == After(h, fullSync, Tracking(batch.observed, |s|, batch.leaves), before, batch.leaves[last].hash)
  {
    BatchConsistent(h, d, fullSync, batch.observed, st, s, batch.leaves[..|batch.leaves| - 1]);
    AppendSnoc(h, fullSync, batch.observed, st, batch.leaves);
  }

  lemma EmptyBatch<T>(h: Hasher<T>, d: nat, fullSync: bool, observed: seq<nat>, st: TreeState<T>, s: seq<T>)
    requires Consistent(h, d, st, s)
    ensures Append(h, fullSync, observed, st, []) == st
  {
    assert Hashes<T>([]) == [];
  }

  /** `now` is `before` with leaf t, the last of `all`, appended, and tracked unless everything is kept. */
  ghost predicate EndsWith<T>(h: Hasher<T>, d: nat, fullSync: bool, before: TreeState<T>, now: TreeState<T>,
                              all: seq<T>, tracking: seq<nat>, t: nat) {
    && |all| == t + 1 <= Pow2(d)
    && Consistent(h, d, before, all[..t])
    && now == After(h, fullSync, tracking, before, all[t])
    && (fullSync || t in tracking)
  }

  /** The last leaf of a batch that is not empty. */
  lemma BatchEndsWith<T>(h: Hasher<T>, d: nat, fullSync: bool, batch: Batch<T>, st: TreeState<T>, s: seq<T>,
                         before: TreeState<T>, now: TreeState<T>, t: nat)
    requires Consistent(h, d, st, s) && |s| + |batch.leaves| <= Pow2(d) && t + 1 == |s| + |batch.leaves| > |s|
    requires before == Append(h, fullSync, batch.observed, st, batch.leaves[..|batch.leaves| - 1])
    requires now == Append(h, fullSync, batch.observed, st, batch.leaves)
    requires fullSync || Watched(batch, |s|, t)
    ensures EndsWith(h, d, fullSync, before, now, s + Hashes(batch.leaves),
                     Tracking(batch.observed, |s|, batch.leaves), t)
  {
    var all, tracking := s + Hashes(batch.leaves), Tracking(batch.observed, |s|, batch.leaves);
    if !fullSync { TrackingExact(batch, |s|, t); }
    LastOfBatch(h, d, fullSync, batch, st, s);
    LastHash(s, batch.leaves, all, t);
    assert now == After(h, fullSync, tracking, before, all[t]);
  }

  lemma LastHash<T>(s: seq<T>, leaves: seq<Leaf<T>>, all: seq<T>, t: nat)
    requires leaves != [] && all == s + Hashes(leaves) && t + 1 == |s| + |leaves|
    ensures |all| == t + 1 && all[..t] == s + Hashes(leaves[..|leaves| - 1]) && all[t] == leaves[|leaves| - 1].hash
  {
    HashesSnoc(s, leaves);
  }

  lemma EmptyLastBatch<T>(h: Hasher<T>, d: nat, fullSync: bool, st: TreeState<T>, s: seq<T>, batches: seq<Batch<T>>)
    requires Consistent(h, d, st, s) && |s| + TotalLeaves(batches) <= Pow2(d)
    requires batches != [] && batches[|batches| - 1].leaves == []
    ensures TotalLeaves(batches[..|batches| - 1]) == TotalLeaves(batches)
    ensures Run(h, fullSync, st, batches) == Run(h, fullSync, st, batches[..|batches| - 1])
    ensures AllHashes(batches) == AllHashes(batches[..|batches| - 1])
  {
    var n := |batches| - 1;
    RunConsistent(h, d, fullSync, st, s, batches[..n]);
    EmptyBatch(h, d, fullSync, batches[n].observed, Run(h, fullSync, st, batches[..n]), s + AllHashes(batches[..n]));
  }

  /** A run ends with its last leaf. */
  lemma {:induction false} RunEndsWith<T>(h: Hasher<T>, d: nat, fullSync: bool, st: TreeState<T>, s: seq<T>,
                                          batches: seq<Batch<T>>, before: TreeState<T>, now: TreeState<T>, t: nat)
    returns (tracking: seq<nat>)
    requires Consistent(h, d, st, s) && |s| <= t && t + 1 == |s| + TotalLeaves(batches) <= Pow2(d)
    requires fullSync || WatchedThroughout(batches, |s|, t)
    requires before == BeforeLast(h, fullSync, st, batches) && now == Run(h, fullSync, st, batches)
    ensures EndsWith(h, d, fullSync, before, now, s + AllHashes(batches), tracking, t)
  {
    var n := |batches| - 1;
    var prefix, batch := batches[..n], batches[n];
    if batch.leaves == [] {
      EmptyLastBatch(h, d, fullSync, st, s, batches);
      tracking := RunEndsWith(h, d, fullSync, st, s, prefix, before, now, t);
    } else {
      var mid, s' := Run(h, fullSync, st, prefix), s + AllHashes(prefix);
      RunConsistent(h, d, fullSync, st, s, prefix);
      assert |s'| == |s| + TotalLeaves(prefix);
      BatchEndsWith(h, d, fullSync, batch, mid, s', before, now, t);
      tracking := Tracking(batch.observed, |s'|, batch.leaves);
      RunHashesSnoc(s, batches);
    }
  }

  /** In either mode the leaf just appended is provable exactly when the table knew those subtrees beforehand and has
      nothing stale at the frontier. */
  lemma EndProofIff<T(!new)>(h: Hasher<T>, d: nat, fullSync: bool, before: TreeState<T>, now: TreeState<T>,
                             all: seq<T>, tracking: seq<nat>, t: nat, n: nat)
    requires Injective(h.parentOf) && EndsWith(h, d, fullSync, before, now, all, tracking, t) && n == t + 1
    ensures n < Pow2(d) ==>
      (ProofOf(h, now, all[t], t).Proved?
       <==> UnsharedKnown(h, d, all, before.nodes, t) && FrontierEmpty(h, d, n, now.nodes, t))
    ensures Verifies(h, MerkleProof(now.data.root, t, all[t], StoredSiblings(h, d, now.nodes, t)))
       <==> UnsharedKnown(h, d, all, before.nodes, t) && AheadEmpty(h, d, n, now.nodes, t)
  {
    var s, x := all[..t], all[t];
    assert s + [x] == all;
    StepConsistent(h, d, fullSync, tracking, before, s, x);
    LastLeafStoredSiblings(h, d, fullSync, tracking, before, s, x, now.nodes);
    ProofExact(h, LeafFn(h, all), d, t, x, StoredSiblings(h, d, now.nodes, t));
    if n < Pow2(d) {
      ProvedIff(h, d, now, all, t);
      LastLeafSiblings(h, d, fullSync, tracking, before, s, x, now.nodes);
    }
  }

  /** Over every run, in either mode and over any table, the last leaf is provable exactly when the table knew, right
      before it was appended, the subtrees its predecessor finished, and had nothing stale at the frontier when the run
      began. The Grove list likewise. */
  lemma RunLastLeafIff<T(!new)>(h: Hasher<T>, d: nat, fullSync: bool, st: TreeState<T>, s: seq<T>,
                                batches: seq<Batch<T>>, t: nat, before: TreeState<T>, now: TreeState<T>, all: seq<T>,
                                n: nat)
    requires Injective(h.parentOf) && Consistent(h, d, st, s)
    requires |s| <= t && t + 1 == n == |s| + TotalLeaves(batches) <= Pow2(d)
    requires fullSync || WatchedThroughout(batches, |s|, t)
    requires before == BeforeLast(h, fullSync, st, batches) && now == Run(h, fullSync, st, batches)
    requires all == s + AllHashes(batches)
    ensures n < Pow2(d) ==>
      (ProofOf(h, now, all[t], t).Proved?
       <==> UnsharedKnown(h, d, all, before.nodes, t) && FrontierEmpty(h, d, n, st.nodes, t))
    ensures Verifies(h, MerkleProof(now.data.root, t, all[t], StoredSiblings(h, d, now.nodes, t)))
       <==> UnsharedKnown(h, d, all, before.nodes, t) && AheadEmpty(h, d, n, st.nodes, t)
  {
    var tracking := RunEndsWith(h, d, fullSync, st, s, batches, before, now, t);
    EndProofIff(h, d, fullSync, before, now, all, tracking, t, n);
    RunKeepsAhead(h, d, fullSync, st, s, batches, now, n, t);
  }

  lemma {:induction false} NothingBefore<T>(h: Hasher<T>, d: nat, fullSync: bool, st: TreeState<T>, s: seq<T>,
                                            batches: seq<Batch<T>>)
    requires Consistent(h, d, st, s) && |s| + TotalLeaves(batches) <= Pow2(d)
    ensures TotalLeaves(batches) == 0 ==> Run(h, fullSync, st, batches) == st
    ensures TotalLeaves(batches) == 1 ==> BeforeLast(h, fullSync, st, batches) == st
  {
    if batches != [] && TotalLeaves(batches) <= 1 {
      var n := |batches| - 1;
      NothingBefore(h, d, fullSync, st, s, batches[..n]);
      EmptyBatch(h, d, fullSync, batches[n].observed, st, s);
      if batches[n].leaves != [] { assert batches[n].leaves[..|batches[n].leaves| - 1] == []; }
    }
  }

  /** The first leaf after a bootstrap, while it is alone, is provable exactly when the table it was resumed over knew
      the subtrees it does not share with its predecessor and had nothing stale at the frontier; over an empty table,
      exactly when those subtrees are empty. */
  lemma FirstLeafProofIff<T(!new)>(h: Hasher<T>, d: nat, fullSync: bool, st: TreeState<T>, s: seq<T>,
                                   batches: seq<Batch<T>>, t: nat, all: seq<T>, n: nat)
    requires Injective(h.parentOf) && Consistent(h, d, st, s) && TotalLeaves(batches) == 1
    requires t == |s| && n == t + 1 < Pow2(d) && all == s + AllHashes(batches)
    requires fullSync || WatchedThroughout(batches, |s|, |s|)
    ensures ProofOf(h, Run(h, fullSync, st, batches), all[t], t).Proved?
       <==> UnsharedKnown(h, d, all, st.nodes, t) && FrontierEmpty(h, d, n, st.nodes, t)
    ensures st.nodes == map[] ==> FrontierEmpty(h, d, n, st.nodes, t)
    ensures st.nodes == map[] ==> (UnsharedKnown(h, d, all, st.nodes, t) <==> UnsharedEmpty(h, d, all, t))
  {
    NothingBefore(h, d, fullSync, st, s, batches);
    RunLastLeafIff(h, d, fullSync, st, s, batches, t, st, Run(h, fullSync, st, batches), all, n);
    if st.nodes == map[] {
      EmptyTableKnows(h, d, all, t);
      CleanTable(h, d, n, n, st.nodes, t);
    }
  }

  lemma EmptyTableKnows<T>(h: Hasher<T>, d: nat, s: seq<T>, t: nat)
    requires d < |h.preHash|
    ensures UnsharedKnown(h, d, s, map[], t) <==> UnsharedEmpty(h, d, s, t)
  {
    forall l | 0 <= l < d && Unshared(t, l) ensures KnownAt(h, d, s, map[], t, l) <==> EmptyAt(h, d, s, t, l) {}
  }

  ghost predicate UnsharedEmpty<T>(h: Hasher<T>, d: nat, s: seq<T>, t: nat)
    requires d < |h.preHash|
  {
    forall l :: 0 <= l < d && Unshared(t, l) ==> EmptyAt(h, d, s, t, l)
  }

  ghost predicate EmptyAt<T>(h: Hasher<T>, d: nat, s: seq<T>, t: nat, l: nat)
    requires l < d < |h.preHash|
  {
    h.preHash[l] == TrueSibling(h, LeafFn(h, s), t, l)
  }

  // ----- light mode

  /** A left sibling is stored only once the subtree beside it holds a leaf. */
  ghost predicate NothingAhead<T>(d: nat, st: TreeState<T>) {
    forall l: nat, p: nat :: l < d && p < Pow2(d - l) ==> NotAhead(d, st.data.index, st.nodes, l, p)
  }

  ghost predicate NotAhead<T>(d: nat, n: nat, nodes: map<nat, T>, l: nat, p: nat)
    requires l < d
  {
    p % 2 == 0 && Key(d, l, p) in nodes ==> Occupied(n, l, p + 1)
  }

  ghost predicate AtMost(tracking: seq<nat>, n: nat) {
    forall i :: 0 <= i < |tracking| ==> tracking[i] <= n
  }

  /** The path of a new leaf has no tracked node on the left: that would take a leaf to its right. */
  lemma PathNotAhead(d: nat, tracking: seq<nat>, n: nat, l: nat)
    requires n < Pow2(d) && l < d && Shr(n, l) % 2 == 0 && AtMost(tracking, n)
    ensures Shr(n, l) < Pow2(d - l) && !KeepsAt(d, false, tracking, l, Shr(n, l))
  {
    ShrBound(n, d, l);
    ShouldTrackExact(d, tracking, l, Shr(n, l));
    forall i | 0 <= i < |tracking| ensures Xor1(Shr(tracking[i], l)) != Shr(n, l) {
      ShrMonotone(tracking[i], n, l);
    }
  }

  lemma StepNotAhead<T>(h: Hasher<T>, d: nat, tracking: seq<nat>, st: TreeState<T>, s: seq<T>, x: T, l: nat, p: nat)
    requires Consistent(h, d, st, s) && |s| < Pow2(d) && AtMost(tracking, |s|)
    requires l < d && p < Pow2(d - l) && NotAhead(d, |s|, st.nodes, l, p)
    ensures NotAhead(d, |s| + 1, After(h, false, tracking, st, x).nodes, l, p)
  {
    if p % 2 == 0 {
      ReadBack(h, false, tracking, |s|, x, st.data.siblings, st.nodes, d, l, p);
      StillOccupied(|s|, l, p);
      if p == Shr(|s|, l) { PathNotAhead(d, tracking, |s|, l); }
    }
  }

  lemma StillOccupied(n: nat, l: nat, p: nat)
    ensures Occupied(n, l, p + 1) || IsPrevLeftSibling(n, l, p) ==> Occupied(n + 1, l, p + 1)
  {
    if n > 0 { ShrMonotone(n - 1, n, l); }
  }

  lemma StepNothingAhead<T>(h: Hasher<T>, d: nat, tracking: seq<nat>, st: TreeState<T>, s: seq<T>, x: T)
    requires Consistent(h, d, st, s) && |s| < Pow2(d) && AtMost(tracking, |s|) && NothingAhead(d, st)
    ensures NothingAhead(d, After(h, false, tracking, st, x))
  {
    var after, n := After(h, false, tracking, st, x).nodes, |s| + 1;
    forall l: nat, p: nat | l < d && p < Pow2(d - l) ensures NotAhead(d, n, after, l, p) {
      StepNotAhead(h, d, tracking, st, s, x, l, p);
    }
  }

  /** Everything observed is already in the tree when a batch starts. */
  ghost predicate ObservedPast<T>(batches: seq<Batch<T>>, index: nat) {
    batches != [] ==>
      var before, last := batches[..|batches| - 1], batches[|batches| - 1];
      ObservedPast(before, index) && ObservedBelow(last.observed, index + TotalLeaves(before))
  }

  ghost predicate ObservedBelow(observed: seq<nat>, index: nat) {
    forall i :: 0 <= i < |observed| ==> observed[i] < index
  }

  lemma {:induction false} TrackingAtMost<T>(observed: seq<nat>, index: nat, leaves: seq<Leaf<T>>)
    requires ObservedBelow(observed, index)
    ensures ObservedBelow(Tracking(observed, index, leaves), index + |leaves|)
    decreases |leaves|
  {
    if leaves != [] { TrackingAtMost(observed, index, leaves[..|leaves| - 1]); }
  }

  /** The last leaf of a batch, after the others. */
  lemma LastNothingAhead<T>(h: Hasher<T>, d: nat, batch: Batch<T>, st: TreeState<T>, s: seq<T>, now: TreeState<T>)
    requires Consistent(h, d, st, s) && |s| + |batch.leaves| <= Pow2(d) && batch.leaves != []
    requires ObservedBelow(batch.observed, |s|)
    requires NothingAhead(d, Append(h, false, batch.observed, st, batch.leaves[..|batch.leaves| - 1]))
    requires now == Append(h, false, batch.observed, st, batch.leaves)
    ensures NothingAhead(d, now)
  {
    var Batch(observed, leaves) := batch;
    var last := |leaves| - 1;
    LastOfBatch(h, d, false, batch, st, s);
    TrackingAtMost(observed, |s|, leaves);
    StepNothingAhead(h, d, Tracking(observed, |s|, leaves), Append(h, false, observed, st, leaves[..last]),
                     s + Hashes(leaves[..last]), leaves[last].hash);
  }

  lemma {:induction false} BatchNothingAhead<T>(h: Hasher<T>, d: nat, batch: Batch<T>, st: TreeState<T>, s: seq<T>,
                                                now: TreeState<T>)
    requires Consistent(h, d, st, s) && |s| + |batch.leaves| <= Pow2(d)
    requires ObservedBelow(batch.observed, |s|) && NothingAhead(d, st)
    requires now == Append(h, false, batch.observed, st, batch.leaves)
    ensures NothingAhead(d, now)
    decreases |batch.leaves|
  {
    var Batch(observed, leaves) := batch;
    if leaves == [] {
      EmptyBatch(h, d, false, observed, st, s);
    } else {
      var others := leaves[..|leaves| - 1];
      BatchNothingAhead(h, d, Batch(observed, others), st, s, Append(h, false, observed, st, others));
      LastNothingAhead(h, d, batch, st, s, now);
    }
  }

  lemma {:induction false} RunNothingAhead<T>(h: Hasher<T>, d: nat, st: TreeState<T>, s: seq<T>, batches: seq<Batch<T>>,
                                              now: TreeState<T>)
    requires Consistent(h, d, st, s) && |s| + TotalLeaves(batches) <= Pow2(d)
    requires ObservedPast(batches, |s|) && NothingAhead(d, st)
    requires now == Run(h, false, st, batches)
    ensures NothingAhead(d, now)
  {
    if batches != [] {
      var n := |batches| - 1;
      var mid := Run(h, false, st, batches[..n]);
      var s' := s + AllHashes(batches[..n]);
      RunNothingAhead(h, d, st, s, batches[..n], mid);
      RunConsistent(h, d, false, st, s, batches[..n]);
      assert |s'| == |s| + TotalLeaves(batches[..n]);
      BatchNothingAhead(h, d, batches[n], mid, s', now);
    }
  }

  lemma {:induction false} BeforeLastNothingAhead<T>(h: Hasher<T>, d: nat, st: TreeState<T>, s: seq<T>,
                                                     batches: seq<Batch<T>>, before: TreeState<T>)
    requires Consistent(h, d, st, s) && 0 < TotalLeaves(batches) && |s| + TotalLeaves(batches) <= Pow2(d)
    requires ObservedPast(batches, |s|) && NothingAhead(d, st)
    requires before == BeforeLast(h, false, st, batches)
    ensures NothingAhead(d, before) && before.data.index + 1 == |s| + TotalLeaves(batches)
  {
    var n := |batches| - 1;
    var Batch(observed, leaves) := batches[n];
    if leaves == [] {
      BeforeLastNothingAhead(h, d, st, s, batches[..n], before);
    } else {
      var mid := Run(h, false, st, batches[..n]);
      RunNothingAhead(h, d, st, s, batches[..n], mid);
      var s' := s + AllHashes(batches[..n]);
      RunConsistent(h, d, false, st, s, batches[..n]);
      assert |s'| == |s| + TotalLeaves(batches[..n]);
      BatchNothingAhead(h, d, Batch(observed, leaves[..|leaves| - 1]), mid, s', before);
    }
  }

  /** So a light tree never knows the subtrees the last leaf finished. */
  lemma NothingAheadUnknown<T>(h: Hasher<T>, d: nat, st: TreeState<T>, l: nat)
    requires IsHasher(h, d) && st.data.index < Pow2(d) && l < d && Unshared(st.data.index, l) && NothingAhead(d, st)
    ensures Stored(h, st.nodes, Key(d, l, Shr(st.data.index, l) - 1), l) == h.preHash[l]
  {
    var t := st.data.index;
    FinishedSubtree(d, t, l);
    assert NotAhead(d, t, st.nodes, l, Shr(t, l) - 1);
  }

  /** Light mode: over every run the last leaf, tracked, is provable exactly when the subtrees its predecessor finished
      are empty and nothing stale is at the frontier. In particular the first leaf of a tree can be proved at once. */
  lemma LightModeLastLeafIff<T(!new)>(h: Hasher<T>, d: nat, st: TreeState<T>, s: seq<T>, batches: seq<Batch<T>>,
                                      t: nat, all: seq<T>, n: nat)
    requires Injective(h.parentOf) && Consistent(h, d, st, s)
    requires |s| <= t && t + 1 == n == |s| + TotalLeaves(batches) < Pow2(d) && all == s + AllHashes(batches)
    requires NothingAhead(d, st) && ObservedPast(batches, |s|) && WatchedThroughout(batches, |s|, t)
    ensures ProofOf(h, Run(h, false, st, batches), all[t], t).Proved?
       <==> UnsharedEmpty(h, d, all, t) && FrontierEmpty(h, d, n, st.nodes, t)
  {
    var before := BeforeLast(h, false, st, batches);
    RunLastLeafIff(h, d, false, st, s, batches, t, before, Run(h, false, st, batches), all, n);
    BeforeLastNothingAhead(h, d, st, s, batches, before);
    NeverKnown(h, d, all, before, t);
  }

  lemma NeverKnown<T>(h: Hasher<T>, d: nat, s: seq<T>, st: TreeState<T>, t: nat)
    requires IsHasher(h, d) && st.data.index == t < Pow2(d) && NothingAhead(d, st)
    ensures UnsharedKnown(h, d, s, st.nodes, t) <==> UnsharedEmpty(h, d, s, t)
  {
    forall l | 0 <= l < d && Unshared(t, l) ensures KnownAt(h, d, s, st.nodes, t, l) <==> EmptyAt(h, d, s, t, l) {
      NothingAheadUnknown(h, d, st, l);
    }
  }

  /** The second leaf of a tree cannot be proved while it is the last one, unless the first is empty. */
  lemma SecondLeafProofIff<T(!new)>(h: Hasher<T>, d: nat, a: T, b: T)
    requires Injective(h.parentOf) && IsHasher(h, d) && d >= 2
    ensures Pow2(d) >= 4
    ensures ProofOf(h, Run(h, false, Genesis(h), [Batch([], [Leaf(a, false), Leaf(b, true)])]), b, 1).Proved?
       <==> a == h.preHash[0]
  {
    var batches := [Batch([], [Leaf(a, false), Leaf(b, true)])];
    Pow2Monotone(2, d);
    assert Pow2(0) == 1 && Pow2(1) == 2 && Pow2(2) == 4;
    assert batches[..0] == [] && batches[..1] == batches;
    assert AllHashes(batches) == AllHashes(batches[..0]) + Hashes(batches[0].leaves);
    assert Hashes(batches[0].leaves) == [a, b];
    assert TotalLeaves(batches) == 2 && [] + AllHashes(batches) == [a, b];
    GenesisConsistent(h, d);
    LightModeLastLeafIff(h, d, Genesis(h), [], batches, 1, [a, b], 2);
    CleanTable(h, d, 0, 2, Genesis(h).nodes, 1);
    SecondLeafUnshared(h, d, a, b);
  }

  lemma SecondLeafUnshared<T>(h: Hasher<T>, d: nat, a: T, b: T)
    requires IsHasher(h, d) && d >= 2
    ensures UnsharedEmpty(h, d, [a, b], 1) <==> a == h.preHash[0]
  {
    forall l | 0 <= l < d ensures Unshared(1, l) <==> l == 0 {
      if l > 0 { ShrOfOne(l); }
    }
    assert EmptyAt(h, d, [a, b], 1, 0) <==> a == h.preHash[0];
  }

  lemma {:induction false} ShrOfOne(l: nat)
    requires l > 0
    ensures Shr(1, l) == 0
  {
    if l > 1 { ShrOfOne(l - 1); }
  }
}
