/** Completely full trees: the comparison with the end of the tree then hides stored siblings. */
module LightTreeFull {
  import opened Bits
  import opened Hashers
  import opened FullTree
  import opened LightTreeSpec
  import opened LightTreeStore
  import opened LightTreeRuns
  import opened LightTreeProofs
  import opened LightTreeLastLeaf

  /** The stored sibling on the left edge of the tree is the true one. */
  ghost predicate EdgeKnown<T>(h: Hasher<T>, d: nat, s: seq<T>, nodes: map<nat, T>, t: nat)
    requires d < |h.preHash|
  {
    forall l :: 0 <= l < d && Xor1(Shr(t, l)) == 0 ==>
      Stored(h, nodes, Key(d, l, 0), l) == TrueSibling(h, LeafFn(h, s), t, l)
  }

  /** Every true sibling off the left edge is empty. */
  ghost predicate HiddenEmpty<T>(h: Hasher<T>, d: nat, s: seq<T>, t: nat)
    requires d < |h.preHash|
  {
    forall l :: 0 <= l < d && Xor1(Shr(t, l)) != 0 ==> h.preHash[l] == TrueSibling(h, LeafFn(h, s), t, l)
  }

  /** The prefix bit swallows `end`, and everything off the left edge is hidden. */
  lemma FullTreeSibling<T>(h: Hasher<T>, d: nat, nodes: map<nat, T>, t: nat, l: nat)
    requires t < Pow2(d) && l < d < |h.preHash|
    ensures SiblingAt(h, d, Pow2(d), nodes, t, l)
         == if Xor1(Shr(t, l)) != 0 then h.preHash[l] else Stored(h, nodes, Key(d, l, 0), l)
  {
    SiblingKey(d, t, l);
    assert OrBit(d, Pow2(d)) == Pow2(d) by { ShrOfPow2(d, d); }
    ShrOfPow2(d, l);
  }

  lemma FullTreeSiblings<T>(h: Hasher<T>, d: nat, s: seq<T>, nodes: map<nat, T>, t: nat, used: seq<T>, wanted: seq<T>)
    requires t < Pow2(d) && d < |h.preHash| && used == SiblingsOf(h, d, Pow2(d), nodes, t)
    requires wanted == TrueSiblings(h, LeafFn(h, s), t, d)
    ensures used == wanted <==> HiddenEmpty(h, d, s, t) && EdgeKnown(h, d, s, nodes, t)
  {
    forall l | 0 <= l < d
      ensures used[l] == if Xor1(Shr(t, l)) != 0 then h.preHash[l] else Stored(h, nodes, Key(d, l, 0), l)
    {
      FullTreeSibling(h, d, nodes, t, l);
    }
    if used == wanted {
      forall l | 0 <= l < d ensures used[l] == TrueSibling(h, LeafFn(h, s), t, l) {
        assert used[l] == wanted[l];
      }
    }
  }

  /** In a full tree a proof survives exactly when every true sibling off the left edge is empty and the one on it is
      stored. */
  lemma FullTreeProofIff<T(!new)>(h: Hasher<T>, d: nat, st: TreeState<T>, s: seq<T>, t: nat)
    requires Injective(h.parentOf) && Consistent(h, d, st, s) && st.start <= t < st.end == Pow2(d)
    ensures ProofOf(h, st, s[t], t).Proved? <==> HiddenEmpty(h, d, s, t) && EdgeKnown(h, d, s, st.nodes, t)
  {
    ProvedIff(h, d, st, s, t);
    FullTreeSiblings(h, d, s, st.nodes, t, SiblingsOf(h, d, st.end, st.nodes, t), TrueSiblings(h, LeafFn(h, s), t, d));
  }

  // ----- runs that fill the tree

  lemma KnownOnEdge<T>(h: Hasher<T>, d: nat, st: TreeState<T>, s: seq<T>, t: nat)
    requires Consistent(h, d, st, s) && t < |s|
    requires SiblingsKnown(h, d, s, st.nodes, t) && LeftSiblingsKnown(h, d, s, st.nodes, t)
    ensures EdgeKnown(h, d, s, st.nodes, t)
  {
    forall l | 0 <= l < d && Xor1(Shr(t, l)) == 0
      ensures Stored(h, st.nodes, Key(d, l, 0), l) == TrueSibling(h, LeafFn(h, s), t, l)
    {
      ShrMonotone(t, |s| - 1, l);
      StoredIsTrue(h, d, st, s, t, l);
      SiblingKey(d, t, l);
    }
  }

  /** Both modes, over every run that fills the tree and any table: that is the whole truth about a leaf that is kept.
      */
  lemma RunFullTreeIff<T(!new)>(h: Hasher<T>, d: nat, fullSync: bool, st: TreeState<T>, s: seq<T>,
                                batches: seq<Batch<T>>, t: nat, now: TreeState<T>, all: seq<T>)
    requires Injective(h.parentOf) && Consistent(h, d, st, s) && |s| + TotalLeaves(batches) == Pow2(d)
    requires Kept(fullSync, st.start, |s|, batches, t)
    requires now == Run(h, fullSync, st, batches) && all == s + AllHashes(batches)
    ensures ProofOf(h, now, all[t], t).Proved? <==> HiddenEmpty(h, d, all, t)
  {
    RunKept(h, d, fullSync, st, s, batches, t, now, all);
    KnownOnEdge(h, d, now, all, t);
    FullTreeProofIff(h, d, now, all, t);
  }

  // ----- the last leaf

  /** From depth two up the last leaf and its predecessor share the sibling on the left edge. */
  lemma EdgeShared(d: nat, t: nat, l: nat)
    requires t + 1 == Pow2(d) && l < d && Xor1(Shr(t, l)) == 0 && Unshared(t, l)
    ensures d == 1 && l == 0
  {
    FinishedSubtree(d, t, l);
    ShrIsDivision(t - 1, l);
    ShrIsDivision(t, l);
    assert t == Pow2(l);
    if l > 0 {
      Pow2Even(l);
      Pow2Even(d);
    }
  }

  /** What the table holds on the left edge once the last leaf is in. */
  lemma LastEdge<T>(h: Hasher<T>, d: nat, fullSync: bool, before: TreeState<T>, now: TreeState<T>, all: seq<T>,
                    tracking: seq<nat>, t: nat)
    requires EndsWith(h, d, fullSync, before, now, all, tracking, t) && t + 1 == Pow2(d)
    ensures EdgeKnown(h, d, all, now.nodes, t) <==> d == 1 ==> UnsharedKnown(h, d, all, before.nodes, t)
  {
    var s, x := all[..t], all[t];
    assert s + [x] == all;
    forall l | 0 <= l < d && Xor1(Shr(t, l)) == 0
      ensures Stored(h, now.nodes, Key(d, l, 0), l) == TrueSibling(h, LeafFn(h, all), t, l)
         <==> d == 1 ==> UnsharedKnown(h, d, all, before.nodes, t)
    {
      LeftStored(h, d, fullSync, tracking, before, s, x, l, now.nodes);
      if Unshared(t, l) { EdgeShared(d, t, l); }
    }
    if d == 1 { assert Pow2(0) == 1 && Pow2(1) == 2 && Shr(1, 0) == 1; }
  }

  /** In either mode the last leaf of a full tree is provable under the same condition; only in a tree of two leaves
      the table must have known its sibling beforehand. */
  lemma FullTreeLastLeafIff<T(!new)>(h: Hasher<T>, d: nat, fullSync: bool, st: TreeState<T>, s: seq<T>,
                                     batches: seq<Batch<T>>, t: nat, before: TreeState<T>, now: TreeState<T>,
                                     all: seq<T>)
    requires Injective(h.parentOf) && Consistent(h, d, st, s)
    requires |s| <= t && t + 1 == |s| + TotalLeaves(batches) == Pow2(d)
    requires fullSync || WatchedThroughout(batches, |s|, t)
    requires before == BeforeLast(h, fullSync, st, batches) && now == Run(h, fullSync, st, batches)
    requires all == s + AllHashes(batches)
    ensures ProofOf(h, now, all[t], t).Proved?
       <==> HiddenEmpty(h, d, all, t) && (d == 1 ==> UnsharedKnown(h, d, all, before.nodes, t))
  {
    var tracking := RunEndsWith(h, d, fullSync, st, s, batches, before, now, t);
    RunConsistent(h, d, fullSync, st, s, batches);
    LastEdge(h, d, fullSync, before, now, all, tracking, t);
    FullTreeProofIff(h, d, now, all, t);
  }
}
