/** Merkle proofs out of the node table: when they are the true ones, in light mode and in full-sync mode. */
module LightTreeProofs {
  import opened Bits
  import opened Hashers
  import opened FullTree
  import opened MerkleProofs
  import opened LightTreeSpec
  import opened LightTreeStore
  import opened LightTreeRuns

  datatype ProofError = LeafIndexOutOfRange | NotInRange | InvalidProof
  datatype ProofResult<T> = Proved(proof: MerkleProof<T>) | Failed(error: ProofError)

  /** The sibling that the tree itself uses at one level. */
  function SiblingAt<T>(h: Hasher<T>, d: nat, end: nat, nodes: map<nat, T>, index: nat, level: nat): T
    requires level < d < |h.preHash|
  {
    var sibling := Xor1(Shr(OrBit(d, index), level));
    if sibling > Shr(OrBit(d, end), level) then h.preHash[level] else Stored(h, nodes, sibling, level)
  }

  function SiblingsOf<T>(h: Hasher<T>, d: nat, end: nat, nodes: map<nat, T>, index: nat): (s: seq<T>)
    requires d < |h.preHash|
    ensures |s| == d
    ensures forall l :: 0 <= l < d ==> s[l] == SiblingAt(h, d, end, nodes, index, l)
  {
    seq(d, l requires 0 <= l < d => SiblingAt(h, d, end, nodes, index, l))
  }

  /** The answer of `_merkleProof` for a leaf value at an index. */
  function ProofOf<T(==)>(h: Hasher<T>, st: TreeState<T>, hash: T, index: nat): ProofResult<T>
    requires |st.data.siblings| < |h.preHash|
  {
    var d := |st.data.siblings|;
    if OrBit(d, index) <= index then Failed(LeafIndexOutOfRange)
    else if st.start > index || st.end <= index then Failed(NotInRange)
    else
      var proof := MerkleProof(st.data.root, index, hash, SiblingsOf(h, d, st.end, st.nodes, index));
      if Verifies(h, proof) then Proved(proof) else Failed(InvalidProof)
  }

  // ----- one leaf

  /** Every left sibling of t is stored with its true value. */
  ghost predicate LeftSiblingsKnown<T>(h: Hasher<T>, d: nat, s: seq<T>, nodes: map<nat, T>, t: nat)
    requires |h.preHash| > 0
  {
    forall l :: 0 <= l < d && Shr(t, l) % 2 == 1 ==>
      var p := Shr(t, l) - 1;
      Key(d, l, p) in nodes && nodes[Key(d, l, p)] == Node(h, LeafFn(h, s), l, p)
  }

  lemma StoredIsTrue<T>(h: Hasher<T>, d: nat, st: TreeState<T>, s: seq<T>, t: nat, l: nat)
    requires Consistent(h, d, st, s) && t < |s| <= Pow2(d) && l < d && Occupied(|s|, l, Xor1(Shr(t, l)))
    requires SiblingsKnown(h, d, s, st.nodes, t)
    requires Shr(t, l) % 2 == 1 ==> LeftSiblingsKnown(h, d, s, st.nodes, t)
    ensures Stored(h, st.nodes, Xor1(Shr(OrBit(d, t), l)), l) == TrueSibling(h, LeafFn(h, s), t, l)
  {
    SiblingKey(d, t, l);
    assert SiblingKnown(h, d, s, st.nodes, t, l);
  }

  /** A leaf is provable exactly when the tree uses its true siblings. */
  lemma ProvedIff<T(!new)>(h: Hasher<T>, d: nat, st: TreeState<T>, s: seq<T>, t: nat)
    requires Injective(h.parentOf) && Consistent(h, d, st, s) && st.start <= t < |s|
    ensures ProofOf(h, st, s[t], t).Proved?
       <==> SiblingsOf(h, d, st.end, st.nodes, t) == TrueSiblings(h, LeafFn(h, s), t, d)
  {
    OrBitInRange(d, t);
    ProofExact(h, LeafFn(h, s), d, t, s[t], SiblingsOf(h, d, st.end, st.nodes, t));
  }

  /** Whatever the table holds: only a leaf of the tree's own range is ever proved, with its true value and its true
      siblings; the two range errors come exactly where they should. */
  lemma ProofSound<T(!new)>(h: Hasher<T>, d: nat, st: TreeState<T>, s: seq<T>, x: T, t: nat)
    requires Injective(h.parentOf) && Consistent(h, d, st, s)
    ensures ProofOf(h, st, x, t).Proved? ==>
      && st.start <= t < |s| && x == s[t]
      && ProofOf(h, st, x, t).proof == MerkleProof(st.data.root, t, s[t], TrueSiblings(h, LeafFn(h, s), t, d))
    ensures ProofOf(h, st, x, t) == Failed(LeafIndexOutOfRange) <==> (t / Pow2(d)) % 2 == 1
    ensures ProofOf(h, st, x, t) == Failed(NotInRange) <==> (t / Pow2(d)) % 2 == 0 && !(st.start <= t < |s|)
  {
    ShrIsDivision(t, d);
    if t < Pow2(d) {
      OrBitInRange(d, t);
      ProofExact(h, LeafFn(h, s), d, t, x, SiblingsOf(h, d, st.end, st.nodes, t));
    }
  }

  // ----- rows for subtrees without leaves

  /** The right sibling of leaf t that the next leaf is about to enter. It is the only one without leaves that the
      comparison with the end of the tree does not hide. */
  predicate Frontier(n: nat, t: nat, l: nat) {
    Shr(t, l) % 2 == 0 && Shr(t, l) + 1 == Shr(n, l) && !Occupied(n, l, Shr(n, l))
  }

  /** The row is absent or holds the empty subtree. */
  predicate RowEmpty<T(==)>(h: Hasher<T>, d: nat, nodes: map<nat, T>, l: nat, p: nat)
    requires l < d < |h.preHash|
  {
    Stored(h, nodes, Key(d, l, p), l) == h.preHash[l]
  }

  ghost predicate FrontierEmpty<T>(h: Hasher<T>, d: nat, n: nat, nodes: map<nat, T>, t: nat)
    requires d < |h.preHash|
  {
    forall l :: 0 <= l < d && Frontier(n, t, l) ==> RowEmpty(h, d, nodes, l, Xor1(Shr(t, l)))
  }

  /** The same for every sibling without leaves; the grove hides none of them. */
  ghost predicate AheadEmpty<T>(h: Hasher<T>, d: nat, n: nat, nodes: map<nat, T>, t: nat)
    requires d < |h.preHash|
  {
    forall l :: 0 <= l < d && !Occupied(n, l, Xor1(Shr(t, l))) ==> RowEmpty(h, d, nodes, l, Xor1(Shr(t, l)))
  }

  lemma CleanTable<T>(h: Hasher<T>, d: nat, m: nat, n: nat, nodes: map<nat, T>, t: nat)
    requires d < |h.preHash| && t < Pow2(d) && m <= n && OnlyOccupied(d, m, nodes)
    ensures FrontierEmpty(h, d, n, nodes, t) && AheadEmpty(h, d, n, nodes, t)
  {
    forall l | 0 <= l < d && !Occupied(n, l, Xor1(Shr(t, l))) ensures RowEmpty(h, d, nodes, l, Xor1(Shr(t, l))) {
      SiblingKey(d, t, l);
      BeyondFewer(d, m, n, l, Xor1(Shr(t, l)), Key(d, l, Xor1(Shr(t, l))));
    }
  }

  /** A run does not change any of these rows. */
  lemma RunKeepsEmpty<T>(h: Hasher<T>, d: nat, fullSync: bool, st: TreeState<T>, s: seq<T>, batches: seq<Batch<T>>,
                         now: TreeState<T>, n: nat, t: nat, l: nat)
    requires Consistent(h, d, st, s) && t < n == |s| + TotalLeaves(batches) <= Pow2(d)
    requires now == Run(h, fullSync, st, batches) && l < d && !Occupied(n, l, Xor1(Shr(t, l)))
    ensures RowEmpty(h, d, st.nodes, l, Xor1(Shr(t, l))) <==> RowEmpty(h, d, now.nodes, l, Xor1(Shr(t, l)))
  {
    var p := Xor1(Shr(t, l));
    SiblingKey(d, t, l);
    RunKeepsRow(h, d, fullSync, st, s, batches, now, n, l, p, Key(d, l, p));
  }

  lemma RunKeepsAhead<T>(h: Hasher<T>, d: nat, fullSync: bool, st: TreeState<T>, s: seq<T>, batches: seq<Batch<T>>,
                         now: TreeState<T>, n: nat, t: nat)
    requires Consistent(h, d, st, s) && t < n == |s| + TotalLeaves(batches) <= Pow2(d)
    requires now == Run(h, fullSync, st, batches)
    ensures FrontierEmpty(h, d, n, st.nodes, t) <==> FrontierEmpty(h, d, n, now.nodes, t)
    ensures AheadEmpty(h, d, n, st.nodes, t) <==> AheadEmpty(h, d, n, now.nodes, t)
  {
    forall l | 0 <= l < d && !Occupied(n, l, Xor1(Shr(t, l)))
      ensures RowEmpty(h, d, st.nodes, l, Xor1(Shr(t, l))) <==> RowEmpty(h, d, now.nodes, l, Xor1(Shr(t, l)))
    {
      RunKeepsEmpty(h, d, fullSync, st, s, batches, now, n, t, l);
    }
  }

  // ----- the siblings used

  /** Below capacity, the comparison with the end of the tree never hides an occupied sibling. */
  lemma SiblingUsed<T>(h: Hasher<T>, d: nat, st: TreeState<T>, s: seq<T>, t: nat, l: nat)
    requires Consistent(h, d, st, s) && t < |s| < Pow2(d) && l < d
    requires SiblingsKnown(h, d, s, st.nodes, t) && LeftSiblingsKnown(h, d, s, st.nodes, t)
    ensures SiblingAt(h, d, st.end, st.nodes, t, l) == TrueSibling(h, LeafFn(h, s), t, l)
       <==> Frontier(|s|, t, l) ==> RowEmpty(h, d, st.nodes, l, Xor1(Shr(t, l)))
  {
    var p := Xor1(Shr(t, l));
    if Occupied(|s|, l, p) {
      SiblingKey(d, t, l);
      PathKey(d, |s|, l);
      ShrMonotone(|s| - 1, |s|, l);
      StoredIsTrue(h, d, st, s, t, l);
    } else {
      UnoccupiedNode(h, d, s, l, p);
      UnoccupiedUsed(h, d, |s|, st.nodes, t, l);
    }
  }

  /** A sibling without leaves is hidden by the comparison or at the frontier. */
  lemma UnoccupiedUsed<T>(h: Hasher<T>, d: nat, n: nat, nodes: map<nat, T>, t: nat, l: nat)
    requires d < |h.preHash| && t < n < Pow2(d) && l < d && !Occupied(n, l, Xor1(Shr(t, l)))
    ensures SiblingAt(h, d, n, nodes, t, l) == h.preHash[l]
       <==> Frontier(n, t, l) ==> RowEmpty(h, d, nodes, l, Xor1(Shr(t, l)))
  {
    SiblingKey(d, t, l);
    PathKey(d, n, l);
    ShrMonotone(t, n - 1, l);
    ShrSucc(n - 1, l);
  }

  lemma SiblingsUsed<T>(h: Hasher<T>, d: nat, st: TreeState<T>, s: seq<T>, t: nat)
    requires Consistent(h, d, st, s) && t < |s| < Pow2(d)
    requires SiblingsKnown(h, d, s, st.nodes, t) && LeftSiblingsKnown(h, d, s, st.nodes, t)
    ensures SiblingsOf(h, d, st.end, st.nodes, t) == TrueSiblings(h, LeafFn(h, s), t, d)
       <==> FrontierEmpty(h, d, |s|, st.nodes, t)
  {
    var used, wanted := SiblingsOf(h, d, st.end, st.nodes, t), TrueSiblings(h, LeafFn(h, s), t, d);
    forall l | 0 <= l < d
      ensures used[l] == wanted[l] <==> Frontier(|s|, t, l) ==> RowEmpty(h, d, st.nodes, l, Xor1(Shr(t, l)))
    {
      SiblingUsed(h, d, st, s, t, l);
    }
    SameAtFrontier(h, d, |s|, st.nodes, t, used, wanted);
  }

  lemma SameAtFrontier<T>(h: Hasher<T>, d: nat, n: nat, nodes: map<nat, T>, t: nat, used: seq<T>, wanted: seq<T>)
    requires |used| == |wanted| == d < |h.preHash|
    requires forall l :: 0 <= l < d ==>
      (used[l] == wanted[l] <==> Frontier(n, t, l) ==> RowEmpty(h, d, nodes, l, Xor1(Shr(t, l))))
    ensures used == wanted <==> FrontierEmpty(h, d, n, nodes, t)
  {
    if used == wanted {
      forall l | 0 <= l < d && Frontier(n, t, l) ensures RowEmpty(h, d, nodes, l, Xor1(Shr(t, l))) {
        assert used[l] == wanted[l];
      }
    }
  }

  /** The Grove list hides nothing, and needs no room at the end of the tree. */
  lemma GroveSiblingsUsed<T>(h: Hasher<T>, d: nat, st: TreeState<T>, s: seq<T>, t: nat)
    requires Consistent(h, d, st, s) && t < |s|
    requires SiblingsKnown(h, d, s, st.nodes, t) && LeftSiblingsKnown(h, d, s, st.nodes, t)
    ensures StoredSiblings(h, d, st.nodes, t) == TrueSiblings(h, LeafFn(h, s), t, d)
       <==> AheadEmpty(h, d, |s|, st.nodes, t)
  {
    var used, wanted := StoredSiblings(h, d, st.nodes, t), TrueSiblings(h, LeafFn(h, s), t, d);
    forall l | 0 <= l < d
      ensures used[l] == wanted[l]
         <==> !Occupied(|s|, l, Xor1(Shr(t, l))) ==> RowEmpty(h, d, st.nodes, l, Xor1(Shr(t, l)))
    {
      SiblingKey(d, t, l);
      if Occupied(|s|, l, Xor1(Shr(t, l))) {
        StoredIsTrue(h, d, st, s, t, l);
      } else {
        UnoccupiedNode(h, d, s, l, Xor1(Shr(t, l)));
      }
    }
    SameAhead(h, d, |s|, st.nodes, t, used, wanted);
  }

  lemma SameAhead<T>(h: Hasher<T>, d: nat, n: nat, nodes: map<nat, T>, t: nat, used: seq<T>, wanted: seq<T>)
    requires |used| == |wanted| == d < |h.preHash|
    requires forall l :: 0 <= l < d ==>
      (used[l] == wanted[l] <==> !Occupied(n, l, Xor1(Shr(t, l))) ==> RowEmpty(h, d, nodes, l, Xor1(Shr(t, l))))
    ensures used == wanted <==> AheadEmpty(h, d, n, nodes, t)
  {
    if used == wanted {
      forall l | 0 <= l < d && !Occupied(n, l, Xor1(Shr(t, l))) ensures RowEmpty(h, d, nodes, l, Xor1(Shr(t, l))) {
        assert used[l] == wanted[l];
      }
    }
  }

  /** One further leaf is enough to have stored the left siblings. */
  lemma LeftKnownOnceFollowed<T>(h: Hasher<T>, d: nat, s: seq<T>, nodes: map<nat, T>, t: nat)
    requires |h.preHash| > 0 && t + 1 < |s| && SiblingsKnown(h, d, s, nodes, t)
    ensures LeftSiblingsKnown(h, d, s, nodes, t)
  {
    forall l | 0 <= l < d && Shr(t, l) % 2 == 1
      ensures var p := Shr(t, l) - 1;
        Key(d, l, p) in nodes && nodes[Key(d, l, p)] == Node(h, LeafFn(h, s), l, p)
    {
      assert SiblingKnown(h, d, s, nodes, t, l);
    }
  }

  // ----- whole runs

  /** Full sync stores the left siblings of the last leaf too, unless it is the only one since a bootstrap. */
  lemma FullSyncLeftKnown<T>(h: Hasher<T>, d: nat, st: TreeState<T>, s: seq<T>, t: nat)
    requires Consistent(h, d, st, s) && PathsKnown(h, d, s, st.start, st.nodes)
    requires st.start <= t < |s| && (st.start == 0 || |s| >= st.start + 2)
    requires SiblingsKnown(h, d, s, st.nodes, t)
    requires t > st.start ==> SiblingsKnown(h, d, s, st.nodes, t - 1)
    ensures LeftSiblingsKnown(h, d, s, st.nodes, t)
  {
    if t + 1 < |s| {
      LeftKnownOnceFollowed(h, d, s, st.nodes, t);
    } else {
      forall l | 0 <= l < d && Shr(t, l) % 2 == 1
        ensures var p := Shr(t, l) - 1;
          Key(d, l, p) in st.nodes && st.nodes[Key(d, l, p)] == Node(h, LeafFn(h, s), l, p)
      {
        if t == 0 { ShrOfZero(l); }
        ShrSucc(t - 1, l);
        if Shr(t - 1, l) == Shr(t, l) {
          assert SiblingKnown(h, d, s, st.nodes, t - 1, l);
        } else {
          assert PathKnown(h, d, s, st.nodes, t - 1, l);
        }
      }
    }
  }

  /** Leaf t is kept from the run that appends it on: tracked, unless everything is, and followed by another leaf. In
      full sync the last leaf is kept too, unless it is the only one since a bootstrap. */
  ghost predicate Kept<T>(fullSync: bool, start: nat, index: nat, batches: seq<Batch<T>>, t: nat) {
    && index <= t < index + TotalLeaves(batches)
    && (fullSync || WatchedThroughout(batches, index, t))
    && (t + 1 < index + TotalLeaves(batches)
        || (fullSync && start == index && (index == 0 || TotalLeaves(batches) >= 2)))
  }

  /** The table then knows all its siblings that hold leaves. */
  lemma RunKept<T>(h: Hasher<T>, d: nat, fullSync: bool, st: TreeState<T>, s: seq<T>, batches: seq<Batch<T>>, t: nat,
                   now: TreeState<T>, all: seq<T>)
    requires Consistent(h, d, st, s) && |s| + TotalLeaves(batches) <= Pow2(d)
    requires Kept(fullSync, st.start, |s|, batches, t)
    requires now == Run(h, fullSync, st, batches) && all == s + AllHashes(batches)
    ensures Consistent(h, d, now, all) && now.start == st.start
    ensures SiblingsKnown(h, d, all, now.nodes, t) && LeftSiblingsKnown(h, d, all, now.nodes, t)
  {
    assert |all| == |s| + TotalLeaves(batches);
    RunConsistent(h, d, fullSync, st, s, batches);
    RunSiblingsKnown(h, d, fullSync, st, s, batches, t);
    if t + 1 < |all| {
      LeftKnownOnceFollowed(h, d, all, now.nodes, t);
    } else {
      RunPathsKnown(h, d, st, s, batches);
      if t > |s| { RunSiblingsKnown(h, d, true, st, s, batches, t - 1); }
      FullSyncLeftKnown(h, d, now, all, t);
    }
  }

  lemma ProvedIffEmpty<T(!new)>(h: Hasher<T>, d: nat, st: TreeState<T>, s: seq<T>, n: nat, t: nat)
    requires Injective(h.parentOf) && Consistent(h, d, st, s) && st.start <= t < n == |s| < Pow2(d)
    requires SiblingsKnown(h, d, s, st.nodes, t) && LeftSiblingsKnown(h, d, s, st.nodes, t)
    ensures ProofOf(h, st, s[t], t).Proved? <==> FrontierEmpty(h, d, n, st.nodes, t)
  {
    SiblingsUsed(h, d, st, s, t);
    ProvedIff(h, d, st, s, t);
  }

  lemma GroveProvedIffEmpty<T(!new)>(h: Hasher<T>, d: nat, st: TreeState<T>, s: seq<T>, n: nat, t: nat)
    requires Injective(h.parentOf) && Consistent(h, d, st, s) && t < n == |s|
    requires SiblingsKnown(h, d, s, st.nodes, t) && LeftSiblingsKnown(h, d, s, st.nodes, t)
    ensures Verifies(h, MerkleProof(st.data.root, t, s[t], StoredSiblings(h, d, st.nodes, t)))
       <==> AheadEmpty(h, d, n, st.nodes, t)
  {
    GroveSiblingsUsed(h, d, st, s, t);
    ProofExact(h, LeafFn(h, s), d, t, s[t], StoredSiblings(h, d, st.nodes, t));
  }

  /** Read off the table the run leaves behind. */
  lemma KeptProvedIff<T(!new)>(h: Hasher<T>, d: nat, fullSync: bool, st: TreeState<T>, s: seq<T>,
                               batches: seq<Batch<T>>, t: nat, now: TreeState<T>, all: seq<T>, n: nat)
    requires Injective(h.parentOf) && Consistent(h, d, st, s) && n == |s| + TotalLeaves(batches) <= Pow2(d)
    requires Kept(fullSync, st.start, |s|, batches, t)
    requires now == Run(h, fullSync, st, batches) && all == s + AllHashes(batches)
    ensures n < Pow2(d) ==> (ProofOf(h, now, all[t], t).Proved? <==> FrontierEmpty(h, d, n, now.nodes, t))
    ensures Verifies(h, MerkleProof(now.data.root, t, all[t], StoredSiblings(h, d, now.nodes, t)))
       <==> AheadEmpty(h, d, n, now.nodes, t)
  {
    RunKept(h, d, fullSync, st, s, batches, t, now, all);
    GroveProvedIffEmpty(h, d, now, all, n, t);
    if n < Pow2(d) { ProvedIffEmpty(h, d, now, all, n, t); }
  }

  /** Both modes, over every run and any table: below capacity, a leaf that is kept can be proved exactly when the
      table the run started from has nothing stale at the frontier. The Grove list likewise, even when the tree is
      full, with nothing stale at any sibling without leaves. */
  lemma RunProofIff<T(!new)>(h: Hasher<T>, d: nat, fullSync: bool, st: TreeState<T>, s: seq<T>, batches: seq<Batch<T>>,
                             t: nat, now: TreeState<T>, all: seq<T>, n: nat)
    requires Injective(h.parentOf) && Consistent(h, d, st, s) && n == |s| + TotalLeaves(batches) <= Pow2(d)
    requires Kept(fullSync, st.start, |s|, batches, t)
    requires now == Run(h, fullSync, st, batches) && all == s + AllHashes(batches)
    ensures n < Pow2(d) ==> (ProofOf(h, now, all[t], t).Proved? <==> FrontierEmpty(h, d, n, st.nodes, t))
    ensures Verifies(h, MerkleProof(now.data.root, t, all[t], StoredSiblings(h, d, now.nodes, t)))
       <==> AheadEmpty(h, d, n, st.nodes, t)
  {
    KeptProvedIff(h, d, fullSync, st, s, batches, t, now, all, n);
    RunKeepsAhead(h, d, fullSync, st, s, batches, now, n, t);
  }

  /** Over a table that never held more leaves, every leaf that is kept has a proof of its true siblings, for any hash:
      from the tree below capacity, from the grove even when the tree is full. */
  lemma RunProofs<T>(h: Hasher<T>, d: nat, fullSync: bool, st: TreeState<T>, s: seq<T>, batches: seq<Batch<T>>, t: nat,
                     now: TreeState<T>, all: seq<T>)
    requires Consistent(h, d, st, s) && OnlyOccupied(d, |s|, st.nodes) && |s| + TotalLeaves(batches) <= Pow2(d)
    requires Kept(fullSync, st.start, |s|, batches, t)
    requires now == Run(h, fullSync, st, batches) && all == s + AllHashes(batches)
    ensures now.data.root == RootOf(h, LeafFn(h, all), d)
    ensures |all| < Pow2(d) ==>
      ProofOf(h, now, all[t], t)
      == Proved(MerkleProof(now.data.root, t, all[t], TrueSiblings(h, LeafFn(h, all), t, d)))
    ensures StoredSiblings(h, d, now.nodes, t) == TrueSiblings(h, LeafFn(h, all), t, d)
    ensures Verifies(h, MerkleProof(now.data.root, t, all[t], StoredSiblings(h, d, now.nodes, t)))
  {
    RunKept(h, d, fullSync, st, s, batches, t, now, all);
    RunKeepsAhead(h, d, fullSync, st, s, batches, now, |all|, t);
    CleanTable(h, d, |s|, |all|, st.nodes, t);
    GroveSiblingsUsed(h, d, now, all, t);
    TrueProofVerifies(h, LeafFn(h, all), t, d);
    if |all| < Pow2(d) {
      SiblingsUsed(h, d, now, all, t);
      OrBitInRange(d, t);
    }
  }

  lemma BatchKeepsClean<T>(h: Hasher<T>, d: nat, fullSync: bool, st: TreeState<T>, s: seq<T>, batch: Batch<T>,
                           now: TreeState<T>, n: nat, t: nat)
    requires Consistent(h, d, st, s) && OnlyOccupied(d, |s|, st.nodes) && t < n == |s| + |batch.leaves| <= Pow2(d)
    requires now == Append(h, fullSync, batch.observed, st, batch.leaves)
    ensures FrontierEmpty(h, d, n, now.nodes, t)
  {
    forall l | 0 <= l < d && Frontier(n, t, l) ensures RowEmpty(h, d, now.nodes, l, Xor1(Shr(t, l))) {
      var p := Xor1(Shr(t, l));
      SiblingKey(d, t, l);
      BatchKeepsRow(h, d, fullSync, batch.observed, st, s, batch.leaves, now, n, l, p, Key(d, l, p));
      BeyondFewer(d, |s|, n, l, p, Key(d, l, p));
    }
  }

  /** Right after a single batch. */
  lemma BatchProofs<T>(h: Hasher<T>, d: nat, fullSync: bool, st: TreeState<T>, s: seq<T>, batch: Batch<T>, t: nat,
                       now: TreeState<T>, all: seq<T>)
    requires Consistent(h, d, st, s) && OnlyOccupied(d, |s|, st.nodes) && all == s + Hashes(batch.leaves)
    requires |s| <= t && t + 1 < |all| < Pow2(d) && (fullSync || Watched(batch, |s|, t))
    requires now == Append(h, fullSync, batch.observed, st, batch.leaves)
    ensures ProofOf(h, now, all[t], t).Proved?
  {
    BatchConsistent(h, d, fullSync, batch.observed, st, s, batch.leaves);
    BatchSiblingsKnown(h, d, fullSync, batch, st, s, t);
    LeftKnownOnceFollowed(h, d, all, now.nodes, t);
    BatchKeepsClean(h, d, fullSync, st, s, batch, now, |all|, t);
    TrueSiblingsProve(h, d, now, all, t);
  }

  lemma TrueSiblingsProve<T>(h: Hasher<T>, d: nat, st: TreeState<T>, s: seq<T>, t: nat)
    requires Consistent(h, d, st, s) && st.start <= t < |s| < Pow2(d) && FrontierEmpty(h, d, |s|, st.nodes, t)
    requires SiblingsKnown(h, d, s, st.nodes, t) && LeftSiblingsKnown(h, d, s, st.nodes, t)
    ensures ProofOf(h, st, s[t], t).Proved?
  {
    SiblingsUsed(h, d, st, s, t);
    TrueProofVerifies(h, LeafFn(h, s), t, d);
    OrBitInRange(d, t);
  }

  /** Light mode: a leaf tracked since it was appended can be proved, with its true siblings, at every later state of
      every run that has appended at least one more leaf and is not full. */
  lemma LightModeProofs<T>(h: Hasher<T>, d: nat, st: TreeState<T>, s: seq<T>, batches: seq<Batch<T>>, t: nat)
    requires Consistent(h, d, st, s) && OnlyOccupied(d, |s|, st.nodes) && |s| + TotalLeaves(batches) < Pow2(d)
    requires |s| <= t && t + 1 < |s| + TotalLeaves(batches)
    requires WatchedThroughout(batches, |s|, t)
    ensures var all := s + AllHashes(batches);
      var now := Run(h, false, st, batches);
      && ProofOf(h, now, all[t], t)
         == Proved(MerkleProof(now.data.root, t, all[t], TrueSiblings(h, LeafFn(h, all), t, d)))
      && now.data.root == RootOf(h, LeafFn(h, all), d)
  {
    RunProofs(h, d, false, st, s, batches, t, Run(h, false, st, batches), s + AllHashes(batches));
  }

  /** Full sync: so can every leaf of a run, the last one included, past the first leaf of a bootstrap. */
  lemma FullSyncProofs<T>(h: Hasher<T>, d: nat, st: TreeState<T>, s: seq<T>, batches: seq<Batch<T>>, t: nat)
    requires Consistent(h, d, st, s) && OnlyOccupied(d, |s|, st.nodes) && |s| + TotalLeaves(batches) < Pow2(d)
    requires st.start == |s| <= t < |s| + TotalLeaves(batches) && (|s| == 0 || TotalLeaves(batches) >= 2)
    ensures var all := s + AllHashes(batches);
      var now := Run(h, true, st, batches);
      && ProofOf(h, now, all[t], t)
         == Proved(MerkleProof(now.data.root, t, all[t], TrueSiblings(h, LeafFn(h, all), t, d)))
      && now.data.root == RootOf(h, LeafFn(h, all), d)
  {
    RunProofs(h, d, true, st, s, batches, t, Run(h, true, st, batches), s + AllHashes(batches));
  }

  /** One row left behind is enough: an empty tree over a table that still holds a second leaf. The first leaf appended
      cannot be proved, nor from the grove, although everything is stored. */
  lemma StaleRowFails<T(!new)>(h: Hasher<T>, d: nat, z: T, a: T)
    requires Injective(h.parentOf) && IsHasher(h, d) && d >= 1 && z != h.preHash[0]
    ensures Pow2(d) >= 2
    ensures var st := Genesis(h).(nodes := map[Key(d, 0, 1) := z]);
      var now := Run(h, true, st, [Batch([], [Leaf(a, false)])]);
      && !ProofOf(h, now, a, 0).Proved?
      && !Verifies(h, MerkleProof(now.data.root, 0, a, StoredSiblings(h, d, now.nodes, 0)))
  {
    var st := Genesis(h).(nodes := map[Key(d, 0, 1) := z]);
    var batches := [Batch([], [Leaf(a, false)])];
    Pow2Monotone(1, d);
    assert Pow2(0) == 1 && Pow2(1) == 2;
    assert batches[..0] == [] && TotalLeaves(batches) == 1 && [] + AllHashes(batches) == [a];
    GenesisConsistent(h, d);
    assert Consistent(h, d, st, []);
    assert Frontier(1, 0, 0) && !RowEmpty(h, d, st.nodes, 0, 1);
    RunProofIff(h, d, true, st, [], batches, 0, Run(h, true, st, batches), [a], 1);
  }
}
