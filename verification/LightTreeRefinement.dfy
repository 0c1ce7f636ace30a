/** The append-only tree stands for the complete tree over everything appended so far. */
module LightTreeRefinement {
  import opened Bits
  import opened Hashers
  import opened FullTree
  import opened MerkleProofs
  import opened LightTreeSpec

  /** `data` is the compressed form of the depth-d tree whose first leaves are s. */
  ghost predicate Represents<T>(h: Hasher<T>, d: nat, data: TreeData<T>, s: seq<T>) {
    && IsHasher(h, d)
    && |data.siblings| == d && data.index == |s| <= Pow2(d)
    && data.root == RootOf(h, LeafFn(h, s), d)
    && forall l :: 0 <= l < d && Shr(|s|, l) % 2 == 1 ==>
         data.siblings[l] == Node(h, LeafFn(h, s), l, Shr(|s|, l) - 1)
  }

  lemma GenesisRepresentsEmpty<T>(h: Hasher<T>, d: nat)
    requires IsHasher(h, d)
    ensures Represents(h, d, Genesis(h).data, [])
  {
    UnoccupiedNode(h, d, [], d, 0);
    forall l | 0 <= l < d ensures Shr(0, l) == 0 { ShrOfZero(l); }
  }

  /** The walk overwrites only the levels where the new leaf is on the left. */
  lemma {:induction false} WalkKeeps<T>(h: Hasher<T>, index: nat, leaf: T, siblings: seq<T>, level: nat)
    requires level <= |siblings| <= |h.preHash|
    ensures forall l :: 0 <= l < |siblings| && (level <= l || Shr(index, l) % 2 == 1) ==>
      WalkTo(h, index, leaf, siblings, level).siblings[l] == siblings[l]
  {
    if level > 0 {
      WalkKeeps(h, index, leaf, siblings, level - 1);
      OrBitParity(|siblings|, index, level - 1);
    }
  }

  /** What stands beside the path of a new leaf: nothing yet on the right, what was there before on the left. */
  lemma PathSiblings<T>(h: Hasher<T>, d: nat, s: seq<T>, x: T, l: nat)
    requires IsHasher(h, d) && |s| < Pow2(d) && l < d
    ensures var p := Shr(|s|, l);
      if p % 2 == 0 then Node(h, LeafFn(h, s + [x]), l, p + 1) == h.preHash[l]
      else Node(h, LeafFn(h, s + [x]), l, p - 1) == Node(h, LeafFn(h, s), l, p - 1)
  {
    var p := Shr(|s|, l);
    if p % 2 == 0 {
      if |s| > 0 { ShrMonotone(|s| - 1, |s|, l); }
      UnoccupiedNode(h, d, s, l, p + 1);
      AppendOffPath(h, s, x, l, p + 1);
    } else {
      AppendOffPath(h, s, x, l, p - 1);
    }
  }

  /** Where the new leaf is on the left, the walk leaves its running node behind. */
  lemma {:induction false} WalkLeaves<T>(h: Hasher<T>, index: nat, leaf: T, siblings: seq<T>, level: nat, l: nat)
    requires l < level <= |siblings| <= |h.preHash| && Shr(index, l) % 2 == 0
    ensures WalkTo(h, index, leaf, siblings, level).siblings[l] == WalkTo(h, index, leaf, siblings, l).node
  {
    OrBitParity(|siblings|, index, l);
    if l < level - 1 { WalkLeaves(h, index, leaf, siblings, level - 1, l); }
  }

  lemma {:induction false} WalkReachesNode<T>(h: Hasher<T>, d: nat, data: TreeData<T>, s: seq<T>, x: T, level: nat)
    requires Represents(h, d, data, s) && |s| < Pow2(d) && level <= d
    ensures WalkTo(h, |s|, x, data.siblings, level).node == Node(h, LeafFn(h, s + [x]), level, Shr(|s|, level))
  {
    if level > 0 {
      var l := level - 1;
      WalkReachesNode(h, d, data, s, x, l);
      WalkKeeps(h, |s|, x, data.siblings, l);
      OrBitParity(d, |s|, l);
      PathSiblings(h, d, s, x, l);
    }
  }

  /** The walk computes true nodes: the path of the new leaf, and the left siblings it leaves behind. */
  lemma WalkComputesNodes<T>(h: Hasher<T>, d: nat, data: TreeData<T>, s: seq<T>, x: T, level: nat)
    requires Represents(h, d, data, s) && |s| < Pow2(d) && level <= d
    ensures var w := WalkTo(h, |s|, x, data.siblings, level);
      && w.node == Node(h, LeafFn(h, s + [x]), level, Shr(|s|, level))
      && (forall l :: 0 <= l < level && Shr(|s|, l) % 2 == 0 ==>
            w.siblings[l] == Node(h, LeafFn(h, s + [x]), l, Shr(|s|, l)))
      && (forall l :: 0 <= l < d && (level <= l || Shr(|s|, l) % 2 == 1) ==> w.siblings[l] == data.siblings[l])
  {
    WalkReachesNode(h, d, data, s, x, level);
    WalkKeeps(h, |s|, x, data.siblings, level);
    forall l | 0 <= l < level && Shr(|s|, l) % 2 == 0
      ensures WalkTo(h, |s|, x, data.siblings, level).siblings[l] == Node(h, LeafFn(h, s + [x]), l, Shr(|s|, l))
    {
      WalkLeaves(h, |s|, x, data.siblings, level, l);
      WalkReachesNode(h, d, data, s, x, l);
    }
  }

  /** One append keeps the representation. */
  lemma AppendLeafRefines<T>(h: Hasher<T>, d: nat, data: TreeData<T>, s: seq<T>, x: T)
    requires Represents(h, d, data, s) && |s| < Pow2(d)
    ensures Represents(h, d, AppendLeaf(h, data, x), s + [x])
  {
    WalkComputesNodes(h, d, data, s, x, d);
    ShrToZero(|s|, d);
    var w := WalkTo(h, |s|, x, data.siblings, d);
    forall l | 0 <= l < d && Shr(|s| + 1, l) % 2 == 1
      ensures w.siblings[l] == Node(h, LeafFn(h, s + [x]), l, Shr(|s| + 1, l) - 1)
    {
      ShrSucc(|s|, l);
      if Shr(|s|, l) == Shr(|s| + 1, l) {
        AppendOffPath(h, s, x, l, Shr(|s|, l) - 1);
      }
    }
  }

  /** Incremental append refines the full tree, for every batch that fits. */
  lemma {:induction false} AppendRefines<T>(h: Hasher<T>, d: nat, data: TreeData<T>, s: seq<T>, hashes: seq<T>)
    requires Represents(h, d, data, s) && |s| + |hashes| <= Pow2(d)
    ensures Represents(h, d, AppendAll(h, data, hashes), s + hashes)
  {
    if hashes == [] {
      assert s + hashes == s;
    } else {
      var last := |hashes| - 1;
      AppendRefines(h, d, data, s, hashes[..last]);
      AppendLeafRefines(h, d, AppendAll(h, data, hashes[..last]), s + hashes[..last], hashes[last]);
      assert s + hashes[..last] + [hashes[last]] == s + hashes;
    }
  }

  /** append(a ++ b) is append(a) followed by append(b), siblings included. */
  lemma {:induction false} AppendBatches<T>(h: Hasher<T>, data: TreeData<T>, a: seq<T>, b: seq<T>)
    requires |data.siblings| <= |h.preHash|
    ensures AppendAll(h, data, a + b) == AppendAll(h, AppendAll(h, data, a), b)
  {
    if b == [] {
      assert a + b == a;
    } else {
      var last := |b| - 1;
      AppendBatches(h, data, a, b[..last]);
      assert (a + b)[..|a + b| - 1] == a + b[..last];
    }
  }

  /** A root commits to the leaves: equal roots of equal lengths mean equal contents. */
  lemma RootBindsLeaves<T(!new)>(h: Hasher<T>, d: nat, data: TreeData<T>, s: seq<T>, data': TreeData<T>, s': seq<T>)
    requires Injective(h.parentOf)
    requires Represents(h, d, data, s) && Represents(h, d, data', s')
    requires data.root == data'.root && data.index == data'.index
    ensures s == s'
  {
    forall j | 0 <= j < |s| ensures s[j] == s'[j] {
      ShrToZero(j, d);
      NodeBinding(h, LeafFn(h, s), LeafFn(h, s'), d, 0, j);
    }
  }

  // ----- bootstrap

  /** The normalised siblings are the true siblings of the next leaf. */
  lemma NormalisedAreTrue<T>(h: Hasher<T>, d: nat, data: TreeData<T>, s: seq<T>)
    requires Represents(h, d, data, s) && |s| < Pow2(d)
    ensures Normalised(h, data) == TrueSiblings(h, LeafFn(h, s), |s|, d)
  {
    forall l | 0 <= l < d
      ensures Normalised(h, data)[l] == TrueSibling(h, LeafFn(h, s), |s|, l)
    {
      if Shr(|s|, l) % 2 == 0 {
        if |s| > 0 { ShrMonotone(|s| - 1, |s|, l); }
        UnoccupiedNode(h, d, s, l, Shr(|s|, l) + 1);
      }
    }
  }

  /** The starting-leaf proof a tree hands out passes the check, unless the tree is full and not all empty. */
  lemma StartingLeafProofPasses<T>(h: Hasher<T>, d: nat, data: TreeData<T>, s: seq<T>)
    requires Represents(h, d, data, s)
    ensures IsStartingLeafProof(h, data.root, data.index, Normalised(h, data))
       <==> data.index < Pow2(d) || data.root == h.preHash[d]
  {
    if |s| < Pow2(d) {
      NormalisedAreTrue(h, d, data, s);
      TrueProofVerifies(h, LeafFn(h, s), |s|, d);
    } else {
      ClimbEmpty(h, d, |s|, Normalised(h, data), d);
    }
  }

  /** Past the last leaf every sibling counts as empty. */
  lemma {:induction false} ClimbEmpty<T>(h: Hasher<T>, d: nat, index: nat, siblings: seq<T>, level: nat)
    requires IsHasher(h, d) && level <= d == |siblings| && index == Pow2(d)
    requires RightSiblingsEmpty(h, index, siblings)
    ensures Climb(h, index, h.preHash[0], siblings, level) == h.preHash[level]
  {
    if level > 0 {
      ClimbEmpty(h, d, index, siblings, level - 1);
      ShrOfPow2(d, level - 1);
      assert h.preHash[level - 1 + 1] == h.parentOf(h.preHash[level - 1], h.preHash[level - 1]);
    }
  }

  /** With a collision-free hash nothing else passes for that root and index. */
  lemma StartingLeafProofUnique<T(!new)>(h: Hasher<T>, d: nat, data: TreeData<T>, s: seq<T>, siblings: seq<T>)
    requires Injective(h.parentOf)
    requires Represents(h, d, data, s) && |s| < Pow2(d) && |siblings| == d
    ensures IsStartingLeafProof(h, data.root, data.index, siblings) <==> siblings == Normalised(h, data)
  {
    StartingLeafProofPasses(h, d, data, s);
    NormalisedAreTrue(h, d, data, s);
    ProofExact(h, LeafFn(h, s), d, |s|, h.preHash[0], siblings);
  }

  /** A tree resumed from that proof agrees with the original on root and index after every later append. */
  lemma BootstrapAsGoodAsReplay<T>(h: Hasher<T>, d: nat, data: TreeData<T>, s: seq<T>, hashes: seq<T>)
    requires Represents(h, d, data, s) && |s| < Pow2(d) && |s| + |hashes| <= Pow2(d)
    ensures var resumed := Resumed(data.root, data.index, Normalised(h, data), map[]).data;
      && Represents(h, d, resumed, s)
      && AppendAll(h, resumed, hashes).root == AppendAll(h, data, hashes).root
      && AppendAll(h, resumed, hashes).index == AppendAll(h, data, hashes).index
  {
    var resumed := Resumed(data.root, data.index, Normalised(h, data), map[]).data;
    AppendRefines(h, d, data, s, hashes);
    AppendRefines(h, d, resumed, s, hashes);
  }

  /** The raw siblings pass the check exactly when they are already normalised. */
  lemma RawSiblingsPassIff<T(!new)>(h: Hasher<T>, d: nat, data: TreeData<T>, s: seq<T>)
    requires Represents(h, d, data, s) && |s| < Pow2(d)
    ensures IsStartingLeafProof(h, data.root, data.index, data.siblings)
       <==> forall l :: 0 <= l < d && Shr(data.index, l) % 2 == 0 ==> data.siblings[l] == h.preHash[l]
  {
    if forall l :: 0 <= l < d && Shr(data.index, l) % 2 == 0 ==> data.siblings[l] == h.preHash[l] {
      assert data.siblings == Normalised(h, data);
      StartingLeafProofPasses(h, d, data, s);
    }
  }

  /** They are not in general: after the first leaf of a tree of depth two or more, level 1 still holds its parent. */
  lemma RawSiblingsFailAfterOneLeaf<T(!new)>(h: Hasher<T>, d: nat, x: T)
    requires Injective(h.parentOf) && IsHasher(h, d) && d >= 2 && x != h.preHash[0]
    ensures var data := AppendAll(h, Genesis(h).data, [x]);
      !IsStartingLeafProof(h, data.root, data.index, data.siblings)
  {
    var g := Genesis(h).data;
    GenesisRepresentsEmpty(h, d);
    assert AppendAll(h, g, [x]) == AppendLeaf(h, g, x);
    WalkComputesNodes(h, d, g, [], x, d);
    assert Shr(0, 1) == 0 && Shr(1, 1) == 0;
    var data := AppendAll(h, g, [x]);
    var f := LeafFn(h, [] + [x]);
    assert data.siblings[1] == Node(h, f, 1, 0) == h.parentOf(Node(h, f, 0, 0), Node(h, f, 0, 1));
    assert h.preHash[0 + 1] == h.parentOf(h.preHash[0], h.preHash[0]);
  }
}
