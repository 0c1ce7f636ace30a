/** packages/tree/src/merkle-proof.ts */
module MerkleProofs {
  import opened Bits
  import opened Hashers
  import opened FullTree

  datatype MerkleProof<T> = MerkleProof(root: T, index: nat, leaf: T, siblings: seq<T>)

  /** The node reached from `leaf` after hashing with the first `level` siblings. */
  function Climb<T>(h: Hasher<T>, index: nat, leaf: T, siblings: seq<T>, level: nat): T
    requires level <= |siblings|
  {
    if level == 0 then leaf
    else
      var node := Climb(h, index, leaf, siblings, level - 1);
      if Shr(index, level - 1) % 2 == 0 then h.parentOf(node, siblings[level - 1])
      else h.parentOf(siblings[level - 1], node)
  }

  method MerkleRoot<T>(h: Hasher<T>, index: nat, leaf: T, siblings: seq<T>) returns (node: T)
    ensures node == Climb(h, index, leaf, siblings, |siblings|)
  {
    var path := index;
    node := leaf;
    for i := 0 to |siblings|
      invariant path == Shr(index, i)
      invariant node == Climb(h, index, leaf, siblings, i)
    {
      if path % 2 == 0 {
        node := h.parentOf(node, siblings[i]);
      } else {
        node := h.parentOf(siblings[i], node);
      }
      path := path / 2;
    }
  }

  predicate Verifies<T(==)>(h: Hasher<T>, proof: MerkleProof<T>) {
    Climb(h, proof.index, proof.leaf, proof.siblings, |proof.siblings|) == proof.root
  }

  method VerifyProof<T(==)>(h: Hasher<T>, proof: MerkleProof<T>) returns (ok: bool)
    ensures ok == Verifies(h, proof)
  {
    var root := MerkleRoot(h, proof.index, proof.leaf, proof.siblings);
    ok := root == proof.root;
  }

  /** Every right-hand sibling of the path is the empty subtree. */
  predicate RightSiblingsEmpty<T(==)>(h: Hasher<T>, index: nat, siblings: seq<T>)
    requires |siblings| <= |h.preHash|
  {
    forall l :: 0 <= l < |siblings| && Shr(index, l) % 2 == 0 ==> siblings[l] == h.preHash[l]
  }

  /** What a starting-leaf proof must show: leaf `index` and everything after it on its path is empty. */
  predicate IsStartingLeafProof<T(==)>(h: Hasher<T>, root: T, index: nat, siblings: seq<T>)
    requires |siblings| < |h.preHash|
  {
    && RightSiblingsEmpty(h, index, siblings)
    && Verifies(h, MerkleProof(root, index, h.preHash[0], siblings))
  }

  method StartingLeafProof<T(==)>(h: Hasher<T>, root: T, index: nat, siblings: seq<T>) returns (ok: bool)
    requires |siblings| < |h.preHash|
    ensures ok == IsStartingLeafProof(h, root, index, siblings)
  {
    var depth := |siblings|;
    var path := index;
    for i := 0 to depth
      invariant path == Shr(index, i)
      invariant forall l :: 0 <= l < i && Shr(index, l) % 2 == 0 ==> siblings[l] == h.preHash[l]
    {
      if path % 2 == 0 {
        if siblings[i] != h.preHash[i] { return false; }
      }
      path := path / 2;
    }
    ok := VerifyProof(h, MerkleProof(root, index, h.preHash[0], siblings));
  }

  /** Replacing one leaf. */
  function SetLeaf<T>(f: nat -> T, index: nat, leaf: T): nat -> T {
    (j: nat) => if j == index then leaf else f(j)
  }

  /** Climbing along the true siblings from any leaf value computes the tree with that leaf put in place. */
  lemma {:induction false} ClimbTrueSiblings<T>(h: Hasher<T>, f: nat -> T, index: nat, leaf: T, siblings: seq<T>,
                                                level: nat)
    requires level <= |siblings|
    requires forall l :: 0 <= l < level ==> siblings[l] == TrueSibling(h, f, index, l)
    ensures Climb(h, index, leaf, siblings, level) == Node(h, SetLeaf(f, index, leaf), level, Shr(index, level))
  {
    if level > 0 {
      ClimbTrueSiblings(h, f, index, leaf, siblings, level - 1);
      var p := Shr(index, level - 1);
      NodeCongruence(h, SetLeaf(f, index, leaf), f, level - 1, Xor1(p));
    }
  }

  /** Completeness: the true leaf with its true siblings verifies. */
  lemma TrueProofVerifies<T>(h: Hasher<T>, f: nat -> T, index: nat, d: nat)
    requires index < Pow2(d)
    ensures Climb(h, index, f(index), TrueSiblings(h, f, index, d), d) == RootOf(h, f, d)
  {
    ClimbTrueSiblings(h, f, index, f(index), TrueSiblings(h, f, index, d), d);
    ShrToZero(index, d);
    NodeCongruence(h, SetLeaf(f, index, f(index)), f, d, 0);
  }

  /** Soundness: with a collision-free hash a root fixes the leaf and every sibling on a path. */
  lemma {:induction false} ClimbBinding<T(!new)>(h: Hasher<T>, index: nat, leaf: T, sibs: seq<T>, leaf': T,
                                                 sibs': seq<T>, level: nat)
    requires Injective(h.parentOf)
    requires level <= |sibs| && level <= |sibs'|
    requires Climb(h, index, leaf, sibs, level) == Climb(h, index, leaf', sibs', level)
    ensures leaf == leaf'
    ensures forall l :: 0 <= l < level ==> sibs[l] == sibs'[l]
  {
    if level > 0 {
      ClimbBinding(h, index, leaf, sibs, leaf', sibs', level - 1);
    }
  }

  /** A proof of depth d verifies against a tree exactly when it carries the true leaf and the true siblings. */
  lemma ProofExact<T(!new)>(h: Hasher<T>, f: nat -> T, d: nat, index: nat, leaf: T, siblings: seq<T>)
    requires Injective(h.parentOf) && index < Pow2(d) && |siblings| == d
    ensures Verifies(h, MerkleProof(RootOf(h, f, d), index, leaf, siblings))
       <==> leaf == f(index) && siblings == TrueSiblings(h, f, index, d)
  {
    TrueProofVerifies(h, f, index, d);
    if Verifies(h, MerkleProof(RootOf(h, f, d), index, leaf, siblings)) {
      ClimbBinding(h, index, leaf, siblings, f(index), TrueSiblings(h, f, index, d), d);
    }
  }
}
