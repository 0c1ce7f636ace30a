/** The reference meaning of every tree in the forest: the complete binary tree over a leaf function. */
module FullTree {
  import opened Bits
  import opened Hashers

  /** Value of the node at height `level` and position `pos` of the complete tree whose j-th leaf is f(j). */
  function Node<T>(h: Hasher<T>, f: nat -> T, level: nat, pos: nat): T {
    if level == 0 then f(pos)
    else h.parentOf(Node(h, f, level - 1, 2 * pos), Node(h, f, level - 1, 2 * pos + 1))
  }

  /** Root of the depth-d tree. */
  function RootOf<T>(h: Hasher<T>, f: nat -> T, d: nat): T {
    Node(h, f, d, 0)
  }

  /** The true sibling, at height `level`, of the path that starts at leaf `index`. */
  function TrueSibling<T>(h: Hasher<T>, f: nat -> T, index: nat, level: nat): T {
    Node(h, f, level, Xor1(Shr(index, level)))
  }

  function TrueSiblings<T>(h: Hasher<T>, f: nat -> T, index: nat, d: nat): (s: seq<T>)
    ensures |s| == d
    ensures forall l :: 0 <= l < d ==> s[l] == TrueSibling(h, f, index, l)
  {
    seq(d, l requires 0 <= l => TrueSibling(h, f, index, l))
  }

  /** A node depends only on the leaves below it. */
  lemma {:induction false} NodeCongruence<T>(h: Hasher<T>, f: nat -> T, g: nat -> T, level: nat, pos: nat)
    requires forall j: nat :: Shr(j, level) == pos ==> f(j) == g(j)
    ensures Node(h, f, level, pos) == Node(h, g, level, pos)
  {
    if level == 0 {
      assert Shr(pos, 0) == pos;
    } else {
      forall j: nat | Shr(j, level - 1) == 2 * pos || Shr(j, level - 1) == 2 * pos + 1
        ensures f(j) == g(j)
      {
        assert Shr(j, level) == pos;
      }
      NodeCongruence(h, f, g, level - 1, 2 * pos);
      NodeCongruence(h, f, g, level - 1, 2 * pos + 1);
    }
  }

  /** An empty subtree has the pre-computed root of its height. */
  lemma {:induction false} EmptyNode<T>(h: Hasher<T>, d: nat, f: nat -> T, level: nat, pos: nat)
    requires IsHasher(h, d) && level <= d
    requires forall j: nat :: Shr(j, level) == pos ==> f(j) == h.preHash[0]
    ensures Node(h, f, level, pos) == h.preHash[level]
  {
    if level == 0 {
      assert Shr(pos, 0) == pos;
    } else {
      forall j: nat | Shr(j, level - 1) == 2 * pos || Shr(j, level - 1) == 2 * pos + 1
        ensures f(j) == h.preHash[0]
      {
        assert Shr(j, level) == pos;
      }
      EmptyNode(h, d, f, level - 1, 2 * pos);
      EmptyNode(h, d, f, level - 1, 2 * pos + 1);
    }
  }

  /** Under collision freedom equal nodes have equal leaves. */
  lemma {:induction false} NodeBinding<T(!new)>(h: Hasher<T>, f: nat -> T, g: nat -> T, level: nat, pos: nat, j: nat)
    requires Injective(h.parentOf)
    requires Node(h, f, level, pos) == Node(h, g, level, pos)
    requires Shr(j, level) == pos
    ensures f(j) == g(j)
  {
    if level > 0 {
      NodeBinding(h, f, g, level - 1, Shr(j, level - 1), j);
    }
  }

  /** Reading a table of nodes: what is absent counts as an empty subtree. */
  function Stored<T>(h: Hasher<T>, nodes: map<nat, T>, key: nat, level: nat): T
    requires level < |h.preHash|
  {
    if key in nodes then nodes[key] else h.preHash[level]
  }

  /** The siblings of one path as the table has them. */
  function StoredSiblings<T>(h: Hasher<T>, d: nat, nodes: map<nat, T>, index: nat): (s: seq<T>)
    requires d < |h.preHash|
    ensures |s| == d
    ensures forall l :: 0 <= l < d ==> s[l] == Stored(h, nodes, Xor1(Shr(OrBit(d, index), l)), l)
  {
    seq(d, l requires 0 <= l < d => Stored(h, nodes, Xor1(Shr(OrBit(d, index), l)), l))
  }

  // ----- trees over a list of leaves, the rest being empty

  function LeafFn<T>(h: Hasher<T>, s: seq<T>): nat -> T
    requires |h.preHash| > 0
  {
    (j: nat) => if j < |s| then s[j] else h.preHash[0]
  }

  /** Whether the subtree at (level, pos) holds one of the first n leaves. */
  predicate Occupied(n: nat, level: nat, pos: nat) {
    n > 0 && pos <= Shr(n - 1, level)
  }

  lemma UnoccupiedNode<T>(h: Hasher<T>, d: nat, s: seq<T>, level: nat, pos: nat)
    requires IsHasher(h, d) && level <= d
    requires !Occupied(|s|, level, pos)
    ensures Node(h, LeafFn(h, s), level, pos) == h.preHash[level]
  {
    forall j: nat | Shr(j, level) == pos
      ensures LeafFn(h, s)(j) == h.preHash[0]
    {
      if j < |s| { ShrMonotone(j, |s| - 1, level); }
    }
    EmptyNode(h, d, LeafFn(h, s), level, pos);
  }

  /** Appending a leaf changes only the nodes on its own path. */
  lemma AppendOffPath<T>(h: Hasher<T>, s: seq<T>, x: T, level: nat, pos: nat)
    requires |h.preHash| > 0
    requires pos != Shr(|s|, level)
    ensures Node(h, LeafFn(h, s + [x]), level, pos) == Node(h, LeafFn(h, s), level, pos)
  {
    NodeCongruence(h, LeafFn(h, s + [x]), LeafFn(h, s), level, pos);
  }

  /** Trailing empty leaves are invisible. */
  lemma PaddingInvisible<T>(h: Hasher<T>, s: seq<T>, padding: seq<T>, level: nat, pos: nat)
    requires |h.preHash| > 0
    requires forall k :: 0 <= k < |padding| ==> padding[k] == h.preHash[0]
    ensures Node(h, LeafFn(h, s + padding), level, pos) == Node(h, LeafFn(h, s), level, pos)
  {
    NodeCongruence(h, LeafFn(h, s + padding), LeafFn(h, s), level, pos);
  }
}
