/** packages/utils/src/index.ts: the transaction root that keys a queue of transactions. */
module TxRoot {
  import opened Sequences
  import opened Bits
  import opened FullTree
  import opened Hashers

  /** The parents of one level; the last node of an odd level is hashed with itself. */
  function Parents<T>(hash: (T, T) -> T, nodes: seq<T>): (parents: seq<T>)
    ensures |parents| == (|nodes| + 1) / 2
    ensures forall i :: 0 <= i < |parents| ==>
      parents[i] == hash(nodes[2 * i], if 2 * i + 1 < |nodes| then nodes[2 * i + 1] else nodes[2 * i])
  {
    seq((|nodes| + 1) / 2, i requires 0 <= i < (|nodes| + 1) / 2 =>
      hash(nodes[2 * i], if 2 * i + 1 < |nodes| then nodes[2 * i + 1] else nodes[2 * i]))
  }

  /** Root of the duplicate-last tree; `zero` stands for an empty list. */
  function RootOf<T>(hash: (T, T) -> T, zero: T, hashes: seq<T>): T
    decreases |hashes|
  {
    if |hashes| == 0 then zero
    else if |hashes| == 1 then hashes[0]
    else RootOf(hash, zero, Parents(hash, hashes))
  }

  method Root<T>(hash: (T, T) -> T, zero: T, hashes: seq<T>) returns (root: T)
    ensures root == RootOf(hash, zero, hashes)
    ensures hashes == [] ==> root == zero
    decreases |hashes|
  {
    if |hashes| == 0 { return zero; }
    if |hashes| == 1 { return hashes[0]; }
    var parents: seq<T> := [];
    var numOfParentNodes := (|hashes| + 1) / 2;
    var hasEmptyLeaf := |hashes| % 2 == 1;
    for i := 0 to numOfParentNodes
      invariant parents == Parents(hash, hashes)[..i]
    {
      if hasEmptyLeaf && i == numOfParentNodes - 1 {
        parents := parents + [hash(hashes[i * 2], hashes[i * 2])];
      } else {
        parents := parents + [hash(hashes[i * 2], hashes[i * 2 + 1])];
      }
    }
    assert parents == Parents(hash, hashes);
    root := Root(hash, zero, parents);
  }

  // ----- the complete tree it stands for

  /** How many levels lie above a list of n nodes. */
  function Height(n: nat): nat {
    if n <= 1 then 0 else 1 + Height((n + 1) / 2)
  }

  /** Which of n leaves stands at position k once every odd level has its last node twice. */
  function Source(n: nat, k: nat): (i: nat)
    requires n > 0
    ensures i < n
  {
    if n == 1 then 0
    else
      var j := Source((n + 1) / 2, k / 2);
      if 2 * j + k % 2 < n then 2 * j + k % 2 else 2 * j
  }

  function Expanded<T>(s: seq<T>): nat -> T
    requires s != []
  {
    (k: nat) => s[Source(|s|, k)]
  }

  function TreeOf<T>(hash: (T, T) -> T): Hasher<T> { Hasher(hash, []) }

  /** One level up, every pair of leaves is a leaf. */
  lemma {:induction false} NodeOfPairs<T>(h: Hasher<T>, f: nat -> T, g: nat -> T, level: nat, pos: nat)
    requires forall k: nat :: g(k) == h.parentOf(f(2 * k), f(2 * k + 1))
    ensures Node(h, f, level + 1, pos) == Node(h, g, level, pos)
  {
    if level == 0 {
      assert Node(h, f, 1, pos) == h.parentOf(Node(h, f, 0, 2 * pos), Node(h, f, 0, 2 * pos + 1));
    } else {
      NodeOfPairs(h, f, g, level - 1, 2 * pos);
      NodeOfPairs(h, f, g, level - 1, 2 * pos + 1);
    }
  }

  lemma ExpandedPairs<T>(hash: (T, T) -> T, s: seq<T>, k: nat)
    requires |s| > 1
    ensures Expanded(Parents(hash, s))(k) == hash(Expanded(s)(2 * k), Expanded(s)(2 * k + 1))
  {
    assert (2 * k + 1) / 2 == k && (2 * k + 1) % 2 == 1;
  }

  /** The root is that of the complete tree in which every odd level has its last node twice. */
  lemma {:induction false} RootIsFullTree<T>(hash: (T, T) -> T, zero: T, s: seq<T>)
    requires s != []
    ensures RootOf(hash, zero, s) == FullTree.RootOf(TreeOf(hash), Expanded(s), Height(|s|))
    decreases |s|
  {
    if |s| > 1 {
      var parents := Parents(hash, s);
      RootIsFullTree(hash, zero, parents);
      forall k: nat ensures Expanded(parents)(k) == hash(Expanded(s)(2 * k), Expanded(s)(2 * k + 1)) {
        ExpandedPairs(hash, s, k);
      }
      NodeOfPairs(TreeOf(hash), Expanded(s), Expanded(parents), Height(|parents|), 0);
    }
  }

  /** Two lists fill a complete tree of one height in the same way. */
  ghost predicate SameExpansion<T>(s: seq<T>, t: seq<T>)
    requires s != [] && t != []
  {
    && Height(|s|) == Height(|t|)
    && forall k :: 0 <= k < Pow2(Height(|s|)) ==> s[Source(|s|, k)] == t[Source(|t|, k)]
  }

  lemma BelowRoot(k: nat, d: nat)
    ensures Shr(k, d) == 0 <==> k < Pow2(d)
  {
    ShrIsDivision(k, d);
    if k < Pow2(d) { ShrToZero(k, d); }
  }

  /** Among lists of one height a root fixes the expansion and nothing more. */
  lemma SameHeightIff<T(!new)>(hash: (T, T) -> T, zero: T, s: seq<T>, t: seq<T>)
    requires Injective(hash) && s != [] && t != [] && Height(|s|) == Height(|t|)
    ensures RootOf(hash, zero, s) == RootOf(hash, zero, t) <==> SameExpansion(s, t)
  {
    var h, d := TreeOf(hash), Height(|s|);
    RootIsFullTree(hash, zero, s);
    RootIsFullTree(hash, zero, t);
    if RootOf(hash, zero, s) == RootOf(hash, zero, t) {
      forall k | 0 <= k < Pow2(d) ensures s[Source(|s|, k)] == t[Source(|t|, k)] {
        BelowRoot(k, d);
        NodeBinding(h, Expanded(s), Expanded(t), d, 0, k);
      }
    }
    if SameExpansion(s, t) {
      forall k: nat | Shr(k, d) == 0 ensures Expanded(s)(k) == Expanded(t)(k) { BelowRoot(k, d); }
      NodeCongruence(h, Expanded(s), Expanded(t), d, 0);
    }
  }

  // ----- lists of different heights

  /** The level of a tree that has the given height. */
  function Level<T>(hash: (T, T) -> T, s: seq<T>, height: nat): seq<T>
    decreases |s|
  {
    if Height(|s|) <= height then s else Level(hash, Parents(hash, s), height)
  }

  lemma {:induction false} LevelFacts<T>(hash: (T, T) -> T, zero: T, s: seq<T>, height: nat)
    requires s != [] && height <= Height(|s|)
    ensures Level(hash, s, height) != [] && Height(|Level(hash, s, height)|) == height
    ensures RootOf(hash, zero, Level(hash, s, height)) == RootOf(hash, zero, s)
    ensures height < Height(|s|) ==> exists a, b :: Level(hash, s, height)[0] == hash(a, b)
    decreases |s|
  {
    if height < Height(|s|) {
      LevelFacts(hash, zero, Parents(hash, s), height);
      assert Parents(hash, s)[0] == hash(s[0], s[1]);
    }
  }

  /** Two lists have the same root exactly when the higher tree has, at the height of the lower one, a level that fills
      that tree in the same way. */
  lemma RootIff<T(!new)>(hash: (T, T) -> T, zero: T, s: seq<T>, t: seq<T>)
    requires Injective(hash) && s != [] && t != [] && Height(|s|) >= Height(|t|)
    ensures Level(hash, s, Height(|t|)) != []
    ensures RootOf(hash, zero, s) == RootOf(hash, zero, t) <==> SameExpansion(Level(hash, s, Height(|t|)), t)
  {
    LevelFacts(hash, zero, s, Height(|t|));
    SameHeightIff(hash, zero, Level(hash, s, Height(|t|)), t);
  }

  lemma {:induction false} FirstSource(n: nat)
    requires n > 0
    ensures Source(n, 0) == 0
  {
    if n > 1 { FirstSource((n + 1) / 2); }
  }

  lemma SameFirst<T>(s: seq<T>, t: seq<T>)
    requires s != [] && t != []
    ensures SameExpansion(s, t) ==> s[0] == t[0]
  {
    FirstSource(|s|);
    FirstSource(|t|);
  }

  /** A leaf is never itself the hash of two nodes. */
  ghost predicate NoParentHashes<T(!new)>(hash: (T, T) -> T, s: seq<T>) {
    forall i, a, b :: 0 <= i < |s| ==> s[i] != hash(a, b)
  }

  lemma HigherDiffers<T(!new)>(hash: (T, T) -> T, zero: T, s: seq<T>, t: seq<T>)
    requires Injective(hash) && s != [] && t != [] && NoParentHashes(hash, t) && Height(|s|) > Height(|t|)
    ensures RootOf(hash, zero, s) != RootOf(hash, zero, t)
  {
    var level := Level(hash, s, Height(|t|));
    LevelFacts(hash, zero, s, Height(|t|));
    RootIff(hash, zero, s, t);
    SameFirst(level, t);
  }

  /** Without parent hashes among the leaves the root fixes exactly the height and the expansion. */
  lemma ExpansionIff<T(!new)>(hash: (T, T) -> T, zero: T, s: seq<T>, t: seq<T>)
    requires Injective(hash) && s != [] && t != [] && NoParentHashes(hash, s) && NoParentHashes(hash, t)
    ensures RootOf(hash, zero, s) == RootOf(hash, zero, t) <==> SameExpansion(s, t)
  {
    if Height(|s|) > Height(|t|) {
      HigherDiffers(hash, zero, s, t);
    } else if Height(|t|) > Height(|s|) {
      HigherDiffers(hash, zero, t, s);
    } else {
      SameHeightIff(hash, zero, s, t);
    }
  }

  /** Every leaf stands somewhere in the tree. */
  lemma {:induction false} SourceReaches(n: nat, i: nat) returns (k: nat)
    requires i < n
    ensures k < Pow2(Height(n)) && Source(n, k) == i
    decreases n
  {
    if n == 1 {
      k := 0;
    } else {
      var half := SourceReaches((n + 1) / 2, i / 2);
      k := 2 * half + i % 2;
    }
  }

  /** Lists of one length are bound outright, repetitions and parent hashes included. */
  lemma SameLengthBinding<T(!new)>(hash: (T, T) -> T, zero: T, s: seq<T>, t: seq<T>)
    requires Injective(hash) && s != [] && |s| == |t|
    ensures RootOf(hash, zero, s) == RootOf(hash, zero, t) <==> s == t
  {
    SameHeightIff(hash, zero, s, t);
    if SameExpansion(s, t) {
      forall i | 0 <= i < |s| ensures s[i] == t[i] {
        var k := SourceReaches(|s|, i);
      }
    }
  }

  // ----- distinct leaves

  lemma ParentsDistinct<T(!new)>(hash: (T, T) -> T, s: seq<T>)
    requires Injective(hash) && Distinct(s)
    ensures Distinct(Parents(hash, s))
  {}

  /** Without repetitions a level is determined by its parents, the duplicated last node included. */
  lemma ParentsBinding<T(!new)>(hash: (T, T) -> T, s: seq<T>, t: seq<T>)
    requires Injective(hash) && Distinct(s) && Distinct(t)
    requires Parents(hash, s) == Parents(hash, t)
    ensures s == t
  {
    var n := |Parents(hash, s)|;
    forall i | 0 <= i < n
      ensures s[2 * i] == t[2 * i]
      ensures 2 * i + 1 < |s| <==> 2 * i + 1 < |t|
      ensures 2 * i + 1 < |s| ==> s[2 * i + 1] == t[2 * i + 1]
    {
      assert Parents(hash, s)[i] == Parents(hash, t)[i];
    }
    if n > 0 {
      assert 2 * (n - 1) + 1 < |s| <==> 2 * (n - 1) + 1 < |t|;
    }
    forall k | 0 <= k < |s| ensures k < |t| && s[k] == t[k] {
      assert k == 2 * (k / 2) || k == 2 * (k / 2) + 1;
      assert 0 <= k / 2 < n;
    }
  }

  lemma {:induction false} SameHeightBinding<T(!new)>(hash: (T, T) -> T, zero: T, s: seq<T>, t: seq<T>)
    requires Injective(hash) && Distinct(s) && Distinct(t) && s != [] && t != []
    requires Height(|s|) == Height(|t|) && RootOf(hash, zero, s) == RootOf(hash, zero, t)
    ensures s == t
    decreases |s|
  {
    if |s| > 1 {
      ParentsDistinct(hash, s);
      ParentsDistinct(hash, t);
      SameHeightBinding(hash, zero, Parents(hash, s), Parents(hash, t));
      ParentsBinding(hash, s, t);
    }
  }

  /** The root of distinct leaves is binding across lengths. */
  lemma RootBinding<T(!new)>(hash: (T, T) -> T, zero: T, s: seq<T>, t: seq<T>)
    requires Injective(hash) && Distinct(s) && Distinct(t) && s != [] && t != []
    requires NoParentHashes(hash, s) && NoParentHashes(hash, t)
    ensures RootOf(hash, zero, s) == RootOf(hash, zero, t) <==> s == t
  {
    ExpansionIff(hash, zero, s, t);
    if RootOf(hash, zero, s) == RootOf(hash, zero, t) { SameHeightBinding(hash, zero, s, t); }
  }

  /** Two ways to collide: a last leaf repeated as the tree repeats it, and a leaf that is a parent hash. */
  lemma RepetitionCollides<T>(hash: (T, T) -> T, zero: T, a: T, b: T, c: T)
    ensures RootOf(hash, zero, [a, b, c]) == RootOf(hash, zero, [a, b, c, c])
    ensures RootOf(hash, zero, [hash(a, b)]) == RootOf(hash, zero, [a, b])
  {
    assert Parents(hash, [a, b, c]) == [hash(a, b), hash(c, c)] == Parents(hash, [a, b, c, c]);
    assert Parents(hash, [a, b]) == [hash(a, b)];
  }
}
