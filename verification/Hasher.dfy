/** packages/tree/src/hasher.ts: a two-to-one hash with the roots of its empty trees. */
module Hashers {

  datatype Hasher<!T> = Hasher(parentOf: (T, T) -> T, preHash: seq<T>)

  /** `preHash` holds the root of the empty tree of every height up to d, and nothing else. */
  ghost predicate IsHasher<T>(h: Hasher<T>, d: nat) {
    && |h.preHash| == d + 1
    && forall i :: 0 <= i < d ==> h.preHash[i + 1] == h.parentOf(h.preHash[i], h.preHash[i])
  }

  /** Collision freedom, assumed only where a statement names it. */
  ghost predicate Injective<T(!new)>(parentOf: (T, T) -> T) {
    forall a, b, c, d :: parentOf(a, b) == parentOf(c, d) ==> a == c && b == d
  }

  method GetPreHash<T>(zero: T, parentOf: (T, T) -> T, depth: nat) returns (preHash: seq<T>)
    ensures IsHasher(Hasher(parentOf, preHash), depth) && preHash[0] == zero
  {
    preHash := [zero];
    for level := 0 to depth
      invariant |preHash| == level + 1 && preHash[0] == zero
      invariant forall i :: 0 <= i < level ==> preHash[i + 1] == parentOf(preHash[i], preHash[i])
    {
      var topValue := preHash[|preHash| - 1];
      preHash := preHash + [parentOf(topValue, topValue)];
    }
  }

  function GenesisRoot<T>(h: Hasher<T>): T
    requires |h.preHash| > 0
  {
    h.preHash[|h.preHash| - 1]
  }
}
