/** Big-integer bit operations on node indices, as bn.js computes them on non-negative numbers. */
module Bits {

  function Pow2(n: nat): (p: nat)
    ensures p >= 1
  {
    if n == 0 then 1 else 2 * Pow2(n - 1)
  }

  /** `x.shrn(n)` */
  function Shr(x: nat, n: nat): nat {
    if n == 0 then x else Shr(x, n - 1) / 2
  }

  /** `new BN(1).shln(d).or(x)`: sets bit d of x. */
  function OrBit(d: nat, x: nat): nat {
    if Shr(x, d) % 2 == 0 then x + Pow2(d) else x
  }

  /** `new BN(1).xor(x)` */
  function Xor1(x: nat): nat {
    if x % 2 == 0 then x + 1 else x - 1
  }

  /** Node index of the sibling, `level` levels up, on the path of a leaf of a depth-d tree. */
  function SiblingIndex(d: nat, leaf: nat, level: nat): nat {
    Xor1(Shr(OrBit(d, leaf), level))
  }

  /** `x.bitLength()` */
  function BitLength(x: nat): nat {
    if x == 0 then 0 else 1 + BitLength(x / 2)
  }

  /** Heap index of the node at height `level` and position `pos` of a tree of depth d; the root is 1. */
  function Key(d: nat, level: nat, pos: nat): nat
    requires level <= d
  {
    Pow2(d - level) + pos
  }

  lemma HalfOfQuotient(x: nat, p: nat)
    requires p > 0
    ensures x / (2 * p) == x / p / 2
  {
    var q, r := x / p, x % p;
    var k, b := q / 2, q % 2;
    var rest := if b == 0 then r else p + r;
    assert x == q * p + r;
    TwiceTimes(k, b, p);
    DivisionUnique(x, 2 * p, k, rest);
  }

  lemma TwiceTimes(k: nat, b: nat, p: nat)
    requires b < 2
    ensures (2 * k + b) * p == k * (2 * p) + (if b == 0 then 0 else p)
  {}

  lemma {:induction false} ShrIsDivision(x: nat, n: nat)
    ensures Shr(x, n) == x / Pow2(n)
  {
    if n > 0 {
      ShrIsDivision(x, n - 1);
      HalfOfQuotient(x, Pow2(n - 1));
    }
  }

  lemma DivisionUnique(x: nat, m: nat, q: nat, r: nat)
    requires m > 0 && r < m && x == q * m + r
    ensures x / m == q
  {
    MultipleBounds(x / m - q, m);
    assert (x / m - q) * m == r - x % m;
  }

  lemma MultipleBounds(k: int, m: int)
    requires m > 0
    ensures k >= 1 ==> k * m >= m
    ensures k <= -1 ==> k * m <= -m
  {}

  lemma {:induction false} Pow2Even(n: nat)
    requires n > 0
    ensures Pow2(n) % 2 == 0
  {}

  lemma {:induction false} Pow2Monotone(a: nat, b: nat)
    requires a <= b
    ensures Pow2(a) <= Pow2(b)
    decreases b
  {
    if a < b { Pow2Monotone(a, b - 1); }
  }

  lemma {:induction false} ShrBound(x: nat, d: nat, n: nat)
    requires x < Pow2(d) && n <= d
    ensures Shr(x, n) < Pow2(d - n)
  {
    if n > 0 { ShrBound(x, d, n - 1); }
  }

  lemma ShrToZero(x: nat, d: nat)
    requires x < Pow2(d)
    ensures Shr(x, d) == 0
  {
    ShrBound(x, d, d);
  }

  lemma {:induction false} ShrMonotone(x: nat, y: nat, n: nat)
    requires x <= y
    ensures Shr(x, n) <= Shr(y, n)
  {
    if n > 0 { ShrMonotone(x, y, n - 1); }
  }

  /** Adding one either stays in the same subtree or enters the next one. */
  lemma {:induction false} ShrSucc(x: nat, n: nat)
    ensures Shr(x, n) <= Shr(x + 1, n) <= Shr(x, n) + 1
  {
    if n > 0 { ShrSucc(x, n - 1); }
  }

  lemma {:induction false} ShrPrefix(x: nat, d: nat, n: nat)
    requires n <= d
    ensures Shr(Pow2(d) + x, n) == Pow2(d - n) + Shr(x, n)
  {
    if n > 0 { ShrPrefix(x, d, n - 1); }
  }

  lemma ShrOfPow2(d: nat, n: nat)
    requires n <= d
    ensures Shr(Pow2(d), n) == Pow2(d - n)
  {
    ShrPrefix(0, d, n);
    ShrMonotone(0, 0, n);
    ShrOfZero(n);
  }

  lemma {:induction false} ShrOfZero(n: nat)
    ensures Shr(0, n) == 0
  {
    if n > 0 { ShrOfZero(n - 1); }
  }

  lemma OrBitInRange(d: nat, x: nat)
    requires x < Pow2(d)
    ensures OrBit(d, x) == Pow2(d) + x > x
  {
    ShrToZero(x, d);
  }

  lemma OrBitAtLeast(d: nat, x: nat)
    ensures OrBit(d, x) >= Pow2(d)
  {
    if x < Pow2(d) { OrBitInRange(d, x); }
  }

  /** Setting bit d leaves the bits below it alone. */
  lemma OrBitParity(d: nat, x: nat, n: nat)
    requires n < d
    ensures Shr(OrBit(d, x), n) % 2 == Shr(x, n) % 2
  {
    if Shr(x, d) % 2 == 0 {
      ShrPrefix(x, d, n);
      Pow2Even(d - n);
    }
  }

  /** A path node of an in-range leaf, as a heap index. */
  lemma PathKey(d: nat, x: nat, n: nat)
    requires x < Pow2(d) && n <= d
    ensures Shr(OrBit(d, x), n) == Key(d, n, Shr(x, n))
    ensures Shr(x, n) < Pow2(d - n)
  {
    OrBitInRange(d, x);
    ShrPrefix(x, d, n);
    ShrBound(x, d, n);
  }

  /** The sibling of a path node, as a heap index. */
  lemma SiblingKey(d: nat, x: nat, n: nat)
    requires x < Pow2(d) && n < d
    ensures Xor1(Shr(OrBit(d, x), n)) == Key(d, n, Xor1(Shr(x, n)))
    ensures Xor1(Shr(x, n)) < Pow2(d - n)
    ensures Shr(OrBit(d, x), n) % 2 == Shr(x, n) % 2
  {
    PathKey(d, x, n);
    Pow2Even(d - n);
  }

  lemma {:induction false} KeyInjective(d: nat, l: nat, p: nat, l': nat, p': nat)
    requires l <= d && l' <= d && p < Pow2(d - l) && p' < Pow2(d - l')
    requires Key(d, l, p) == Key(d, l', p')
    ensures l == l' && p == p'
  {
    if l < l' {
      Pow2Monotone(d - l' + 1, d - l);
    } else if l' < l {
      Pow2Monotone(d - l + 1, d - l');
    }
  }

  lemma SameKeyIff(d: nat, i: nat, q: nat, l: nat, p: nat)
    requires i <= d && l <= d && q < Pow2(d - i) && p < Pow2(d - l)
    ensures Key(d, i, q) == Key(d, l, p) <==> l == i && p == q
  {
    if Key(d, i, q) == Key(d, l, p) { KeyInjective(d, i, q, l, p); }
  }

  lemma XorParity(a: nat, b: nat)
    requires a % 2 == b % 2
    ensures Xor1(a) % 2 == Xor1(b) % 2
  {}

  /** Heap indices name nodes uniquely, so a path node or its sibling is (l, p) only when it is meant to be. */
  lemma LevelKeys(d: nat, x: nat, i: nat, l: nat, p: nat)
    requires i < d && x < Pow2(d) && l < d && p < Pow2(d - l)
    ensures Shr(OrBit(d, x), i) == Key(d, l, p) <==> l == i && p == Shr(x, i)
    ensures Xor1(Shr(OrBit(d, x), i)) == Key(d, l, p) <==> l == i && p == Xor1(Shr(x, i))
    ensures Xor1(Shr(OrBit(d, x), i)) % 2 == Xor1(Shr(x, i)) % 2
  {
    PathKey(d, x, i);
    SiblingKey(d, x, i);
    SameKeyIff(d, i, Shr(x, i), l, p);
    SameKeyIff(d, i, Xor1(Shr(x, i)), l, p);
    XorParity(Shr(OrBit(d, x), i), Shr(x, i));
  }

  lemma {:induction false} BitLengthOfKey(n: nat, p: nat)
    requires p < Pow2(n)
    ensures BitLength(Pow2(n) + p) == n + 1
  {
    if n > 0 {
      assert (Pow2(n) + p) / 2 == Pow2(n - 1) + p / 2;
      BitLengthOfKey(n - 1, p / 2);
    }
  }

  lemma {:induction false} BitLengthMonotone(x: nat, y: nat)
    requires x <= y
    ensures BitLength(x) <= BitLength(y)
  {
    if x > 0 { BitLengthMonotone(x / 2, y / 2); }
  }

  /** A node index of a depth-d tree is never longer than a prefixed leaf index. */
  lemma NodeNotLongerThanLeaf(d: nat, leaf: nat, node: nat)
    requires node < 2 * Pow2(d)
    ensures BitLength(node) <= d + 1 <= BitLength(OrBit(d, leaf))
  {
    BitLengthOfKey(d, Pow2(d) - 1);
    BitLengthMonotone(node, Pow2(d) + (Pow2(d) - 1));
    BitLengthOfKey(d, 0);
    if leaf < Pow2(d) { ShrToZero(leaf, d); }
    BitLengthMonotone(Pow2(d), OrBit(d, leaf));
  }
}
