/** Buffers, big-endian numbers and field elements, as the codecs use them. */
module Bytes {

  type byte = x: int | 0 <= x < 256

  /** Fp.ORDER (packages/babyjubjub/src/fp.ts) */
  const ORDER: nat := 21888242871839275222246405745257275088548364400416034343698204186575808495617

  type Fp = x: int | 0 <= x < ORDER

  function Pow256(n: nat): (p: nat)
    ensures p >= 1
  {
    if n == 0 then 1 else 256 * Pow256(n - 1)
  }

  /** `toBuffer('be', len)`, defined when the number fits. */
  function ToBE(x: nat, len: nat): (s: seq<byte>)
    requires x < Pow256(len)
    ensures |s| == len
  {
    if len == 0 then [] else ToBE(x / 256, len - 1) + [x % 256]
  }

  function FromBE(s: seq<byte>): nat {
    if s == [] then 0 else FromBE(s[..|s| - 1]) * 256 + s[|s| - 1]
  }

  /** `Fp.fromBuffer` */
  function ToFp(s: seq<byte>): Fp {
    FromBE(s) % ORDER
  }

  lemma {:induction false} BigEndianRoundTrip(x: nat, len: nat)
    requires x < Pow256(len)
    ensures FromBE(ToBE(x, len)) == x
  {
    if len > 0 {
      BigEndianRoundTrip(x / 256, len - 1);
      var s := ToBE(x / 256, len - 1) + [x % 256];
      assert s[..|s| - 1] == ToBE(x / 256, len - 1);
    }
  }

  /** The first byte weighs most. */
  lemma {:induction false} BigEndianFirst(b: byte, s: seq<byte>)
    ensures FromBE([b] + s) == b * Pow256(|s|) + FromBE(s)
    decreases |s|
  {
    if s == [] {
      assert [b] + s == [b] && FromBE([b][..0]) == 0;
    } else {
      var n := |s| - 1;
      assert ([b] + s)[..|s|] == [b] + s[..n];
      BigEndianFirst(b, s[..n]);
      assert b * Pow256(|s|) == b * Pow256(n) * 256;
    }
  }

  lemma {:induction false} BigEndianExact(s: seq<byte>)
    ensures FromBE(s) < Pow256(|s|)
    ensures ToBE(FromBE(s), |s|) == s
  {
    if s != [] {
      var n := |s| - 1;
      BigEndianExact(s[..n]);
      assert FromBE(s) / 256 == FromBE(s[..n]) && FromBE(s) % 256 == s[n];
      assert s == s[..n] + [s[n]];
    }
  }

  lemma {:induction false} Pow256Add(a: nat, b: nat)
    ensures Pow256(a + b) == Pow256(a) * Pow256(b)
  {
    if a > 0 {
      Pow256Add(a - 1, b);
      var x, y := Pow256(a - 1), Pow256(b);
      assert 256 * (x * y) == (256 * x) * y;
    }
  }

  /** Field elements fit 32 bytes. */
  lemma FieldFits()
    ensures ORDER < Pow256(32)
    ensures Pow256(1) == 256 && Pow256(2) == 0x1_0000
  {
    assert Pow256(0) == 1 && Pow256(1) == 256 && Pow256(2) == 0x1_0000;
    Pow256Add(2, 2);
    PowersOfTwo();
  }

  lemma PowersOfTwo()
    ensures Pow256(32) == 0x1_0000_0000_0000_0000_0000_0000_0000_0000_0000_0000_0000_0000_0000_0000_0000_0000
  {
    Doubled(2, 0x1_0000);
    Doubled(4, 0x1_0000_0000);
    Doubled(8, 0x1_0000_0000_0000_0000);
    Doubled(16, 0x1_0000_0000_0000_0000_0000_0000_0000_0000);
  }

  /** Addresses have 20 bytes. */
  const ADDRESS_LIMIT: nat := 0x1_0000_0000_0000_0000_0000_0000_0000_0000_0000_0000

  lemma AddressFits()
    ensures Pow256(20) == ADDRESS_LIMIT
  {
    Pow256Add(16, 4);
    Doubled(2, 0x1_0000);
    Doubled(4, 0x1_0000_0000);
    Doubled(8, 0x1_0000_0000_0000_0000);
  }

  lemma Doubled(n: nat, value: nat)
    ensures Pow256(n) == value ==> Pow256(2 * n) == value * value
  {
    Pow256Add(n, n);
    assert n + n == 2 * n;
  }

  // ----- reading from the front

  /** `buffer.slice(0, n)`: as much as there is. */
  function Take<A>(s: seq<A>, n: nat): seq<A> {
    if n <= |s| then s[..n] else s
  }

  function Drop<A>(s: seq<A>, n: nat): seq<A> {
    if n <= |s| then s[n..] else []
  }

  lemma TakeFront<A>(x: seq<A>, rest: seq<A>)
    ensures Take(x + rest, |x|) == x
    ensures Drop(x + rest, |x|) == rest
  {}

  function Zeros(n: nat): (s: seq<byte>)
    ensures |s| == n
  {
    seq(n, _ => 0)
  }
}
