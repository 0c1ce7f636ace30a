/** Where every field of a transaction stands in its encoding: packages/transaction/src/zk-tx.ts byte by byte. */
module ZkTxLayout {
  import opened Bytes
  import opened ZkTxCodec

  /** The bytes of `part` stand at offset k of s. */
  ghost predicate At(s: seq<byte>, k: nat, part: seq<byte>) {
    k + |part| <= |s| && s[k..k + |part|] == part
  }

  lemma AtBehind(a: seq<byte>, s: seq<byte>, k: nat, part: seq<byte>)
    requires At(s, k, part)
    ensures At(a + s, |a| + k, part)
  {
    assert (a + s)[|a| + k..|a| + k + |part|] == s[k..k + |part|];
  }

  lemma AtBefore(s: seq<byte>, b: seq<byte>, k: nat, part: seq<byte>)
    requires At(s, k, part)
    ensures At(s + b, k, part)
  {
    assert (s + b)[k..k + |part|] == s[k..k + |part|];
  }

  lemma AtStart(part: seq<byte>, b: seq<byte>)
    ensures At(part + b, 0, part) && At(part, 0, part)
  {}

  /** The second of three parts. */
  lemma AtMiddle(a: seq<byte>, part: seq<byte>, b: seq<byte>)
    ensures At(a + (part + b), |a|, part)
  {
    AtStart(part, b);
    AtBehind(a, part + b, 0, part);
  }

  // ----- inflows

  lemma InflowFields(i: ZkInflow)
    ensures At(EncodeInflow(i), 0, EncodeFp(i.root)) && At(EncodeInflow(i), 32, EncodeFp(i.nullifier))
  {}

  lemma {:induction false} InflowsAt(s: seq<ZkInflow>, i: nat)
    requires i < |s|
    ensures At(EncodeInflows(s), 64 * i, EncodeInflow(s[i]))
    decreases |s|
  {
    if i == 0 {
      AtStart(EncodeInflow(s[0]), EncodeInflows(s[1..]));
    } else {
      InflowsAt(s[1..], i - 1);
      AtBehind(EncodeInflow(s[0]), EncodeInflows(s[1..]), 64 * (i - 1), EncodeInflow(s[i]));
    }
  }

  lemma AtWithin(s: seq<byte>, k: nat, part: seq<byte>, j: nat, inner: seq<byte>)
    requires At(s, k, part) && At(part, j, inner)
    ensures At(s, k + j, inner)
  {
    forall x | 0 <= x < |inner| ensures s[k + j + x] == inner[x] {
      assert part[j + x] == s[k..k + |part|][j + x] && inner[x] == part[j..j + |inner|][x];
    }
  }

  /** The parts of the encoding behind the inflows. */
  function BehindInflows(tx: ZkTx): seq<byte>
    requires Encodable(tx)
  {
    EncodeOutflowList(tx.outflow) + (EncodeFp(tx.fee) + (EncodeProof(tx.proof.value) + EncodeTail(tx)))
  }

  /** One byte counts the inflows; each takes 64 bytes, the root before the nullifier. */
  lemma InflowLayout(tx: ZkTx, i: nat)
    requires Encodable(tx) && i < |tx.inflow|
    ensures At(Encode(tx), 0, [(|tx.inflow| % 256) as byte])
    ensures At(Encode(tx), 1 + 64 * i, EncodeFp(tx.inflow[i].root))
    ensures At(Encode(tx), 1 + 64 * i + 32, EncodeFp(tx.inflow[i].nullifier))
  {
    var list := EncodeInflowList(tx.inflow);
    var entry := EncodeInflow(tx.inflow[i]);
    InflowsAt(tx.inflow, i);
    AtBehind([(|tx.inflow| % 256) as byte], EncodeInflows(tx.inflow), 64 * i, entry);
    AtBefore(list, BehindInflows(tx), 1 + 64 * i, entry);
    InflowFields(tx.inflow[i]);
    AtWithin(Encode(tx), 1 + 64 * i, entry, 0, EncodeFp(tx.inflow[i].root));
    AtWithin(Encode(tx), 1 + 64 * i, entry, 32, EncodeFp(tx.inflow[i].nullifier));
    AtStart([(|tx.inflow| % 256) as byte], EncodeInflows(tx.inflow));
    AtBefore(list, BehindInflows(tx), 0, [(|tx.inflow| % 256) as byte]);
  }

  // ----- outflows

  /** The public data of an outflow: recipient, ether, token, amount, NFT, fee. */
  lemma DataFields(d: PublicData)
    requires DataFits(d)
    ensures var s := EncodeData(d);
      && At(s, 0, EncodeAddress(d.to)) && At(s, 20, EncodeFp(d.eth)) && At(s, 52, EncodeAddress(d.tokenAddr))
      && At(s, 72, EncodeFp(d.erc20Amount)) && At(s, 104, EncodeFp(d.nft)) && At(s, 136, EncodeFp(d.fee))
  {
    var s5 := EncodeFp(d.nft) + EncodeFp(d.fee);
    var s4 := EncodeFp(d.erc20Amount) + s5;
    var s3 := EncodeAddress(d.tokenAddr) + s4;
    var s2 := EncodeFp(d.eth) + s3;
    AtStart(EncodeFp(d.fee), []);
    AtBehind(EncodeFp(d.nft), EncodeFp(d.fee), 0, EncodeFp(d.fee));
    AtBehind(EncodeFp(d.erc20Amount), s5, 32, EncodeFp(d.fee));
    AtBehind(EncodeAddress(d.tokenAddr), s4, 64, EncodeFp(d.fee));
    AtBehind(EncodeFp(d.eth), s3, 84, EncodeFp(d.fee));
    AtBehind(EncodeAddress(d.to), s2, 116, EncodeFp(d.fee));
    AtStart(EncodeFp(d.nft), EncodeFp(d.fee));
    AtBehind(EncodeFp(d.erc20Amount), s5, 0, EncodeFp(d.nft));
    AtBehind(EncodeAddress(d.tokenAddr), s4, 32, EncodeFp(d.nft));
    AtBehind(EncodeFp(d.eth), s3, 52, EncodeFp(d.nft));
    AtBehind(EncodeAddress(d.to), s2, 84, EncodeFp(d.nft));
    AtStart(EncodeFp(d.erc20Amount), s5);
    AtBehind(EncodeAddress(d.tokenAddr), s4, 0, EncodeFp(d.erc20Amount));
    AtBehind(EncodeFp(d.eth), s3, 20, EncodeFp(d.erc20Amount));
    AtBehind(EncodeAddress(d.to), s2, 52, EncodeFp(d.erc20Amount));
    AtStart(EncodeAddress(d.tokenAddr), s4);
    AtBehind(EncodeFp(d.eth), s3, 0, EncodeAddress(d.tokenAddr));
    AtBehind(EncodeAddress(d.to), s2, 32, EncodeAddress(d.tokenAddr));
    AtStart(EncodeFp(d.eth), s3);
    AtBehind(EncodeAddress(d.to), s2, 0, EncodeFp(d.eth));
    AtStart(EncodeAddress(d.to), s2);
  }

  lemma OutflowFields(o: ZkOutflow)
    requires OutflowFits(o)
    ensures At(EncodeOutflow(o), 0, EncodeFp(o.note)) && At(EncodeOutflow(o), 32, [o.outflowType as byte])
    ensures o.data.Some? ==> At(EncodeOutflow(o), 33, EncodeData(o.data.value))
  {
    var data := if o.data.Some? then EncodeData(o.data.value) else [];
    AtStart(EncodeFp(o.note), [o.outflowType as byte] + data);
    AtMiddle(EncodeFp(o.note), [o.outflowType as byte], data);
    AtStart(data, []);
    AtBehind([o.outflowType as byte], data, 0, data);
    AtBehind(EncodeFp(o.note), [o.outflowType as byte] + data, 1, data);
  }

  lemma {:induction false} OutflowsAt(s: seq<ZkOutflow>, i: nat)
    requires i < |s| && forall j :: 0 <= j < |s| ==> OutflowFits(s[j])
    ensures At(EncodeOutflows(s), 33 * i + 168 * CrossLayer(s[..i]), EncodeOutflow(s[i]))
    decreases |s|
  {
    if i == 0 {
      AtStart(EncodeOutflow(s[0]), EncodeOutflows(s[1..]));
    } else {
      OutflowsAt(s[1..], i - 1);
      assert s[..i][1..] == s[1..][..i - 1];
      AtBehind(EncodeOutflow(s[0]), EncodeOutflows(s[1..]), 33 * (i - 1) + 168 * CrossLayer(s[1..][..i - 1]),
               EncodeOutflow(s[i]));
    }
  }

  lemma OutflowListAt(tx: ZkTx)
    requires Encodable(tx)
    ensures At(Encode(tx), 1 + 64 * |tx.inflow|, EncodeOutflowList(tx.outflow))
  {
    AtMiddle(EncodeInflowList(tx.inflow), EncodeOutflowList(tx.outflow),
             EncodeFp(tx.fee) + (EncodeProof(tx.proof.value) + EncodeTail(tx)));
  }

  lemma OutflowInList(s: seq<byte>, start: nat, outflow: seq<ZkOutflow>, i: nat, k: nat)
    requires i < |outflow| && forall j :: 0 <= j < |outflow| ==> OutflowFits(outflow[j])
    requires At(s, start, EncodeOutflowList(outflow)) && k == start + 1 + 33 * i + 168 * CrossLayer(outflow[..i])
    ensures At(s, start, [(|outflow| % 256) as byte]) && At(s, k, EncodeOutflow(outflow[i]))
  {
    var list, count, j := EncodeOutflowList(outflow), (|outflow| % 256) as byte, k - start - 1;
    AtStart([count], EncodeOutflows(outflow));
    AtWithin(s, start, list, 0, [count]);
    OutflowsAt(outflow, i);
    AtBehind([count], EncodeOutflows(outflow), j, EncodeOutflow(outflow[i]));
    AtWithin(s, start, list, 1 + j, EncodeOutflow(outflow[i]));
  }

  /** The fields of an outflow that stands at offset k. */
  ghost predicate OutflowAt(s: seq<byte>, k: nat, o: ZkOutflow)
    requires OutflowFits(o)
  {
    && At(s, k, EncodeFp(o.note)) && At(s, k + 32, [o.outflowType as byte])
    && (o.data.Some? ==> At(s, k + 33, EncodeData(o.data.value)))
  }

  lemma OutflowParts(s: seq<byte>, k: nat, o: ZkOutflow)
    requires OutflowFits(o) && At(s, k, EncodeOutflow(o))
    ensures OutflowAt(s, k, o)
  {
    OutflowFields(o);
    AtWithin(s, k, EncodeOutflow(o), 0, EncodeFp(o.note));
    AtWithin(s, k, EncodeOutflow(o), 32, [o.outflowType as byte]);
    if o.data.Some? { AtWithin(s, k, EncodeOutflow(o), 33, EncodeData(o.data.value)); }
  }

  /** One byte counts the outflows; each takes 33 bytes, and 168 more when it leaves the second layer. */
  lemma OutflowLayout(tx: ZkTx, i: nat)
    requires Encodable(tx) && i < |tx.outflow|
    ensures At(Encode(tx), 1 + 64 * |tx.inflow|, [(|tx.outflow| % 256) as byte])
    ensures OutflowAt(Encode(tx), 2 + 64 * |tx.inflow| + 33 * i + 168 * CrossLayer(tx.outflow[..i]), tx.outflow[i])
  {
    var k := 2 + 64 * |tx.inflow| + 33 * i + 168 * CrossLayer(tx.outflow[..i]);
    OutflowListAt(tx);
    OutflowInList(Encode(tx), 1 + 64 * |tx.inflow|, tx.outflow, i, k);
    OutflowParts(Encode(tx), k, tx.outflow[i]);
  }

  // ----- fee, proof, swap and memo

  /** The coordinates of the second group come in reversed pairs. */
  lemma ProofFields(p: SNARK)
    ensures var s := EncodeProof(p);
      && At(s, 0, EncodeFp(p.a0)) && At(s, 32, EncodeFp(p.a1)) && At(s, 64, EncodeFp(p.b01))
      && At(s, 96, EncodeFp(p.b00)) && At(s, 128, EncodeFp(p.b11)) && At(s, 160, EncodeFp(p.b10))
      && At(s, 192, EncodeFp(p.c0)) && At(s, 224, EncodeFp(p.c1))
  {
    ProofEnd(p);
    var s4 := ProofTail(p);
    var s3 := EncodeFp(p.b00) + s4;
    var s2 := EncodeFp(p.b01) + s3;
    var s1 := EncodeFp(p.a1) + s2;
    FourBehind(EncodeFp(p.a0), EncodeFp(p.a1), EncodeFp(p.b01), EncodeFp(p.b00), s4, 0, EncodeFp(p.b11));
    FourBehind(EncodeFp(p.a0), EncodeFp(p.a1), EncodeFp(p.b01), EncodeFp(p.b00), s4, 32, EncodeFp(p.b10));
    FourBehind(EncodeFp(p.a0), EncodeFp(p.a1), EncodeFp(p.b01), EncodeFp(p.b00), s4, 64, EncodeFp(p.c0));
    FourBehind(EncodeFp(p.a0), EncodeFp(p.a1), EncodeFp(p.b01), EncodeFp(p.b00), s4, 96, EncodeFp(p.c1));
    FirstFour(EncodeFp(p.a0), EncodeFp(p.a1), EncodeFp(p.b01), EncodeFp(p.b00), s4);
  }

  function ProofTail(p: SNARK): seq<byte> {
    EncodeFp(p.b11) + (EncodeFp(p.b10) + (EncodeFp(p.c0) + EncodeFp(p.c1)))
  }

  lemma ProofEnd(p: SNARK)
    ensures var s := ProofTail(p);
      At(s, 0, EncodeFp(p.b11)) && At(s, 32, EncodeFp(p.b10)) && At(s, 64, EncodeFp(p.c0)) && At(s, 96, EncodeFp(p.c1))
  {
    FirstThree(EncodeFp(p.b11), EncodeFp(p.b10), EncodeFp(p.c0), EncodeFp(p.c1));
  }

  lemma FirstThree(a: seq<byte>, b: seq<byte>, c: seq<byte>, d: seq<byte>)
    requires |a| == |b| == |c| == 32
    ensures var s := a + (b + (c + d)); At(s, 0, a) && At(s, 32, b) && At(s, 64, c) && At(s, 96, d)
  {
    AtStart(a, b + (c + d));
    AtMiddle(a, b, c + d);
    AtMiddle(b, c, d);
    AtBehind(a, b + (c + d), 32, c);
    AtStart(d, []);
    AtBehind(c, d, 0, d);
    AtBehind(b, c + d, 32, d);
    AtBehind(a, b + (c + d), 64, d);
  }

  lemma FirstFour(a: seq<byte>, b: seq<byte>, c: seq<byte>, d: seq<byte>, s: seq<byte>)
    requires |a| == |b| == |c| == |d| == 32
    ensures var whole := a + (b + (c + (d + s)));
      At(whole, 0, a) && At(whole, 32, b) && At(whole, 64, c) && At(whole, 96, d)
  {
    FirstThree(a, b, c, d + s);
    AtStart(d, s);
    AtWithin(a + (b + (c + (d + s))), 96, d + s, 0, d);
  }

  lemma FourBehind(a: seq<byte>, b: seq<byte>, c: seq<byte>, d: seq<byte>, s: seq<byte>, k: nat, part: seq<byte>)
    requires |a| == |b| == |c| == |d| == 32 && At(s, k, part)
    ensures At(a + (b + (c + (d + s))), 128 + k, part)
  {
    AtBehind(d, s, k, part);
    AtBehind(c, d + s, 32 + k, part);
    AtBehind(b, c + (d + s), 64 + k, part);
    AtBehind(a, b + (c + (d + s)), 96 + k, part);
  }

  /** The length of everything in front of the fee. */
  function FeeOffset(tx: ZkTx): nat {
    2 + 64 * |tx.inflow| + 33 * |tx.outflow| + 168 * CrossLayer(tx.outflow)
  }

  lemma EndAt(tx: ZkTx)
    requires Encodable(tx)
    ensures At(Encode(tx), FeeOffset(tx), EncodeFp(tx.fee) + (EncodeProof(tx.proof.value) + EncodeTail(tx)))
  {
    var end := EncodeFp(tx.fee) + (EncodeProof(tx.proof.value) + EncodeTail(tx));
    AtStart(end, []);
    AtBehind(EncodeOutflowList(tx.outflow), end, 0, end);
    AtBehind(EncodeInflowList(tx.inflow), EncodeOutflowList(tx.outflow) + end, |EncodeOutflowList(tx.outflow)|, end);
  }

  /** Fee, proof, the byte of switches, and behind it the swap and the memo as its bits say, to the end. */
  lemma EndLayout(tx: ZkTx)
    requires Encodable(tx)
    ensures At(Encode(tx), FeeOffset(tx), EncodeFp(tx.fee))
    ensures At(Encode(tx), FeeOffset(tx) + 32, EncodeProof(tx.proof.value))
    ensures At(Encode(tx), FeeOffset(tx) + 288, EncodeTail(tx))
    ensures |Encode(tx)| == FeeOffset(tx) + 288 + |EncodeTail(tx)|
  {
    var end := EncodeFp(tx.fee) + (EncodeProof(tx.proof.value) + EncodeTail(tx));
    EndAt(tx);
    AtStart(EncodeFp(tx.fee), EncodeProof(tx.proof.value) + EncodeTail(tx));
    AtWithin(Encode(tx), FeeOffset(tx), end, 0, EncodeFp(tx.fee));
    AtMiddle(EncodeFp(tx.fee), EncodeProof(tx.proof.value), EncodeTail(tx));
    AtWithin(Encode(tx), FeeOffset(tx), end, 32, EncodeProof(tx.proof.value));
    AtStart(EncodeTail(tx), []);
    AtBehind(EncodeProof(tx.proof.value), EncodeTail(tx), 0, EncodeTail(tx));
    AtBehind(EncodeFp(tx.fee), EncodeProof(tx.proof.value) + EncodeTail(tx), 256, EncodeTail(tx));
    AtWithin(Encode(tx), FeeOffset(tx), end, 288, EncodeTail(tx));
  }

  /** Bit 0 of the switch byte announces a swap, bit 1 a version-one memo, bit 2 a version-two memo behind two bytes of
      its length. */
  lemma TailLayout(tx: ZkTx)
    requires Encodable(tx)
    ensures var s := EncodeTail(tx);
      var memoAt := if tx.swap.Some? then 33 else 1;
      && (tx.swap.Some? ==> At(s, 1, EncodeFp(tx.swap.value)))
      && (s[0] % 2 == 1 <==> tx.swap.Some?)
      && match tx.memo
         case None => s[0] / 2 == 0 && |s| == memoAt
         case Some(Memo(version, data)) =>
           if version == 1 then s[0] / 2 == 1 && At(s, memoAt, data) && |s| == memoAt + |data|
           else if version == 2 then
             && s[0] / 2 == 2 && |s| == memoAt + 2 + |data|
             && FromBE(s[memoAt..memoAt + 2]) == |data| && At(s, memoAt + 2, data)
           else s[0] / 2 == 0 && |s| == memoAt
  {
    var swap := if tx.swap.Some? then EncodeFp(tx.swap.value) else [];
    var memo := EncodeMemo(tx.memo);
    AtMiddle([Switch(tx)], swap, memo);
    AtStart(memo, []);
    AtBehind(swap, memo, 0, memo);
    AtBehind([Switch(tx)], swap + memo, |swap|, memo);
    if tx.memo.Some? && tx.memo.value.version == 2 { MemoLengthAt(tx, 1 + |swap|, memo); }
  }

  lemma MemoLengthAt(tx: ZkTx, k: nat, memo: seq<byte>)
    requires Encodable(tx) && tx.memo.Some? && tx.memo.value.version == 2 && memo == EncodeMemo(tx.memo)
    requires At(EncodeTail(tx), k, memo)
    ensures k + 2 <= |EncodeTail(tx)| && FromBE(EncodeTail(tx)[k..k + 2]) == |tx.memo.value.data|
    ensures At(EncodeTail(tx), k + 2, tx.memo.value.data)
  {
    FieldFits();
    var data := tx.memo.value.data;
    BigEndianRoundTrip(|data|, 2);
    AtStart(ToBE(|data|, 2), data);
    AtWithin(EncodeTail(tx), k, memo, 0, ToBE(|data|, 2));
    AtStart(data, []);
    AtBehind(ToBE(|data|, 2), data, 0, data);
    AtWithin(EncodeTail(tx), k, memo, 2, data);
  }
}
