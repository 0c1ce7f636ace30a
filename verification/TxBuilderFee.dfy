/** What a built transaction pays for: the bytes of its own encoding. */
module TxBuilderFee {
  import opened Options
  import opened Sequences
  import opened NoteSum
  import opened TxSize
  import opened TxBuilderSpec
  import opened TxBuilders
  import Z = ZkTxCodec

  lemma {:induction false} FilterNothingMore<A>(keep: A -> bool, a: seq<A>, b: seq<A>, n: nat)
    requires n <= |b| && forall x :: x in b ==> !keep(x)
    ensures FilterTo(keep, a + b, |a| + n) == Filter(keep, a)
  {
    if n == 0 { FilterPrefix(keep, a, b, |a|); } else { FilterNothingMore(keep, a, b, n - 1); }
  }

  lemma {:induction false} FilterFirst<A>(keep: A -> bool, x: A, s: seq<A>, n: nat)
    requires n <= |s|
    ensures FilterTo(keep, [x] + s, n + 1) == (if keep(x) then [x] else []) + FilterTo(keep, s, n)
  {
    if n == 0 {
      assert FilterTo(keep, [x] + s, 1) == FilterTo(keep, [x] + s, 0) + (if keep(x) then [x] else []);
    } else {
      FilterFirst(keep, x, s, n - 1);
      assert ([x] + s)[n] == s[n - 1];
      ConcatAssociative(if keep(x) then [x] else [], FilterTo(keep, s, n - 1),
                        if keep(s[n - 1]) then [s[n - 1]] else []);
    }
  }

  /** The encoding has public data exactly for the notes that leave the second layer. */
  ghost predicate SameExits(outflow: seq<Z.ZkOutflow>, notes: seq<Note>) {
    |outflow| == |notes| && forall i :: 0 <= i < |notes| ==> (outflow[i].data.Some? <==> !notes[i].outflowType.UTXO?)
  }

  lemma {:induction false} SameCrossLayer(outflow: seq<Z.ZkOutflow>, notes: seq<Note>)
    requires SameExits(outflow, notes)
    ensures Z.CrossLayer(outflow) == CrossLayer(notes)
    decreases |notes|
  {
    if notes != [] {
      var first, rest := notes[0], notes[1..];
      assert notes == [first] + rest;
      SameCrossLayer(outflow[1..], rest);
      FilterFirst((n: Note) => !n.outflowType.UTXO?, first, rest, |rest|);
    }
  }

  /** The encoded transaction z has the shape of the transaction built, and a version-one memo. */
  ghost predicate Encodes(z: Z.ZkTx, tx: RawTx) {
    && Z.Encodable(z)
    && |z.inflow| == |tx.inflow| && SameExits(z.outflow, tx.outflow) && (z.swap.Some? <==> tx.swap.Some?)
    && z.memo.Some? && z.memo.value.version == 1 && |z.memo.value.data| == 81
  }

  lemma ExitsAreSent(tx: RawTx, sendings: seq<Note>, owner: nat)
    requires SendsAndReturns(tx, sendings, owner)
    ensures CrossLayer(tx.outflow) == CrossLayer(sendings)
  {
    var changes := tx.outflow[|sendings|..];
    assert tx.outflow == sendings + changes;
    FilterNothingMore((n: Note) => !n.outflowType.UTXO?, sendings, changes, |changes|);
  }

  lemma EncodedLength(z: Z.ZkTx, tx: RawTx)
    requires Encodes(z, tx)
    ensures |Z.Encode(z)|
         == TxSizeCalculator(|tx.inflow|, |tx.outflow|, CrossLayer(tx.outflow), tx.swap.Some?, false) + 32
  {
    SameCrossLayer(z.outflow, tx.outflow);
    Z.EncodedSize(z);
  }

  lemma PerByte(price: nat, size: nat, more: nat)
    ensures price * (size + more) == price * size + price * more
  {}

  /** The fee is the price of every byte of the encoding, short of the 32 bytes of the fee itself, which the estimate
      leaves out. */
  lemma FeePaysForSize(tx: RawTx, provided: seq<Note>, sendings: seq<Note>, owner: nat, feePerByte: nat,
                       swap: Option<nat>, z: Z.ZkTx)
    requires Balanced(tx, provided, sendings, owner, feePerByte, swap) && SendsAndReturns(tx, sendings, owner)
    requires Encodes(z, tx)
    ensures tx.fee + feePerByte * 32 == feePerByte * |Z.Encode(z)|
  {
    ExitsAreSent(tx, sendings, owner);
    EncodedLength(z, tx);
    PerByte(feePerByte, TxSizeCalculator(|tx.inflow|, |tx.outflow|, CrossLayer(sendings), swap.Some?, false), 32);
  }
}
