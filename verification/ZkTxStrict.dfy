/** Which buffers the parser reads without losing anything: exactly those that print back to themselves. */
module ZkTxStrict {
  import opened Sequences
  import opened Bytes
  import opened ZkTxCodec
  import opened ZkTxLength

  // ----- fields

  /** n bytes are there and stand for a field element, so the reduction changes nothing. */
  predicate FieldOk(s: seq<byte>, n: nat) {
    n <= |s| && FromBE(s[..n]) < ORDER
  }

  lemma FieldBack(s: seq<byte>, n: nat)
    requires FieldOk(s, n)
    ensures ReadFp(s, n).value < Pow256(n) && ToBE(ReadFp(s, n).value, n) + ReadFp(s, n).rest == s
  {
    BigEndianExact(s[..n]);
    Reduced(FromBE(s[..n]));
    assert s[..n] + s[n..] == s;
  }

  lemma FieldBack32(s: seq<byte>)
    requires FieldOk(s, 32)
    ensures EncodeFp(ReadFp(s, 32).value) + ReadFp(s, 32).rest == s
  {
    FieldBack(s, 32);
  }

  lemma FieldBack20(s: seq<byte>)
    requires FieldOk(s, 20)
    ensures ReadFp(s, 20).value < ADDRESS_LIMIT && EncodeAddress(ReadFp(s, 20).value) + ReadFp(s, 20).rest == s
  {
    AddressFits();
    FieldBack(s, 20);
  }

  lemma FieldPrinted(x: Fp, n: nat, rest: seq<byte>)
    requires x < Pow256(n)
    ensures FieldOk(ToBE(x, n) + rest, n)
  {
    assert (ToBE(x, n) + rest)[..n] == ToBE(x, n);
    BigEndianRoundTrip(x, n);
  }

  lemma FieldPrinted32(x: Fp, rest: seq<byte>)
    ensures FieldOk(EncodeFp(x) + rest, 32) && ReadFp(EncodeFp(x) + rest, 32).rest == rest
  {
    FieldFits();
    FieldPrinted(x, 32, rest);
    ReadField(x, rest);
  }

  lemma FieldPrinted20(x: Fp, rest: seq<byte>)
    requires x < ADDRESS_LIMIT
    ensures FieldOk(EncodeAddress(x) + rest, 20) && ReadFp(EncodeAddress(x) + rest, 20).rest == rest
  {
    AddressFits();
    FieldPrinted(x, 20, rest);
    ReadAddress(x, rest);
  }

  // ----- inflows

  predicate InflowOk(s: seq<byte>) {
    FieldOk(s, 32) && FieldOk(ReadFp(s, 32).rest, 32)
  }

  lemma InflowBack(s: seq<byte>)
    requires InflowOk(s)
    ensures EncodeInflow(ReadInflow(s).value) + ReadInflow(s).rest == s
  {
    var root := ReadFp(s, 32);
    var nullifier := ReadFp(root.rest, 32);
    FieldBack32(s);
    FieldBack32(root.rest);
    ConcatAssociative(EncodeFp(root.value), EncodeFp(nullifier.value), nullifier.rest);
  }

  lemma InflowPrinted(i: ZkInflow, rest: seq<byte>)
    ensures InflowOk(EncodeInflow(i) + rest)
  {
    ConcatAssociative(EncodeFp(i.root), EncodeFp(i.nullifier), rest);
    FieldPrinted32(i.root, EncodeFp(i.nullifier) + rest);
    FieldPrinted32(i.nullifier, rest);
  }

  // ----- lists

  predicate ManyOk<T>(ok: seq<byte> -> bool, read: seq<byte> -> Parsed<T>, s: seq<byte>, n: nat)
    decreases n
  {
    n == 0 || (ok(s) && ManyOk(ok, read, read(s).rest, n - 1))
  }

  /** The count is there, and as many entries. */
  predicate ListOk<T>(ok: seq<byte> -> bool, read: seq<byte> -> Parsed<T>, s: seq<byte>) {
    s != [] && ManyOk(ok, read, s[1..], s[0])
  }

  lemma {:induction false} InflowsBack(s: seq<byte>, n: nat)
    requires ManyOk(InflowOk, ReadInflow, s, n)
    ensures EncodeInflows(ReadMany(ReadInflow, s, n).value) + ReadMany(ReadInflow, s, n).rest == s
    decreases n
  {
    if n == 0 {
      assert [] + s == s;
    } else {
      var first := ReadInflow(s);
      var others := ReadMany(ReadInflow, first.rest, n - 1);
      InflowBack(s);
      InflowsBack(first.rest, n - 1);
      assert ([first.value] + others.value)[1..] == others.value;
      ConcatAssociative(EncodeInflow(first.value), EncodeInflows(others.value), others.rest);
    }
  }

  lemma {:induction false} InflowsPrinted(values: seq<ZkInflow>, rest: seq<byte>)
    ensures ManyOk(InflowOk, ReadInflow, EncodeInflows(values) + rest, |values|)
    decreases |values|
  {
    if values != [] {
      ConcatAssociative(EncodeInflow(values[0]), EncodeInflows(values[1..]), rest);
      InflowPrinted(values[0], EncodeInflows(values[1..]) + rest);
      InflowFront(values[0], EncodeInflows(values[1..]) + rest);
      InflowsPrinted(values[1..], rest);
    }
  }

  // ----- outflows

  predicate DataOk(s: seq<byte>) {
    FieldOk(s, 20) &&
    var to := ReadFp(s, 20);
    FieldOk(to.rest, 32) &&
    var eth := ReadFp(to.rest, 32);
    FieldOk(eth.rest, 20) &&
    var tokenAddr := ReadFp(eth.rest, 20);
    FieldOk(tokenAddr.rest, 32) &&
    var erc20Amount := ReadFp(tokenAddr.rest, 32);
    FieldOk(erc20Amount.rest, 32) &&
    var nft := ReadFp(erc20Amount.rest, 32);
    FieldOk(nft.rest, 32)
  }

  lemma DataBack(s: seq<byte>)
    requires DataOk(s)
    ensures DataFits(ReadData(s).value) && EncodeData(ReadData(s).value) + ReadData(s).rest == s
  {
    var to := ReadFp(s, 20);
    var eth := ReadFp(to.rest, 32);
    var tokenAddr := ReadFp(eth.rest, 20);
    var erc20Amount := ReadFp(tokenAddr.rest, 32);
    var nft := ReadFp(erc20Amount.rest, 32);
    var fee := ReadFp(nft.rest, 32);
    FieldBack20(s);
    FieldBack32(to.rest);
    FieldBack20(eth.rest);
    FieldBack32(tokenAddr.rest);
    FieldBack32(erc20Amount.rest);
    FieldBack32(nft.rest);
    var s6 := EncodeFp(fee.value);
    var s5 := EncodeFp(nft.value) + s6;
    var s4 := EncodeFp(erc20Amount.value) + s5;
    var s3 := EncodeAddress(tokenAddr.value) + s4;
    var s2 := EncodeFp(eth.value) + s3;
    ConcatAssociative(EncodeFp(nft.value), s6, fee.rest);
    ConcatAssociative(EncodeFp(erc20Amount.value), s5, fee.rest);
    ConcatAssociative(EncodeAddress(tokenAddr.value), s4, fee.rest);
    ConcatAssociative(EncodeFp(eth.value), s3, fee.rest);
    ConcatAssociative(EncodeAddress(to.value), s2, fee.rest);
  }

  lemma DataPrinted(d: PublicData, rest: seq<byte>)
    requires DataFits(d)
    ensures DataOk(EncodeData(d) + rest)
  {
    var s6 := EncodeFp(d.fee);
    var s5 := EncodeFp(d.nft) + s6;
    var s4 := EncodeFp(d.erc20Amount) + s5;
    var s3 := EncodeAddress(d.tokenAddr) + s4;
    var s2 := EncodeFp(d.eth) + s3;
    ConcatAssociative(EncodeAddress(d.to), s2, rest);
    ConcatAssociative(EncodeFp(d.eth), s3, rest);
    ConcatAssociative(EncodeAddress(d.tokenAddr), s4, rest);
    ConcatAssociative(EncodeFp(d.erc20Amount), s5, rest);
    ConcatAssociative(EncodeFp(d.nft), s6, rest);
    FieldPrinted20(d.to, s2 + rest);
    FieldPrinted32(d.eth, s3 + rest);
    FieldPrinted20(d.tokenAddr, s4 + rest);
    FieldPrinted32(d.erc20Amount, s5 + rest);
    FieldPrinted32(d.nft, s6 + rest);
    FieldPrinted32(d.fee, rest);
  }

  predicate OutflowOk(s: seq<byte>) {
    FieldOk(s, 32) &&
    var note := ReadFp(s, 32);
    note.rest != [] && (note.rest[0] != 0 ==> DataOk(note.rest[1..]))
  }

  lemma OutflowBack(s: seq<byte>)
    requires OutflowOk(s)
    ensures OutflowFits(ReadOutflow(s).value)
    ensures EncodeOutflow(ReadOutflow(s).value) + ReadOutflow(s).rest == s
  {
    var note := ReadFp(s, 32);
    FieldBack32(s);
    var tag, after := [note.rest[0]], note.rest[1..];
    assert tag + after == note.rest;
    if note.rest[0] != 0 {
      DataBack(after);
      var data := ReadData(after);
      ConcatAssociative(tag, EncodeData(data.value), data.rest);
      ConcatAssociative(EncodeFp(note.value), tag + EncodeData(data.value), data.rest);
    } else {
      assert tag + [] == tag;
      ConcatAssociative(EncodeFp(note.value), tag, after);
    }
  }

  lemma OutflowPrinted(o: ZkOutflow, rest: seq<byte>)
    requires OutflowFits(o) && Typed(o)
    ensures OutflowOk(EncodeOutflow(o) + rest)
  {
    var tag := [o.outflowType as byte];
    var data := if o.data.Some? then EncodeData(o.data.value) else [];
    ConcatAssociative(EncodeFp(o.note), tag + data, rest);
    ConcatAssociative(tag, data, rest);
    FieldPrinted32(o.note, tag + (data + rest));
    assert (tag + (data + rest))[1..] == data + rest;
    if o.data.Some? { DataPrinted(o.data.value, rest); }
  }

  lemma OutflowsCons(first: ZkOutflow, others: seq<ZkOutflow>, s: seq<byte>, between: seq<byte>, rest: seq<byte>)
    requires OutflowFits(first) && EncodeOutflow(first) + between == s
    requires AllFit(others) && EncodeOutflows(others) + rest == between
    ensures AllFit([first] + others) && EncodeOutflows([first] + others) + rest == s
  {
    assert ([first] + others)[1..] == others;
    ConcatAssociative(EncodeOutflow(first), EncodeOutflows(others), rest);
  }

  lemma ReadManyCons<T>(read: seq<byte> -> Parsed<T>, s: seq<byte>, n: nat)
    requires n > 0
    ensures var others := ReadMany(read, read(s).rest, n - 1);
      ReadMany(read, s, n) == Parsed([read(s).value] + others.value, others.rest)
  {}

  lemma {:induction false} OutflowsBack(s: seq<byte>, n: nat)
    requires ManyOk(OutflowOk, ReadOutflow, s, n)
    ensures AllFit(ReadMany(ReadOutflow, s, n).value)
    ensures EncodeOutflows(ReadMany(ReadOutflow, s, n).value) + ReadMany(ReadOutflow, s, n).rest == s
    decreases n
  {
    if n == 0 {
      assert [] + s == s;
    } else {
      OutflowBack(s);
      var first := ReadOutflow(s);
      OutflowsBack(first.rest, n - 1);
      var others := ReadMany(ReadOutflow, first.rest, n - 1);
      ReadManyCons(ReadOutflow, s, n);
      OutflowsCons(first.value, others.value, s, first.rest, others.rest);
    }
  }

  lemma {:induction false} OutflowsPrinted(values: seq<ZkOutflow>, rest: seq<byte>)
    requires AllFit(values) && forall i :: 0 <= i < |values| ==> Typed(values[i])
    ensures ManyOk(OutflowOk, ReadOutflow, EncodeOutflows(values) + rest, |values|)
    decreases |values|
  {
    if values != [] {
      ConcatAssociative(EncodeOutflow(values[0]), EncodeOutflows(values[1..]), rest);
      OutflowPrinted(values[0], EncodeOutflows(values[1..]) + rest);
      OutflowFront(values[0], EncodeOutflows(values[1..]) + rest);
      OutflowsPrinted(values[1..], rest);
    }
  }

  // ----- proof

  predicate ProofOk(s: seq<byte>) {
    FieldOk(s, 32) &&
    var a0 := ReadFp(s, 32);
    FieldOk(a0.rest, 32) &&
    var a1 := ReadFp(a0.rest, 32);
    FieldOk(a1.rest, 32) &&
    var b01 := ReadFp(a1.rest, 32);
    FieldOk(b01.rest, 32) &&
    var b00 := ReadFp(b01.rest, 32);
    FieldOk(b00.rest, 32) &&
    var b11 := ReadFp(b00.rest, 32);
    FieldOk(b11.rest, 32) &&
    var b10 := ReadFp(b11.rest, 32);
    FieldOk(b10.rest, 32) &&
    var c0 := ReadFp(b10.rest, 32);
    FieldOk(c0.rest, 32)
  }

  lemma ProofBack(s: seq<byte>)
    requires ProofOk(s)
    ensures EncodeProof(ReadProof(s).value) + ReadProof(s).rest == s
  {
    var a0 := ReadFp(s, 32);
    var a1 := ReadFp(a0.rest, 32);
    var b01 := ReadFp(a1.rest, 32);
    var b00 := ReadFp(b01.rest, 32);
    var b11 := ReadFp(b00.rest, 32);
    var b10 := ReadFp(b11.rest, 32);
    var c0 := ReadFp(b10.rest, 32);
    var c1 := ReadFp(c0.rest, 32);
    FieldBack32(s);
    FieldBack32(a0.rest);
    FieldBack32(a1.rest);
    FieldBack32(b01.rest);
    FieldBack32(b00.rest);
    FieldBack32(b11.rest);
    FieldBack32(b10.rest);
    FieldBack32(c0.rest);
    var s8 := EncodeFp(c1.value);
    var s7 := EncodeFp(c0.value) + s8;
    var s6 := EncodeFp(b10.value) + s7;
    var s5 := EncodeFp(b11.value) + s6;
    var s4 := EncodeFp(b00.value) + s5;
    var s3 := EncodeFp(b01.value) + s4;
    var s2 := EncodeFp(a1.value) + s3;
    ConcatAssociative(EncodeFp(c0.value), s8, c1.rest);
    ConcatAssociative(EncodeFp(b10.value), s7, c1.rest);
    ConcatAssociative(EncodeFp(b11.value), s6, c1.rest);
    ConcatAssociative(EncodeFp(b00.value), s5, c1.rest);
    ConcatAssociative(EncodeFp(b01.value), s4, c1.rest);
    ConcatAssociative(EncodeFp(a1.value), s3, c1.rest);
    ConcatAssociative(EncodeFp(a0.value), s2, c1.rest);
  }

  lemma ProofPrinted(p: SNARK, rest: seq<byte>)
    ensures ProofOk(EncodeProof(p) + rest)
  {
    var s8 := EncodeFp(p.c1);
    var s7 := EncodeFp(p.c0) + s8;
    var s6 := EncodeFp(p.b10) + s7;
    var s5 := EncodeFp(p.b11) + s6;
    var s4 := EncodeFp(p.b00) + s5;
    var s3 := EncodeFp(p.b01) + s4;
    var s2 := EncodeFp(p.a1) + s3;
    ConcatAssociative(EncodeFp(p.a0), s2, rest);
    ConcatAssociative(EncodeFp(p.a1), s3, rest);
    ConcatAssociative(EncodeFp(p.b01), s4, rest);
    ConcatAssociative(EncodeFp(p.b00), s5, rest);
    ConcatAssociative(EncodeFp(p.b11), s6, rest);
    ConcatAssociative(EncodeFp(p.b10), s7, rest);
    ConcatAssociative(EncodeFp(p.c0), s8, rest);
    FieldPrinted32(p.a0, s2 + rest);
    FieldPrinted32(p.a1, s3 + rest);
    FieldPrinted32(p.b01, s4 + rest);
    FieldPrinted32(p.b00, s5 + rest);
    FieldPrinted32(p.b11, s6 + rest);
    FieldPrinted32(p.b10, s7 + rest);
    FieldPrinted32(p.c0, s8 + rest);
    FieldPrinted32(p.c1, rest);
  }

  // ----- swap and memo

  /** The memo takes up the rest of the buffer: at most 81 bytes, or as many as its length says. */
  predicate MemoOk(switch: byte, s: seq<byte>) {
    if switch / 2 % 2 == 1 then |s| <= 81
    else if switch / 4 % 2 == 1 then |s| >= 2 && |s| == 2 + FromBE(s[..2])
    else s == []
  }

  /** Only the three lowest bits are used, and not both memo bits. */
  predicate TailOk(s: seq<byte>) {
    s != [] && s[0] < 6 && (s[0] % 2 == 1 ==> FieldOk(s[1..], 32)) && MemoOk(s[0], ReadSwap(s[0], s[1..]).rest)
  }

  lemma LengthBytes(s: seq<byte>)
    requires |s| >= 2
    ensures FromBE(s[..2]) < 0x1_0000 && ToBE(FromBE(s[..2]), 2) == s[..2]
  {
    FieldFits();
    BigEndianExact(s[..2]);
  }

  lemma MemoBack(switch: byte, s: seq<byte>)
    requires MemoOk(switch, s)
    ensures var memo := ReadMemo(switch, s);
      && (memo.Some? && memo.value.version == 2 ==> |memo.value.data| < 0x1_0000)
      && EncodeMemo(memo) == s
  {
    MemoLength(switch, s);
    if switch / 2 % 2 == 1 {
      assert Take(s, 81) == s;
    } else if switch / 4 % 2 == 1 {
      LengthBytes(s);
      assert s == s[..2] + s[2..];
      assert Take(s[2..], |s| - 2) == s[2..];
    }
  }

  lemma MemoPrinted(tx: ZkTx)
    requires Encodable(tx) && Canonical(tx)
    ensures MemoOk(Switch(tx), EncodeMemo(tx.memo))
  {
    SwitchBits(tx);
    if tx.memo.Some? && tx.memo.value.version == 2 {
      FieldFits();
      var n := |tx.memo.value.data|;
      BigEndianRoundTrip(n, 2);
      assert EncodeMemo(tx.memo)[..2] == ToBE(n, 2);
    }
  }

  /** What is left after reading everything else prints back to the last bytes. */
  lemma TailBack(s: seq<byte>, tx: ZkTx)
    requires TailOk(s) && Tail(tx.swap, tx.memo) == ReadTail(s)
    requires Encodable(tx)
    ensures EncodeTail(tx) == s
  {
    var after := s[1..];
    var swap := ReadSwap(s[0], after);
    MemoBack(s[0], swap.rest);
    assert [s[0]] + after == s;
    assert Switch(tx) == s[0];
    if s[0] % 2 == 1 { FieldBack32(after); } else { assert [] + after == after; }
  }

  lemma TailPrinted(tx: ZkTx)
    requires Encodable(tx) && Canonical(tx)
    ensures TailOk(EncodeTail(tx))
  {
    var swap := if tx.swap.Some? then EncodeFp(tx.swap.value) else [];
    var memo := EncodeMemo(tx.memo);
    assert EncodeTail(tx)[1..] == swap + memo;
    SwitchBits(tx);
    SwapFront(tx, memo);
    MemoPrinted(tx);
    if tx.swap.Some? { FieldPrinted32(tx.swap.value, memo); }
  }

  // ----- whole buffers

  /** Every count, field and memo is complete, every number is below the field order, and nothing follows. */
  predicate Strict(s: seq<byte>) {
    ListOk(InflowOk, ReadInflow, s) &&
    var inflow := ReadList(ReadInflow, s);
    ListOk(OutflowOk, ReadOutflow, inflow.rest) &&
    var outflow := ReadList(ReadOutflow, inflow.rest);
    FieldOk(outflow.rest, 32) &&
    var fee := ReadFp(outflow.rest, 32);
    ProofOk(fee.rest) && TailOk(ReadProof(fee.rest).rest)
  }

  lemma CountRead<T>(ok: seq<byte> -> bool, read: seq<byte> -> Parsed<T>, s: seq<byte>)
    requires ListOk(ok, read, s)
    ensures ReadList(read, s) == ReadMany(read, s[1..], s[0]) && |ReadList(read, s).value| == s[0]
    ensures ManyOk(ok, read, s[1..], s[0])
  {
    ReadManyLength(read, s[1..], s[0]);
  }

  lemma CountBack(s: seq<byte>, count: nat, body: seq<byte>, rest: seq<byte>)
    requires s != [] && count == s[0] && body + rest == s[1..]
    ensures ([(count % 256) as byte] + body) + rest == s
  {
    ConcatAssociative([s[0]], body, rest);
  }

  lemma InflowListBack(s: seq<byte>)
    requires ListOk(InflowOk, ReadInflow, s)
    ensures EncodeInflowList(ReadList(ReadInflow, s).value) + ReadList(ReadInflow, s).rest == s
  {
    CountRead(InflowOk, ReadInflow, s);
    InflowsBack(s[1..], s[0]);
    var list := ReadList(ReadInflow, s);
    CountBack(s, |list.value|, EncodeInflows(list.value), list.rest);
  }

  lemma OutflowListBack(s: seq<byte>)
    requires ListOk(OutflowOk, ReadOutflow, s)
    ensures AllFit(ReadList(ReadOutflow, s).value)
    ensures EncodeOutflowList(ReadList(ReadOutflow, s).value) + ReadList(ReadOutflow, s).rest == s
  {
    CountRead(OutflowOk, ReadOutflow, s);
    OutflowsBack(s[1..], s[0]);
    var list := ReadList(ReadOutflow, s);
    CountBack(s, |list.value|, EncodeOutflows(list.value), list.rest);
  }

  lemma ListPrinted<T>(ok: seq<byte> -> bool, read: seq<byte> -> Parsed<T>, values: seq<T>, body: seq<byte>,
                       rest: seq<byte>)
    requires |values| < 256 && ReadMany(read, body + rest, |values|) == Parsed(values, rest)
    requires ManyOk(ok, read, body + rest, |values|)
    ensures var s := ([(|values| % 256) as byte] + body) + rest;
      ListOk(ok, read, s) && ReadList(read, s).rest == rest
  {
    var count: byte := (|values| % 256) as byte;
    ConcatAssociative([count], body, rest);
    assert (([count] + body) + rest)[1..] == body + rest;
    ListFront(read, values, body, rest);
  }

  lemma InflowListPrinted(values: seq<ZkInflow>, rest: seq<byte>)
    requires |values| < 256
    ensures ListOk(InflowOk, ReadInflow, EncodeInflowList(values) + rest)
    ensures ReadList(ReadInflow, EncodeInflowList(values) + rest).rest == rest
  {
    InflowsPrinted(values, rest);
    InflowsFront(values, rest);
    ListPrinted(InflowOk, ReadInflow, values, EncodeInflows(values), rest);
  }

  lemma OutflowListPrinted(values: seq<ZkOutflow>, rest: seq<byte>)
    requires |values| < 256 && AllFit(values) && forall i :: 0 <= i < |values| ==> Typed(values[i])
    ensures ListOk(OutflowOk, ReadOutflow, EncodeOutflowList(values) + rest)
    ensures ReadList(ReadOutflow, EncodeOutflowList(values) + rest).rest == rest
  {
    OutflowsPrinted(values, rest);
    OutflowsFront(values, rest);
    ListPrinted(OutflowOk, ReadOutflow, values, EncodeOutflows(values), rest);
  }

  lemma StrictBack(s: seq<byte>)
    requires Strict(s)
    ensures Encodable(Decode(s)) && Encode(Decode(s)) == s
  {
    var inflow := ReadList(ReadInflow, s);
    var outflow := ReadList(ReadOutflow, inflow.rest);
    var fee := ReadFp(outflow.rest, 32);
    var proof := ReadProof(fee.rest);
    var switch := ReadByte(proof.rest);
    InflowListBack(s);
    OutflowListBack(inflow.rest);
    FieldBack32(outflow.rest);
    ProofBack(fee.rest);
    MemoLength(switch.value, ReadSwap(switch.value, switch.rest).rest);
    TailBack(proof.rest, Decode(s));
  }

  lemma PrintedStrict(tx: ZkTx)
    requires Encodable(tx) && Canonical(tx)
    ensures Strict(Encode(tx))
  {
    var s3 := EncodeProof(tx.proof.value) + EncodeTail(tx);
    var s2 := EncodeFp(tx.fee) + s3;
    var s1 := EncodeOutflowList(tx.outflow) + s2;
    InflowListPrinted(tx.inflow, s1);
    OutflowListPrinted(tx.outflow, s2);
    FieldPrinted32(tx.fee, s3);
    ProofPrinted(tx.proof.value, EncodeTail(tx));
    ProofFront(tx.proof.value, EncodeTail(tx));
    TailPrinted(tx);
  }

  /** A buffer survives decoding and encoding exactly when it is strict. */
  lemma ReencodeIff(s: seq<byte>)
    ensures Encodable(Decode(s))
    ensures Encode(Decode(s)) == s <==> Strict(s)
  {
    DecodedPrints(s);
    if Strict(s) { StrictBack(s); }
    if Encode(Decode(s)) == s {
      DecodedIsCanonical(s);
      PrintedStrict(Decode(s));
    }
  }
}
