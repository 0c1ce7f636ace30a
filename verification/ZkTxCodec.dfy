/** The binary format of a transaction: packages/transaction/src/zk-tx.ts, printer and parser as functions. */
module ZkTxCodec {
  import opened Options
  import opened Sequences
  import opened Bytes
  import opened TxSize

  datatype ZkInflow = ZkInflow(nullifier: Fp, root: Fp)
  datatype PublicData = PublicData(to: Fp, eth: Fp, tokenAddr: Fp, erc20Amount: Fp, nft: Fp, fee: Fp)
  datatype ZkOutflow = ZkOutflow(note: Fp, outflowType: Fp, data: Option<PublicData>)
  datatype SNARK = SNARK(a0: Fp, a1: Fp, b00: Fp, b01: Fp, b10: Fp, b11: Fp, c0: Fp, c1: Fp)
  datatype Memo = Memo(version: nat, data: seq<byte>)
  datatype ZkTx = ZkTx(inflow: seq<ZkInflow>, outflow: seq<ZkOutflow>, fee: Fp, proof: Option<SNARK>, swap: Option<Fp>,
                       memo: Option<Memo>)

  // ----- printing

  function EncodeFp(x: Fp): (s: seq<byte>)
    ensures |s| == 32
  {
    FieldFits();
    ToBE(x, 32)
  }

  function EncodeAddress(x: Fp): (s: seq<byte>)
    requires x < ADDRESS_LIMIT
    ensures |s| == 20
  {
    AddressFits();
    ToBE(x, 20)
  }

  /** Numbers printed into fewer than 32 bytes must fit, or the printer throws. */
  predicate DataFits(data: PublicData) {
    data.to < ADDRESS_LIMIT && data.tokenAddr < ADDRESS_LIMIT
  }

  predicate OutflowFits(o: ZkOutflow) {
    o.outflowType < 256 && (o.data.Some? ==> DataFits(o.data.value))
  }

  predicate Encodable(tx: ZkTx) {
    && tx.proof.Some?
    && (forall i :: 0 <= i < |tx.outflow| ==> OutflowFits(tx.outflow[i]))
    && (tx.memo.Some? && tx.memo.value.version == 2 ==> |tx.memo.value.data| < 0x1_0000)
  }

  function EncodeInflow(i: ZkInflow): (s: seq<byte>)
    ensures |s| == 64
  {
    EncodeFp(i.root) + EncodeFp(i.nullifier)
  }

  function EncodeData(d: PublicData): (s: seq<byte>)
    requires DataFits(d)
    ensures |s| == 168
  {
    EncodeAddress(d.to) + (EncodeFp(d.eth) + (EncodeAddress(d.tokenAddr) + (EncodeFp(d.erc20Amount)
    + (EncodeFp(d.nft) + EncodeFp(d.fee)))))
  }

  function EncodeOutflow(o: ZkOutflow): (s: seq<byte>)
    requires OutflowFits(o)
    ensures |s| == 33 + (if o.data.Some? then 168 else 0)
  {
    EncodeFp(o.note) + ([o.outflowType as byte] + (if o.data.Some? then EncodeData(o.data.value) else []))
  }

  function EncodeInflows(s: seq<ZkInflow>): (r: seq<byte>)
    ensures |r| == 64 * |s|
  {
    if s == [] then [] else EncodeInflow(s[0]) + EncodeInflows(s[1..])
  }

  function CrossLayer(s: seq<ZkOutflow>): nat {
    if s == [] then 0 else (if s[0].data.Some? then 1 else 0) + CrossLayer(s[1..])
  }

  function EncodeOutflows(s: seq<ZkOutflow>): (r: seq<byte>)
    requires forall i :: 0 <= i < |s| ==> OutflowFits(s[i])
    ensures |r| == 33 * |s| + 168 * CrossLayer(s)
  {
    if s == [] then [] else EncodeOutflow(s[0]) + EncodeOutflows(s[1..])
  }

  /** The points of the second group are printed with reversed coordinates. */
  function EncodeProof(p: SNARK): (s: seq<byte>)
    ensures |s| == 256
  {
    EncodeFp(p.a0) + (EncodeFp(p.a1) + (EncodeFp(p.b01) + (EncodeFp(p.b00) + (EncodeFp(p.b11) + (EncodeFp(p.b10)
    + (EncodeFp(p.c0) + EncodeFp(p.c1)))))))
  }

  function Switch(tx: ZkTx): byte {
    (if tx.swap.Some? then 1 else 0)
    + (if tx.memo.Some? && tx.memo.value.version == 1 then 2
       else if tx.memo.Some? && tx.memo.value.version == 2 then 4 else 0)
  }

  function EncodeMemo(memo: Option<Memo>): seq<byte>
    requires memo.Some? && memo.value.version == 2 ==> |memo.value.data| < 0x1_0000
  {
    if memo.None? then []
    else if memo.value.version == 1 then memo.value.data
    else if memo.value.version == 2 then FieldFits(); ToBE(|memo.value.data|, 2) + memo.value.data
    else []
  }

  function EncodeTail(tx: ZkTx): seq<byte>
    requires Encodable(tx)
  {
    [Switch(tx)] + ((if tx.swap.Some? then EncodeFp(tx.swap.value) else []) + EncodeMemo(tx.memo))
  }

  /** A list behind its count, which is stored in one byte and silently reduced. */
  function EncodeInflowList(s: seq<ZkInflow>): (r: seq<byte>)
    ensures |r| == 1 + 64 * |s|
  {
    [(|s| % 256) as byte] + EncodeInflows(s)
  }

  function EncodeOutflowList(s: seq<ZkOutflow>): (r: seq<byte>)
    requires forall i :: 0 <= i < |s| ==> OutflowFits(s[i])
    ensures |r| == 1 + 33 * |s| + 168 * CrossLayer(s)
  {
    [(|s| % 256) as byte] + EncodeOutflows(s)
  }

  /** `encode()` */
  function Encode(tx: ZkTx): seq<byte>
    requires Encodable(tx)
  {
    EncodeInflowList(tx.inflow) + (EncodeOutflowList(tx.outflow)
    + (EncodeFp(tx.fee) + (EncodeProof(tx.proof.value) + EncodeTail(tx))))
  }

  // ----- parsing, from the bytes not yet read

  datatype Parsed<T> = Parsed(value: T, rest: seq<byte>)

  function ReadFp(s: seq<byte>, n: nat): Parsed<Fp> {
    Parsed(ToFp(Take(s, n)), Drop(s, n))
  }

  /** A single byte; reading past the end gives nothing, which counts as zero. */
  function ReadByte(s: seq<byte>): Parsed<byte> {
    Parsed(if s == [] then 0 else s[0], Drop(s, 1))
  }

  function ReadInflow(s: seq<byte>): Parsed<ZkInflow> {
    var root := ReadFp(s, 32);
    var nullifier := ReadFp(root.rest, 32);
    Parsed(ZkInflow(nullifier.value, root.value), nullifier.rest)
  }

  /** n entries, one after another. */
  function ReadMany<T>(read: seq<byte> -> Parsed<T>, s: seq<byte>, n: nat): Parsed<seq<T>>
    decreases n
  {
    if n == 0 then Parsed([], s)
    else
      var first := read(s);
      var others := ReadMany(read, first.rest, n - 1);
      Parsed([first.value] + others.value, others.rest)
  }

  /** A list behind its count. */
  function ReadList<T>(read: seq<byte> -> Parsed<T>, s: seq<byte>): Parsed<seq<T>> {
    var count := ReadByte(s);
    ReadMany(read, count.rest, count.value)
  }

  function ReadData(s: seq<byte>): Parsed<PublicData> {
    var to := ReadFp(s, 20);
    var eth := ReadFp(to.rest, 32);
    var tokenAddr := ReadFp(eth.rest, 20);
    var erc20Amount := ReadFp(tokenAddr.rest, 32);
    var nft := ReadFp(erc20Amount.rest, 32);
    var fee := ReadFp(nft.rest, 32);
    Parsed(PublicData(to.value, eth.value, tokenAddr.value, erc20Amount.value, nft.value, fee.value), fee.rest)
  }

  function ReadOutflow(s: seq<byte>): Parsed<ZkOutflow> {
    var note := ReadFp(s, 32);
    var outflowType := ReadByte(note.rest);
    if outflowType.value != 0 then
      var data := ReadData(outflowType.rest);
      Parsed(ZkOutflow(note.value, outflowType.value, Some(data.value)), data.rest)
    else Parsed(ZkOutflow(note.value, outflowType.value, None), outflowType.rest)
  }

  function ReadProof(s: seq<byte>): Parsed<SNARK> {
    var a0 := ReadFp(s, 32);
    var a1 := ReadFp(a0.rest, 32);
    var b01 := ReadFp(a1.rest, 32);
    var b00 := ReadFp(b01.rest, 32);
    var b11 := ReadFp(b00.rest, 32);
    var b10 := ReadFp(b11.rest, 32);
    var c0 := ReadFp(b10.rest, 32);
    var c1 := ReadFp(c0.rest, 32);
    Parsed(SNARK(a0.value, a1.value, b00.value, b01.value, b10.value, b11.value, c0.value, c1.value), c1.rest)
  }

  function ReadSwap(switch: byte, s: seq<byte>): Parsed<Option<Fp>> {
    if switch % 2 == 1 then
      var swap := ReadFp(s, 32);
      Parsed(Some(swap.value), swap.rest)
    else Parsed(None, s)
  }

  function ReadMemo(switch: byte, s: seq<byte>): Option<Memo> {
    if switch / 2 % 2 == 1 then Some(Memo(1, Take(s, 81)))
    else if switch / 4 % 2 == 1 then Some(Memo(2, Take(Drop(s, 2), FromBE(Take(s, 2)))))
    else None
  }

  datatype Tail = Tail(swap: Option<Fp>, memo: Option<Memo>)

  function ReadTail(s: seq<byte>): Tail {
    var switch := ReadByte(s);
    var swap := ReadSwap(switch.value, switch.rest);
    Tail(swap.value, ReadMemo(switch.value, swap.rest))
  }

  /** `decode()`, which accepts any buffer. */
  function Decode(s: seq<byte>): ZkTx {
    var inflow := ReadList(ReadInflow, s);
    var outflow := ReadList(ReadOutflow, inflow.rest);
    var fee := ReadFp(outflow.rest, 32);
    var proof := ReadProof(fee.rest);
    var tail := ReadTail(proof.rest);
    ZkTx(inflow.value, outflow.value, fee.value, Some(proof.value), tail.swap, tail.memo)
  }

  // ----- round trip

  lemma ReadFpFront(x: Fp, n: nat, rest: seq<byte>)
    requires x < Pow256(n)
    ensures ReadFp(ToBE(x, n) + rest, n) == Parsed(x, rest)
  {
    var digits := ToBE(x, n);
    TakeFront(digits, rest);
    BackToField(x, n);
  }

  lemma BackToField(x: Fp, n: nat)
    requires x < Pow256(n)
    ensures ToFp(ToBE(x, n)) == x
  {
    BigEndianRoundTrip(x, n);
    Reduced(x);
  }

  lemma Reduced(x: Fp)
    ensures x % ORDER == x
  {}

  lemma ReadField(x: Fp, rest: seq<byte>)
    ensures ReadFp(EncodeFp(x) + rest, 32) == Parsed(x, rest)
  {
    FieldFits();
    ReadFpFront(x, 32, rest);
  }

  lemma ReadAddress(x: Fp, rest: seq<byte>)
    requires x < ADDRESS_LIMIT
    ensures ReadFp(EncodeAddress(x) + rest, 20) == Parsed(x, rest)
  {
    AddressFits();
    ReadFpFront(x, 20, rest);
  }

  lemma ByteFront(b: byte, rest: seq<byte>)
    ensures ReadByte([b] + rest) == Parsed(b, rest)
  {
    TakeFront([b], rest);
  }

  lemma InflowFront(i: ZkInflow, rest: seq<byte>)
    ensures ReadInflow(EncodeInflow(i) + rest) == Parsed(i, rest)
  {
    ConcatAssociative(EncodeFp(i.root), EncodeFp(i.nullifier), rest);
    ReadField(i.root, EncodeFp(i.nullifier) + rest);
    ReadField(i.nullifier, rest);
  }

  lemma {:induction false} InflowsFront(s: seq<ZkInflow>, rest: seq<byte>)
    ensures ReadMany(ReadInflow, EncodeInflows(s) + rest, |s|) == Parsed(s, rest)
  {
    if s == [] {
      assert [] + rest == rest;
    } else {
      ConcatAssociative(EncodeInflow(s[0]), EncodeInflows(s[1..]), rest);
      InflowFront(s[0], EncodeInflows(s[1..]) + rest);
      InflowsFront(s[1..], rest);
      assert [s[0]] + s[1..] == s;
    }
  }

  lemma DataFront(d: PublicData, rest: seq<byte>)
    requires DataFits(d)
    ensures ReadData(EncodeData(d) + rest) == Parsed(d, rest)
  {
    var s6 := EncodeFp(d.fee);
    var s5 := EncodeFp(d.nft) + s6;
    var s4 := EncodeFp(d.erc20Amount) + s5;
    var s3 := EncodeAddress(d.tokenAddr) + s4;
    var s2 := EncodeFp(d.eth) + s3;
    ConcatAssociative(EncodeAddress(d.to), s2, rest);
    ConcatAssociative(EncodeFp(d.eth), s3, rest);
    ConcatAssociative(EncodeAddress(d.tokenAddr), s4, rest);
    ConcatAssociative(EncodeFp(d.erc20Amount), s5, rest);
    ConcatAssociative(EncodeFp(d.nft), s6, rest);
    ReadAddress(d.to, s2 + rest);
    ReadField(d.eth, s3 + rest);
    ReadAddress(d.tokenAddr, s4 + rest);
    ReadField(d.erc20Amount, s5 + rest);
    ReadField(d.nft, s6 + rest);
    ReadField(d.fee, rest);
  }

  predicate Typed(o: ZkOutflow) {
    o.data.Some? <==> o.outflowType != 0
  }

  lemma OutflowFront(o: ZkOutflow, rest: seq<byte>)
    requires OutflowFits(o) && Typed(o)
    ensures ReadOutflow(EncodeOutflow(o) + rest) == Parsed(o, rest)
  {
    var tag := [o.outflowType as byte];
    var data := if o.data.Some? then EncodeData(o.data.value) else [];
    ConcatAssociative(EncodeFp(o.note), tag + data, rest);
    ConcatAssociative(tag, data, rest);
    ReadField(o.note, tag + (data + rest));
    TakeFront(tag, data + rest);
    if o.data.Some? { DataFront(o.data.value, rest); } else { assert [] + rest == rest; }
  }

  lemma {:induction false} OutflowsFront(s: seq<ZkOutflow>, rest: seq<byte>)
    requires forall i :: 0 <= i < |s| ==> OutflowFits(s[i]) && Typed(s[i])
    ensures ReadMany(ReadOutflow, EncodeOutflows(s) + rest, |s|) == Parsed(s, rest)
  {
    if s == [] {
      assert [] + rest == rest;
    } else {
      ConcatAssociative(EncodeOutflow(s[0]), EncodeOutflows(s[1..]), rest);
      OutflowFront(s[0], EncodeOutflows(s[1..]) + rest);
      OutflowsFront(s[1..], rest);
      assert [s[0]] + s[1..] == s;
    }
  }

  lemma ProofFront(p: SNARK, rest: seq<byte>)
    ensures ReadProof(EncodeProof(p) + rest) == Parsed(p, rest)
  {
    var s8 := EncodeFp(p.c1);
    var s7 := EncodeFp(p.c0) + s8;
    var s6 := EncodeFp(p.b10) + s7;
    var s5 := EncodeFp(p.b11) + s6;
    var s4 := EncodeFp(p.b00) + s5;
    var s3 := EncodeFp(p.b01) + s4;
    var s2 := EncodeFp(p.a1) + s3;
    ConcatAssociative(EncodeFp(p.a0), s2, rest);
    ConcatAssociative(EncodeFp(p.a1), s3, rest);
    ConcatAssociative(EncodeFp(p.b01), s4, rest);
    ConcatAssociative(EncodeFp(p.b00), s5, rest);
    ConcatAssociative(EncodeFp(p.b11), s6, rest);
    ConcatAssociative(EncodeFp(p.b10), s7, rest);
    ConcatAssociative(EncodeFp(p.c0), s8, rest);
    ReadField(p.a0, s2 + rest);
    ReadField(p.a1, s3 + rest);
    ReadField(p.b01, s4 + rest);
    ReadField(p.b00, s5 + rest);
    ReadField(p.b11, s6 + rest);
    ReadField(p.b10, s7 + rest);
    ReadField(p.c0, s8 + rest);
    ReadField(p.c1, rest);
  }

  /** What the format can carry: one-byte counts, data exactly on typed outflows, a version-one memo of at most 81
      bytes. */
  predicate Canonical(tx: ZkTx) {
    && |tx.inflow| < 256 && |tx.outflow| < 256
    && (forall i :: 0 <= i < |tx.outflow| ==> Typed(tx.outflow[i]))
    && (tx.memo.Some? ==> tx.memo.value.version == 2 || (tx.memo.value.version == 1 && |tx.memo.value.data| <= 81))
  }

  lemma MemoFront(memo: Memo)
    requires memo.version == 2 && |memo.data| < 0x1_0000
    ensures var s := EncodeMemo(Some(memo));
      Take(Drop(s, 2), FromBE(Take(s, 2))) == memo.data
  {
    FieldFits();
    var n := |memo.data|;
    TakeFront(ToBE(n, 2), memo.data);
    BigEndianRoundTrip(n, 2);
    assert Take(memo.data, n) == memo.data;
  }

  lemma SwitchBits(tx: ZkTx)
    requires Canonical(tx)
    ensures Switch(tx) % 2 == 1 <==> tx.swap.Some?
    ensures Switch(tx) / 2 % 2 == 1 <==> tx.memo.Some? && tx.memo.value.version == 1
    ensures Switch(tx) / 4 % 2 == 1 <==> tx.memo.Some? && tx.memo.value.version == 2
  {}

  lemma MemoRead(tx: ZkTx)
    requires Encodable(tx) && Canonical(tx)
    ensures ReadMemo(Switch(tx), EncodeMemo(tx.memo)) == tx.memo
  {
    SwitchBits(tx);
    if tx.memo.Some? {
      if tx.memo.value.version == 2 {
        MemoFront(tx.memo.value);
      } else {
        assert Take(tx.memo.value.data, 81) == tx.memo.value.data;
      }
    }
  }

  lemma SwapFront(tx: ZkTx, rest: seq<byte>)
    requires Canonical(tx)
    ensures ReadSwap(Switch(tx), (if tx.swap.Some? then EncodeFp(tx.swap.value) else []) + rest)
         == Parsed(tx.swap, rest)
  {
    SwitchBits(tx);
    if tx.swap.Some? { ReadField(tx.swap.value, rest); } else { assert [] + rest == rest; }
  }

  lemma TailFront(tx: ZkTx)
    requires Encodable(tx) && Canonical(tx)
    ensures ReadTail(EncodeTail(tx)) == Tail(tx.swap, tx.memo)
  {
    var swap := if tx.swap.Some? then EncodeFp(tx.swap.value) else [];
    ByteFront(Switch(tx), swap + EncodeMemo(tx.memo));
    SwapFront(tx, EncodeMemo(tx.memo));
    MemoRead(tx);
  }

  lemma ListFront<T>(read: seq<byte> -> Parsed<T>, values: seq<T>, body: seq<byte>, rest: seq<byte>)
    requires |values| < 256 && ReadMany(read, body + rest, |values|) == Parsed(values, rest)
    ensures ReadList(read, ([(|values| % 256) as byte] + body) + rest) == Parsed(values, rest)
  {
    var count: byte := (|values| % 256) as byte;
    ConcatAssociative([count], body, rest);
    ByteFront(count, body + rest);
  }

  /** decode(encode(tx)) gives back every field. */
  lemma RoundTrip(tx: ZkTx)
    requires Encodable(tx) && Canonical(tx)
    ensures Decode(Encode(tx)) == tx
  {
    var s3 := EncodeProof(tx.proof.value) + EncodeTail(tx);
    var s2 := EncodeFp(tx.fee) + s3;
    var s1 := EncodeOutflowList(tx.outflow) + s2;
    InflowsFront(tx.inflow, s1);
    ListFront(ReadInflow, tx.inflow, EncodeInflows(tx.inflow), s1);
    OutflowsFront(tx.outflow, s2);
    ListFront(ReadOutflow, tx.outflow, EncodeOutflows(tx.outflow), s2);
    ReadField(tx.fee, s3);
    ProofFront(tx.proof.value, EncodeTail(tx));
    TailFront(tx);
  }

  /** One entry more. */
  lemma ReadManySnoc<T>(read: seq<byte> -> Parsed<T>, s: seq<byte>, n: nat)
    decreases n
    ensures var before := ReadMany(read, s, n);
      var last := read(before.rest);
      ReadMany(read, s, n + 1) == Parsed(before.value + [last.value], last.rest)
  {
    var first := read(s);
    if n == 0 {
      assert ReadMany(read, first.rest, 0) == Parsed([], first.rest);
      assert [first.value] + [] == [] + [first.value];
    } else {
      ReadManySnoc(read, first.rest, n - 1);
      var before := ReadMany(read, first.rest, n - 1);
      var last := read(before.rest);
      assert [first.value] + (before.value + [last.value]) == [first.value] + before.value + [last.value];
    }
  }

  lemma {:induction false} ReadManyLength<T>(read: seq<byte> -> Parsed<T>, s: seq<byte>, n: nat)
    ensures |ReadMany(read, s, n).value| == n
    decreases n
  {
    if n > 0 { ReadManyLength(read, read(s).rest, n - 1); }
  }

  lemma {:induction false} ReadManyTyped(s: seq<byte>, n: nat)
    ensures forall o :: o in ReadMany(ReadOutflow, s, n).value ==> Typed(o)
    decreases n
  {
    if n > 0 { ReadManyTyped(ReadOutflow(s).rest, n - 1); }
  }

  lemma ReadMemoShape(switch: byte, s: seq<byte>)
    ensures var memo := ReadMemo(switch, s);
      memo.Some? ==> memo.value.version == 2 || (memo.value.version == 1 && |memo.value.data| <= 81)
  {}

  /** Whatever the buffer, the parser answers within the format. */
  lemma DecodedIsCanonical(s: seq<byte>)
    ensures Canonical(Decode(s)) && Decode(s).proof.Some?
  {
    var nIn := ReadByte(s);
    ReadManyLength(ReadInflow, nIn.rest, nIn.value);
    var after := ReadList(ReadInflow, s).rest;
    var nOut := ReadByte(after);
    ReadManyLength(ReadOutflow, nOut.rest, nOut.value);
    ReadManyTyped(nOut.rest, nOut.value);
    var switch := ReadByte(ReadProof(ReadFp(ReadList(ReadOutflow, after).rest, 32).rest).rest);
    ReadMemoShape(switch.value, ReadSwap(switch.value, switch.rest).rest);
  }

  /** The format carries exactly the canonical transactions. */
  lemma RoundTripIff(tx: ZkTx)
    requires Encodable(tx)
    ensures Decode(Encode(tx)) == tx <==> Canonical(tx)
  {
    DecodedIsCanonical(Encode(tx));
    if Canonical(tx) { RoundTrip(tx); }
  }

  /** With a version-one memo of full length, or without memo, the encoded length is the estimate plus the 32 bytes of
      the fee, which it leaves out. */
  lemma EncodedSize(tx: ZkTx)
    requires Encodable(tx)
    requires tx.memo.Some? ==> tx.memo.value.version == 1 && |tx.memo.value.data| == 81
    ensures |Encode(tx)|
         == TxSizeCalculator(|tx.inflow|, |tx.outflow|, CrossLayer(tx.outflow), tx.swap.Some?, tx.memo.None?) + 32
  {}
}
