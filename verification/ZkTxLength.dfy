/** The size a decoded transaction remembers, the length of its buffer, against the length it prints to. */
module ZkTxLength {
  import opened Bytes
  import opened ZkTxCodec

  /** Reading from s up to `rest` prints to n bytes: as many as were read, or more when the buffer ended early. */
  predicate Prints(n: nat, s: seq<byte>, rest: seq<byte>) {
    n + |rest| >= |s| && (rest != [] ==> n + |rest| == |s|)
  }

  lemma PrintsBoth(n: nat, s: seq<byte>, between: seq<byte>, m: nat, rest: seq<byte>)
    requires Prints(n, s, between) && Prints(m, between, rest)
    ensures Prints(n + m, s, rest)
  {}

  lemma FieldPrints(s: seq<byte>, n: nat)
    ensures Prints(n, s, ReadFp(s, n).rest)
  {}

  /** 20 bytes are always below the limit of an address, reduced or not. */
  lemma AddressPrints(s: seq<byte>)
    ensures ReadFp(s, 20).value < ADDRESS_LIMIT && Prints(20, s, ReadFp(s, 20).rest)
  {
    FieldPrints(s, 20);
    var digits := Take(s, 20);
    BigEndianExact(digits);
    AddressFits();
    Pow256Monotone(|digits|, 20);
  }

  lemma {:induction false} Pow256Monotone(a: nat, b: nat)
    requires a <= b
    ensures Pow256(a) <= Pow256(b)
  {
    if a < b { Pow256Monotone(a, b - 1); }
  }

  lemma InflowPrints(s: seq<byte>)
    ensures Prints(64, s, ReadInflow(s).rest)
  {
    var root := ReadFp(s, 32);
    FieldPrints(s, 32);
    FieldPrints(root.rest, 32);
    PrintsBoth(32, s, root.rest, 32, ReadInflow(s).rest);
  }

  lemma {:induction false} InflowsPrint(s: seq<byte>, n: nat)
    ensures |ReadMany(ReadInflow, s, n).value| == n && Prints(64 * n, s, ReadMany(ReadInflow, s, n).rest)
    decreases n
  {
    if n > 0 {
      var first := ReadInflow(s);
      InflowPrints(s);
      InflowsPrint(first.rest, n - 1);
      PrintsBoth(64, s, first.rest, 64 * (n - 1), ReadMany(ReadInflow, s, n).rest);
    }
  }

  lemma DataPrints(s: seq<byte>)
    ensures DataFits(ReadData(s).value) && Prints(168, s, ReadData(s).rest)
  {
    var to := ReadFp(s, 20);
    var eth := ReadFp(to.rest, 32);
    var tokenAddr := ReadFp(eth.rest, 20);
    var erc20Amount := ReadFp(tokenAddr.rest, 32);
    var nft := ReadFp(erc20Amount.rest, 32);
    AddressPrints(s);
    FieldPrints(to.rest, 32);
    PrintsBoth(20, s, to.rest, 32, eth.rest);
    AddressPrints(eth.rest);
    PrintsBoth(52, s, eth.rest, 20, tokenAddr.rest);
    FieldPrints(tokenAddr.rest, 32);
    PrintsBoth(72, s, tokenAddr.rest, 32, erc20Amount.rest);
    FieldPrints(erc20Amount.rest, 32);
    PrintsBoth(104, s, erc20Amount.rest, 32, nft.rest);
    FieldPrints(nft.rest, 32);
    PrintsBoth(136, s, nft.rest, 32, ReadData(s).rest);
  }

  lemma BytePrints(s: seq<byte>)
    ensures Prints(1, s, ReadByte(s).rest)
  {}

  lemma OutflowPrints(s: seq<byte>)
    ensures OutflowFits(ReadOutflow(s).value)
    ensures Prints(|EncodeOutflow(ReadOutflow(s).value)|, s, ReadOutflow(s).rest)
  {
    var note := ReadFp(s, 32);
    var outflowType := ReadByte(note.rest);
    FieldPrints(s, 32);
    BytePrints(note.rest);
    PrintsBoth(32, s, note.rest, 1, outflowType.rest);
    if outflowType.value != 0 {
      DataPrints(outflowType.rest);
      PrintsBoth(33, s, outflowType.rest, 168, ReadOutflow(s).rest);
    }
  }

  ghost predicate AllFit(values: seq<ZkOutflow>) {
    forall i :: 0 <= i < |values| ==> OutflowFits(values[i])
  }

  lemma {:induction false} OutflowsPrint(s: seq<byte>, n: nat)
    ensures var many := ReadMany(ReadOutflow, s, n);
      AllFit(many.value) && |many.value| == n && Prints(|EncodeOutflows(many.value)|, s, many.rest)
    decreases n
  {
    if n > 0 {
      var first := ReadOutflow(s);
      var others := ReadMany(ReadOutflow, first.rest, n - 1);
      OutflowPrints(s);
      OutflowsPrint(first.rest, n - 1);
      assert ([first.value] + others.value)[1..] == others.value;
      PrintsBoth(|EncodeOutflow(first.value)|, s, first.rest, |EncodeOutflows(others.value)|, others.rest);
    }
  }

  lemma ProofPrints(s: seq<byte>)
    ensures Prints(256, s, ReadProof(s).rest)
  {
    var a0 := ReadFp(s, 32);
    var a1 := ReadFp(a0.rest, 32);
    var b01 := ReadFp(a1.rest, 32);
    var b00 := ReadFp(b01.rest, 32);
    var b11 := ReadFp(b00.rest, 32);
    var b10 := ReadFp(b11.rest, 32);
    var c0 := ReadFp(b10.rest, 32);
    FieldPrints(s, 32);
    FieldPrints(a0.rest, 32);
    PrintsBoth(32, s, a0.rest, 32, a1.rest);
    FieldPrints(a1.rest, 32);
    PrintsBoth(64, s, a1.rest, 32, b01.rest);
    FieldPrints(b01.rest, 32);
    PrintsBoth(96, s, b01.rest, 32, b00.rest);
    FieldPrints(b00.rest, 32);
    PrintsBoth(128, s, b00.rest, 32, b11.rest);
    FieldPrints(b11.rest, 32);
    PrintsBoth(160, s, b11.rest, 32, b10.rest);
    FieldPrints(b10.rest, 32);
    PrintsBoth(192, s, b10.rest, 32, c0.rest);
    FieldPrints(c0.rest, 32);
    PrintsBoth(224, s, c0.rest, 32, ReadProof(s).rest);
  }

  // ----- the whole buffer

  /** What is left for swap and memo. */
  function TailOf(s: seq<byte>): seq<byte> {
    var inflow := ReadList(ReadInflow, s);
    var outflow := ReadList(ReadOutflow, inflow.rest);
    ReadProof(ReadFp(outflow.rest, 32).rest).rest
  }

  /** The switch byte is there, and the memo takes up exactly the rest: at most 81 bytes, or at most as many as its two
      length bytes say. */
  predicate MemoKept(switch: byte, s: seq<byte>) {
    if switch / 2 % 2 == 1 then |s| <= 81
    else if switch / 4 % 2 == 1 then 2 <= |s| <= 2 + FromBE(s[..2])
    else s == []
  }

  predicate TailKept(s: seq<byte>) {
    s != [] && (s[0] % 2 == 1 ==> |s| >= 33) && MemoKept(s[0], ReadSwap(s[0], s[1..]).rest)
  }

  lemma MemoLength(switch: byte, s: seq<byte>)
    ensures var memo := ReadMemo(switch, s);
      memo.Some? && memo.value.version == 2 ==> |memo.value.data| < 0x1_0000
  {
    FieldFits();
    BigEndianExact(Take(s, 2));
    if |s| < 2 { assert Drop(s, 2) == []; }
  }

  lemma MemoPrints(switch: byte, s: seq<byte>)
    requires var memo := ReadMemo(switch, s);
      memo.Some? && memo.value.version == 2 ==> |memo.value.data| < 0x1_0000
    ensures |EncodeMemo(ReadMemo(switch, s))| == |s| <==> MemoKept(switch, s)
  {}

  /** Every buffer decodes to something that prints. */
  lemma DecodedPrints(s: seq<byte>)
    ensures Encodable(Decode(s))
    ensures var tx := Decode(s);
      Prints(|EncodeInflowList(tx.inflow)| + (|EncodeOutflowList(tx.outflow)| + (32 + 256)), s, TailOf(s))
  {
    var inflow := ReadList(ReadInflow, s);
    var outflow := ReadList(ReadOutflow, inflow.rest);
    var fee := ReadFp(outflow.rest, 32);
    InflowListPrints(s);
    OutflowListPrints(inflow.rest);
    FieldPrints(outflow.rest, 32);
    ProofPrints(fee.rest);
    var switch := ReadByte(TailOf(s));
    MemoLength(switch.value, ReadSwap(switch.value, switch.rest).rest);
    PrintsBoth(32, outflow.rest, fee.rest, 256, TailOf(s));
    PrintsBoth(|EncodeOutflowList(outflow.value)|, inflow.rest, outflow.rest, 32 + 256, TailOf(s));
    PrintsBoth(|EncodeInflowList(inflow.value)|, s, inflow.rest, |EncodeOutflowList(outflow.value)| + (32 + 256),
               TailOf(s));
  }

  lemma InflowListPrints(s: seq<byte>)
    ensures Prints(|EncodeInflowList(ReadList(ReadInflow, s).value)|, s, ReadList(ReadInflow, s).rest)
  {
    var count := ReadByte(s);
    BytePrints(s);
    InflowsPrint(count.rest, count.value);
    PrintsBoth(1, s, count.rest, 64 * count.value, ReadList(ReadInflow, s).rest);
  }

  lemma OutflowListPrints(s: seq<byte>)
    ensures var list := ReadList(ReadOutflow, s);
      AllFit(list.value) && Prints(|EncodeOutflowList(list.value)|, s, list.rest)
  {
    var count := ReadByte(s);
    var list := ReadList(ReadOutflow, s);
    BytePrints(s);
    OutflowsPrint(count.rest, count.value);
    PrintsBoth(1, s, count.rest, |EncodeOutflows(list.value)|, list.rest);
  }

  lemma TailPrints(s: seq<byte>, tx: ZkTx)
    requires Encodable(tx) && Tail(tx.swap, tx.memo) == ReadTail(s) && s != []
    ensures |EncodeTail(tx)| == |s| <==> TailKept(s)
  {
    var swap := ReadSwap(s[0], s[1..]);
    MemoPrints(s[0], swap.rest);
  }

  /** `size()` right after decoding: the length of the buffer, except that a remembered zero counts as nothing
      remembered and is computed anew. */
  function SizeAfterDecode(s: seq<byte>): nat
    requires Encodable(Decode(s))
  {
    if |s| == 0 then |Encode(Decode(s))| else |s|
  }

  /** The size is the length printed exactly when the buffer reaches its last field and what the memo does not take is
      not there, or when there is no buffer at all. A shorter buffer prints to more than its length. */
  lemma SizeKeptIff(s: seq<byte>)
    ensures Encodable(Decode(s))
    ensures SizeAfterDecode(s) == |Encode(Decode(s))| <==> s == [] || TailKept(TailOf(s))
    ensures TailOf(s) == [] ==> |Encode(Decode(s))| > |s|
  {
    DecodedPrints(s);
    if TailOf(s) != [] { TailPrints(TailOf(s), Decode(s)); }
  }

  /** One byte, a count of zero, remembers size 1 and prints to 291 bytes. */
  lemma CutShortPrintsLonger()
    ensures Encodable(Decode([0])) && SizeAfterDecode([0]) == 1 && |Encode(Decode([0]))| == 291
  {
    DecodedPrints([0]);
    var empty: seq<byte> := [];
    assert ReadList(ReadInflow, [0]) == Parsed([], empty);
    assert ReadList(ReadOutflow, empty) == Parsed([], empty);
    assert TailOf([0]) == [];
  }
}
