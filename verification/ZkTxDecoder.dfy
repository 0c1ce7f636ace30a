/** The parser as it is written: a buffer consumed through a queue with a moving cursor
    (packages/utils/src/index.ts and packages/transaction/src/zk-tx.ts). */
module ZkTxDecoder {
  import opened Options
  import opened Bytes
  import opened ZkTxCodec

  class Queue {
    const buffer: seq<byte>
    var cursor: nat

    constructor (buffer: seq<byte>)
      ensures this.buffer == buffer && Rest() == buffer
    {
      this.buffer := buffer;
      this.cursor := 0;
    }

    /** The bytes not yet read. */
    ghost function Rest(): seq<byte>
      reads this
    {
      Drop(buffer, cursor)
    }

    method Dequeue(n: nat) returns (dequeued: seq<byte>)
      modifies this
      ensures dequeued == Take(old(Rest()), n) && Rest() == Drop(old(Rest()), n)
    {
      var from := if cursor <= |buffer| then cursor else |buffer|;
      var to := if cursor + n <= |buffer| then cursor + n else |buffer|;
      dequeued := buffer[from..to];
      cursor := cursor + n;
    }

    /** `dequeueAllToBuffer`: everything not yet read; the cursor stays. */
    method DequeueAll() returns (dequeued: seq<byte>)
      ensures dequeued == Rest()
    {
      dequeued := if cursor <= |buffer| then buffer[cursor..] else [];
    }

    method DequeueFp(n: nat) returns (value: Fp)
      modifies this
      ensures Parsed(value, Rest()) == ReadFp(old(Rest()), n)
    {
      var bytes := Dequeue(n);
      value := ToFp(bytes);
    }

    method DequeueByte() returns (value: byte)
      modifies this
      ensures Parsed(value, Rest()) == ReadByte(old(Rest()))
    {
      var bytes := Dequeue(1);
      value := if bytes == [] then 0 else bytes[0];
    }
  }

  method DecodeInflow(queue: Queue) returns (inflow: ZkInflow)
    modifies queue
    ensures Parsed(inflow, queue.Rest()) == ReadInflow(old(queue.Rest()))
  {
    var root := queue.DequeueFp(32);
    var nullifier := queue.DequeueFp(32);
    inflow := ZkInflow(nullifier, root);
  }

  method DecodeOutflow(queue: Queue) returns (outflow: ZkOutflow)
    modifies queue
    ensures Parsed(outflow, queue.Rest()) == ReadOutflow(old(queue.Rest()))
  {
    var note := queue.DequeueFp(32);
    var outflowType := queue.DequeueByte();
    if outflowType != 0 {
      var to := queue.DequeueFp(20);
      var eth := queue.DequeueFp(32);
      var tokenAddr := queue.DequeueFp(20);
      var erc20Amount := queue.DequeueFp(32);
      var nft := queue.DequeueFp(32);
      var fee := queue.DequeueFp(32);
      outflow := ZkOutflow(note, outflowType, Some(PublicData(to, eth, tokenAddr, erc20Amount, nft, fee)));
    } else {
      outflow := ZkOutflow(note, outflowType, None);
    }
  }

  method DecodeProof(queue: Queue) returns (proof: SNARK)
    modifies queue
    ensures Parsed(proof, queue.Rest()) == ReadProof(old(queue.Rest()))
  {
    var a0 := queue.DequeueFp(32);
    var a1 := queue.DequeueFp(32);
    var b01 := queue.DequeueFp(32);
    var b00 := queue.DequeueFp(32);
    var b11 := queue.DequeueFp(32);
    var b10 := queue.DequeueFp(32);
    var c0 := queue.DequeueFp(32);
    var c1 := queue.DequeueFp(32);
    proof := SNARK(a0, a1, b00, b01, b10, b11, c0, c1);
  }

  method DecodeInflows(queue: Queue) returns (inflow: seq<ZkInflow>)
    modifies queue
    ensures Parsed(inflow, queue.Rest()) == ReadList(ReadInflow, old(queue.Rest()))
  {
    var nIn := queue.DequeueByte();
    ghost var start := queue.Rest();
    inflow := [];
    for i := 0 to nIn
      invariant Parsed(inflow, queue.Rest()) == ReadMany(ReadInflow, start, i)
    {
      ReadManySnoc(ReadInflow, start, i);
      var next := DecodeInflow(queue);
      inflow := inflow + [next];
    }
  }

  method DecodeOutflows(queue: Queue) returns (outflow: seq<ZkOutflow>)
    modifies queue
    ensures Parsed(outflow, queue.Rest()) == ReadList(ReadOutflow, old(queue.Rest()))
  {
    var nOut := queue.DequeueByte();
    ghost var start := queue.Rest();
    outflow := [];
    for i := 0 to nOut
      invariant Parsed(outflow, queue.Rest()) == ReadMany(ReadOutflow, start, i)
    {
      ReadManySnoc(ReadOutflow, start, i);
      var next := DecodeOutflow(queue);
      outflow := outflow + [next];
    }
  }

  method DecodeTail(queue: Queue) returns (swap: Option<Fp>, memo: Option<Memo>)
    modifies queue
    ensures ReadTail(old(queue.Rest())) == Tail(swap, memo)
  {
    var swapAndMemo := queue.DequeueByte();
    swap, memo := None, None;
    if swapAndMemo % 2 == 1 {
      var value := queue.DequeueFp(32);
      swap := Some(value);
    }
    if swapAndMemo / 2 % 2 == 1 {
      var data := queue.Dequeue(81);
      memo := Some(Memo(1, data));
    } else if swapAndMemo / 4 % 2 == 1 {
      var lenBytes := queue.Dequeue(2);
      var data := queue.Dequeue(FromBE(lenBytes));
      memo := Some(Memo(2, data));
    }
  }

  /** `ZkTx.decode` */
  method DecodeBuffer(buff: seq<byte>) returns (zkTx: ZkTx)
    ensures zkTx == Decode(buff)
    ensures forall tx :: Encodable(tx) && Canonical(tx) && Encode(tx) == buff ==> zkTx == tx
  {
    var queue := new Queue(buff);
    var inflow := DecodeInflows(queue);
    var outflow := DecodeOutflows(queue);
    var fee := queue.DequeueFp(32);
    var proof := DecodeProof(queue);
    var swap, memo := DecodeTail(queue);
    zkTx := ZkTx(inflow, outflow, fee, Some(proof), swap, memo);
    forall tx | Encodable(tx) && Canonical(tx) && Encode(tx) == buff ensures zkTx == tx {
      RoundTrip(tx);
    }
  }
}
