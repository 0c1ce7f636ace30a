/** Memos: the printer of packages/zk-wizard/src/zk-wizard.ts and `parseMemo` of packages/transaction/src/zk-tx.ts. */
module MemoCodec {
  import opened Options
  import opened Sequences
  import opened Bytes
  import opened ZkTxCodec
  import opened ZkTxDecoder

  const NOTE_SIZE: nat := 81
  /** Numbers are exact up to here. */
  const MAX_NUMBER: nat := 0x20_0000_0000_0000
  const V2_MEMO_DEFAULT_ABI_ZERO: seq<byte> := [0, 0, 0, 0]
  const V2_MEMO_WITHDRAW_SIG_ABI_ZERO: seq<byte> := [0, 0, 0, 1]

  /** The two function selectors, which are hashes of their signatures. */
  datatype Selectors = Selectors(defaultAbi: seq<byte>, withdrawSigAbi: seq<byte>)

  datatype PrepayInfo = PrepayInfo(prepayFeeInEth: Fp, prepayFeeInToken: Fp, expiration: nat, signature: seq<byte>)
  datatype MemoError = UnrecognizedVersion | UnrecognizedSignature | InvalidLength
  datatype MemoResult =
    | Notes(encryptedNotes: seq<seq<byte>>, prepayInfo: Option<PrepayInfo>)
    | MemoFailed(error: MemoError)

  // ----- printing

  function Concat(notes: seq<seq<byte>>): seq<byte> {
    if notes == [] then [] else notes[0] + Concat(notes[1..])
  }

  /** Never zero: a signature of a whole number of chunks is followed by a whole chunk of padding. */
  function PaddingLen(n: nat): (p: nat)
    ensures 1 <= p <= NOTE_SIZE && (n + p) % NOTE_SIZE == 0
  {
    NOTE_SIZE - n % NOTE_SIZE
  }

  lemma NumberFits()
    ensures MAX_NUMBER < Pow256(8) && MAX_NUMBER < Pow256(9)
  {
    Doubled(2, 0x1_0000);
    Doubled(4, 0x1_0000_0000);
    assert Pow256(2) == 0x1_0000;
    assert Pow256(9) == 256 * Pow256(8);
  }

  function EncodeNumber(x: nat, n: nat): (s: seq<byte>)
    requires x < MAX_NUMBER && (n == 8 || n == 9)
    ensures |s| == n
  {
    NumberFits();
    ToBE(x, n)
  }

  function BuildDefaultMemo(notes: seq<seq<byte>>): seq<byte> {
    V2_MEMO_DEFAULT_ABI_ZERO + Concat(notes)
  }

  predicate Printable(info: PrepayInfo) {
    info.expiration < MAX_NUMBER && |info.signature| < MAX_NUMBER
  }

  function PrepayData(info: PrepayInfo): seq<byte>
    requires Printable(info)
  {
    EncodeFp(info.prepayFeeInEth) + (EncodeFp(info.prepayFeeInToken) + (EncodeNumber(info.expiration, 8)
    + (EncodeNumber(|info.signature|, 9) + (info.signature + Zeros(PaddingLen(|info.signature|))))))
  }

  function BuildPrepayMemo(info: PrepayInfo, notes: seq<seq<byte>>): seq<byte>
    requires Printable(info)
  {
    V2_MEMO_WITHDRAW_SIG_ABI_ZERO + (PrepayData(info) + Concat(notes))
  }

  // ----- parsing

  function ChunksTo(s: seq<byte>, n: nat): (r: seq<seq<byte>>)
    requires n * NOTE_SIZE <= |s|
    ensures |r| == n
  {
    if n == 0 then [] else ChunksTo(s, n - 1) + [s[(n - 1) * NOTE_SIZE..n * NOTE_SIZE]]
  }

  /** `Array(length / 81)` needs a whole number of notes. */
  function SplitNotes(s: seq<byte>, prepayInfo: Option<PrepayInfo>): MemoResult {
    if |s| % NOTE_SIZE != 0 then MemoFailed(InvalidLength) else Notes(ChunksTo(s, |s| / NOTE_SIZE), prepayInfo)
  }

  function ReadNumber(s: seq<byte>, n: nat): Parsed<nat> {
    Parsed(FromBE(Take(s, n)), Drop(s, n))
  }

  function ReadPrepay(s: seq<byte>): Parsed<PrepayInfo> {
    var eth := ReadFp(s, 32);
    var token := ReadFp(eth.rest, 32);
    var expiration := ReadNumber(token.rest, 8);
    var sigLength := ReadNumber(expiration.rest, 9);
    var signature := Take(sigLength.rest, sigLength.value);
    var padded := Drop(sigLength.rest, sigLength.value);
    Parsed(PrepayInfo(eth.value, token.value, expiration.value, signature), Drop(padded, PaddingLen(sigLength.value)))
  }

  /** No byte of the length field is there, so the length is not a number. The source then cuts the whole memo, 76
      bytes at most, into notes, which throws (lemma ShortPrepayFails). */
  predicate LengthMissing(s: seq<byte>) {
    ReadNumber(ReadFp(ReadFp(s, 32).rest, 32).rest, 8).rest == []
  }

  function PrepayNotes(s: seq<byte>): MemoResult {
    if LengthMissing(s) then MemoFailed(InvalidLength) else
    var prepay := ReadPrepay(s);
    SplitNotes(prepay.rest, Some(prepay.value))
  }

  function ParseMemo(memo: Option<Memo>, sel: Selectors): MemoResult {
    if memo.None? then Notes([], None)
    else if memo.value.version == 1 then Notes([memo.value.data], None)
    else if memo.value.version != 2 then MemoFailed(UnrecognizedVersion)
    else
      var data := memo.value.data;
      var memoSig := Take(data, 4);
      if |data| < 4 then MemoFailed(InvalidLength)
      else if memoSig == sel.defaultAbi || memoSig == V2_MEMO_DEFAULT_ABI_ZERO then SplitNotes(Drop(data, 4), None)
      else if memoSig == sel.withdrawSigAbi || memoSig == V2_MEMO_WITHDRAW_SIG_ABI_ZERO then
        PrepayNotes(Drop(data, 4))
      else MemoFailed(UnrecognizedSignature)
  }

  /** The parser over a queue; the notes are cut out of what the queue leaves. */
  method ParseMemoData(memo: Option<Memo>, sel: Selectors) returns (result: MemoResult)
    ensures result == ParseMemo(memo, sel)
  {
    if memo.None? { return Notes([], None); }
    if memo.value.version == 1 { return Notes([memo.value.data], None); }
    if memo.value.version != 2 { return MemoFailed(UnrecognizedVersion); }
    var data := memo.value.data;
    if |data| < 4 { return MemoFailed(InvalidLength); }
    var memoSig := data[..4];
    if memoSig == sel.defaultAbi || memoSig == V2_MEMO_DEFAULT_ABI_ZERO {
      return SplitNotes(data[4..], None);
    }
    if memoSig == sel.withdrawSigAbi || memoSig == V2_MEMO_WITHDRAW_SIG_ABI_ZERO {
      var queue := new Queue(data);
      var _ := queue.Dequeue(4);
      result := DequeueNotes(queue);
      return;
    }
    return MemoFailed(UnrecognizedSignature);
  }

  /** The prepay header in front of the notes, unless its length field is missing. */
  method DequeuePrepay(queue: Queue) returns (info: Option<PrepayInfo>)
    modifies queue
    ensures info.None? <==> LengthMissing(old(queue.Rest()))
    ensures info.Some? ==> Parsed(info.value, queue.Rest()) == ReadPrepay(old(queue.Rest()))
  {
    var prepayEthFee := queue.DequeueFp(32);
    var prepayTokenFee := queue.DequeueFp(32);
    var expiration := queue.Dequeue(8);
    var lengthBytes := queue.Dequeue(9);
    if lengthBytes == [] { return None; }
    var sigLength := FromBE(lengthBytes);
    var signature := queue.Dequeue(sigLength);
    var _ := queue.Dequeue(PaddingLen(sigLength));
    info := Some(PrepayInfo(prepayEthFee, prepayTokenFee, FromBE(expiration), signature));
  }

  method DequeueNotes(queue: Queue) returns (result: MemoResult)
    modifies queue
    ensures result == PrepayNotes(old(queue.Rest()))
  {
    var info := DequeuePrepay(queue);
    if info.None? { return MemoFailed(InvalidLength); }
    var noteData := queue.DequeueAll();
    return SplitNotes(noteData, info);
  }

  // ----- round trip

  ghost predicate WholeNotes(notes: seq<seq<byte>>) {
    forall i :: 0 <= i < |notes| ==> |notes[i]| == NOTE_SIZE
  }

  lemma {:induction false} ConcatLength(notes: seq<seq<byte>>)
    requires WholeNotes(notes)
    ensures |Concat(notes)| == |notes| * NOTE_SIZE
  {
    if notes != [] { ConcatLength(notes[1..]); }
  }

  lemma {:induction false} ConcatChunk(notes: seq<seq<byte>>, i: nat)
    requires WholeNotes(notes) && i < |notes|
    ensures (i + 1) * NOTE_SIZE <= |Concat(notes)|
    ensures Concat(notes)[i * NOTE_SIZE..(i + 1) * NOTE_SIZE] == notes[i]
  {
    ConcatLength(notes);
    ConcatLength(notes[1..]);
    var tail := Concat(notes[1..]);
    assert Concat(notes) == notes[0] + tail;
    if i > 0 {
      ConcatChunk(notes[1..], i - 1);
      assert (notes[0] + tail)[i * NOTE_SIZE..(i + 1) * NOTE_SIZE] == tail[(i - 1) * NOTE_SIZE..i * NOTE_SIZE];
    }
  }

  lemma {:induction false} ChunksOfConcat(notes: seq<seq<byte>>, n: nat)
    requires WholeNotes(notes) && n <= |notes|
    ensures n * NOTE_SIZE <= |Concat(notes)| && ChunksTo(Concat(notes), n) == notes[..n]
  {
    ConcatLength(notes);
    if n > 0 {
      ChunksOfConcat(notes, n - 1);
      ConcatChunk(notes, n - 1);
    }
  }

  lemma SplitConcat(notes: seq<seq<byte>>, prepayInfo: Option<PrepayInfo>)
    requires WholeNotes(notes)
    ensures SplitNotes(Concat(notes), prepayInfo) == Notes(notes, prepayInfo)
  {
    ConcatLength(notes);
    ChunksOfConcat(notes, |notes|);
    assert notes[..|notes|] == notes;
  }

  lemma NumberFront(x: nat, n: nat, rest: seq<byte>)
    requires x < MAX_NUMBER && (n == 8 || n == 9)
    ensures ReadNumber(EncodeNumber(x, n) + rest, n) == Parsed(x, rest)
  {
    NumberFits();
    TakeFront(ToBE(x, n), rest);
    BigEndianRoundTrip(x, n);
  }

  lemma PrepayFront(info: PrepayInfo, rest: seq<byte>)
    requires Printable(info)
    ensures ReadPrepay(PrepayData(info) + rest) == Parsed(info, rest) && !LengthMissing(PrepayData(info) + rest)
  {
    var padding := Zeros(PaddingLen(|info.signature|));
    var s4 := info.signature + padding;
    var s3 := EncodeNumber(|info.signature|, 9) + s4;
    var s2 := EncodeNumber(info.expiration, 8) + s3;
    var s1 := EncodeFp(info.prepayFeeInToken) + s2;
    ConcatAssociative(EncodeFp(info.prepayFeeInEth), s1, rest);
    ConcatAssociative(EncodeFp(info.prepayFeeInToken), s2, rest);
    ConcatAssociative(EncodeNumber(info.expiration, 8), s3, rest);
    ConcatAssociative(EncodeNumber(|info.signature|, 9), s4, rest);
    ConcatAssociative(info.signature, padding, rest);
    ReadField(info.prepayFeeInEth, s1 + rest);
    ReadField(info.prepayFeeInToken, s2 + rest);
    NumberFront(info.expiration, 8, s3 + rest);
    NumberFront(|info.signature|, 9, s4 + rest);
    TakeFront(info.signature, padding + rest);
    TakeFront(padding, rest);
  }

  /** A prepay memo cut off before its length field is an error; it never holds a whole number of notes, the cut the
      source then attempts. */
  lemma ShortPrepayFails(data: seq<byte>, sel: Selectors)
    requires |data| >= 4 && (data[..4] == V2_MEMO_WITHDRAW_SIG_ABI_ZERO || data[..4] == sel.withdrawSigAbi)
    requires data[..4] != V2_MEMO_DEFAULT_ABI_ZERO && data[..4] != sel.defaultAbi
    ensures LengthMissing(Drop(data, 4)) <==> |data| <= 76
    ensures |data| <= 76 ==> ParseMemo(Some(Memo(2, data)), sel) == MemoFailed(InvalidLength) && |data| % NOTE_SIZE != 0
  {}

  lemma PrepaySelected(body: seq<byte>, sel: Selectors)
    requires sel.defaultAbi != V2_MEMO_WITHDRAW_SIG_ABI_ZERO
    ensures ParseMemo(Some(Memo(2, V2_MEMO_WITHDRAW_SIG_ABI_ZERO + body)), sel) == PrepayNotes(body)
  {
    TakeFront(V2_MEMO_WITHDRAW_SIG_ABI_ZERO, body);
    assert V2_MEMO_WITHDRAW_SIG_ABI_ZERO[3] != V2_MEMO_DEFAULT_ABI_ZERO[3];
  }

  /** The prepay memo the wizard builds parses back to the same notes, fees, expiration and signature. */
  lemma PrepayMemoRoundTrip(info: PrepayInfo, notes: seq<seq<byte>>, sel: Selectors)
    requires Printable(info) && WholeNotes(notes) && sel.defaultAbi != V2_MEMO_WITHDRAW_SIG_ABI_ZERO
    ensures ParseMemo(Some(Memo(2, BuildPrepayMemo(info, notes))), sel) == Notes(notes, Some(info))
  {
    PrepaySelected(PrepayData(info) + Concat(notes), sel);
    PrepayFront(info, Concat(notes));
    SplitConcat(notes, Some(info));
  }

  /** So does the memo without prepayment. */
  lemma DefaultMemoRoundTrip(notes: seq<seq<byte>>, sel: Selectors)
    requires WholeNotes(notes)
    ensures ParseMemo(Some(Memo(2, BuildDefaultMemo(notes))), sel) == Notes(notes, None)
  {
    TakeFront(V2_MEMO_DEFAULT_ABI_ZERO, Concat(notes));
    SplitConcat(notes, None);
  }

  lemma WholeChunks(total: nat, padded: nat, count: nat)
    requires padded % NOTE_SIZE == 0 && total == NOTE_SIZE + padded + count * NOTE_SIZE
    ensures total % NOTE_SIZE == 0
  {
    assert total == (1 + padded / NOTE_SIZE + count) * NOTE_SIZE;
  }

  /** The prepay header and the padded signature fill whole chunks, so both memos have the same shape: a selector and a
      number of 81-byte chunks. */
  lemma PrepayMemoChunked(info: PrepayInfo, notes: seq<seq<byte>>)
    requires Printable(info) && WholeNotes(notes)
    ensures (|BuildPrepayMemo(info, notes)| - 4) % NOTE_SIZE == 0
  {
    ConcatLength(notes);
    var n := |info.signature|;
    PrepayLayout(info, PrepayData(info), n);
    WholeChunks(|BuildPrepayMemo(info, notes)| - 4, n + PaddingLen(n), |notes|);
  }

  // ----- versions, selectors and layout

  /** No memo and a version-one memo carry no prepayment; a version-one memo is one note, whatever its length; other
      versions than two are refused. */
  lemma MemoByVersion(version: nat, data: seq<byte>, sel: Selectors)
    ensures ParseMemo(None, sel) == Notes([], None)
    ensures version == 1 ==> ParseMemo(Some(Memo(version, data)), sel) == Notes([data], None)
    ensures version != 1 && version != 2 ==>
      ParseMemo(Some(Memo(version, data)), sel) == MemoFailed(UnrecognizedVersion)
  {}

  /** A hashed selector means what its all but zero stand-in means, and any other four bytes are refused. */
  lemma HashedSelectors(sel: Selectors, body: seq<byte>, other: seq<byte>)
    requires |sel.defaultAbi| == |sel.withdrawSigAbi| == 4
    requires sel.withdrawSigAbi != sel.defaultAbi && sel.withdrawSigAbi != V2_MEMO_DEFAULT_ABI_ZERO
    requires sel.defaultAbi != V2_MEMO_WITHDRAW_SIG_ABI_ZERO
    ensures ParseMemo(Some(Memo(2, sel.defaultAbi + body)), sel)
         == ParseMemo(Some(Memo(2, V2_MEMO_DEFAULT_ABI_ZERO + body)), sel)
    ensures ParseMemo(Some(Memo(2, sel.withdrawSigAbi + body)), sel)
         == ParseMemo(Some(Memo(2, V2_MEMO_WITHDRAW_SIG_ABI_ZERO + body)), sel)
    ensures |other| == 4 && other !in {sel.defaultAbi, sel.withdrawSigAbi, V2_MEMO_DEFAULT_ABI_ZERO,
                                       V2_MEMO_WITHDRAW_SIG_ABI_ZERO} ==>
      ParseMemo(Some(Memo(2, other + body)), sel) == MemoFailed(UnrecognizedSignature)
  {
    TakeFront(sel.defaultAbi, body);
    TakeFront(V2_MEMO_DEFAULT_ABI_ZERO, body);
    TakeFront(sel.withdrawSigAbi, body);
    TakeFront(V2_MEMO_WITHDRAW_SIG_ABI_ZERO, body);
    if |other| == 4 { TakeFront(other, body); }
  }

  lemma {:induction false} ConcatSnoc(notes: seq<seq<byte>>, note: seq<byte>)
    ensures Concat(notes + [note]) == Concat(notes) + note
  {
    if notes == [] {
      assert Concat([note]) == note + Concat([]);
    } else {
      ConcatSnoc(notes[1..], note);
      assert (notes + [note])[1..] == notes[1..] + [note];
    }
  }

  lemma {:induction false} ChunksJoin(s: seq<byte>, n: nat)
    requires n * NOTE_SIZE <= |s|
    ensures WholeNotes(ChunksTo(s, n)) && Concat(ChunksTo(s, n)) == s[..n * NOTE_SIZE]
  {
    if n > 0 {
      ChunksJoin(s, n - 1);
      ConcatSnoc(ChunksTo(s, n - 1), s[(n - 1) * NOTE_SIZE..n * NOTE_SIZE]);
    }
  }

  /** Any body of a memo without prepayment: it is refused if and only if it is no whole number of notes, and otherwise
      the notes are whole and put the body together again. */
  lemma DefaultMemoExact(body: seq<byte>, sel: Selectors)
    ensures var result := ParseMemo(Some(Memo(2, V2_MEMO_DEFAULT_ABI_ZERO + body)), sel);
      && (result == MemoFailed(InvalidLength) <==> |body| % NOTE_SIZE != 0)
      && (result.MemoFailed? ==> result.error == InvalidLength)
      && (result.Notes? ==> result.prepayInfo == None && WholeNotes(result.encryptedNotes)
                            && Concat(result.encryptedNotes) == body)
  {
    TakeFront(V2_MEMO_DEFAULT_ABI_ZERO, body);
    if |body| % NOTE_SIZE == 0 {
      ChunksJoin(body, |body| / NOTE_SIZE);
      assert body[..|body| / NOTE_SIZE * NOTE_SIZE] == body;
    }
  }

  lemma FiveParts(a: seq<byte>, b: seq<byte>, c: seq<byte>, d: seq<byte>, e: seq<byte>, s: seq<byte>)
    requires s == a + (b + (c + (d + e))) && |a| == |b| == 32 && |c| == 8 && |d| == 9
    ensures |s| == 81 + |e| && s[..32] == a && s[32..64] == b && s[64..72] == c && s[72..81] == d && s[81..] == e
  {}

  lemma PaddedEnd(s: seq<byte>, e: seq<byte>, signature: seq<byte>, zeros: nat)
    requires |s| == 81 + |e| && s[81..] == e == signature + Zeros(zeros)
    ensures s[81..81 + |signature|] == signature && forall i :: 81 + |signature| <= i < |s| ==> s[i] == 0
  {
    assert s[81..81 + |signature|] == e[..|signature|];
    forall i | 81 + |signature| <= i < |s| ensures s[i] == 0 { assert s[i] == e[i - 81]; }
  }

  /** Behind the selector: both fees, eight bytes of expiration, nine bytes of signature length, the signature, and
      zeros up to a whole number of chunks. */
  lemma PrepayLayout(info: PrepayInfo, s: seq<byte>, n: nat)
    requires Printable(info) && s == PrepayData(info) && n == |info.signature|
    ensures |s| == 81 + n + PaddingLen(n)
    ensures s[..32] == EncodeFp(info.prepayFeeInEth) && s[32..64] == EncodeFp(info.prepayFeeInToken)
    ensures FromBE(s[64..72]) == info.expiration && FromBE(s[72..81]) == n
    ensures s[81..81 + n] == info.signature && forall i :: 81 + n <= i < |s| ==> s[i] == 0
  {
    var e := info.signature + Zeros(PaddingLen(n));
    NumberFits();
    BigEndianRoundTrip(info.expiration, 8);
    BigEndianRoundTrip(n, 9);
    FiveParts(EncodeFp(info.prepayFeeInEth), EncodeFp(info.prepayFeeInToken), EncodeNumber(info.expiration, 8),
              EncodeNumber(n, 9), e, s);
    PaddedEnd(s, e, info.signature, PaddingLen(n));
  }
}
