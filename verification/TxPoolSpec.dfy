/** Picking transactions for a block: packages/coordinator/src/tx-pool.ts on values. */
module TxPoolSpec {
  import opened Options
  import opened Sequences

  /** The parts of a ZkTx the pool looks at. `size` is the size it remembers: its encoded length or, when it was
      decoded, the length of its buffer; ZkTxLength says when they agree. `outflow` are the note hashes it creates. */
  datatype Tx<H> = Tx(hash: H, fee: nat, size: nat, swap: Option<H>, outflow: seq<H>)

  /** An entry of the pending list: a transaction on its own, or two that swap atomically. */
  datatype Item<H> = Single(tx: Tx<H>) | Pair(alice: Tx<H>, bob: Tx<H>) {
    function Size(): nat {
      match this case Single(tx) => tx.size case Pair(a, b) => a.size + b.size
    }
    function Fee(): nat {
      match this case Single(tx) => tx.fee case Pair(a, b) => a.fee + b.fee
    }
    function Txs(): seq<Tx<H>> {
      match this case Single(tx) => [tx] case Pair(a, b) => [a, b]
    }
  }

  predicate MeetsPrice<H>(item: Item<H>, price: nat) {
    item.Fee() >= price * item.Size()
  }

  function Pays<H>(price: nat): Item<H> -> bool {
    (item: Item<H>) => MeetsPrice(item, price)
  }

  /** Each creates the note the other asks for. */
  predicate Match<H(==)>(a: Tx<H>, b: Tx<H>) {
    a.swap.Some? && b.swap.Some? && a.swap.value in b.outflow && b.swap.value in a.outflow
  }

  ghost predicate DistinctHashes<H(!new)>(txs: seq<Tx<H>>) {
    forall i, j :: 0 <= i < j < |txs| ==> txs[i].hash != txs[j].hash
  }

  ghost predicate SortedByFee<H>(txs: seq<Tx<H>>) {
    forall i, j :: 0 <= i < j < |txs| ==> txs[i].fee <= txs[j].fee
  }

  function FlattenTo<H>(items: seq<Item<H>>, n: nat): seq<Tx<H>>
    requires n <= |items|
  {
    if n == 0 then [] else FlattenTo(items, n - 1) + items[n - 1].Txs()
  }

  function Flatten<H>(items: seq<Item<H>>): seq<Tx<H>> {
    FlattenTo(items, |items|)
  }

  function TotalSizeTo<H>(txs: seq<Tx<H>>, n: nat): nat
    requires n <= |txs|
  {
    if n == 0 then 0 else TotalSizeTo(txs, n - 1) + txs[n - 1].size
  }

  function TotalSize<H>(txs: seq<Tx<H>>): nat {
    TotalSizeTo(txs, |txs|)
  }

  // ----- pairing atomic swaps

  /** The position of the first transaction that swaps with `alice`, or the end. */
  function FirstMatch<H(==)>(alice: Tx<H>, others: seq<Tx<H>>): (k: nat)
    ensures k <= |others|
    ensures k < |others| ==> Match(alice, others[k])
    ensures forall i :: 0 <= i < k ==> !Match(alice, others[i])
  {
    if others == [] || Match(alice, others[0]) then 0 else 1 + FirstMatch(alice, others[1..])
  }

  datatype Pairing<H> = Pairing(pairs: seq<Item<H>>, alone: seq<Tx<H>>)

  /** The first transaction leaves with its first match, if it has one, and so on with the others. */
  function PairUp<H(==)>(swaps: seq<Tx<H>>): Pairing<H>
    decreases |swaps|
  {
    if swaps == [] then Pairing([], [])
    else
      var alice, rest := swaps[0], swaps[1..];
      var k := FirstMatch(alice, rest);
      if k < |rest| then
        var p := PairUp(Delete(rest, k));
        Pairing([Pair(alice, rest[k])] + p.pairs, p.alone)
      else
        var p := PairUp(rest);
        Pairing(p.pairs, [alice] + p.alone)
  }

  /** One round of the pairing loses nothing. */
  lemma RoundConserves<A>(alice: A, rest: seq<A>, k: nat, paired: seq<A>, alone: seq<A>)
    requires k < |rest| && multiset(paired) + multiset(alone) == multiset(Delete(rest, k))
    ensures multiset([alice, rest[k]] + paired) + multiset(alone) == multiset([alice] + rest)
  {
    DeleteCounts(rest, k);
    ConcatCounts([alice, rest[k]], paired);
    ConcatCounts([alice], rest);
    assert multiset([alice, rest[k]]) == multiset{alice} + multiset{rest[k]};
  }

  /** Every swap transaction is in exactly one pair or left alone. */
  lemma {:induction false} PairUpConserves<H>(swaps: seq<Tx<H>>)
    ensures multiset(Flatten(PairUp(swaps).pairs)) + multiset(PairUp(swaps).alone) == multiset(swaps)
    decreases |swaps|
  {
    if swaps != [] {
      var alice, rest := swaps[0], swaps[1..];
      assert swaps == [alice] + rest;
      var k := FirstMatch(alice, rest);
      if k < |rest| {
        var p := PairUp(Delete(rest, k));
        PairUpConserves(Delete(rest, k));
        FlattenPrepend(Pair(alice, rest[k]), p.pairs);
        RoundConserves(alice, rest, k, Flatten(p.pairs), p.alone);
      } else {
        PairUpConserves(rest);
        ConcatCounts([alice], PairUp(rest).alone);
        ConcatCounts([alice], rest);
      }
    }
  }

  /** What each asks for, the other one creates. */
  ghost predicate SwapTogether<H>(a: Tx<H>, b: Tx<H>) {
    (exists x :: a.swap == Some(x) && x in b.outflow) && exists y :: b.swap == Some(y) && y in a.outflow
  }

  /** Both sides of every pair get the note they ask for. */
  lemma {:induction false} PairUpMutual<H>(swaps: seq<Tx<H>>)
    ensures forall item :: item in PairUp(swaps).pairs ==> item.Pair? && SwapTogether(item.alice, item.bob)
    decreases |swaps|
  {
    if swaps != [] {
      var k := FirstMatch(swaps[0], swaps[1..]);
      if k < |swaps[1..]| { PairUpMutual(Delete(swaps[1..], k)); } else { PairUpMutual(swaps[1..]); }
    }
  }

  lemma {:induction false} AloneAmong<H>(swaps: seq<Tx<H>>)
    ensures forall tx :: tx in PairUp(swaps).alone ==> tx in swaps
    decreases |swaps|
  {
    if swaps != [] {
      var k := FirstMatch(swaps[0], swaps[1..]);
      if k < |swaps[1..]| {
        AloneAmong(Delete(swaps[1..], k));
        DeleteMembers(swaps[1..], k);
      } else {
        AloneAmong(swaps[1..]);
      }
    }
  }

  ghost predicate NoMatches<H(!new)>(txs: seq<Tx<H>>) {
    forall i, j :: 0 <= i < j < |txs| ==> !SwapTogether(txs[i], txs[j])
  }

  /** The matching is maximal: no two transactions left alone could have swapped with each other. */
  lemma {:induction false} PairUpMaximal<H(!new)>(swaps: seq<Tx<H>>)
    ensures NoMatches(PairUp(swaps).alone)
    decreases |swaps|
  {
    if swaps != [] {
      var alice, rest := swaps[0], swaps[1..];
      var k := FirstMatch(alice, rest);
      if k < |rest| {
        PairUpMaximal(Delete(rest, k));
        assert PairUp(swaps).alone == PairUp(Delete(rest, k)).alone;
      } else {
        PairUpMaximal(rest);
        AloneAmong(rest);
        var alone := PairUp(rest).alone;
        assert PairUp(swaps).alone == [alice] + alone;
        forall i | 0 <= i < |alone| ensures !SwapTogether(alice, alone[i]) {
          assert alone[i] in rest;
        }
      }
    }
  }

  // ----- greedy picking under a byte budget

  datatype Pick<H> = Pick(items: seq<Item<H>>, left: int)

  predicate Affordable<H>(item: Item<H>, available: int, pays: Item<H> -> bool) {
    available >= item.Size() && pays(item)
  }

  /** The first n pending entries are considered from the last one back, while bytes are left. */
  function TakeTo<H>(pending: seq<Item<H>>, n: nat, available: int, pays: Item<H> -> bool): Pick<H>
    requires n <= |pending|
  {
    if available <= 0 || n == 0 then Pick([], available)
    else if Affordable(pending[n - 1], available, pays) then
      var rest := TakeTo(pending, n - 1, available - pending[n - 1].Size(), pays);
      Pick([pending[n - 1]] + rest.items, rest.left)
    else TakeTo(pending, n - 1, available, pays)
  }

  function Take<H>(pending: seq<Item<H>>, available: int, pays: Item<H> -> bool): Pick<H> {
    TakeTo(pending, |pending|, available, pays)
  }

  lemma {:induction false} FlattenPrefix<H>(a: seq<Item<H>>, b: seq<Item<H>>, n: nat)
    requires n <= |a|
    ensures FlattenTo(a + b, n) == FlattenTo(a, n)
  {
    if n > 0 { FlattenPrefix(a, b, n - 1); }
  }

  lemma {:induction false} FlattenSuffix<H>(a: seq<Item<H>>, b: seq<Item<H>>, n: nat)
    requires n <= |b|
    ensures FlattenTo(a + b, |a| + n) == Flatten(a) + FlattenTo(b, n)
  {
    if n == 0 { FlattenPrefix(a, b, |a|); } else { FlattenSuffix(a, b, n - 1); }
  }

  lemma FlattenConcat<H>(a: seq<Item<H>>, b: seq<Item<H>>)
    ensures Flatten(a + b) == Flatten(a) + Flatten(b)
  {
    FlattenSuffix(a, b, |b|);
  }

  lemma FlattenPrepend<H>(item: Item<H>, items: seq<Item<H>>)
    ensures Flatten([item] + items) == item.Txs() + Flatten(items)
  {
    FlattenConcat([item], items);
    assert FlattenTo([item], 1) == FlattenTo([item], 0) + item.Txs() == item.Txs();
  }

  lemma FlattenSnoc<H>(items: seq<Item<H>>, item: Item<H>)
    ensures Flatten(items + [item]) == Flatten(items) + item.Txs()
  {
    FlattenConcat(items, [item]);
    assert FlattenTo([item], 1) == FlattenTo([item], 0) + item.Txs() == item.Txs();
  }

  lemma {:induction false} TotalSizePrefix<H>(a: seq<Tx<H>>, b: seq<Tx<H>>, n: nat)
    requires n <= |a|
    ensures TotalSizeTo(a + b, n) == TotalSizeTo(a, n)
  {
    if n > 0 { TotalSizePrefix(a, b, n - 1); }
  }

  lemma {:induction false} TotalSizeSuffix<H>(a: seq<Tx<H>>, b: seq<Tx<H>>, n: nat)
    requires n <= |b|
    ensures TotalSizeTo(a + b, |a| + n) == TotalSize(a) + TotalSizeTo(b, n)
  {
    if n == 0 { TotalSizePrefix(a, b, |a|); } else { TotalSizeSuffix(a, b, n - 1); }
  }

  lemma ItemSize<H>(item: Item<H>)
    ensures TotalSize(item.Txs()) == item.Size()
  {
    match item
    case Single(tx) => assert TotalSizeTo([tx], 1) == TotalSizeTo([tx], 0) + tx.size;
    case Pair(a, b) =>
      assert TotalSizeTo([a, b], 2) == TotalSizeTo([a, b], 1) + b.size == TotalSizeTo([a, b], 0) + a.size + b.size;
  }

  lemma PrependSize<H>(item: Item<H>, items: seq<Item<H>>)
    ensures TotalSize(Flatten([item] + items)) == item.Size() + TotalSize(Flatten(items))
  {
    FlattenPrepend(item, items);
    TotalSizeSuffix(item.Txs(), Flatten(items), |Flatten(items)|);
    ItemSize(item);
  }

  /** The bytes spent are accounted for, exactly, and stay within the budget. */
  lemma {:induction false} TakeWithinBudget<H>(pending: seq<Item<H>>, n: nat, available: int, pays: Item<H> -> bool)
    requires n <= |pending|
    ensures var pick := TakeTo(pending, n, available, pays);
      && TotalSize(Flatten(pick.items)) + pick.left == available
      && (available >= 0 ==> pick.left >= 0)
  {
    if available > 0 && n > 0 {
      var item := pending[n - 1];
      if Affordable(item, available, pays) {
        TakeWithinBudget(pending, n - 1, available - item.Size(), pays);
        PrependSize(item, TakeTo(pending, n - 1, available - item.Size(), pays).items);
      } else {
        TakeWithinBudget(pending, n - 1, available, pays);
      }
    }
  }

  /** Every pick is a pending entry that pays its price. */
  lemma {:induction false} TakeSound<H>(pending: seq<Item<H>>, n: nat, available: int, pays: Item<H> -> bool)
    requires n <= |pending|
    ensures forall item :: item in TakeTo(pending, n, available, pays).items ==> item in pending && pays(item)
  {
    if available > 0 && n > 0 {
      TakeSound(pending, n - 1,
                if Affordable(pending[n - 1], available, pays) then available - pending[n - 1].Size() else available,
                pays);
    }
  }

  /** Saturation: an entry that pays its price was picked, or is larger than the bytes left at the end. */
  lemma {:induction false} TakeSaturated<H>(pending: seq<Item<H>>, n: nat, available: int, pays: Item<H> -> bool,
                                            i: nat)
    requires i < n <= |pending| && pays(pending[i]) && pending[i].Size() > 0
    ensures var pick := TakeTo(pending, n, available, pays);
      pending[i] in pick.items || pending[i].Size() > pick.left
  {
    if available > 0 {
      var next := if Affordable(pending[n - 1], available, pays) then available - pending[n - 1].Size() else available;
      TakeWithinBudget(pending, n - 1, next, pays);
      if i < n - 1 { TakeSaturated(pending, n - 1, next, pays, i); }
    }
  }

  // ----- the pending list

  function SwapsOf<H>(txs: seq<Tx<H>>): seq<Tx<H>> {
    if txs == [] then []
    else SwapsOf(txs[..|txs| - 1]) + (if txs[|txs| - 1].swap.Some? then [txs[|txs| - 1]] else [])
  }

  function SinglesOf<H>(txs: seq<Tx<H>>): seq<Item<H>> {
    if txs == [] then []
    else SinglesOf(txs[..|txs| - 1]) + (if txs[|txs| - 1].swap.None? then [Single(txs[|txs| - 1])] else [])
  }

  /** Pairs first, then single transactions; the end of the list is considered first. */
  function PendingOf<H(==)>(sorted: seq<Tx<H>>): seq<Item<H>> {
    PairUp(SwapsOf(sorted)).pairs + SinglesOf(sorted)
  }

  lemma SnocCounts<A>(a: seq<A>, b: seq<A>, c: seq<A>, x: A)
    requires multiset(a) + multiset(b) == multiset(c)
    ensures multiset(a + [x]) + multiset(b) == multiset(c + [x])
    ensures multiset(a) + multiset(b + [x]) == multiset(c + [x])
  {}

  lemma {:induction false} SplitCounts<H>(txs: seq<Tx<H>>)
    ensures multiset(SwapsOf(txs)) + multiset(Flatten(SinglesOf(txs))) == multiset(txs)
  {
    if txs != [] {
      var n := |txs| - 1;
      var before, tx := txs[..n], txs[n];
      assert before + [tx] == txs;
      SplitCounts(before);
      SplitStep(before, tx);
    } else {
      assert SwapsOf(txs) == [] && Flatten(SinglesOf(txs)) == [];
    }
  }

  lemma SplitStep<H>(before: seq<Tx<H>>, tx: Tx<H>)
    requires multiset(SwapsOf(before)) + multiset(Flatten(SinglesOf(before))) == multiset(before)
    ensures multiset(SwapsOf(before + [tx])) + multiset(Flatten(SinglesOf(before + [tx]))) == multiset(before + [tx])
  {
    assert (before + [tx])[..|before|] == before;
    var swaps, singles := SwapsOf(before), SinglesOf(before);
    SnocCounts(swaps, Flatten(singles), before, tx);
    if tx.swap.None? {
      FlattenSnoc(singles, Single(tx));
      assert SwapsOf(before + [tx]) == swaps && SinglesOf(before + [tx]) == singles + [Single(tx)];
    } else {
      assert SwapsOf(before + [tx]) == swaps + [tx] && SinglesOf(before + [tx]) == singles;
    }
  }

  /** The pending list and the swap transactions left alone are the pool, each transaction once. */
  lemma PendingConserves<H>(sorted: seq<Tx<H>>)
    ensures multiset(Flatten(PendingOf(sorted))) + multiset(PairUp(SwapsOf(sorted)).alone) == multiset(sorted)
  {
    SplitCounts(sorted);
    PairUpConserves(SwapsOf(sorted));
    FlattenConcat(PairUp(SwapsOf(sorted)).pairs, SinglesOf(sorted));
    ConcatCounts(Flatten(PairUp(SwapsOf(sorted)).pairs), Flatten(SinglesOf(sorted)));
  }

  /** A transaction on its own asks for no swap; a pair swaps with each other. */
  ghost predicate WellPaired<H>(item: Item<H>) {
    match item
    case Single(tx) => tx.swap.None?
    case Pair(a, b) => SwapTogether(a, b)
  }

  lemma {:induction false} SinglesWellPaired<H>(txs: seq<Tx<H>>)
    ensures forall item :: item in SinglesOf(txs) ==> WellPaired(item)
    ensures forall tx :: tx in txs && tx.swap.None? ==> Single(tx) in SinglesOf(txs)
  {
    if txs != [] {
      var n := |txs| - 1;
      assert txs == txs[..n] + [txs[n]];
      SinglesWellPaired(txs[..n]);
    }
  }

  lemma PendingWellPaired<H>(sorted: seq<Tx<H>>)
    ensures forall item :: item in PendingOf(sorted) ==> WellPaired(item)
    ensures forall tx :: tx in sorted && tx.swap.None? ==> Single(tx) in PendingOf(sorted)
    ensures forall item :: item in PairUp(SwapsOf(sorted)).pairs ==> item in PendingOf(sorted)
  {
    SinglesWellPaired(sorted);
    PairUpMutual(SwapsOf(sorted));
  }

  // ----- the picked list

  ghost predicate Apart<H(!new)>(a: seq<Tx<H>>, b: seq<Tx<H>>) {
    forall x, y :: x in a && y in b ==> x.hash != y.hash
  }

  lemma DistinctSplit<H(!new)>(a: seq<Tx<H>>, b: seq<Tx<H>>)
    ensures DistinctHashes(a + b) <==> DistinctHashes(a) && DistinctHashes(b) && Apart(a, b)
  {
    var ab := a + b;
    if DistinctHashes(ab) {
      forall i, j | 0 <= i < j < |b| ensures b[i].hash != b[j].hash { assert ab[|a| + i].hash != ab[|a| + j].hash; }
      forall i, j | 0 <= i < j < |a| ensures a[i].hash != a[j].hash { assert ab[i].hash != ab[j].hash; }
      forall x, y | x in a && y in b ensures x.hash != y.hash {
        var i :| 0 <= i < |a| && a[i] == x;
        var j :| 0 <= j < |b| && b[j] == y;
        assert ab[i].hash != ab[|a| + j].hash;
      }
    }
    if DistinctHashes(a) && DistinctHashes(b) && Apart(a, b) {
      forall i, j | 0 <= i < j < |ab| ensures ab[i].hash != ab[j].hash {
        if i < |a| <= j { assert a[i] in a && b[j - |a|] in b; }
      }
    }
  }

  /** Picking from distinct transactions gives distinct ones among them. */
  lemma {:induction false} TakeDistinct<H(!new)>(pending: seq<Item<H>>, n: nat, available: int, pays: Item<H> -> bool)
    requires n <= |pending| && DistinctHashes(FlattenTo(pending, n))
    ensures DistinctHashes(Flatten(TakeTo(pending, n, available, pays).items))
    ensures forall tx :: tx in Flatten(TakeTo(pending, n, available, pays).items) ==> tx in FlattenTo(pending, n)
  {
    if available > 0 && n > 0 {
      var item := pending[n - 1];
      var fits := Affordable(item, available, pays);
      var next := if fits then available - item.Size() else available;
      var taken := TakeTo(pending, n - 1, next, pays).items;
      DistinctSplit(FlattenTo(pending, n - 1), item.Txs());
      TakeDistinct(pending, n - 1, next, pays);
      FlattenPrepend(item, taken);
      DistinctSplit(item.Txs(), Flatten(taken));
    } else {
      assert Flatten<H>([]) == [];
    }
  }

  lemma CountsDistinct<H(!new)>(part: seq<Tx<H>>, whole: seq<Tx<H>>)
    requires DistinctHashes(whole) && multiset(part) <= multiset(whole)
    ensures DistinctHashes(part) && forall tx :: tx in part ==> tx in whole
  {
    forall tx | tx in part ensures tx in whole {
      assert tx in multiset(part);
    }
    assert Distinct(whole);
    forall i, j | 0 <= i < j < |part| ensures part[i].hash != part[j].hash {
      SameHashSameTx(whole, part[i], part[j]);
      TwiceCounted(part, i, j);
      DistinctOnce(whole, part[i]);
    }
  }

  lemma SameHashSameTx<H(!new)>(txs: seq<Tx<H>>, a: Tx<H>, b: Tx<H>)
    requires DistinctHashes(txs) && a in txs && b in txs
    ensures a.hash == b.hash ==> a == b
  {
    var i :| 0 <= i < |txs| && txs[i] == a;
    var j :| 0 <= j < |txs| && txs[j] == b;
    assert i == j || a.hash != b.hash;
  }

  /** What is picked: distinct members of the pool, within the byte budget, each entry paying its price, each swap next
      to the partner it swaps with. */
  lemma PickSound<H(!new)>(sorted: seq<Tx<H>>, maxBytes: int, price: nat)
    requires DistinctHashes(sorted)
    ensures var pick := Take(PendingOf(sorted), maxBytes, Pays(price));
      var picked := Flatten(pick.items);
      && DistinctHashes(picked) && (forall tx :: tx in picked ==> tx in sorted)
      && (maxBytes >= 0 ==> TotalSize(picked) <= maxBytes)
      && (maxBytes <= 0 ==> picked == [])
      && forall item :: item in pick.items ==>
           && WellPaired(item)
           && match item
              case Single(tx) => tx.fee >= price * tx.size
              case Pair(a, b) => a.fee + b.fee >= price * (a.size + b.size)
  {
    var pending := PendingOf(sorted);
    var pick := Take(pending, maxBytes, Pays(price));
    PendingConserves(sorted);
    CountsDistinct(Flatten(pending), sorted);
    TakeDistinct(pending, |pending|, maxBytes, Pays(price));
    TakeWithinBudget(pending, |pending|, maxBytes, Pays(price));
    TakeSound(pending, |pending|, maxBytes, Pays(price));
    PendingWellPaired(sorted);
  }

  /** Nothing affordable is left behind: a transaction without swap, or a pair, that pays its price was picked or is
      larger than the bytes left; and no two swap transactions left without a partner could have swapped. */
  lemma PickSaturated<H(!new)>(sorted: seq<Tx<H>>, maxBytes: int, price: nat)
    requires forall tx :: tx in sorted ==> tx.size > 0
    ensures var pick := Take(PendingOf(sorted), maxBytes, Pays(price));
      && (forall tx :: tx in sorted && tx.swap.None? && tx.fee >= price * tx.size ==>
            Single(tx) in pick.items || tx.size > pick.left)
      && (forall a, b :: Pair(a, b) in PairUp(SwapsOf(sorted)).pairs && a.fee + b.fee >= price * (a.size + b.size) ==>
            Pair(a, b) in pick.items || a.size + b.size > pick.left)
      && NoMatches(PairUp(SwapsOf(sorted)).alone)
  {
    PendingWellPaired(sorted);
    PairUpMaximal(SwapsOf(sorted));
    forall tx | tx in sorted && tx.swap.None? && tx.fee >= price * tx.size
      ensures Single(tx) in Take(PendingOf(sorted), maxBytes, Pays(price)).items
           || tx.size > Take(PendingOf(sorted), maxBytes, Pays(price)).left
    {
      EntrySaturated(PendingOf(sorted), maxBytes, price, Single(tx));
    }
    forall a, b | Pair(a, b) in PairUp(SwapsOf(sorted)).pairs && a.fee + b.fee >= price * (a.size + b.size)
      ensures Pair(a, b) in Take(PendingOf(sorted), maxBytes, Pays(price)).items
           || a.size + b.size > Take(PendingOf(sorted), maxBytes, Pays(price)).left
    {
      PairsFromPool(sorted, Pair(a, b));
      EntrySaturated(PendingOf(sorted), maxBytes, price, Pair(a, b));
    }
  }

  lemma EntrySaturated<H>(pending: seq<Item<H>>, maxBytes: int, price: nat, item: Item<H>)
    requires item in pending && MeetsPrice(item, price) && item.Size() > 0
    ensures item in Take(pending, maxBytes, Pays(price)).items
         || item.Size() > Take(pending, maxBytes, Pays(price)).left
  {
    var i :| 0 <= i < |pending| && pending[i] == item;
    TakeSaturated(pending, |pending|, maxBytes, Pays(price), i);
  }

  lemma PairsFromPool<H(!new)>(sorted: seq<Tx<H>>, item: Item<H>)
    requires item in PairUp(SwapsOf(sorted)).pairs
    ensures item.Pair? && item.alice in sorted && item.bob in sorted
  {
    PairUpMutual(SwapsOf(sorted));
    var pending := PendingOf(sorted);
    PendingWellPaired(sorted);
    var i :| 0 <= i < |pending| && pending[i] == item;
    FlattenMembers(pending, |pending|, i);
    PendingFromPool(sorted, item.alice);
    PendingFromPool(sorted, item.bob);
  }

  lemma PendingFromPool<H(!new)>(sorted: seq<Tx<H>>, tx: Tx<H>)
    requires tx in Flatten(PendingOf(sorted))
    ensures tx in sorted
  {
    PendingConserves(sorted);
    assert tx in multiset(Flatten(PendingOf(sorted)));
    assert tx in multiset(sorted);
  }

  lemma {:induction false} FlattenMembers<H>(items: seq<Item<H>>, n: nat, i: nat)
    requires i < n <= |items|
    ensures forall tx :: tx in items[i].Txs() ==> tx in FlattenTo(items, n)
  {
    if i < n - 1 { FlattenMembers(items, n - 1, i); }
  }
}
