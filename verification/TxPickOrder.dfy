/** Which transactions come first: the order in which packages/coordinator/src/tx-pool.ts pairs and picks. */
module TxPickOrder {
  import opened Options
  import opened Sequences
  import opened TxPoolSpec

  // ----- pairs

  lemma SortedPart<H>(txs: seq<Tx<H>>, k: nat)
    requires SortedByFee(txs) && txs != [] && k < |txs[1..]|
    ensures SortedByFee(txs[1..]) && SortedByFee(Delete(txs[1..], k))
  {}

  lemma FirstCheapest<H>(txs: seq<Tx<H>>, tx: Tx<H>)
    requires SortedByFee(txs) && tx in txs
    ensures txs[0].fee <= tx.fee
  {
    var i :| 0 <= i < |txs| && txs[i] == tx;
  }

  /** Both sides of a pair are among the transactions that wait for a swap. */
  lemma {:induction false} PairsAmong<H>(swaps: seq<Tx<H>>)
    ensures forall item :: item in PairUp(swaps).pairs ==> item.Pair? && item.alice in swaps && item.bob in swaps
    decreases |swaps|
  {
    if swaps != [] {
      var rest := swaps[1..];
      var k := FirstMatch(swaps[0], rest);
      if k < |rest| {
        PairsAmong(Delete(rest, k));
        DeleteMembers(rest, k);
      } else {
        PairsAmong(rest);
      }
    }
  }

  /** The pairs come by their cheaper side, which found the other, in ascending order. */
  ghost predicate PairsAscend<H>(pairs: seq<Item<H>>) {
    && (forall i :: 0 <= i < |pairs| ==> pairs[i].Pair? && pairs[i].alice.fee <= pairs[i].bob.fee)
    && forall i, j :: 0 <= i < j < |pairs| ==> pairs[i].alice.fee <= pairs[j].alice.fee
  }

  lemma {:induction false} PairsByFee<H>(swaps: seq<Tx<H>>)
    requires SortedByFee(swaps)
    ensures PairsAscend(PairUp(swaps).pairs)
    decreases |swaps|
  {
    if swaps != [] {
      var alice, rest := swaps[0], swaps[1..];
      var k := FirstMatch(alice, rest);
      if k < |rest| {
        var others := Delete(rest, k);
        SortedPart(swaps, k);
        PairsByFee(others);
        PairsAmong(others);
        DeleteMembers(rest, k);
        var pairs := PairUp(others).pairs;
        forall j | 0 <= j < |pairs| ensures alice.fee <= pairs[j].alice.fee {
          assert pairs[j] in pairs;
          FirstCheapest(swaps, pairs[j].alice);
        }
      } else {
        PairsByFee(rest);
      }
    }
  }

  /** c already has a partner when the i-th pair is made. */
  ghost predicate TakenEarlier<H>(pairs: seq<Item<H>>, i: nat, c: Tx<H>) {
    exists q :: 0 <= q < i && q < |pairs| && c in pairs[q].Txs()
  }

  /** The i-th pair would rather be with c. */
  predicate Prefers<H(==)>(pair: Item<H>, c: Tx<H>) {
    pair.Pair? && Match(pair.alice, c) && c != pair.alice && c.fee < pair.bob.fee
  }

  lemma FirstPrefersNone<H>(swaps: seq<Tx<H>>, k: nat, c: Tx<H>)
    requires SortedByFee(swaps) && swaps != [] && k == FirstMatch(swaps[0], swaps[1..]) < |swaps[1..]|
    requires c in swaps && c != swaps[0]
    ensures !Prefers(Pair(swaps[0], swaps[1..][k]), c)
  {
    var j :| 0 <= j < |swaps| && swaps[j] == c;
    if j - 1 < k { assert !Match(swaps[0], swaps[1..][j - 1]); }
  }

  lemma AlonePrefersNone<H>(swaps: seq<Tx<H>>, pairs: seq<Item<H>>, i: nat)
    requires swaps != [] && FirstMatch(swaps[0], swaps[1..]) == |swaps[1..]|
    requires pairs == PairUp(swaps[1..]).pairs && i < |pairs|
    ensures !Prefers(pairs[i], swaps[0])
  {
    var rest := swaps[1..];
    PairsAmong(rest);
    assert pairs[i] in pairs;
    var other := pairs[i].alice;
    var j :| 0 <= j < |rest| && rest[j] == other;
  }

  /** One round that makes a pair, when the rest of the pairing is as claimed. */
  lemma PairingRound<H>(swaps: seq<Tx<H>>, k: nat, pairs: seq<Item<H>>, i: nat, c: Tx<H>)
    requires SortedByFee(swaps) && swaps != [] && k == FirstMatch(swaps[0], swaps[1..]) < |swaps[1..]|
    requires i <= |pairs| && c in swaps && Prefers(([Pair(swaps[0], swaps[1..][k])] + pairs)[i], c)
    requires i > 0 && c != swaps[0] && c != swaps[1..][k] ==> TakenEarlier(pairs, i - 1, c)
    ensures TakenEarlier([Pair(swaps[0], swaps[1..][k])] + pairs, i, c)
  {
    var first := Pair(swaps[0], swaps[1..][k]);
    if i == 0 {
      FirstPrefersNone(swaps, k, c);
    } else if c == swaps[0] || c == swaps[1..][k] {
      assert c in ([first] + pairs)[0].Txs();
    } else {
      LaterTaken(first, pairs, i - 1, c);
    }
  }

  /** The cheaper side swaps with the cheapest partner it could have: whatever else it matches at a lower fee than its
      partner's already has one. */
  lemma {:induction false} PairPrefers<H>(swaps: seq<Tx<H>>, i: nat, c: Tx<H>)
    requires SortedByFee(swaps) && i < |PairUp(swaps).pairs| && c in swaps && Prefers(PairUp(swaps).pairs[i], c)
    ensures TakenEarlier(PairUp(swaps).pairs, i, c)
    decreases |swaps|
  {
    var alice, rest := swaps[0], swaps[1..];
    var k := FirstMatch(alice, rest);
    if k < |rest| {
      var others := Delete(rest, k);
      if i > 0 && c != alice && c != rest[k] {
        assert c in rest;
        SortedPart(swaps, k);
        KeptByDelete(rest, k, c);
        PairPrefers(others, i - 1, c);
      }
      PairingRound(swaps, k, PairUp(others).pairs, i, c);
    } else if c == alice {
      AlonePrefersNone(swaps, PairUp(rest).pairs, i);
    } else {
      PairPrefers(rest, i, c);
    }
  }

  lemma LaterTaken<H>(first: Item<H>, pairs: seq<Item<H>>, i: nat, c: Tx<H>)
    requires TakenEarlier(pairs, i, c)
    ensures TakenEarlier([first] + pairs, i + 1, c)
  {
    var q :| 0 <= q < i && q < |pairs| && c in pairs[q].Txs();
    assert ([first] + pairs)[q + 1] == pairs[q];
  }

  lemma KeptByDelete<A>(s: seq<A>, k: nat, x: A)
    requires k < |s| && x in s && x != s[k]
    ensures x in Delete(s, k)
  {
    var i :| 0 <= i < |s| && s[i] == x;
    if i < k { assert Delete(s, k)[i] == x; } else { assert Delete(s, k)[i - 1] == x; }
  }

  // ----- the pending list

  /** Both parts of the pending list keep the order of the pool. */
  lemma {:induction false} SwapsSorted<H>(sorted: seq<Tx<H>>)
    requires SortedByFee(sorted)
    ensures SortedByFee(SwapsOf(sorted)) && forall tx :: tx in SwapsOf(sorted) ==> tx in sorted && tx.swap.Some?
  {
    if sorted != [] {
      var n := |sorted| - 1;
      SwapsSorted(sorted[..n]);
      LastDearest(sorted);
    }
  }

  ghost predicate SinglesAscend<H>(items: seq<Item<H>>) {
    && (forall i :: 0 <= i < |items| ==> items[i].Single?)
    && forall i, j :: 0 <= i < j < |items| ==> items[i].tx.fee <= items[j].tx.fee
  }

  lemma {:induction false} SinglesSorted<H>(sorted: seq<Tx<H>>)
    requires SortedByFee(sorted)
    ensures SinglesAscend(SinglesOf(sorted))
    ensures forall i :: 0 <= i < |SinglesOf(sorted)| ==> SinglesOf(sorted)[i].tx in sorted
  {
    if sorted != [] {
      var n := |sorted| - 1;
      SinglesSorted(sorted[..n]);
      LastDearest(sorted);
    }
  }

  lemma LastDearest<H>(sorted: seq<Tx<H>>)
    requires SortedByFee(sorted) && sorted != []
    ensures SortedByFee(sorted[..|sorted| - 1])
    ensures forall tx :: tx in sorted[..|sorted| - 1] ==> tx in sorted && tx.fee <= sorted[|sorted| - 1].fee
  {}

  /** x is considered before y: single transactions before pairs, and each by falling fee. */
  predicate Before<H>(x: Item<H>, y: Item<H>) {
    match x
    case Single(a) => y.Pair? || y.tx.fee <= a.fee
    case Pair(a, _) => y.Pair? && y.alice.fee <= a.fee
  }

  ghost predicate ByFee<H>(items: seq<Item<H>>) {
    forall i, j :: 0 <= i < j < |items| ==> Before(items[i], items[j])
  }

  /** The pending list, from the end. */
  lemma PendingByFee<H>(sorted: seq<Tx<H>>)
    requires SortedByFee(sorted)
    ensures forall i, j :: 0 <= i < j < |PendingOf(sorted)| ==> Before(PendingOf(sorted)[j], PendingOf(sorted)[i])
  {
    SwapsSorted(sorted);
    SinglesSorted(sorted);
    PairsByFee(SwapsOf(sorted));
  }

  // ----- the pick

  lemma {:induction false} TakeAmong<H>(pending: seq<Item<H>>, n: nat, available: int, pays: Item<H> -> bool)
    requires n <= |pending|
    ensures forall item :: item in TakeTo(pending, n, available, pays).items ==>
      item in pending[..n] && item.Size() <= available && pays(item)
  {
    if available > 0 && n > 0 {
      assert pending[..n] == pending[..n - 1] + [pending[n - 1]];
      TakeAmong(pending, n - 1,
                if Affordable(pending[n - 1], available, pays) then available - pending[n - 1].Size() else available,
                pays);
    }
  }

  lemma {:induction false} TakeByFee<H>(pending: seq<Item<H>>, n: nat, available: int, pays: Item<H> -> bool)
    requires n <= |pending| && forall i, j :: 0 <= i < j < |pending| ==> Before(pending[j], pending[i])
    ensures ByFee(TakeTo(pending, n, available, pays).items)
  {
    if available > 0 && n > 0 {
      var next := if Affordable(pending[n - 1], available, pays) then available - pending[n - 1].Size() else available;
      TakeByFee(pending, n - 1, next, pays);
      TakeAmong(pending, n - 1, next, pays);
      var rest := TakeTo(pending, n - 1, next, pays).items;
      forall k | 0 <= k < |rest| ensures Before(pending[n - 1], rest[k]) {
        assert rest[k] in rest && rest[k] in pending[..n - 1];
        var i :| 0 <= i < n - 1 && pending[i] == rest[k];
      }
    }
  }

  /** An entry that pays its price and is passed over is larger than every entry picked after it. */
  lemma {:induction false} PassedOverLarger<H>(pending: seq<Item<H>>, n: nat, available: int, pays: Item<H> -> bool,
                                               i: nat, j: nat)
    requires j < i < n <= |pending| && pays(pending[i]) && forall a, b :: 0 <= a < b < n ==> pending[a] != pending[b]
    requires pending[i] !in TakeTo(pending, n, available, pays).items
    requires pending[j] in TakeTo(pending, n, available, pays).items
    ensures pending[j].Size() < pending[i].Size()
  {
    var item := pending[n - 1];
    var next := if Affordable(item, available, pays) then available - item.Size() else available;
    if i == n - 1 {
      TakeAmong(pending, n - 1, next, pays);
    } else {
      PassedOverLarger(pending, n - 1, next, pays, i, j);
    }
  }

  lemma EntriesDistinct<H(!new)>(pending: seq<Item<H>>, i: nat, j: nat)
    requires DistinctHashes(Flatten(pending)) && i < j < |pending|
    ensures pending[i] != pending[j]
  {
    assert pending == pending[..i + 1] + pending[i + 1..];
    FlattenConcat(pending[..i + 1], pending[i + 1..]);
    DistinctSplit(Flatten(pending[..i + 1]), Flatten(pending[i + 1..]));
    FlattenMembers(pending[..i + 1], i + 1, i);
    FlattenMembers(pending[i + 1..], |pending| - i - 1, j - i - 1);
    var x, y := pending[i].Txs()[0], pending[j].Txs()[0];
    assert x in Flatten(pending[..i + 1]) && y in Flatten(pending[i + 1..]);
  }

  /** What is picked comes single transactions first and each part by falling fee. */
  lemma PickedByFee<H>(sorted: seq<Tx<H>>, maxBytes: int, price: nat)
    requires SortedByFee(sorted)
    ensures ByFee(Take(PendingOf(sorted), maxBytes, Pays(price)).items)
  {
    PendingByFee(sorted);
    TakeByFee(PendingOf(sorted), |PendingOf(sorted)|, maxBytes, Pays(price));
  }

  /** Whatever pays its price and loses against something no smaller was to be considered after it. */
  lemma LosesToEarlier<H(!new)>(sorted: seq<Tx<H>>, maxBytes: int, price: nat, pending: seq<Item<H>>, x: Item<H>,
                                y: Item<H>)
    requires SortedByFee(sorted) && DistinctHashes(sorted) && pending == PendingOf(sorted)
    requires x in pending && y in pending && MeetsPrice(x, price) && x.Size() <= y.Size()
    requires y in Take(pending, maxBytes, Pays(price)).items && x !in Take(pending, maxBytes, Pays(price)).items
    ensures Before(y, x)
  {
    PendingByFee(sorted);
    PendingDistinct(sorted, pending);
    var i :| 0 <= i < |pending| && pending[i] == x;
    var j :| 0 <= j < |pending| && pending[j] == y;
    if j < i { PassedOverLarger(pending, |pending|, maxBytes, Pays(price), i, j); }
  }

  lemma PendingDistinct<H(!new)>(sorted: seq<Tx<H>>, pending: seq<Item<H>>)
    requires DistinctHashes(sorted) && pending == PendingOf(sorted)
    ensures forall a, b :: 0 <= a < b < |pending| ==> pending[a] != pending[b]
  {
    PendingConserves(sorted);
    CountsDistinct(Flatten(pending), sorted);
    forall a, b | 0 <= a < b < |pending| ensures pending[a] != pending[b] { EntriesDistinct(pending, a, b); }
  }

  /** The dearer transaction wins: one that pays its price and loses against another no smaller one pays no more. */
  lemma DearerFirst<H(!new)>(sorted: seq<Tx<H>>, maxBytes: int, price: nat, a: Tx<H>, b: Tx<H>)
    requires SortedByFee(sorted) && DistinctHashes(sorted) && a in sorted && b in sorted
    requires a.swap.None? && b.swap.None? && a.fee >= price * a.size && a.size <= b.size
    requires Single(b) in Take(PendingOf(sorted), maxBytes, Pays(price)).items
    requires Single(a) !in Take(PendingOf(sorted), maxBytes, Pays(price)).items
    ensures a.fee <= b.fee
  {
    PendingWellPaired(sorted);
    LosesToEarlier(sorted, maxBytes, price, PendingOf(sorted), Single(a), Single(b));
  }

  /** So does the pair with the dearer cheaper side. */
  lemma DearerPairFirst<H(!new)>(sorted: seq<Tx<H>>, maxBytes: int, price: nat, p: Item<H>, q: Item<H>)
    requires SortedByFee(sorted) && DistinctHashes(sorted)
    requires p in PairUp(SwapsOf(sorted)).pairs && q in PairUp(SwapsOf(sorted)).pairs && p.Pair? && q.Pair?
    requires p.alice.fee + p.bob.fee >= price * (p.alice.size + p.bob.size)
    requires p.alice.size + p.bob.size <= q.alice.size + q.bob.size
    requires q in Take(PendingOf(sorted), maxBytes, Pays(price)).items
    requires p !in Take(PendingOf(sorted), maxBytes, Pays(price)).items
    ensures p.alice.fee <= q.alice.fee
  {
    LosesToEarlier(sorted, maxBytes, price, PendingOf(sorted), p, q);
  }
}
