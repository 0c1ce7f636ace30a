/** packages/coordinator/src/tx-pool.ts: the mempool object. */
module TxPools {
  import opened Sequences
  import opened TxPoolSpec
  import opened TxQueueSpec
  import TxRoot

  class TxMemPool<H(==,!new)> {
    var txs: map<H, Tx<H>>
    var queued: map<H, seq<Tx<H>>>

    constructor ()
      ensures State() == Pool(map[], map[]) && ValidPool(State())
    {
      txs, queued := map[], map[];
    }

    ghost function State(): Pool<H>
      reads this
    {
      Pool(txs, queued)
    }

    method AddToTxPool(added: seq<Tx<H>>)
      requires ValidPool(State())
      modifies this`txs
      ensures ValidPool(State()) && txs == Add(old(txs), added)
    {
      for i := 0 to |added|
        invariant ValidPool(State()) && txs == Add(old(txs), added[..i])
      {
        txs := txs[added[i].hash := added[i]];
        assert added[..i + 1][..i] == added[..i];
      }
      assert added[..|added|] == added;
    }

    method RemoveFromTxPool(removed: seq<Tx<H>>)
      requires ValidPool(State())
      modifies this`txs
      ensures ValidPool(State()) && txs == Remove(old(txs), removed)
    {
      for i := 0 to |removed|
        invariant ValidPool(State()) && txs == Remove(old(txs), removed[..i])
      {
        txs := txs - {removed[i].hash};
        assert removed[..i + 1][..i] == removed[..i];
      }
      assert removed[..|removed|] == removed;
    }

    method MarkAsIncluded(hash: (H, H) -> H, zero: H, included: seq<Tx<H>>)
      requires ValidPool(State())
      modifies this
      ensures ValidPool(State()) && State() == TxQueueSpec.MarkAsIncluded(old(State()), hash, zero, included)
    {
      var txRoot := TxRoot.Root(hash, zero, HashesOf(included));
      queued := queued[txRoot := included];
      RemoveFromTxPool(included);
    }

    method Drop(txRoot: H)
      modifies this`queued
      ensures State() == TxQueueSpec.Drop(old(State()), txRoot)
    {
      queued := queued - {txRoot};
    }

    method Revert(txRoot: H)
      requires ValidPool(State())
      modifies this
      ensures ValidPool(State()) && State() == TxQueueSpec.Revert(old(State()), txRoot)
    {
      if txRoot in queued { AddToTxPool(queued[txRoot]); }
      queued := queued - {txRoot};
    }

    /** The pool by ascending fee. The source's comparison leaves the order of equal fees open, and so does this. */
    method GetSortedTxs() returns (sorted: seq<Tx<H>>)
      requires ValidPool(State())
      ensures SortedByFee(sorted) && DistinctHashes(sorted)
      ensures forall tx :: tx in sorted <==> tx.hash in txs && txs[tx.hash] == tx
    {
      var values: seq<Tx<H>> := [];
      var rest := txs.Keys;
      while rest != {}
        invariant rest <= txs.Keys && DistinctHashes(values)
        invariant forall tx :: tx in values <==> tx.hash in txs.Keys - rest && txs[tx.hash] == tx
      {
        var k :| k in rest;
        values := values + [txs[k]];
        rest := rest - {k};
      }
      sorted := SortBy((tx: Tx<H>) => tx.fee, values);
      SortedTxs(sorted, values);
    }

    /** Removes the transactions already included in a verified block, then picks for the next block. `sorted` is the
        order of the pool that was used. */
    method PickTxs(maxBytes: int, minPricePerByte: nat, verified: set<H>)
      returns (picked: seq<Tx<H>>, ghost sorted: seq<Tx<H>>)
      requires ValidPool(State())
      modifies this`txs
      ensures ValidPool(State()) && txs == old(txs) - verified
      ensures SortedByFee(sorted) && DistinctHashes(sorted)
      ensures forall tx :: tx in sorted <==> tx.hash in txs && txs[tx.hash] == tx
      ensures picked == Flatten(Take(PendingOf(sorted), maxBytes, Pays(minPricePerByte)).items)
    {
      txs := txs - verified;
      var order := GetSortedTxs();
      sorted := order;
      var swapTxs: seq<Tx<H>> := [];
      var singles: seq<Item<H>> := [];
      for i := 0 to |order|
        invariant txs == old(txs) - verified
        invariant swapTxs == SwapsOf(order[..i]) && singles == SinglesOf(order[..i])
      {
        assert order[..i + 1][..i] == order[..i];
        if order[i].swap.Some? { swapTxs := swapTxs + [order[i]]; } else { singles := singles + [Single(order[i])]; }
      }
      assert order[..|order|] == order;
      var pending := PairSwaps(swapTxs);
      pending := pending + singles;
      var left;
      picked, left := PickItems(pending, maxBytes, minPricePerByte);
    }
  }

  lemma SortedTxs<H(!new)>(sorted: seq<Tx<H>>, values: seq<Tx<H>>)
    requires multiset(sorted) == multiset(values) && DistinctHashes(values)
    requires Ascending((tx: Tx<H>) => tx.fee, sorted)
    ensures SortedByFee(sorted) && DistinctHashes(sorted) && forall tx :: tx in sorted <==> tx in values
  {
    var fee := (tx: Tx<H>) => tx.fee;
    assert forall i, j :: 0 <= i < j < |sorted| ==> fee(sorted[i]) <= fee(sorted[j]);
    CountsDistinct(sorted, values);
    forall tx ensures tx in sorted <==> tx in values {
      assert tx in sorted <==> tx in multiset(sorted);
      assert tx in values <==> tx in multiset(values);
    }
  }

  /** The `while` loop over swapTxs. */
  method PairSwaps<H(==)>(swaps: seq<Tx<H>>) returns (pending: seq<Item<H>>)
    ensures pending == PairUp(swaps).pairs
  {
    var swapTxs := swaps;
    pending := [];
    while swapTxs != []
      invariant pending + PairUp(swapTxs).pairs == PairUp(swaps).pairs
      decreases |swapTxs|
    {
      var alices := swapTxs[0];
      swapTxs := swapTxs[1..];
      var k := FirstMatch(alices, swapTxs);
      if k < |swapTxs| {
        var bobs := swapTxs[k];
        swapTxs := Delete(swapTxs, k);
        pending := pending + [Pair(alices, bobs)];
      }
    }
  }

  /** What is picked so far and what the rest of the loop will pick make up the whole. */
  ghost predicate Picking<H>(pending: seq<Item<H>>, whole: Pick<H>, n: nat, left: int, items: seq<Item<H>>,
                             pays: Item<H> -> bool)
    requires n <= |pending|
  {
    items + TakeTo(pending, n, left, pays).items == whole.items && TakeTo(pending, n, left, pays).left == whole.left
  }

  lemma PickingNext<H>(pending: seq<Item<H>>, whole: Pick<H>, n: nat, left: int, items: seq<Item<H>>,
                       pays: Item<H> -> bool)
    requires n < |pending| && left > 0 && Picking(pending, whole, n + 1, left, items, pays)
    ensures if Affordable(pending[n], left, pays)
            then Picking(pending, whole, n, left - pending[n].Size(), items + [pending[n]], pays)
            else Picking(pending, whole, n, left, items, pays)
  {
    if Affordable(pending[n], left, pays) {
      ConcatAssociative(items, [pending[n]], TakeTo(pending, n, left - pending[n].Size(), pays).items);
    }
  }

  /** The picking loop: pops the last pending entry while bytes are left. */
  method PickItems<H>(pending: seq<Item<H>>, maxBytes: int, price: nat) returns (picked: seq<Tx<H>>, left: int)
    ensures picked == Flatten(Take(pending, maxBytes, Pays(price)).items)
    ensures left == Take(pending, maxBytes, Pays(price)).left
  {
    var n := |pending|;
    left := maxBytes;
    picked := [];
    ghost var items: seq<Item<H>> := [];
    ghost var whole := Take(pending, maxBytes, Pays(price));
    while left > 0 && n > 0
      invariant 0 <= n <= |pending| && picked == Flatten(items)
      invariant Picking(pending, whole, n, left, items, Pays(price))
      decreases n
    {
      n := n - 1;
      PickingNext(pending, whole, n, left, items, Pays(price));
      var item := pending[n];
      if left >= item.Size() && item.Fee() >= price * item.Size() {
        left := left - item.Size();
        FlattenSnoc(items, item);
        items := items + [item];
        picked := picked + item.Txs();
      }
    }
    assert items + [] == items;
  }
}
