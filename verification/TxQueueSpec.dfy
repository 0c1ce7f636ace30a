/** The pool and the queue of blocks under way: packages/coordinator/src/tx-pool.ts on values. */
module TxQueueSpec {
  import opened Sequences
  import opened Hashers
  import opened TxPoolSpec
  import TxRoot

  // ----- the queue of proposed blocks

  datatype Pool<H> = Pool(txs: map<H, Tx<H>>, queued: map<H, seq<Tx<H>>>)

  ghost predicate ValidPool<H(!new)>(p: Pool<H>) {
    forall k :: k in p.txs ==> p.txs[k].hash == k
  }

  function HashesOf<H>(txs: seq<Tx<H>>): (s: seq<H>)
    ensures |s| == |txs| && forall i :: 0 <= i < |s| ==> s[i] == txs[i].hash
  {
    seq(|txs|, i requires 0 <= i < |txs| => txs[i].hash)
  }

  function KeyOf<H>(hash: (H, H) -> H, zero: H, txs: seq<Tx<H>>): H {
    TxRoot.RootOf(hash, zero, HashesOf(txs))
  }

  function Remove<H>(m: map<H, Tx<H>>, txs: seq<Tx<H>>): map<H, Tx<H>> {
    if txs == [] then m else Remove(m, txs[..|txs| - 1]) - {txs[|txs| - 1].hash}
  }

  function Add<H>(m: map<H, Tx<H>>, txs: seq<Tx<H>>): map<H, Tx<H>> {
    if txs == [] then m else Add(m, txs[..|txs| - 1])[txs[|txs| - 1].hash := txs[|txs| - 1]]
  }

  function MarkAsIncluded<H>(p: Pool<H>, hash: (H, H) -> H, zero: H, txs: seq<Tx<H>>): Pool<H> {
    Pool(Remove(p.txs, txs), p.queued[KeyOf(hash, zero, txs) := txs])
  }

  function Drop<H>(p: Pool<H>, txRoot: H): Pool<H> {
    p.(queued := p.queued - {txRoot})
  }

  function Revert<H>(p: Pool<H>, txRoot: H): Pool<H> {
    Pool(if txRoot in p.queued then Add(p.txs, p.queued[txRoot]) else p.txs, p.queued - {txRoot})
  }

  ghost predicate Members<H(!new)>(m: map<H, Tx<H>>, txs: seq<Tx<H>>) {
    forall i :: 0 <= i < |txs| ==> txs[i].hash in m && m[txs[i].hash] == txs[i]
  }

  lemma {:induction false} RemoveReads<H(!new)>(m: map<H, Tx<H>>, txs: seq<Tx<H>>, k: H)
    ensures k in Remove(m, txs) <==> k in m && forall i :: 0 <= i < |txs| ==> txs[i].hash != k
    ensures k in Remove(m, txs) ==> Remove(m, txs)[k] == m[k]
    decreases |txs|
  {
    if txs != [] {
      var n := |txs| - 1;
      RemoveReads(m, txs[..n], k);
      assert forall i :: 0 <= i < n ==> txs[..n][i] == txs[i];
    }
  }

  lemma {:induction false} AddReads<H(!new)>(m: map<H, Tx<H>>, txs: seq<Tx<H>>, k: H)
    ensures k in Add(m, txs) <==> k in m || exists i :: 0 <= i < |txs| && txs[i].hash == k
    ensures k in Add(m, txs) && (forall i :: 0 <= i < |txs| ==> txs[i].hash != k) ==> Add(m, txs)[k] == m[k]
    ensures k in Add(m, txs) && (exists i :: 0 <= i < |txs| && txs[i].hash == k) ==>
      exists i :: 0 <= i < |txs| && txs[i].hash == k && Add(m, txs)[k] == txs[i]
    decreases |txs|
  {
    if txs != [] {
      var n := |txs| - 1;
      AddReads(m, txs[..n], k);
      assert forall i :: 0 <= i < n ==> txs[..n][i] == txs[i];
    }
  }

  /** Of several transactions under one hash the last one added stays. */
  lemma {:induction false} LastAddedStays<H(!new)>(m: map<H, Tx<H>>, txs: seq<Tx<H>>, i: nat)
    requires i < |txs| && forall j :: i < j < |txs| ==> txs[j].hash != txs[i].hash
    ensures txs[i].hash in Add(m, txs) && Add(m, txs)[txs[i].hash] == txs[i]
    decreases |txs|
  {
    if i < |txs| - 1 { LastAddedStays(m, txs[..|txs| - 1], i); }
  }

  /** Including a block takes exactly its transactions out of the pool and puts it into the queue under its root;
      dropping it then leaves the pool without them. */
  lemma IncludedLeavePool<H(!new)>(p: Pool<H>, hash: (H, H) -> H, zero: H, txs: seq<Tx<H>>)
    ensures var key := KeyOf(hash, zero, txs);
      var after := MarkAsIncluded(p, hash, zero, txs);
      && (forall tx :: tx in txs ==> tx.hash !in after.txs)
      && (forall k :: k in p.txs && (forall tx :: tx in txs ==> tx.hash != k) ==>
            k in after.txs && after.txs[k] == p.txs[k])
      && after.txs.Keys <= p.txs.Keys
      && key in after.queued && after.queued[key] == txs
      && after.queued.Keys == p.queued.Keys + {key}
      && (forall k :: k in p.queued && k != key ==> after.queued[k] == p.queued[k])
      && Drop(after, key) == Pool(after.txs, p.queued - {key})
  {
    var after := Remove(p.txs, txs);
    forall k ensures k in after <==> k in p.txs && forall i :: 0 <= i < |txs| ==> txs[i].hash != k
             ensures k in after ==> after[k] == p.txs[k]
    {
      RemoveReads(p.txs, txs, k);
    }
    forall tx | tx in txs ensures tx.hash !in after {
      var i :| 0 <= i < |txs| && txs[i] == tx;
    }
  }

  /** Reverting gives back exactly the transactions queued under the key, whatever the pool holds by then, and forgets
      only that block; a key that is not queued changes nothing. */
  lemma RevertGivesBack<H(!new)>(p: Pool<H>, key: H, k: H)
    ensures Revert(p, key).queued == p.queued - {key}
    ensures key !in p.queued ==> Revert(p, key) == p
    ensures key in p.queued ==>
      var txs, after := p.queued[key], Revert(p, key).txs;
      var given := exists i :: 0 <= i < |txs| && txs[i].hash == k;
      && (k in after <==> k in p.txs || given)
      && (given ==> exists i :: 0 <= i < |txs| && txs[i].hash == k && after[k] == txs[i])
      && (k in p.txs && !given ==> after[k] == p.txs[k])
  {
    if key in p.queued { AddReads(p.txs, p.queued[key], k); }
  }

  /** A reverted block gives its transactions back: the pool is as it was, and the queue forgets the block. */
  lemma RevertUndoesMark<H(!new)>(p: Pool<H>, hash: (H, H) -> H, zero: H, txs: seq<Tx<H>>)
    requires Members(p.txs, txs)
    ensures var key := KeyOf(hash, zero, txs);
      Revert(MarkAsIncluded(p, hash, zero, txs), key) == Pool(p.txs, p.queued - {key})
  {
    var removed := Remove(p.txs, txs);
    var back := Add(removed, txs);
    forall k ensures k in back <==> k in p.txs
             ensures k in back ==> back[k] == p.txs[k]
    {
      RemoveReads(p.txs, txs, k);
      AddReads(removed, txs, k);
    }
    assert back == p.txs;
  }

  /** Two different blocks of distinct transactions never share a queue key, so one never overwrites the other and each
      can be dropped or reverted by itself. */
  lemma BlocksDoNotCollide<H(!new)>(p: Pool<H>, hash: (H, H) -> H, zero: H, a: seq<Tx<H>>, b: seq<Tx<H>>)
    requires Injective(hash) && a != [] && b != [] && HashesOf(a) != HashesOf(b)
    requires DistinctHashes(a) && DistinctHashes(b)
    requires TxRoot.NoParentHashes(hash, HashesOf(a)) && TxRoot.NoParentHashes(hash, HashesOf(b))
    ensures var ka, kb := KeyOf(hash, zero, a), KeyOf(hash, zero, b);
      var both := MarkAsIncluded(MarkAsIncluded(p, hash, zero, a), hash, zero, b);
      && ka != kb
      && both.queued[ka] == a && both.queued[kb] == b
      && Drop(both, kb).queued == p.queued[ka := a] - {kb}
      && Revert(both, ka).queued == p.queued[kb := b] - {ka}
  {
    var ha, hb := HashesOf(a), HashesOf(b);
    assert Distinct(ha) && Distinct(hb);
    TxRoot.RootBinding(hash, zero, ha, hb);
  }
}
