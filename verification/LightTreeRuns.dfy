/** Whole runs of an append-only tree: batches one after another, each with its own list of observed leaves. */
module LightTreeRuns {
  import opened Sequences
  import opened Bits
  import opened Hashers
  import opened FullTree
  import opened LightTreeSpec
  import opened LightTreeRefinement
  import opened LightTreeStore

  /** One call of `append`: what indexesOfTrackingLeaves() returned, and the leaves. */
  datatype Batch<T> = Batch(observed: seq<nat>, leaves: seq<Leaf<T>>)

  function TotalLeaves<T>(batches: seq<Batch<T>>): nat {
    if batches == [] then 0 else TotalLeaves(batches[..|batches| - 1]) + |batches[|batches| - 1].leaves|
  }

  function AllHashes<T>(batches: seq<Batch<T>>): (s: seq<T>)
    ensures |s| == TotalLeaves(batches)
  {
    if batches == [] then []
    else AllHashes(batches[..|batches| - 1]) + Hashes(batches[|batches| - 1].leaves)
  }

  function Run<T>(h: Hasher<T>, fullSync: bool, st: TreeState<T>, batches: seq<Batch<T>>): (r: TreeState<T>)
    requires |st.data.siblings| <= |h.preHash|
    requires st.data.index + TotalLeaves(batches) <= Pow2(|st.data.siblings|)
    ensures |r.data.siblings| == |st.data.siblings|
    ensures r.data.index == st.data.index + TotalLeaves(batches)
  {
    if batches == [] then st
    else
      var last := batches[|batches| - 1];
      Append(h, fullSync, last.observed, Run(h, fullSync, st, batches[..|batches| - 1]), last.leaves)
  }

  /** Leaf t is tracked while the batch that starts at `index` is appended. */
  ghost predicate Watched<T>(batch: Batch<T>, index: nat, t: nat) {
    t in batch.observed || (index <= t < index + |batch.leaves| && batch.leaves[t - index].shouldTrack)
  }

  /** Leaf t is tracked from the batch that appends it on. */
  ghost predicate WatchedThroughout<T>(batches: seq<Batch<T>>, index: nat, t: nat) {
    batches != [] ==>
      var before, last := batches[..|batches| - 1], batches[|batches| - 1];
      && WatchedThroughout(before, index, t)
      && (t < index + TotalLeaves(batches) ==> Watched(last, index + TotalLeaves(before), t))
  }

  // ----- the invariant of a tree whose full contents are s, whatever its table holds

  ghost predicate Consistent<T>(h: Hasher<T>, d: nat, st: TreeState<T>, s: seq<T>) {
    && Represents(h, d, st.data, s)
    && st.start <= st.end == |s|
    && SiblingsFresh(h, d, st.data, s, st.start)
  }

  lemma GenesisConsistent<T>(h: Hasher<T>, d: nat)
    requires IsHasher(h, d)
    ensures Consistent(h, d, Genesis(h), [])
  {
    GenesisRepresentsEmpty(h, d);
  }

  /** Resuming, over any table. */
  lemma ResumedConsistent<T>(h: Hasher<T>, d: nat, data: TreeData<T>, s: seq<T>, table: map<nat, T>)
    requires Represents(h, d, data, s) && |s| < Pow2(d)
    ensures Consistent(h, d, Resumed(data.root, data.index, Normalised(h, data), table), s)
  {}

  // ----- one batch, leaf by leaf

  lemma LevelOverlay<T>(d: nat, fullSync: bool, tracking: seq<nat>, index: nat, l: nat, w: Walk<T>, nodes: map<nat, T>,
                        before: map<nat, T>)
    requires l < d == |w.siblings| && index < Pow2(d)
    ensures nodes + CacheLevel(d, fullSync, tracking, index, l, w, before)
         == CacheLevel(d, fullSync, tracking, index, l, w, nodes + before)
  {
    PathInTree(d, index, l);
    var path := Shr(OrBit(d, index), l);
    assert nodes + before[path := w.node] == (nodes + before)[path := w.node];
    if index > 0 {
      PathInTree(d, index - 1, l);
      var prevSib := Xor1(Shr(OrBit(d, index - 1), l));
      var withPath := if Keeps(d, fullSync, tracking, path) then before[path := w.node] else before;
      assert nodes + withPath[prevSib := w.siblings[l]] == (nodes + withPath)[prevSib := w.siblings[l]];
    }
  }

  lemma {:induction false} CacheOverlay<T>(h: Hasher<T>, fullSync: bool, tracking: seq<nat>, index: nat, leaf: T,
                                           siblings: seq<T>, nodes: map<nat, T>, cached: map<nat, T>, level: nat)
    requires level <= |siblings| <= |h.preHash| && index < Pow2(|siblings|)
    ensures nodes + CacheTo(h, fullSync, tracking, index, leaf, siblings, cached, level)
         == CacheTo(h, fullSync, tracking, index, leaf, siblings, nodes + cached, level)
  {
    if level > 0 {
      var l := level - 1;
      CacheOverlay(h, fullSync, tracking, index, leaf, siblings, nodes, cached, l);
      LevelOverlay(|siblings|, fullSync, tracking, index, l, WalkTo(h, index, leaf, siblings, l), nodes,
                   CacheTo(h, fullSync, tracking, index, leaf, siblings, cached, l));
    }
  }

  /** A batch is its prefix followed by its last leaf, under the tracking list of that moment. */
  lemma AppendSnoc<T>(h: Hasher<T>, fullSync: bool, observed: seq<nat>, st: TreeState<T>, leaves: seq<Leaf<T>>)
    requires |st.data.siblings| <= |h.preHash| && st.data.index + |leaves| <= Pow2(|st.data.siblings|)
    requires leaves != []
    ensures var last := |leaves| - 1;
      var mid := Append(h, fullSync, observed, st, leaves[..last]);
      var end := Append(h, fullSync, observed, st, leaves);
      && end.data == AppendLeaf(h, mid.data, leaves[last].hash)
      && end.nodes == CacheTo(h, fullSync, Tracking(observed, st.data.index, leaves), mid.data.index, leaves[last].hash,
                              mid.data.siblings, mid.nodes, |mid.data.siblings|)
  {
    var last := |leaves| - 1;
    var mid := Append(h, fullSync, observed, st, leaves[..last]);
    assert Hashes(leaves)[..last] == Hashes(leaves[..last]);
    CacheOverlay(h, fullSync, Tracking(observed, st.data.index, leaves), mid.data.index, leaves[last].hash,
                 mid.data.siblings, st.nodes, CacheAll(h, fullSync, observed, st.data, leaves[..last], map[]),
                 |mid.data.siblings|);
  }

  lemma HashesSnoc<T>(s: seq<T>, leaves: seq<Leaf<T>>)
    requires leaves != []
    ensures s + Hashes(leaves[..|leaves| - 1]) + [leaves[|leaves| - 1].hash] == s + Hashes(leaves)
  {
    assert Hashes(leaves[..|leaves| - 1]) + [leaves[|leaves| - 1].hash] == Hashes(leaves);
  }

  lemma StepConsistent<T>(h: Hasher<T>, d: nat, fullSync: bool, tracking: seq<nat>, st: TreeState<T>, s: seq<T>, x: T)
    requires Consistent(h, d, st, s) && |s| < Pow2(d)
    ensures Consistent(h, d,
      TreeState(AppendLeaf(h, st.data, x), st.start, |s| + 1,
                CacheTo(h, fullSync, tracking, |s|, x, st.data.siblings, st.nodes, d)),
      s + [x])
  {
    AppendLeafRefines(h, d, st.data, s, x);
    AppendLeafKeepsFresh(h, d, st.data, s, x, st.start);
  }

  lemma {:induction false} BatchConsistent<T>(h: Hasher<T>, d: nat, fullSync: bool, observed: seq<nat>,
                                              st: TreeState<T>, s: seq<T>, leaves: seq<Leaf<T>>)
    requires Consistent(h, d, st, s) && |s| + |leaves| <= Pow2(d)
    ensures Consistent(h, d, Append(h, fullSync, observed, st, leaves), s + Hashes(leaves))
    decreases |leaves|
  {
    if leaves == [] {
      assert s + Hashes(leaves) == s;
      assert Append(h, fullSync, observed, st, leaves).nodes == st.nodes;
    } else {
      var last := |leaves| - 1;
      BatchConsistent(h, d, fullSync, observed, st, s, leaves[..last]);
      AppendSnoc(h, fullSync, observed, st, leaves);
      HashesSnoc(s, leaves);
      var mid := Append(h, fullSync, observed, st, leaves[..last]);
      var s' := s + Hashes(leaves[..last]);
      StepConsistent(h, d, fullSync, Tracking(observed, st.data.index, leaves), mid, s', leaves[last].hash);
    }
  }

  /** The tracked leaves of a batch are those observed and those of the batch that ask for it, and no others. */
  lemma {:induction false} TrackingExact<T>(batch: Batch<T>, index: nat, t: nat)
    ensures t in Tracking(batch.observed, index, batch.leaves) <==> Watched(batch, index, t)
    decreases |batch.leaves|
  {
    if batch.leaves != [] {
      var last := |batch.leaves| - 1;
      TrackingExact(Batch(batch.observed, batch.leaves[..last]), index, t);
    }
  }

  lemma LastSiblingsKnown<T>(h: Hasher<T>, d: nat, fullSync: bool, batch: Batch<T>, st: TreeState<T>, s: seq<T>,
                             t: nat, last: nat)
    requires Consistent(h, d, st, s) && |s| + |batch.leaves| <= Pow2(d)
    requires last + 1 == |batch.leaves| && st.start <= t < |s| + last && (fullSync || Watched(batch, |s|, t))
    requires SiblingsKnown(h, d, s + Hashes(batch.leaves[..last]),
                           Append(h, fullSync, batch.observed, st, batch.leaves[..last]).nodes, t)
    ensures SiblingsKnown(h, d, s + Hashes(batch.leaves), Append(h, fullSync, batch.observed, st, batch.leaves).nodes,
                          t)
  {
    var Batch(observed, leaves) := batch;
    HashesSnoc(s, leaves);
    BatchConsistent(h, d, fullSync, observed, st, s, leaves[..last]);
    AppendSnoc(h, fullSync, observed, st, leaves);
    if !fullSync { TrackingExact(batch, |s|, t); }
    var mid, s' := Append(h, fullSync, observed, st, leaves[..last]), s + Hashes(leaves[..last]);
    assert |s'| == |s| + last;
    StepKeepsKnown(h, d, fullSync, Tracking(observed, st.data.index, leaves), mid.data, s', leaves[last].hash,
                   st.start, mid.nodes, t, s + Hashes(leaves));
  }

  lemma {:induction false} BatchSiblingsKnown<T>(h: Hasher<T>, d: nat, fullSync: bool, batch: Batch<T>,
                                                 st: TreeState<T>, s: seq<T>, t: nat)
    requires Consistent(h, d, st, s) && |s| + |batch.leaves| <= Pow2(d)
    requires st.start <= t < |s| + |batch.leaves|
    requires t < |s| ==> SiblingsKnown(h, d, s, st.nodes, t)
    requires fullSync || Watched(batch, |s|, t)
    ensures SiblingsKnown(h, d, s + Hashes(batch.leaves), Append(h, fullSync, batch.observed, st, batch.leaves).nodes,
                          t)
    decreases |batch.leaves|
  {
    var Batch(observed, leaves) := batch;
    var end := Append(h, fullSync, observed, st, leaves);
    if leaves == [] {
      assert s + Hashes(leaves) == s;
      assert end.nodes == st.nodes;
    } else {
      var last := |leaves| - 1;
      HashesSnoc(s, leaves);
      if t == |s| + last {
        NewLeafKnown(h, d, s + Hashes(leaves), end.nodes);
      } else {
        BatchSiblingsKnown(h, d, fullSync, Batch(observed, leaves[..last]), st, s, t);
        LastSiblingsKnown(h, d, fullSync, batch, st, s, t, last);
      }
    }
  }

  /** StepSiblingKnown at every level; `all` are the leaves after the step. */
  lemma StepKeepsKnown<T>(h: Hasher<T>, d: nat, fullSync: bool, tracking: seq<nat>, data: TreeData<T>, s: seq<T>, x: T,
                          start: nat, nodes: map<nat, T>, t: nat, all: seq<T>)
    requires all == s + [x] && Represents(h, d, data, s) && SiblingsFresh(h, d, data, s, start) && |s| < Pow2(d)
    requires start <= t < |s| && (fullSync || t in tracking) && SiblingsKnown(h, d, s, nodes, t)
    ensures SiblingsKnown(h, d, all, CacheTo(h, fullSync, tracking, |s|, x, data.siblings, nodes, d), t)
  {
    forall l | 0 <= l < d
      ensures SiblingKnown(h, d, all, CacheTo(h, fullSync, tracking, |s|, x, data.siblings, nodes, d), t, l)
    {
      StepSiblingKnown(h, d, fullSync, tracking, data, s, x, start, nodes, t, l);
    }
  }

  lemma {:induction false} BatchPathsKnown<T>(h: Hasher<T>, d: nat, observed: seq<nat>, st: TreeState<T>, s: seq<T>,
                                              leaves: seq<Leaf<T>>)
    requires Consistent(h, d, st, s) && |s| + |leaves| <= Pow2(d)
    requires PathsKnown(h, d, s, st.start, st.nodes)
    ensures PathsKnown(h, d, s + Hashes(leaves), st.start, Append(h, true, observed, st, leaves).nodes)
    decreases |leaves|
  {
    var end := Append(h, true, observed, st, leaves);
    if leaves == [] {
      assert s + Hashes(leaves) == s;
      assert end.nodes == st.nodes;
    } else {
      var last := |leaves| - 1;
      BatchPathsKnown(h, d, observed, st, s, leaves[..last]);
      BatchConsistent(h, d, true, observed, st, s, leaves[..last]);
      AppendSnoc(h, true, observed, st, leaves);
      HashesSnoc(s, leaves);
      var mid := Append(h, true, observed, st, leaves[..last]);
      StepPathsKnown(h, d, Tracking(observed, st.data.index, leaves), mid.data, s + Hashes(leaves[..last]),
                     leaves[last].hash, st.start, mid.nodes);
    }
  }

  // ----- whole runs

  lemma RunHashesSnoc<T>(s: seq<T>, batches: seq<Batch<T>>)
    requires batches != []
    ensures s + AllHashes(batches) == s + AllHashes(batches[..|batches| - 1]) + Hashes(batches[|batches| - 1].leaves)
  {
    ConcatAssociative(s, AllHashes(batches[..|batches| - 1]), Hashes(batches[|batches| - 1].leaves));
  }

  lemma {:induction false} RunConsistent<T>(h: Hasher<T>, d: nat, fullSync: bool, st: TreeState<T>, s: seq<T>,
                                            batches: seq<Batch<T>>)
    requires Consistent(h, d, st, s) && |s| + TotalLeaves(batches) <= Pow2(d)
    ensures Consistent(h, d, Run(h, fullSync, st, batches), s + AllHashes(batches))
    ensures Run(h, fullSync, st, batches).start == st.start
  {
    if batches == [] {
      assert s + AllHashes(batches) == s;
    } else {
      var n := |batches| - 1;
      RunConsistent(h, d, fullSync, st, s, batches[..n]);
      BatchConsistent(h, d, fullSync, batches[n].observed, Run(h, fullSync, st, batches[..n]),
                      s + AllHashes(batches[..n]), batches[n].leaves);
      RunHashesSnoc(s, batches);
    }
  }

  lemma LastBatchWatched<T>(batches: seq<Batch<T>>, index: nat, t: nat, before: seq<Batch<T>>, last: Batch<T>)
    requires batches == before + [last] && t < index + TotalLeaves(batches)
    requires WatchedThroughout(batches, index, t)
    ensures WatchedThroughout(before, index, t) && Watched(last, index + TotalLeaves(before), t)
  {
    assert batches[..|batches| - 1] == before;
  }

  lemma LastBatchCounted<T>(batches: seq<Batch<T>>, before: seq<Batch<T>>, last: Batch<T>)
    requires batches == before + [last]
    ensures TotalLeaves(batches) == TotalLeaves(before) + |last.leaves|
  {
    assert batches[..|batches| - 1] == before;
  }

  lemma LastBatchSiblings<T>(h: Hasher<T>, d: nat, fullSync: bool, batches: seq<Batch<T>>, st: TreeState<T>, s: seq<T>,
                             t: nat, n: nat, mid: TreeState<T>, all: seq<T>)
    requires n + 1 == |batches| && Consistent(h, d, st, s) && |s| + TotalLeaves(batches) <= Pow2(d)
    requires mid == Run(h, fullSync, st, batches[..n]) && all == s + AllHashes(batches[..n])
    requires Consistent(h, d, mid, all) && mid.start <= t < |all| + |batches[n].leaves| <= Pow2(d)
    requires (t < |all| ==> SiblingsKnown(h, d, all, mid.nodes, t)) && (fullSync || Watched(batches[n], |all|, t))
    ensures SiblingsKnown(h, d, s + AllHashes(batches), Run(h, fullSync, st, batches).nodes, t)
  {
    BatchSiblingsKnown(h, d, fullSync, batches[n], mid, all, t);
    RunHashesSnoc(s, batches);
  }

  lemma {:induction false} RunSiblingsKnown<T>(h: Hasher<T>, d: nat, fullSync: bool, st: TreeState<T>, s: seq<T>,
                                               batches: seq<Batch<T>>, t: nat)
    requires Consistent(h, d, st, s) && |s| + TotalLeaves(batches) <= Pow2(d)
    requires st.start <= t && |s| <= t < |s| + TotalLeaves(batches)
    requires fullSync || WatchedThroughout(batches, |s|, t)
    ensures SiblingsKnown(h, d, s + AllHashes(batches), Run(h, fullSync, st, batches).nodes, t)
  {
    var n := |batches| - 1;
    var before, last := batches[..n], batches[n];
    assert batches == before + [last];
    var all := s + AllHashes(before);
    LastBatchCounted(batches, before, last);
    RunConsistent(h, d, fullSync, st, s, before);
    if !fullSync { LastBatchWatched(batches, |s|, t, before, last); }
    if t < |all| { RunSiblingsKnown(h, d, fullSync, st, s, before, t); }
    LastBatchSiblings(h, d, fullSync, batches, st, s, t, n, Run(h, fullSync, st, before), all);
  }

  lemma {:induction false} RunPathsKnown<T>(h: Hasher<T>, d: nat, st: TreeState<T>, s: seq<T>, batches: seq<Batch<T>>)
    requires Consistent(h, d, st, s) && |s| + TotalLeaves(batches) <= Pow2(d)
    requires PathsKnown(h, d, s, st.start, st.nodes)
    ensures PathsKnown(h, d, s + AllHashes(batches), st.start, Run(h, true, st, batches).nodes)
  {
    if batches == [] {
      assert s + AllHashes(batches) == s;
    } else {
      var n := |batches| - 1;
      RunPathsKnown(h, d, st, s, batches[..n]);
      RunConsistent(h, d, true, st, s, batches[..n]);
      BatchPathsKnown(h, d, batches[n].observed, Run(h, true, st, batches[..n]), s + AllHashes(batches[..n]),
                      batches[n].leaves);
      RunHashesSnoc(s, batches);
    }
  }

  // ----- rows for subtrees without leaves

  /** `key` is the node of a subtree without any of the first n leaves. */
  ghost predicate Beyond(d: nat, n: nat, l: nat, p: nat, key: nat) {
    l < d && p < Pow2(d - l) && key == Key(d, l, p) && !Occupied(n, l, p)
  }

  lemma BeyondFewer(d: nat, m: nat, n: nat, l: nat, p: nat, key: nat)
    requires m <= n && Beyond(d, n, l, p, key)
    ensures Beyond(d, m, l, p, key)
  {
    if Occupied(m, l, p) { ShrMonotone(m - 1, n - 1, l); }
  }

  lemma StepKeepsRow<T>(h: Hasher<T>, d: nat, fullSync: bool, tracking: seq<nat>, data: TreeData<T>, s: seq<T>, x: T,
                        before: map<nat, T>, after: map<nat, T>, n: nat, l: nat, p: nat, key: nat)
    requires Represents(h, d, data, s) && n == |s| + 1 <= Pow2(d) && Beyond(d, n, l, p, key)
    requires after == CacheTo(h, fullSync, tracking, |s|, x, data.siblings, before, d)
    ensures SameRow(before, after, key)
  {
    StepKeepsBeyond(h, d, fullSync, tracking, data, s, x, before, l, p);
  }

  lemma LastKeepsRow<T>(h: Hasher<T>, d: nat, fullSync: bool, observed: seq<nat>, st: TreeState<T>, s: seq<T>,
                        leaves: seq<Leaf<T>>, mid: TreeState<T>, after: map<nat, T>, n: nat, l: nat, p: nat, key: nat)
    requires Consistent(h, d, st, s) && leaves != [] && n == |s| + |leaves| <= Pow2(d) && Beyond(d, n, l, p, key)
    requires mid == Append(h, fullSync, observed, st, leaves[..|leaves| - 1])
    requires after == Append(h, fullSync, observed, st, leaves).nodes
    ensures SameRow(mid.nodes, after, key)
  {
    var last := |leaves| - 1;
    var s' := s + Hashes(leaves[..last]);
    assert |s'| == |s| + last;
    BatchConsistent(h, d, fullSync, observed, st, s, leaves[..last]);
    AppendSnoc(h, fullSync, observed, st, leaves);
    StepKeepsRow(h, d, fullSync, Tracking(observed, st.data.index, leaves), mid.data, s', leaves[last].hash, mid.nodes,
                 after, n, l, p, key);
  }

  lemma {:induction false} BatchKeepsRow<T>(h: Hasher<T>, d: nat, fullSync: bool, observed: seq<nat>, st: TreeState<T>,
                                            s: seq<T>, leaves: seq<Leaf<T>>, after: TreeState<T>, n: nat, l: nat,
                                            p: nat, key: nat)
    requires Consistent(h, d, st, s) && n == |s| + |leaves| <= Pow2(d) && Beyond(d, n, l, p, key)
    requires after == Append(h, fullSync, observed, st, leaves)
    ensures SameRow(st.nodes, after.nodes, key)
    decreases |leaves|
  {
    if leaves == [] {
      assert after.nodes == st.nodes;
    } else {
      var others := leaves[..|leaves| - 1];
      var mid, m := Append(h, fullSync, observed, st, others), |s| + |others|;
      BeyondFewer(d, m, n, l, p, key);
      BatchKeepsRow(h, d, fullSync, observed, st, s, others, mid, m, l, p, key);
      LastKeepsRow(h, d, fullSync, observed, st, s, leaves, mid, after.nodes, n, l, p, key);
    }
  }

  /** A run leaves every row for a subtree without leaves as it found it: it neither writes nor clears any. */
  lemma {:induction false} RunKeepsRow<T>(h: Hasher<T>, d: nat, fullSync: bool, st: TreeState<T>, s: seq<T>,
                                          batches: seq<Batch<T>>, after: TreeState<T>, n: nat, l: nat, p: nat,
                                          key: nat)
    requires Consistent(h, d, st, s) && n == |s| + TotalLeaves(batches) <= Pow2(d) && Beyond(d, n, l, p, key)
    requires after == Run(h, fullSync, st, batches)
    ensures SameRow(st.nodes, after.nodes, key)
  {
    if batches != [] {
      var before, last := batches[..|batches| - 1], batches[|batches| - 1];
      var mid, s', m := Run(h, fullSync, st, before), s + AllHashes(before), |s| + TotalLeaves(before);
      assert |s'| == m;
      BeyondFewer(d, m, n, l, p, key);
      RunKeepsRow(h, d, fullSync, st, s, before, mid, m, l, p, key);
      RunConsistent(h, d, fullSync, st, s, before);
      BatchKeepsRow(h, d, fullSync, last.observed, mid, s', last.leaves, after, n, l, p, key);
    }
  }
}
