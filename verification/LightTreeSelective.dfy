/** Light mode keeps nothing but the siblings of tracked leaves. */
module LightTreeSelective {
  import opened Bits
  import opened Hashers
  import opened LightTreeSpec
  import opened LightTreeStore
  import opened LightTreeRuns

  /** (l, p) is no sibling on the path of a leaf tracked while the batch is appended at `index`. */
  ghost predicate Ignores<T>(d: nat, l: nat, p: nat, batch: Batch<T>, index: nat) {
    forall t: nat :: Watched(batch, index, t) ==> t < Pow2(d) && Xor1(Shr(t, l)) != p
  }

  ghost predicate AllIgnore<T>(d: nat, l: nat, p: nat, batches: seq<Batch<T>>, index: nat) {
    batches != [] ==>
      var before, last := batches[..|batches| - 1], batches[|batches| - 1];
      AllIgnore(d, l, p, before, index) && Ignores(d, l, p, last, index + TotalLeaves(before))
  }

  lemma StepIgnores<T>(h: Hasher<T>, d: nat, tracking: seq<nat>, data: TreeData<T>, x: T, nodes: map<nat, T>, l: nat,
                       p: nat)
    requires |data.siblings| == d <= |h.preHash| && data.index < Pow2(d) && l < d && p < Pow2(d - l)
    requires forall i :: 0 <= i < |tracking| ==> tracking[i] < Pow2(d) && Xor1(Shr(tracking[i], l)) != p
    ensures SameRow(nodes, CacheTo(h, false, tracking, data.index, x, data.siblings, nodes, d), Key(d, l, p))
  {
    ReadBack(h, false, tracking, data.index, x, data.siblings, nodes, d, l, p);
    ShouldTrackExact(d, tracking, l, p);
    assert !KeepsAt(d, false, tracking, l, p);
  }

  lemma {:induction false} BatchIgnores<T>(h: Hasher<T>, d: nat, batch: Batch<T>, st: TreeState<T>, l: nat, p: nat)
    requires |st.data.siblings| == d <= |h.preHash| && st.data.index + |batch.leaves| <= Pow2(d)
    requires l < d && p < Pow2(d - l) && Ignores(d, l, p, batch, st.data.index)
    ensures SameRow(st.nodes, Append(h, false, batch.observed, st, batch.leaves).nodes, Key(d, l, p))
    decreases |batch.leaves|
  {
    var Batch(observed, leaves) := batch;
    if leaves == [] {
      assert Append(h, false, observed, st, leaves).nodes == st.nodes;
    } else {
      var others := Batch(observed, leaves[..|leaves| - 1]);
      forall t | Watched(others, st.data.index, t) ensures Watched(batch, st.data.index, t) {}
      BatchIgnores(h, d, others, st, l, p);
      AppendSnoc(h, false, observed, st, leaves);
      var tracking := Tracking(observed, st.data.index, leaves);
      forall i | 0 <= i < |tracking| ensures tracking[i] < Pow2(d) && Xor1(Shr(tracking[i], l)) != p {
        TrackingExact(batch, st.data.index, tracking[i]);
      }
      var mid := Append(h, false, observed, st, others.leaves);
      StepIgnores(h, d, tracking, mid.data, leaves[|leaves| - 1].hash, mid.nodes, l, p);
    }
  }

  /** Over every run in light mode: a row that is no sibling of a leaf tracked at the time is neither written nor
      cleared. */
  lemma {:induction false} RunIgnores<T>(h: Hasher<T>, d: nat, st: TreeState<T>, batches: seq<Batch<T>>, l: nat, p: nat)
    requires |st.data.siblings| == d <= |h.preHash| && st.data.index + TotalLeaves(batches) <= Pow2(d)
    requires l < d && p < Pow2(d - l) && AllIgnore(d, l, p, batches, st.data.index)
    ensures SameRow(st.nodes, Run(h, false, st, batches).nodes, Key(d, l, p))
  {
    if batches != [] {
      var before, last := batches[..|batches| - 1], batches[|batches| - 1];
      RunIgnores(h, d, st, before, l, p);
      BatchIgnores(h, d, last, Run(h, false, st, before), l, p);
    }
  }
}
