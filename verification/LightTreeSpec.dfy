/** What one append does to the state of packages/tree/src/light-rollup-tree.ts, as functions on values. */
module LightTreeSpec {
  import opened Bits
  import opened Hashers

  datatype Leaf<T> = Leaf(hash: T, shouldTrack: bool)

  datatype TreeData<T> = TreeData(root: T, index: nat, siblings: seq<T>)

  /** The tree data, the metadata range [start, end), and the TreeNode table keyed by heap index. */
  datatype TreeState<T> = TreeState(data: TreeData<T>, start: nat, end: nat, nodes: map<nat, T>)

  function Hashes<T>(leaves: seq<Leaf<T>>): (s: seq<T>)
    ensures |s| == |leaves|
    ensures forall i :: 0 <= i < |s| ==> s[i] == leaves[i].hash
  {
    seq(|leaves|, i requires 0 <= i < |leaves| => leaves[i].hash)
  }

  // ----- the path of one leaf

  datatype Walk<T> = Walk(node: T, siblings: seq<T>)

  /** The running node and the latest siblings after the first `level` levels of the path of `leaf`. */
  function WalkTo<T>(h: Hasher<T>, index: nat, leaf: T, siblings: seq<T>, level: nat): (w: Walk<T>)
    requires level <= |siblings| <= |h.preHash|
    ensures |w.siblings| == |siblings|
  {
    if level == 0 then Walk(leaf, siblings)
    else
      var l := level - 1;
      var w := WalkTo(h, index, leaf, siblings, l);
      if Shr(OrBit(|siblings|, index), l) % 2 == 0 then
        Walk(h.parentOf(w.node, h.preHash[l]), w.siblings[l := w.node])
      else
        Walk(h.parentOf(w.siblings[l], w.node), w.siblings)
  }

  function AppendLeaf<T>(h: Hasher<T>, data: TreeData<T>, leaf: T): (r: TreeData<T>)
    requires |data.siblings| <= |h.preHash|
    ensures |r.siblings| == |data.siblings| && r.index == data.index + 1
  {
    var w := WalkTo(h, data.index, leaf, data.siblings, |data.siblings|);
    TreeData(w.node, data.index + 1, w.siblings)
  }

  function AppendAll<T>(h: Hasher<T>, data: TreeData<T>, hashes: seq<T>): (r: TreeData<T>)
    requires |data.siblings| <= |h.preHash|
    ensures |r.siblings| == |data.siblings| && r.index == data.index + |hashes|
  {
    if hashes == [] then data
    else
      var last := |hashes| - 1;
      AppendLeaf(h, AppendAll(h, data, hashes[..last]), hashes[last])
  }

  // ----- which nodes are kept

  /** `node` is the sibling of the ancestor of `leaf` at its own height. */
  predicate IsPathSibling(d: nat, leaf: nat, node: nat)
    requires 0 < node < 2 * Pow2(d)
  {
    NodeNotLongerThanLeaf(d, leaf, node);
    var leafIndex := OrBit(d, leaf);
    var pathIndex := Shr(leafIndex, BitLength(leafIndex) - BitLength(node));
    Xor1(pathIndex) == node
  }

  predicate ShouldTrack(d: nat, tracking: seq<nat>, node: nat)
    requires 0 < node < 2 * Pow2(d)
  {
    exists i :: 0 <= i < |tracking| && IsPathSibling(d, tracking[i], node)
  }

  predicate Keeps(d: nat, fullSync: bool, tracking: seq<nat>, node: nat)
    requires 0 < node < 2 * Pow2(d)
  {
    fullSync || ShouldTrack(d, tracking, node)
  }

  /** Path nodes and their siblings are node indices of the tree. */
  lemma PathInTree(d: nat, index: nat, level: nat)
    requires index < Pow2(d) && level < d
    ensures 0 < Shr(OrBit(d, index), level) < 2 * Pow2(d)
    ensures 0 < Xor1(Shr(OrBit(d, index), level)) < 2 * Pow2(d)
  {
    PathKey(d, index, level);
    SiblingKey(d, index, level);
    Pow2Monotone(d - level, d);
  }

  /** What the path of one leaf adds to the `cached` dictionary on its first `level` levels. */
  function CacheTo<T>(h: Hasher<T>, fullSync: bool, tracking: seq<nat>, index: nat, leaf: T, siblings: seq<T>,
                      cached: map<nat, T>, level: nat): map<nat, T>
    requires level <= |siblings| <= |h.preHash| && index < Pow2(|siblings|)
  {
    if level == 0 then cached
    else
      var d, l := |siblings|, level - 1;
      var before := CacheTo(h, fullSync, tracking, index, leaf, siblings, cached, l);
      var w := WalkTo(h, index, leaf, siblings, l);
      CacheLevel(d, fullSync, tracking, index, l, w, before)
  }

  /** The two conditional writes of one level: the path node, then the left sibling of the previous leaf's path. */
  function CacheLevel<T>(d: nat, fullSync: bool, tracking: seq<nat>, index: nat, l: nat, w: Walk<T>,
                         before: map<nat, T>): map<nat, T>
    requires l < d == |w.siblings| && index < Pow2(d)
  {
    PathInTree(d, index, l);
    var path := Shr(OrBit(d, index), l);
    var withPath := if Keeps(d, fullSync, tracking, path) then before[path := w.node] else before;
    if index > 0 then
      PathInTree(d, index - 1, l);
      var prevSib := Xor1(Shr(OrBit(d, index - 1), l));
      if prevSib % 2 == 0 && Keeps(d, fullSync, tracking, prevSib) then withPath[prevSib := w.siblings[l]] else withPath
    else withPath
  }

  /** The tracked leaves while the last leaf of `leaves` is appended at start + |leaves| - 1. */
  function Tracking<T>(observed: seq<nat>, start: nat, leaves: seq<Leaf<T>>): seq<nat> {
    if leaves == [] then observed
    else
      var last := |leaves| - 1;
      Tracking(observed, start, leaves[..last]) + (if leaves[last].shouldTrack then [start + last] else [])
  }

  /** The `cached` dictionary after a batch, starting from `cached`. */
  function CacheAll<T>(h: Hasher<T>, fullSync: bool, observed: seq<nat>, data: TreeData<T>, leaves: seq<Leaf<T>>,
                       cached: map<nat, T>): map<nat, T>
    requires |data.siblings| <= |h.preHash| && data.index + |leaves| <= Pow2(|data.siblings|)
  {
    if leaves == [] then cached
    else
      var last := |leaves| - 1;
      var before := CacheAll(h, fullSync, observed, data, leaves[..last], cached);
      var at := AppendAll(h, data, Hashes(leaves[..last]));
      CacheTo(h, fullSync, Tracking(observed, data.index, leaves), at.index, leaves[last].hash, at.siblings,
              before, |at.siblings|)
  }

  // ----- a batch, leaf by leaf

  function TrackingNext<T>(tracking: seq<nat>, leaf: Leaf<T>, index: nat): seq<nat> {
    if leaf.shouldTrack then tracking + [index] else tracking
  }

  lemma AppendAllSnoc<T>(h: Hasher<T>, data: TreeData<T>, leaves: seq<Leaf<T>>)
    requires |data.siblings| <= |h.preHash| && leaves != []
    ensures var last := |leaves| - 1;
      AppendAll(h, data, Hashes(leaves)) == AppendLeaf(h, AppendAll(h, data, Hashes(leaves[..last])), leaves[last].hash)
  {
    assert Hashes(leaves)[..|leaves| - 1] == Hashes(leaves[..|leaves| - 1]);
  }

  lemma TrackingSnoc<T>(observed: seq<nat>, start: nat, leaves: seq<Leaf<T>>)
    requires leaves != []
    ensures var last := |leaves| - 1;
      Tracking(observed, start, leaves) == TrackingNext(Tracking(observed, start, leaves[..last]), leaves[last],
                                                        start + last)
  {}

  /** What has been reached after the leaves of `done`. */
  ghost predicate BatchReached<T>(h: Hasher<T>, fullSync: bool, observed: seq<nat>, data: TreeData<T>,
                                  done: seq<Leaf<T>>, now: TreeData<T>, tracking: seq<nat>, cached: map<nat, T>)
    requires |data.siblings| <= |h.preHash| && data.index + |done| <= Pow2(|data.siblings|)
  {
    && now == AppendAll(h, data, Hashes(done))
    && tracking == Tracking(observed, data.index, done)
    && cached == CacheAll(h, fullSync, observed, data, done, map[])
  }

  /** One more walk reaches one leaf further. */
  lemma BatchWalked<T>(h: Hasher<T>, fullSync: bool, observed: seq<nat>, data: TreeData<T>, leaves: seq<Leaf<T>>,
                       now: TreeData<T>, tracking: seq<nat>, cached: map<nat, T>, next: Walk<T>, tracking': seq<nat>)
    requires |data.siblings| <= |h.preHash| && data.index + |leaves| <= Pow2(|data.siblings|) && leaves != []
    requires BatchReached(h, fullSync, observed, data, leaves[..|leaves| - 1], now, tracking, cached)
    requires next == WalkTo(h, now.index, leaves[|leaves| - 1].hash, now.siblings, |data.siblings|)
    requires tracking' == TrackingNext(tracking, leaves[|leaves| - 1], now.index)
    ensures BatchReached(h, fullSync, observed, data, leaves, TreeData(next.node, now.index + 1, next.siblings),
                         tracking',
      CacheTo(h, fullSync, tracking', now.index, leaves[|leaves| - 1].hash, now.siblings, cached, |data.siblings|))
  {
    AppendAllSnoc(h, data, leaves);
    TrackingSnoc(observed, data.index, leaves);
  }

  /** The whole state after appending a batch. */
  function Append<T>(h: Hasher<T>, fullSync: bool, observed: seq<nat>, st: TreeState<T>,
                     leaves: seq<Leaf<T>>): TreeState<T>
    requires |st.data.siblings| <= |h.preHash| && st.data.index + |leaves| <= Pow2(|st.data.siblings|)
  {
    TreeState(
      AppendAll(h, st.data, Hashes(leaves)),
      st.start,
      st.data.index + |leaves|,
      st.nodes + CacheAll(h, fullSync, observed, st.data, leaves, map[]))
  }

  /** A tree with no leaves. */
  function Genesis<T>(h: Hasher<T>): TreeState<T>
    requires |h.preHash| > 0
  {
    TreeState(TreeData(GenesisRoot(h), 0, h.preHash[..|h.preHash| - 1]), 0, 0, map[])
  }

  /** Right-hand siblings of the next leaf replaced by empty subtrees. */
  function Normalised<T>(h: Hasher<T>, data: TreeData<T>): (s: seq<T>)
    requires |data.siblings| <= |h.preHash|
    ensures |s| == |data.siblings|
  {
    seq(|data.siblings|, l requires 0 <= l < |data.siblings| =>
      if Shr(data.index, l) % 2 == 0 then h.preHash[l] else data.siblings[l])
  }

  /** A tree resumed from a starting-leaf proof over the nodes already in the table. */
  function Resumed<T>(root: T, index: nat, siblings: seq<T>, table: map<nat, T>): TreeState<T> {
    TreeState(TreeData(root, index, siblings), index, index, table)
  }
}
