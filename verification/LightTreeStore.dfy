/** What the selective node table is good for: Merkle proofs of tracked leaves. */
module LightTreeStore {
  import opened Bits
  import opened Hashers
  import opened FullTree
  import opened LightTreeSpec
  import opened LightTreeRefinement

  // ----- tracking

  /** The node at (l, p) is tracked exactly when it is the level-l sibling of some tracked leaf. */
  lemma ShouldTrackExact(d: nat, tracking: seq<nat>, l: nat, p: nat)
    requires l < d && p < Pow2(d - l)
    requires forall i :: 0 <= i < |tracking| ==> tracking[i] < Pow2(d)
    ensures 0 < Key(d, l, p) < 2 * Pow2(d)
    ensures ShouldTrack(d, tracking, Key(d, l, p))
       <==> exists i :: 0 <= i < |tracking| && Xor1(Shr(tracking[i], l)) == p
  {
    KeyLength(d, l, p);
    forall i | 0 <= i < |tracking|
      ensures IsPathSibling(d, tracking[i], Key(d, l, p)) <==> Xor1(Shr(tracking[i], l)) == p
    {
      LeafLength(d, tracking[i]);
      SiblingKey(d, tracking[i], l);
    }
  }

  lemma KeyLength(d: nat, l: nat, p: nat)
    requires l < d && p < Pow2(d - l)
    ensures 0 < Key(d, l, p) < 2 * Pow2(d) && BitLength(Key(d, l, p)) == d - l + 1
  {
    Pow2Monotone(d - l, d);
    BitLengthOfKey(d - l, p);
  }

  lemma LeafLength(d: nat, t: nat)
    requires t < Pow2(d)
    ensures BitLength(OrBit(d, t)) == d + 1
  {
    OrBitInRange(d, t);
    BitLengthOfKey(d, t);
  }

  lemma OwnSibling(d: nat, t: nat, l: nat)
    requires t < Pow2(d) && l < d
    ensures 0 < Key(d, l, Xor1(Shr(t, l))) < 2 * Pow2(d)
    ensures IsPathSibling(d, t, Key(d, l, Xor1(Shr(t, l))))
  {
    SiblingKey(d, t, l);
    LeafLength(d, t);
    KeyLength(d, l, Xor1(Shr(t, l)));
  }

  /** One direction, for a single leaf and whatever else is tracked. */
  lemma TracksOwnSiblings(d: nat, tracking: seq<nat>, t: nat, l: nat)
    requires t in tracking && t < Pow2(d) && l < d
    ensures 0 < Key(d, l, Xor1(Shr(t, l))) < 2 * Pow2(d)
    ensures ShouldTrack(d, tracking, Key(d, l, Xor1(Shr(t, l))))
  {
    OwnSibling(d, t, l);
    var i :| 0 <= i < |tracking| && tracking[i] == t;
    var key := Key(d, l, Xor1(Shr(t, l)));
    assert IsPathSibling(d, tracking[i], key);
  }

  // ----- the writes of one leaf, read back

  ghost predicate KeepsAt(d: nat, fullSync: bool, tracking: seq<nat>, l: nat, p: nat)
    requires l < d && p < Pow2(d - l)
  {
    Pow2Monotone(d - l, d);
    Keeps(d, fullSync, tracking, Key(d, l, p))
  }

  lemma KeepsOwnSibling(d: nat, fullSync: bool, tracking: seq<nat>, t: nat, l: nat, p: nat)
    requires t < Pow2(d) && l < d && p == Xor1(Shr(t, l)) && (fullSync || t in tracking)
    ensures p < Pow2(d - l) && KeepsAt(d, fullSync, tracking, l, p)
  {
    SiblingKey(d, t, l);
    if !fullSync { TracksOwnSiblings(d, tracking, t, l); }
  }

  /** (l, p) is a left sibling on the path of the leaf before `index`. */
  ghost predicate IsPrevLeftSibling(index: nat, l: nat, p: nat) {
    index > 0 && p % 2 == 0 && p == Xor1(Shr(index - 1, l))
  }

  lemma {:induction false} WalkKeepsUpper<T>(h: Hasher<T>, index: nat, leaf: T, siblings: seq<T>, level: nat)
    requires level <= |siblings| <= |h.preHash|
    ensures forall l :: level <= l < |siblings| ==> WalkTo(h, index, leaf, siblings, level).siblings[l] == siblings[l]
  {
    if level > 0 { WalkKeepsUpper(h, index, leaf, siblings, level - 1); }
  }

  /** The two writes of level i, read back at (l, p). */
  lemma ReadLevel<T>(d: nat, fullSync: bool, tracking: seq<nat>, index: nat, i: nat, w: Walk<T>, before: map<nat, T>,
                     l: nat, p: nat)
    requires i < d == |w.siblings| && index < Pow2(d)
    requires l < d && p < Pow2(d - l)
    ensures var key := Key(d, l, p);
      var after := CacheLevel(d, fullSync, tracking, index, i, w, before);
      if l == i && IsPrevLeftSibling(index, l, p) && KeepsAt(d, fullSync, tracking, l, p) then
        key in after && after[key] == w.siblings[l]
      else if l == i && p == Shr(index, l) && KeepsAt(d, fullSync, tracking, l, p) then
        key in after && after[key] == w.node
      else
        (key in after <==> key in before) && (key in before ==> after[key] == before[key])
  {
    PathInTree(d, index, i);
    LevelKeys(d, index, i, l, p);
    if index > 0 {
      PathInTree(d, index - 1, i);
      LevelKeys(d, index - 1, i, l, p);
    }
  }

  /** What the first `level` levels of the walk leave at (l, p). */
  lemma {:induction false} ReadBack<T>(h: Hasher<T>, fullSync: bool, tracking: seq<nat>, index: nat, leaf: T,
                                       siblings: seq<T>, before: map<nat, T>, level: nat, l: nat, p: nat)
    requires level <= |siblings| <= |h.preHash| && index < Pow2(|siblings|)
    requires l < |siblings| && p < Pow2(|siblings| - l)
    ensures var d, key := |siblings|, Key(|siblings|, l, p);
      var after := CacheTo(h, fullSync, tracking, index, leaf, siblings, before, level);
      if l < level && IsPrevLeftSibling(index, l, p) && KeepsAt(d, fullSync, tracking, l, p) then
        key in after && after[key] == siblings[l]
      else if l < level && p == Shr(index, l) && KeepsAt(d, fullSync, tracking, l, p) then
        key in after && after[key] == WalkTo(h, index, leaf, siblings, l).node
      else
        (key in after <==> key in before) && (key in before ==> after[key] == before[key])
  {
    if level > 0 {
      var i := level - 1;
      ReadBack(h, fullSync, tracking, index, leaf, siblings, before, i, l, p);
      WalkKeepsUpper(h, index, leaf, siblings, i);
      ReadLevel(|siblings|, fullSync, tracking, index, i, WalkTo(h, index, leaf, siblings, i),
                CacheTo(h, fullSync, tracking, index, leaf, siblings, before, i), l, p);
    }
  }

  // ----- what the table guarantees

  /** The table answers correctly for the level-l sibling of leaf t: a right sibling once it holds a leaf, a left
      sibling once the leaf after t has been appended. */
  ghost predicate SiblingKnown<T>(h: Hasher<T>, d: nat, s: seq<T>, nodes: map<nat, T>, t: nat, l: nat)
    requires |h.preHash| > 0 && l < d
  {
    var p := Xor1(Shr(t, l));
    (if p % 2 == 1 then Occupied(|s|, l, p) else t + 1 < |s|) ==>
      Key(d, l, p) in nodes && nodes[Key(d, l, p)] == Node(h, LeafFn(h, s), l, p)
  }

  ghost predicate SiblingsKnown<T>(h: Hasher<T>, d: nat, s: seq<T>, nodes: map<nat, T>, t: nat)
    requires |h.preHash| > 0
  {
    forall l :: 0 <= l < d ==> SiblingKnown(h, d, s, nodes, t, l)
  }

  /** Nothing is stored for a subtree without leaves: the table of a tree that has never held more. */
  ghost predicate OnlyOccupied<T>(d: nat, n: nat, nodes: map<nat, T>) {
    forall l: nat, p: nat :: l < d && p < Pow2(d - l) && Key(d, l, p) in nodes ==> Occupied(n, l, p)
  }

  /** Every ancestor of a leaf appended by this tree is stored with its true value. */
  ghost predicate PathsKnown<T>(h: Hasher<T>, d: nat, s: seq<T>, start: nat, nodes: map<nat, T>)
    requires |h.preHash| > 0
  {
    forall j: nat, l: nat :: start <= j < |s| && l < d ==> PathKnown(h, d, s, nodes, j, l)
  }

  /** The latest siblings still hold the left siblings of the last leaf this tree appended. */
  ghost predicate SiblingsFresh<T>(h: Hasher<T>, d: nat, data: TreeData<T>, s: seq<T>, start: nat)
    requires |h.preHash| > 0 && |data.siblings| == d
  {
    start < |s| ==> forall l :: 0 <= l < d && Shr(|s| - 1, l) % 2 == 1 ==>
      data.siblings[l] == Node(h, LeafFn(h, s), l, Shr(|s| - 1, l) - 1)
  }

  // ----- one append

  lemma AppendLeafKeepsFresh<T>(h: Hasher<T>, d: nat, data: TreeData<T>, s: seq<T>, x: T, start: nat)
    requires Represents(h, d, data, s) && |s| < Pow2(d)
    ensures SiblingsFresh(h, d, AppendLeaf(h, data, x), s + [x], start)
  {
    WalkComputesNodes(h, d, data, s, x, d);
    forall l | 0 <= l < d && Shr(|s|, l) % 2 == 1
      ensures Node(h, LeafFn(h, s + [x]), l, Shr(|s|, l) - 1) == Node(h, LeafFn(h, s), l, Shr(|s|, l) - 1)
    {
      AppendOffPath(h, s, x, l, Shr(|s|, l) - 1);
    }
  }

  /** Once the tree has appended a leaf, the sibling write of the next append stores a finished subtree. */
  lemma PrevWriteIsTrue<T>(h: Hasher<T>, d: nat, data: TreeData<T>, s: seq<T>, x: T, start: nat, l: nat, p: nat)
    requires Represents(h, d, data, s) && SiblingsFresh(h, d, data, s, start) && start < |s|
    requires l < d && IsPrevLeftSibling(|s|, l, p)
    ensures data.siblings[l] == Node(h, LeafFn(h, s + [x]), l, p)
    ensures p != Shr(|s|, l)
  {
    ShrMonotone(|s| - 1, |s|, l);
    AppendOffPath(h, s, x, l, p);
  }

  lemma OccupiedAfter(n: nat, l: nat, p: nat)
    requires Occupied(n, l, p) || p == Shr(n, l) || IsPrevLeftSibling(n, l, p)
    ensures Occupied(n + 1, l, p)
  {
    if n > 0 { ShrMonotone(n - 1, n, l); }
  }

  ghost predicate SameRow<T>(a: map<nat, T>, b: map<nat, T>, key: nat) {
    (key in a <==> key in b) && (key in a ==> a[key] == b[key])
  }

  /** An append writes nothing for a subtree that still holds no leaf. */
  lemma StepKeepsBeyond<T>(h: Hasher<T>, d: nat, fullSync: bool, tracking: seq<nat>, data: TreeData<T>, s: seq<T>, x: T,
                           nodes: map<nat, T>, l: nat, p: nat)
    requires Represents(h, d, data, s) && |s| < Pow2(d) && l < d && p < Pow2(d - l) && !Occupied(|s| + 1, l, p)
    ensures SameRow(nodes, CacheTo(h, fullSync, tracking, |s|, x, data.siblings, nodes, d), Key(d, l, p))
  {
    ReadBack(h, fullSync, tracking, |s|, x, data.siblings, nodes, d, l, p);
    if p == Shr(|s|, l) || IsPrevLeftSibling(|s|, l, p) { OccupiedAfter(|s|, l, p); }
  }

  lemma StepSiblingKnown<T>(h: Hasher<T>, d: nat, fullSync: bool, tracking: seq<nat>, data: TreeData<T>, s: seq<T>,
                            x: T, start: nat, nodes: map<nat, T>, t: nat, l: nat)
    requires Represents(h, d, data, s) && SiblingsFresh(h, d, data, s, start) && |s| < Pow2(d)
    requires start <= t < |s| && l < d && (fullSync || t in tracking)
    requires SiblingKnown(h, d, s, nodes, t, l)
    ensures SiblingKnown(h, d, s + [x], CacheTo(h, fullSync, tracking, |s|, x, data.siblings, nodes, d), t, l)
  {
    var p := Xor1(Shr(t, l));
    KeepsOwnSibling(d, fullSync, tracking, t, l, p);
    ReadBack(h, fullSync, tracking, |s|, x, data.siblings, nodes, d, l, p);
    ShrMonotone(t, |s| - 1, l);
    ShrSucc(|s| - 1, l);
    if IsPrevLeftSibling(|s|, l, p) {
      PrevWriteIsTrue(h, d, data, s, x, start, l, p);
    } else if p == Shr(|s|, l) {
      WalkComputesNodes(h, d, data, s, x, l);
    } else {
      AppendOffPath(h, s, x, l, p);
    }
  }

  /** The leaf just appended asks nothing of the table yet. */
  lemma NewLeafKnown<T>(h: Hasher<T>, d: nat, s: seq<T>, nodes: map<nat, T>)
    requires |h.preHash| > 0 && |s| > 0
    ensures SiblingsKnown(h, d, s, nodes, |s| - 1)
  {}

  ghost predicate PathKnown<T>(h: Hasher<T>, d: nat, s: seq<T>, nodes: map<nat, T>, j: nat, l: nat)
    requires |h.preHash| > 0 && l < d
  {
    Key(d, l, Shr(j, l)) in nodes && nodes[Key(d, l, Shr(j, l))] == Node(h, LeafFn(h, s), l, Shr(j, l))
  }

  lemma StepPathKnown<T>(h: Hasher<T>, d: nat, tracking: seq<nat>, data: TreeData<T>, s: seq<T>, x: T, start: nat,
                         nodes: map<nat, T>, j: nat, l: nat)
    requires Represents(h, d, data, s) && SiblingsFresh(h, d, data, s, start) && |s| < Pow2(d)
    requires start <= j <= |s| && l < d && (j < |s| ==> PathKnown(h, d, s, nodes, j, l))
    ensures PathKnown(h, d, s + [x], CacheTo(h, true, tracking, |s|, x, data.siblings, nodes, d), j, l)
  {
    var p := Shr(j, l);
    ShrBound(j, d, l);
    ReadBack(h, true, tracking, |s|, x, data.siblings, nodes, d, l, p);
    assert KeepsAt(d, true, tracking, l, p);
    ShrMonotone(j, |s|, l);
    if |s| > 0 { ShrMonotone(|s| - 1, |s|, l); }
    if IsPrevLeftSibling(|s|, l, p) {
      PrevWriteIsTrue(h, d, data, s, x, start, l, p);
    } else if p == Shr(|s|, l) {
      WalkComputesNodes(h, d, data, s, x, l);
    } else {
      AppendOffPath(h, s, x, l, p);
    }
  }

  lemma StepPathsKnown<T>(h: Hasher<T>, d: nat, tracking: seq<nat>, data: TreeData<T>, s: seq<T>, x: T, start: nat,
                          nodes: map<nat, T>)
    requires Represents(h, d, data, s) && SiblingsFresh(h, d, data, s, start) && |s| < Pow2(d)
    requires PathsKnown(h, d, s, start, nodes)
    ensures PathsKnown(h, d, s + [x], start, CacheTo(h, true, tracking, |s|, x, data.siblings, nodes, d))
  {
    var after := CacheTo(h, true, tracking, |s|, x, data.siblings, nodes, d);
    var s' := s + [x];
    forall j: nat, l: nat | start <= j <= |s| && l < d ensures PathKnown(h, d, s', after, j, l) {
      StepPathKnown(h, d, tracking, data, s, x, start, nodes, j, l);
    }
  }
}
