/** What the batched sparse tree of packages/tree/src/nullifier-tree.ts computes, as functions on values, and its
    meaning: the complete tree over the set of used nullifiers. */
module NullifierSpec {
  import opened Options
  import opened Bits
  import opened Hashers
  import opened FullTree

  datatype SMTLeaf = EMPTY | FILLED
  datatype LeafUpdate = LeafUpdate(index: nat, val: SMTLeaf)
  /** `SiblingUndefined`: the hasher throws on the sibling it is given. */
  datatype SmtError = IndexOutOfRange(index: nat) | SiblingUndefined(index: nat) | RootNotChanged(index: nat)
  datatype DryRunResult<T> = Updated(updatedNodes: map<nat, T>, newRoot: T) | Rejected(error: SmtError)

  /** The TreeNode rows of the tree and the root kept in memory, unset until first needed. */
  datatype SmtState<T> = SmtState(nodes: map<nat, T>, rootNode: Option<T>)

  /** `toBN(val)`; an empty leaf is the hasher's zero. */
  function ValueOf<T>(h: Hasher<T>, filled: T, val: SMTLeaf): T
    requires |h.preHash| > 0
  {
    if val == FILLED then filled else h.preHash[0]
  }

  function CurrentRoot<T>(h: Hasher<T>, st: SmtState<T>): T
    requires |h.preHash| > 0
  {
    if st.rootNode.Some? then st.rootNode.value
    else if 1 in st.nodes then st.nodes[1]
    else GenesisRoot(h)
  }

  // ----- one leaf

  /** The empty subtree at the height of a node, found from the length of its index. */
  function EmptyAt<T>(h: Hasher<T>, d: nat, path: nat): T
    requires 0 < path < 2 * Pow2(d) && |h.preHash| == d + 1
  {
    NodeNotLongerThanLeaf(d, 0, path);
    h.preHash[d - (BitLength(path) - 1)]
  }

  /** A sibling: updated in this batch, stored, or empty. */
  function SiblingOf<T>(h: Hasher<T>, d: nat, nodes: map<nat, T>, updated: map<nat, T>, path: nat): T
    requires 0 < path < 2 * Pow2(d) && |h.preHash| == d + 1
  {
    var sib := Xor1(path);
    if sib in updated then updated[sib]
    else if sib in nodes then nodes[sib]
    else EmptyAt(h, d, path)
  }

  datatype Climbing<T> = Climbing(node: T, updated: map<nat, T>)

  lemma PathInRange(d: nat, index: nat, level: nat)
    requires index < Pow2(d) && level <= d
    ensures 0 < Shr(OrBit(d, index), level) < 2 * Pow2(d)
    ensures BitLength(Shr(OrBit(d, index), level)) == d - level + 1
  {
    PathKey(d, index, level);
    Pow2Monotone(d - level, d);
    BitLengthOfKey(d - level, Shr(index, level));
  }

  /** The node and the updated nodes after the first `level` levels of one leaf's path. */
  function PathTo<T>(h: Hasher<T>, d: nat, nodes: map<nat, T>, updated: map<nat, T>, index: nat, val: T,
                     level: nat): Climbing<T>
    requires |h.preHash| == d + 1 && level <= d && (index < Pow2(d) || d == 0)
  {
    if level == 0 then Climbing(val, updated)
    else
      var c := PathTo(h, d, nodes, updated, index, val, level - 1);
      PathInRange(d, index, level - 1);
      var path := Shr(OrBit(d, index), level - 1);
      var u := c.updated[path := c.node];
      var sib := SiblingOf(h, d, nodes, u, path);
      Climbing(if path % 2 == 0 then h.parentOf(c.node, sib) else h.parentOf(sib, c.node), u)
  }

  // ----- one batch

  /** Indices of the tree, or ones the range guard notices. */
  predicate Caught(d: nat, index: nat) {
    index < Pow2(d) || OrBit(d, index) <= index
  }

  /** Indices of the tree, or ones that are refused. A tree of a single leaf has no path on which an index beyond it
      could be missed by the guard and refused later. */
  predicate Noticed(d: nat, index: nat) {
    d > 0 || Caught(d, index)
  }

  /** The range guard rejects exactly the indices whose bit d is set. */
  lemma RangeGuardExact(d: nat, index: nat)
    ensures OrBit(d, index) <= index <==> (index / Pow2(d)) % 2 == 1
    ensures index < Pow2(d) ==> OrBit(d, index) > index
  {
    ShrIsDivision(index, d);
    if index < Pow2(d) { OrBitInRange(d, index); }
  }

  /** An index beyond the tree that the guard misses has a path longer than that of a leaf, and no sibling on it. */
  lemma MissedIsLonger(d: nat, index: nat)
    requires !Caught(d, index)
    ensures OrBit(d, index) >= 2 * Pow2(d) && Xor1(OrBit(d, index)) >= 2 * Pow2(d)
    ensures BitLength(OrBit(d, index)) >= d + 2
  {
    ShrIsDivision(index, d);
    RangeGuardExact(d, index);
    AtLeastTwice(index, Pow2(d));
    BitLengthOfKey(d + 1, 0);
    BitLengthMonotone(2 * Pow2(d), OrBit(d, index));
  }

  lemma AtLeastTwice(x: nat, p: nat)
    requires p > 0 && x >= p && (x / p) % 2 == 0
    ensures x >= 2 * p
  {}

  function Process<T(==)>(h: Hasher<T>, d: nat, filled: T, nodes: map<nat, T>, root: T, leaves: seq<LeafUpdate>,
                          strict: bool):
    DryRunResult<T>
    requires |h.preHash| == d + 1
  {
    if leaves == [] then Updated(map[], root)
    else
      var last := leaves[|leaves| - 1];
      match Process(h, d, filled, nodes, root, leaves[..|leaves| - 1], strict)
      case Rejected(e) => Rejected(e)
      case Updated(updated, newRoot) =>
        if OrBit(d, last.index) <= last.index then Rejected(IndexOutOfRange(last.index))
        else if d > 0 && last.index >= Pow2(d) then Rejected(SiblingUndefined(last.index))
        else
          var c := PathTo(h, d, nodes, updated, last.index, ValueOf(h, filled, last.val), d);
          if strict && newRoot == c.node then Rejected(RootNotChanged(last.index))
          else Updated(c.updated, c.node)
  }

  /** `dryRun`: the root row is added at the end. */
  function DryRun<T(==)>(h: Hasher<T>, d: nat, filled: T, st: SmtState<T>, leaves: seq<LeafUpdate>, strict: bool):
    DryRunResult<T>
    requires |h.preHash| == d + 1
  {
    match Process(h, d, filled, st.nodes, CurrentRoot(h, st), leaves, strict)
    case Rejected(e) => Rejected(e)
    case Updated(updated, newRoot) => Updated(updated[1 := newRoot], newRoot)
  }

  /** `update`: the state afterwards; a rejected batch changes nothing. */
  function Update<T(==)>(h: Hasher<T>, d: nat, filled: T, st: SmtState<T>, leaves: seq<LeafUpdate>,
                         strict: bool): SmtState<T>
    requires |h.preHash| == d + 1
  {
    match DryRun(h, d, filled, st, leaves, strict)
    case Rejected(_) => st
    case Updated(updatedNodes, newRoot) => SmtState(st.nodes + updatedNodes, Some(newRoot))
  }

  // ----- meaning

  function MemberFn<T>(h: Hasher<T>, filled: T, used: set<nat>): nat -> T
    requires |h.preHash| > 0
  {
    (j: nat) => if j in used then filled else h.preHash[0]
  }

  function SetLeafTo(used: set<nat>, leaf: LeafUpdate): set<nat> {
    if leaf.val == FILLED then used + {leaf.index} else used - {leaf.index}
  }

  function SetAfter(used: set<nat>, leaves: seq<LeafUpdate>): set<nat> {
    if leaves == [] then used
    else SetLeafTo(SetAfter(used, leaves[..|leaves| - 1]), leaves[|leaves| - 1])
  }

  /** Below height `top`, a stored node holds its true value and an absent one is truly empty. */
  ghost predicate Holds<T>(h: Hasher<T>, d: nat, filled: T, nodes: map<nat, T>, used: set<nat>, top: nat)
    requires |h.preHash| == d + 1 && top <= d + 1
  {
    forall l: nat, p: nat :: l < top && p < Pow2(d - l) ==>
      Stored(h, nodes, Key(d, l, p), l) == Node(h, MemberFn(h, filled, used), l, p)
  }

  /** The tree stands for the set `used`. */
  ghost predicate Represents<T>(h: Hasher<T>, d: nat, filled: T, st: SmtState<T>, used: set<nat>) {
    && IsHasher(h, d) && filled != h.preHash[0]
    && (forall j :: j in used ==> j < Pow2(d))
    && Holds(h, d, filled, st.nodes, used, d + 1)
    && CurrentRoot(h, st) == RootOf(h, MemberFn(h, filled, used), d)
  }

  lemma EmptyTreeRepresents<T>(h: Hasher<T>, d: nat, filled: T)
    requires IsHasher(h, d) && filled != h.preHash[0]
    ensures Represents(h, d, filled, SmtState(map[], None), {})
  {
    forall l: nat, p: nat | l < d + 1 && p < Pow2(d - l)
      ensures h.preHash[l] == Node(h, MemberFn(h, filled, {}), l, p)
    {
      EmptyNode(h, d, MemberFn(h, filled, {}), l, p);
    }
    assert Pow2(d - d) == 1;
    EmptyNode(h, d, MemberFn(h, filled, {}), d, 0);
  }

  /** One leaf changes only the nodes on its own path. */
  lemma MemberOffPath<T>(h: Hasher<T>, filled: T, used: set<nat>, leaf: LeafUpdate, l: nat, p: nat)
    requires |h.preHash| > 0 && p != Shr(leaf.index, l)
    ensures Node(h, MemberFn(h, filled, SetLeafTo(used, leaf)), l, p) == Node(h, MemberFn(h, filled, used), l, p)
  {
    NodeCongruence(h, MemberFn(h, filled, SetLeafTo(used, leaf)), MemberFn(h, filled, used), l, p);
  }

  lemma StoredAfterPut<T>(h: Hasher<T>, nodes: map<nat, T>, c: Climbing<T>, path: nat, key: nat, l: nat)
    requires l < |h.preHash|
    ensures Stored(h, nodes + c.updated[path := c.node], key, l)
         == if key == path then c.node else Stored(h, nodes + c.updated, key, l)
  {}

  /** What a path leaves in the overlay at (l, p). */
  lemma {:induction false} PathReadBack<T>(h: Hasher<T>, d: nat, nodes: map<nat, T>, updated: map<nat, T>, index: nat,
                                           val: T, level: nat, l: nat, p: nat)
    requires |h.preHash| == d + 1 && index < Pow2(d) && level <= d && l < d && p < Pow2(d - l)
    ensures Stored(h, nodes + PathTo(h, d, nodes, updated, index, val, level).updated, Key(d, l, p), l)
         == if l < level && p == Shr(index, l) then PathTo(h, d, nodes, updated, index, val, l).node
            else Stored(h, nodes + updated, Key(d, l, p), l)
  {
    if level > 0 {
      PathReadBack(h, d, nodes, updated, index, val, level - 1, l, p);
      LevelKeys(d, index, level - 1, l, p);
      StoredAfterPut(h, nodes, PathTo(h, d, nodes, updated, index, val, level - 1), Shr(OrBit(d, index), level - 1),
                     Key(d, l, p), l);
    }
  }

  /** A node above its path child and the sibling of that child. */
  function NextNode<T>(h: Hasher<T>, index: nat, l: nat, node: T, sibling: T): T {
    if Shr(index, l) % 2 == 0 then h.parentOf(node, sibling) else h.parentOf(sibling, node)
  }

  lemma NodeStep<T>(h: Hasher<T>, f: nat -> T, index: nat, level: nat)
    requires level > 0
    ensures Node(h, f, level, Shr(index, level))
         == NextNode(h, index, level - 1, Node(h, f, level - 1, Shr(index, level - 1)),
                     Node(h, f, level - 1, Xor1(Shr(index, level - 1))))
  {}

  lemma PathStep<T>(h: Hasher<T>, d: nat, nodes: map<nat, T>, updated: map<nat, T>, index: nat, val: T, level: nat)
    requires |h.preHash| == d + 1 && index < Pow2(d) && 0 < level <= d
    ensures 0 < Shr(OrBit(d, index), level - 1) < 2 * Pow2(d)
    ensures PathTo(h, d, nodes, updated, index, val, level).node
         == NextNode(h, index, level - 1, PathTo(h, d, nodes, updated, index, val, level - 1).node,
                     SiblingOf(h, d, nodes, PathTo(h, d, nodes, updated, index, val, level).updated,
                               Shr(OrBit(d, index), level - 1)))
  {
    PathInRange(d, index, level - 1);
    SiblingKey(d, index, level - 1);
  }

  /** The sibling met on a path is what the overlay says about it. */
  lemma SiblingRead<T>(h: Hasher<T>, d: nat, nodes: map<nat, T>, updated: map<nat, T>, index: nat, l: nat)
    requires |h.preHash| == d + 1 && index < Pow2(d) && l < d
    ensures 0 < Shr(OrBit(d, index), l) < 2 * Pow2(d) && Xor1(Shr(index, l)) < Pow2(d - l)
    ensures SiblingOf(h, d, nodes, updated, Shr(OrBit(d, index), l))
         == Stored(h, nodes + updated, Key(d, l, Xor1(Shr(index, l))), l)
  {
    PathInRange(d, index, l);
    SiblingKey(d, index, l);
  }

  /** It is the true sibling, since the leaf of the path changes nothing on the other side. */
  lemma SiblingMetIsTrue<T>(h: Hasher<T>, d: nat, filled: T, nodes: map<nat, T>, updated: map<nat, T>, used: set<nat>,
                            leaf: LeafUpdate, level: nat)
    requires |h.preHash| == d + 1 && leaf.index < Pow2(d) && 0 < level <= d
    requires Holds(h, d, filled, nodes + updated, used, d)
    ensures 0 < Shr(OrBit(d, leaf.index), level - 1) < 2 * Pow2(d)
    ensures SiblingOf(h, d, nodes,
                      PathTo(h, d, nodes, updated, leaf.index, ValueOf(h, filled, leaf.val), level).updated,
                      Shr(OrBit(d, leaf.index), level - 1))
         == Node(h, MemberFn(h, filled, SetLeafTo(used, leaf)), level - 1, Xor1(Shr(leaf.index, level - 1)))
  {
    var l, index, val := level - 1, leaf.index, ValueOf(h, filled, leaf.val);
    var p := Xor1(Shr(index, l));
    SiblingRead(h, d, nodes, PathTo(h, d, nodes, updated, index, val, level).updated, index, l);
    PathReadBack(h, d, nodes, updated, index, val, level, l, p);
    MemberOffPath(h, filled, used, leaf, l, p);
  }

  /** The path computes true nodes of the new set. */
  lemma {:induction false} PathComputesNodes<T>(h: Hasher<T>, d: nat, filled: T, nodes: map<nat, T>,
                                                updated: map<nat, T>, used: set<nat>, leaf: LeafUpdate, level: nat)
    requires |h.preHash| == d + 1 && leaf.index < Pow2(d) && level <= d
    requires Holds(h, d, filled, nodes + updated, used, d)
    ensures PathTo(h, d, nodes, updated, leaf.index, ValueOf(h, filled, leaf.val), level).node
         == Node(h, MemberFn(h, filled, SetLeafTo(used, leaf)), level, Shr(leaf.index, level))
  {
    if level > 0 {
      var l, index, val := level - 1, leaf.index, ValueOf(h, filled, leaf.val);
      PathComputesNodes(h, d, filled, nodes, updated, used, leaf, l);
      SiblingMetIsTrue(h, d, filled, nodes, updated, used, leaf, level);
      PathStep(h, d, nodes, updated, index, val, level);
      NodeStep(h, MemberFn(h, filled, SetLeafTo(used, leaf)), index, level);
    }
  }

  lemma PathKeepsHolds<T>(h: Hasher<T>, d: nat, filled: T, nodes: map<nat, T>, updated: map<nat, T>, used: set<nat>,
                          leaf: LeafUpdate)
    requires |h.preHash| == d + 1 && leaf.index < Pow2(d)
    requires Holds(h, d, filled, nodes + updated, used, d)
    ensures var c := PathTo(h, d, nodes, updated, leaf.index, ValueOf(h, filled, leaf.val), d);
      && Holds(h, d, filled, nodes + c.updated, SetLeafTo(used, leaf), d)
      && c.node == RootOf(h, MemberFn(h, filled, SetLeafTo(used, leaf)), d)
  {
    var val := ValueOf(h, filled, leaf.val);
    var c := PathTo(h, d, nodes, updated, leaf.index, val, d);
    forall l: nat, p: nat | l < d && p < Pow2(d - l)
      ensures Stored(h, nodes + c.updated, Key(d, l, p), l) == Node(h, MemberFn(h, filled, SetLeafTo(used, leaf)), l, p)
    {
      PathReadBack(h, d, nodes, updated, leaf.index, val, d, l, p);
      if p == Shr(leaf.index, l) {
        PathComputesNodes(h, d, filled, nodes, updated, used, leaf, l);
      } else {
        MemberOffPath(h, filled, used, leaf, l, p);
      }
    }
    PathComputesNodes(h, d, filled, nodes, updated, used, leaf, d);
    ShrToZero(leaf.index, d);
  }

  /** A leaf leaves the root alone exactly when it already has that value. */
  lemma RootUnchangedIff<T(!new)>(h: Hasher<T>, d: nat, filled: T, used: set<nat>, leaf: LeafUpdate)
    requires Injective(h.parentOf) && |h.preHash| == d + 1 && filled != h.preHash[0] && leaf.index < Pow2(d)
    ensures RootOf(h, MemberFn(h, filled, SetLeafTo(used, leaf)), d) == RootOf(h, MemberFn(h, filled, used), d)
       <==> (leaf.index in used <==> leaf.val == FILLED)
  {
    var f, g := MemberFn(h, filled, SetLeafTo(used, leaf)), MemberFn(h, filled, used);
    ShrToZero(leaf.index, d);
    if RootOf(h, f, d) == RootOf(h, g, d) {
      NodeBinding(h, f, g, d, 0, leaf.index);
    }
    if leaf.index in used <==> leaf.val == FILLED {
      assert SetLeafTo(used, leaf) == used;
    }
  }

  // ----- batches against sets

  /** Every leaf is in range and changes the set at its turn. */
  ghost predicate EachChanges(d: nat, used: set<nat>, leaves: seq<LeafUpdate>) {
    forall i :: 0 <= i < |leaves| ==>
      && leaves[i].index < Pow2(d)
      && (leaves[i].index in SetAfter(used, leaves[..i]) <==> leaves[i].val != FILLED)
  }

  ghost predicate InRange(d: nat, leaves: seq<LeafUpdate>) {
    forall i :: 0 <= i < |leaves| ==> leaves[i].index < Pow2(d)
  }

  /** A processed batch stands for the updated set. */
  lemma {:induction false} ProcessRefines<T>(h: Hasher<T>, d: nat, filled: T, nodes: map<nat, T>, root: T,
                                             used: set<nat>, leaves: seq<LeafUpdate>, strict: bool)
    requires |h.preHash| == d + 1 && forall i :: 0 <= i < |leaves| ==> Noticed(d, leaves[i].index)
    requires Holds(h, d, filled, nodes, used, d) && root == RootOf(h, MemberFn(h, filled, used), d)
    decreases |leaves|
    ensures var r := Process(h, d, filled, nodes, root, leaves, strict);
      r.Updated? ==>
        && Holds(h, d, filled, nodes + r.updatedNodes, SetAfter(used, leaves), d)
        && r.newRoot == RootOf(h, MemberFn(h, filled, SetAfter(used, leaves)), d)
        && InRange(d, leaves)
  {
    if leaves == [] {
      assert nodes + map[] == nodes;
    } else {
      var n := |leaves| - 1;
      ProcessRefines(h, d, filled, nodes, root, used, leaves[..n], strict);
      var r := Process(h, d, filled, nodes, root, leaves[..n], strict);
      if r.Updated? && leaves[n].index < Pow2(d) {
        PathKeepsHolds(h, d, filled, nodes, r.updatedNodes, SetAfter(used, leaves[..n]), leaves[n]);
        assert InRange(d, leaves[..n]);
        forall i | 0 <= i < |leaves| ensures leaves[i].index < Pow2(d) {
          if i < n { assert leaves[..n][i] == leaves[i]; }
        }
      }
    }
  }

  /** Without strict update only the range guard can reject. */
  lemma {:induction false} LaxProcessAccepts<T>(h: Hasher<T>, d: nat, filled: T, nodes: map<nat, T>, root: T,
                                                leaves: seq<LeafUpdate>)
    requires |h.preHash| == d + 1 && forall i :: 0 <= i < |leaves| ==> Noticed(d, leaves[i].index)
    ensures Process(h, d, filled, nodes, root, leaves, false).Updated? <==> InRange(d, leaves)
    decreases |leaves|
  {
    if leaves != [] {
      var n := |leaves| - 1;
      LaxProcessAccepts(h, d, filled, nodes, root, leaves[..n]);
      RangeGuardExact(d, leaves[n].index);
      assert InRange(d, leaves) <==> InRange(d, leaves[..n]) && leaves[n].index < Pow2(d) by {
        assert forall i :: 0 <= i < n ==> leaves[..n][i] == leaves[i];
      }
    }
  }

  /** Strict update accepts a batch exactly when every leaf changes the set at its turn. */
  lemma {:induction false} StrictProcessExact<T(!new)>(h: Hasher<T>, d: nat, filled: T, nodes: map<nat, T>, root: T,
                                                       used: set<nat>,
                                                 leaves: seq<LeafUpdate>)
    requires Injective(h.parentOf)
    requires |h.preHash| == d + 1 && filled != h.preHash[0]
    requires forall i :: 0 <= i < |leaves| ==> Noticed(d, leaves[i].index)
    requires Holds(h, d, filled, nodes, used, d) && root == RootOf(h, MemberFn(h, filled, used), d)
    ensures Process(h, d, filled, nodes, root, leaves, true).Updated? <==> EachChanges(d, used, leaves)
    decreases |leaves|
  {
    if leaves != [] {
      var n := |leaves| - 1;
      var before := leaves[..n];
      StrictProcessExact(h, d, filled, nodes, root, used, before);
      ProcessRefines(h, d, filled, nodes, root, used, before, true);
      RangeGuardExact(d, leaves[n].index);
      EachChangesSnoc(d, used, leaves);
      var r := Process(h, d, filled, nodes, root, before, true);
      if r.Updated? && leaves[n].index < Pow2(d) {
        PathKeepsHolds(h, d, filled, nodes, r.updatedNodes, SetAfter(used, before), leaves[n]);
        RootUnchangedIff(h, d, filled, SetAfter(used, before), leaves[n]);
      }
    }
  }

  /** Leaf k is the first one refused, and the error says why. */
  ghost predicate RefusedAt(d: nat, used: set<nat>, leaves: seq<LeafUpdate>, error: SmtError, k: nat) {
    && k < |leaves| && EachChanges(d, used, leaves[..k]) && error.index == leaves[k].index
    && match error
       case IndexOutOfRange(i) => (i / Pow2(d)) % 2 == 1
       case SiblingUndefined(i) => i >= Pow2(d) && (i / Pow2(d)) % 2 == 0
       case RootNotChanged(i) => i < Pow2(d) && (i in SetAfter(used, leaves[..k]) <==> leaves[k].val == FILLED)
  }

  /** A rejected batch names the first leaf that is out of range or does not change the set. */
  lemma {:induction false} RejectedBecause<T(!new)>(h: Hasher<T>, d: nat, filled: T, nodes: map<nat, T>, root: T,
                                                    used: set<nat>, leaves: seq<LeafUpdate>) returns (k: nat)
    requires Injective(h.parentOf)
    requires |h.preHash| == d + 1 && filled != h.preHash[0]
    requires forall i :: 0 <= i < |leaves| ==> Noticed(d, leaves[i].index)
    requires Holds(h, d, filled, nodes, used, d) && root == RootOf(h, MemberFn(h, filled, used), d)
    requires Process(h, d, filled, nodes, root, leaves, true).Rejected?
    ensures RefusedAt(d, used, leaves, Process(h, d, filled, nodes, root, leaves, true).error, k)
    decreases |leaves|
  {
    var n := |leaves| - 1;
    var before := leaves[..n];
    var r := Process(h, d, filled, nodes, root, before, true);
    if r.Rejected? {
      k := RejectedBecause(h, d, filled, nodes, root, used, before);
      assert before[..k] == leaves[..k];
    } else {
      k := n;
      StrictProcessExact(h, d, filled, nodes, root, used, before);
      ProcessRefines(h, d, filled, nodes, root, used, before, true);
      RangeGuardExact(d, leaves[n].index);
      if leaves[n].index < Pow2(d) {
        PathKeepsHolds(h, d, filled, nodes, r.updatedNodes, SetAfter(used, before), leaves[n]);
        RootUnchangedIff(h, d, filled, SetAfter(used, before), leaves[n]);
      }
    }
  }

  lemma EachChangesSnoc(d: nat, used: set<nat>, leaves: seq<LeafUpdate>)
    requires leaves != []
    ensures EachChanges(d, used, leaves) <==>
      var n := |leaves| - 1;
      && EachChanges(d, used, leaves[..n]) && leaves[n].index < Pow2(d)
      && (leaves[n].index in SetAfter(used, leaves[..n]) <==> leaves[n].val != FILLED)
  {
    var n := |leaves| - 1;
    forall i | 0 <= i < n ensures leaves[..n][i] == leaves[i] && leaves[..n][..i] == leaves[..i] {
      assert leaves[..n][..i] == leaves[..i];
    }
    if EachChanges(d, used, leaves) {
      forall i | 0 <= i < n
        ensures leaves[..n][i].index < Pow2(d)
        ensures leaves[..n][i].index in SetAfter(used, leaves[..n][..i]) <==> leaves[..n][i].val != FILLED
      {
        assert leaves[..n][..i] == leaves[..i];
      }
    }
    if EachChanges(d, used, leaves[..n]) {
      forall i | 0 <= i < n
        ensures leaves[i].index < Pow2(d)
        ensures leaves[i].index in SetAfter(used, leaves[..i]) <==> leaves[i].val != FILLED
      {
        assert leaves[..n][..i] == leaves[..i];
        assert leaves[..n][i] == leaves[i];
      }
    }
  }
}
