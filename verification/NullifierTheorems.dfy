/** The sparse tree against the set of used nullifiers: batches, double use, undo, membership. */
module NullifierTheorems {
  import opened Options
  import opened Sequences
  import opened Bits
  import opened Hashers
  import opened FullTree
  import opened MerkleProofs
  import opened NullifierSpec

  function Leaves(indices: seq<nat>, val: SMTLeaf): (r: seq<LeafUpdate>)
    ensures |r| == |indices|
    ensures forall i :: 0 <= i < |r| ==> r[i] == LeafUpdate(indices[i], val)
  {
    seq(|indices|, i requires 0 <= i < |indices| => LeafUpdate(indices[i], val))
  }

  ghost predicate AllNoticed(d: nat, indices: seq<nat>) {
    forall i :: 0 <= i < |indices| ==> Noticed(d, indices[i])
  }

  ghost predicate AllInRange(d: nat, indices: seq<nat>) {
    forall i :: 0 <= i < |indices| ==> indices[i] < Pow2(d)
  }

  function SetOf(indices: seq<nat>): set<nat> {
    set i | 0 <= i < |indices| :: indices[i]
  }

  // ----- refinement

  /** An accepted batch moves the tree to the updated set; a rejected one changes nothing. */
  lemma UpdateRefines<T>(h: Hasher<T>, d: nat, filled: T, st: SmtState<T>, used: set<nat>, leaves: seq<LeafUpdate>,
                         strict: bool)
    requires Represents(h, d, filled, st, used)
    requires forall i :: 0 <= i < |leaves| ==> Noticed(d, leaves[i].index)
    ensures var r := DryRun(h, d, filled, st, leaves, strict);
      var st' := Update(h, d, filled, st, leaves, strict);
      if r.Updated? then Represents(h, d, filled, st', SetAfter(used, leaves)) && r.newRoot == CurrentRoot(h, st')
      else st' == st
  {
    var root := CurrentRoot(h, st);
    ProcessRefines(h, d, filled, st.nodes, root, used, leaves, strict);
    var r := Process(h, d, filled, st.nodes, root, leaves, strict);
    if r.Updated? {
      var used' := SetAfter(used, leaves);
      SetAfterInRange(d, used, leaves);
      var nodes' := st.nodes + r.updatedNodes[1 := r.newRoot];
      forall l: nat, p: nat | l < d + 1 && p < Pow2(d - l)
        ensures Stored(h, nodes', Key(d, l, p), l) == Node(h, MemberFn(h, filled, used'), l, p)
      {
        assert Key(d, d, 0) == 1;
        if Key(d, l, p) == 1 { KeyInjective(d, l, p, d, 0); }
        if l < d { assert Stored(h, st.nodes + r.updatedNodes, Key(d, l, p), l) == Stored(h, nodes', Key(d, l, p), l); }
      }
    }
  }

  lemma {:induction false} SetAfterInRange(d: nat, used: set<nat>, leaves: seq<LeafUpdate>)
    requires InRange(d, leaves) && forall j :: j in used ==> j < Pow2(d)
    ensures forall j :: j in SetAfter(used, leaves) ==> j < Pow2(d)
    decreases |leaves|
  {
    if leaves != [] {
      var before := leaves[..|leaves| - 1];
      assert forall i :: 0 <= i < |before| ==> before[i] == leaves[i];
      SetAfterInRange(d, used, before);
    }
  }

  // ----- reopening

  /** A tree object newly made over the rows of another. */
  function Reopened<T>(st: SmtState<T>): SmtState<T> { SmtState(st.nodes, None) }

  /** It stands for the same set: the rows alone hold the true root, stored or empty. */
  lemma ReopenedRepresents<T>(h: Hasher<T>, d: nat, filled: T, st: SmtState<T>, used: set<nat>)
    requires Represents(h, d, filled, st, used)
    ensures Represents(h, d, filled, Reopened(st), used)
  {
    assert Pow2(0) == 1 && Key(d, d, 0) == 1;
    assert Stored(h, st.nodes, Key(d, d, 0), d) == Node(h, MemberFn(h, filled, used), d, 0);
  }

  // ----- runs

  /** A call, or a restart of the program, which forgets the root kept in memory. */
  datatype Operation = Nullify(indices: seq<nat>) | Recover(indices: seq<nat>) | Reopen

  function StepTo<T(==)>(h: Hasher<T>, d: nat, filled: T, st: SmtState<T>, op: Operation): SmtState<T>
    requires |h.preHash| == d + 1
  {
    match op
    case Nullify(s) => Update(h, d, filled, st, Leaves(s, FILLED), true)
    case Recover(s) => Update(h, d, filled, st, Leaves(s, EMPTY), true)
    case Reopen => Reopened(st)
  }

  ghost predicate AllOperationsNoticed(d: nat, ops: seq<Operation>) {
    forall k :: 0 <= k < |ops| && !ops[k].Reopen? ==> AllNoticed(d, ops[k].indices)
  }

  /** Any sequence of nullify and recover calls and restarts; a call that throws leaves the state untouched. */
  function Run<T(==)>(h: Hasher<T>, d: nat, filled: T, st: SmtState<T>, ops: seq<Operation>): SmtState<T>
    requires |h.preHash| == d + 1
  {
    if ops == [] then st
    else StepTo(h, d, filled, Run(h, d, filled, st, ops[..|ops| - 1]), ops[|ops| - 1])
  }

  /** The set a run should leave, decided by sets alone: a call takes effect when it neither repeats nor mismatches. */
  ghost function SetRun(d: nat, used: set<nat>, ops: seq<Operation>): set<nat> {
    if ops == [] then used
    else
      var before := SetRun(d, used, ops[..|ops| - 1]);
      match ops[|ops| - 1]
      case Nullify(s) => if AllInRange(d, s) && Distinct(s) && SetOf(s) !! before then before + SetOf(s) else before
      case Recover(s) => if AllInRange(d, s) && Distinct(s) && SetOf(s) <= before then before - SetOf(s) else before
      case Reopen => before
  }

  /** The sparse tree refines the set over every run, restarts included. */
  lemma {:induction false} RunRefines<T(!new)>(h: Hasher<T>, d: nat, filled: T, st: SmtState<T>, used: set<nat>,
                                               ops: seq<Operation>)
    requires Injective(h.parentOf) && Represents(h, d, filled, st, used) && AllOperationsNoticed(d, ops)
    ensures Represents(h, d, filled, Run(h, d, filled, st, ops), SetRun(d, used, ops))
  {
    if ops != [] {
      var n := |ops| - 1;
      RunRefines(h, d, filled, st, used, ops[..n]);
      var mid, set' := Run(h, d, filled, st, ops[..n]), SetRun(d, used, ops[..n]);
      match ops[n]
      case Nullify(s) =>
        UpdateRefines(h, d, filled, mid, set', Leaves(s, FILLED), true);
        NullifyAcceptedIff(h, d, filled, mid, set', s);
      case Recover(s) =>
        UpdateRefines(h, d, filled, mid, set', Leaves(s, EMPTY), true);
        RecoverAcceptedIff(h, d, filled, mid, set', s);
      case Reopen => ReopenedRepresents(h, d, filled, mid, set');
    }
  }

  // ----- double use

  lemma {:induction false} SetAfterFill(used: set<nat>, s: seq<nat>)
    ensures SetAfter(used, Leaves(s, FILLED)) == used + SetOf(s)
  {
    if s != [] {
      var n := |s| - 1;
      SetAfterFill(used, s[..n]);
      assert Leaves(s, FILLED)[..n] == Leaves(s[..n], FILLED);
      assert SetOf(s) == SetOf(s[..n]) + {s[n]};
    }
  }

  lemma {:induction false} SetAfterClear(used: set<nat>, s: seq<nat>)
    ensures SetAfter(used, Leaves(s, EMPTY)) == used - SetOf(s)
  {
    if s != [] {
      var n := |s| - 1;
      SetAfterClear(used, s[..n]);
      assert Leaves(s, EMPTY)[..n] == Leaves(s[..n], EMPTY);
      assert SetOf(s) == SetOf(s[..n]) + {s[n]};
    }
  }

  lemma FillChangesIff(d: nat, used: set<nat>, s: seq<nat>)
    ensures EachChanges(d, used, Leaves(s, FILLED)) <==> AllInRange(d, s) && Distinct(s) && SetOf(s) !! used
  {
    var leaves := Leaves(s, FILLED);
    forall i | 0 <= i < |s| ensures SetAfter(used, leaves[..i]) == used + SetOf(s[..i]) {
      assert leaves[..i] == Leaves(s[..i], FILLED);
      SetAfterFill(used, s[..i]);
    }
    if EachChanges(d, used, leaves) {
      forall i, j | 0 <= i < j < |s| ensures s[i] != s[j] {
        assert s[..j][i] in SetOf(s[..j]);
        assert leaves[j].index !in SetAfter(used, leaves[..j]);
      }
      forall i | 0 <= i < |s| ensures s[i] < Pow2(d) && s[i] !in used {
        assert leaves[i].index !in SetAfter(used, leaves[..i]);
      }
    }
  }

  lemma ClearChangesIff(d: nat, used: set<nat>, s: seq<nat>)
    ensures EachChanges(d, used, Leaves(s, EMPTY)) <==> AllInRange(d, s) && Distinct(s) && SetOf(s) <= used
  {
    var leaves := Leaves(s, EMPTY);
    forall i | 0 <= i < |s| ensures SetAfter(used, leaves[..i]) == used - SetOf(s[..i]) {
      assert leaves[..i] == Leaves(s[..i], EMPTY);
      SetAfterClear(used, s[..i]);
    }
    if EachChanges(d, used, leaves) {
      forall i, j | 0 <= i < j < |s| ensures s[i] != s[j] {
        assert s[..j][i] in SetOf(s[..j]);
        assert leaves[j].index in SetAfter(used, leaves[..j]);
      }
      forall i | 0 <= i < |s| ensures s[i] < Pow2(d) && s[i] in used {
        assert leaves[i].index in SetAfter(used, leaves[..i]);
      }
    }
  }

  /** nullify and dryRunNullify throw exactly on an out-of-range index, a repetition, or an index already used. */
  lemma NullifyAcceptedIff<T(!new)>(h: Hasher<T>, d: nat, filled: T, st: SmtState<T>, used: set<nat>, s: seq<nat>)
    requires Injective(h.parentOf) && Represents(h, d, filled, st, used) && AllNoticed(d, s)
    ensures DryRun(h, d, filled, st, Leaves(s, FILLED), true).Updated?
       <==> AllInRange(d, s) && Distinct(s) && SetOf(s) !! used
    ensures SetAfter(used, Leaves(s, FILLED)) == used + SetOf(s)
  {
    StrictProcessExact(h, d, filled, st.nodes, CurrentRoot(h, st), used, Leaves(s, FILLED));
    FillChangesIff(d, used, s);
    SetAfterFill(used, s);
  }

  /** recover throws exactly on an out-of-range index, a repetition, or an index not in use. */
  lemma RecoverAcceptedIff<T(!new)>(h: Hasher<T>, d: nat, filled: T, st: SmtState<T>, used: set<nat>, s: seq<nat>)
    requires Injective(h.parentOf) && Represents(h, d, filled, st, used) && AllNoticed(d, s)
    ensures DryRun(h, d, filled, st, Leaves(s, EMPTY), true).Updated?
       <==> AllInRange(d, s) && Distinct(s) && SetOf(s) <= used
    ensures SetAfter(used, Leaves(s, EMPTY)) == used - SetOf(s)
  {
    StrictProcessExact(h, d, filled, st.nodes, CurrentRoot(h, st), used, Leaves(s, EMPTY));
    ClearChangesIff(d, used, s);
    SetAfterClear(used, s);
  }

  // ----- batches as sets

  /** Two states standing for one set answer every question alike. */
  ghost predicate SameAnswers<T>(h: Hasher<T>, d: nat, a: SmtState<T>, b: SmtState<T>)
    requires |h.preHash| == d + 1
  {
    && CurrentRoot(h, a) == CurrentRoot(h, b)
    && forall l: nat, p: nat :: l <= d && p < Pow2(d - l) ==>
         Stored(h, a.nodes, Key(d, l, p), l) == Stored(h, b.nodes, Key(d, l, p), l)
  }

  lemma SameSetSameAnswers<T>(h: Hasher<T>, d: nat, filled: T, a: SmtState<T>, b: SmtState<T>, used: set<nat>)
    requires Represents(h, d, filled, a, used) && Represents(h, d, filled, b, used)
    ensures SameAnswers(h, d, a, b)
  {}

  function NullifyState<T(==)>(h: Hasher<T>, d: nat, filled: T, st: SmtState<T>, s: seq<nat>): SmtState<T>
    requires |h.preHash| == d + 1
  {
    Update(h, d, filled, st, Leaves(s, FILLED), true)
  }

  /** nullify(a) then nullify(b) is nullify(a ++ b): accepted together, and with the same answers. */
  lemma NullifyComposes<T(!new)>(h: Hasher<T>, d: nat, filled: T, st: SmtState<T>, used: set<nat>, a: seq<nat>,
                                 b: seq<nat>)
    requires Injective(h.parentOf) && Represents(h, d, filled, st, used) && AllNoticed(d, a) && AllNoticed(d, b)
    ensures DryRun(h, d, filled, st, Leaves(a + b, FILLED), true).Updated? <==>
      && DryRun(h, d, filled, st, Leaves(a, FILLED), true).Updated?
      && DryRun(h, d, filled, NullifyState(h, d, filled, st, a), Leaves(b, FILLED), true).Updated?
    ensures DryRun(h, d, filled, st, Leaves(a + b, FILLED), true).Updated? ==>
      SameAnswers(h, d, NullifyState(h, d, filled, st, a + b),
                  NullifyState(h, d, filled, NullifyState(h, d, filled, st, a), b))
  {
    var ab := a + b;
    assert AllNoticed(d, ab);
    var mid := NullifyState(h, d, filled, st, a);
    NullifyAcceptedIff(h, d, filled, st, used, ab);
    NullifyAcceptedIff(h, d, filled, st, used, a);
    UpdateRefines(h, d, filled, st, used, Leaves(a, FILLED), true);
    ConcatFacts(d, used, a, b);
    if DryRun(h, d, filled, st, Leaves(a, FILLED), true).Updated? {
      NullifyAcceptedIff(h, d, filled, mid, used + SetOf(a), b);
      UpdateRefines(h, d, filled, mid, used + SetOf(a), Leaves(b, FILLED), true);
      UpdateRefines(h, d, filled, st, used, Leaves(ab, FILLED), true);
      assert used + SetOf(ab) == used + SetOf(a) + SetOf(b);
      if DryRun(h, d, filled, st, Leaves(ab, FILLED), true).Updated? {
        SameSetSameAnswers(h, d, filled, NullifyState(h, d, filled, st, ab), NullifyState(h, d, filled, mid, b),
                           used + SetOf(ab));
      }
    }
  }

  lemma ConcatFacts(d: nat, used: set<nat>, a: seq<nat>, b: seq<nat>)
    ensures SetOf(a + b) == SetOf(a) + SetOf(b)
    ensures AllInRange(d, a + b) <==> AllInRange(d, a) && AllInRange(d, b)
    ensures Distinct(a + b) <==> Distinct(a) && Distinct(b) && SetOf(a) !! SetOf(b)
  {
    var ab := a + b;
    forall i | 0 <= i < |a| ensures a[i] == ab[i] {}
    forall i | 0 <= i < |b| ensures b[i] == ab[|a| + i] {}
    assert SetOf(ab) == SetOf(a) + SetOf(b) by {
      forall x | x in SetOf(a) ensures x in SetOf(ab) {
        var i :| 0 <= i < |a| && a[i] == x;
        assert ab[i] == x;
      }
      forall x | x in SetOf(b) ensures x in SetOf(ab) {
        var i :| 0 <= i < |b| && b[i] == x;
        assert ab[|a| + i] == x;
      }
    }
    if Distinct(ab) {
      forall i, j | 0 <= i < |a| && 0 <= j < |b| ensures a[i] != b[j] {
        assert ab[i] != ab[|a| + j];
      }
      forall i, j | 0 <= i < j < |a| ensures a[i] != a[j] { assert ab[i] != ab[j]; }
      forall i, j | 0 <= i < j < |b| ensures b[i] != b[j] { assert ab[|a| + i] != ab[|a| + j]; }
    }
    if Distinct(a) && Distinct(b) && SetOf(a) !! SetOf(b) {
      forall i, j | 0 <= i < j < |ab| ensures ab[i] != ab[j] {
        if i < |a| <= j { assert ab[i] in SetOf(a) && b[j - |a|] in SetOf(b); }
      }
    }
  }

  /** The result does not depend on the order of the batch. */
  lemma NullifyOrderIrrelevant<T(!new)>(h: Hasher<T>, d: nat, filled: T, st: SmtState<T>, used: set<nat>, a: seq<nat>,
                                        b: seq<nat>)
    requires Injective(h.parentOf) && Represents(h, d, filled, st, used) && AllNoticed(d, a) && AllNoticed(d, b)
    requires multiset(a) == multiset(b)
    ensures DryRun(h, d, filled, st, Leaves(a, FILLED), true).Updated?
       <==> DryRun(h, d, filled, st, Leaves(b, FILLED), true).Updated?
    ensures SameAnswers(h, d, NullifyState(h, d, filled, st, a), NullifyState(h, d, filled, st, b))
  {
    NullifyAcceptedIff(h, d, filled, st, used, a);
    NullifyAcceptedIff(h, d, filled, st, used, b);
    SameElements(a, b);
    SameElements(b, a);
    assert forall i :: 0 <= i < |a| ==> a[i] in SetOf(a) && a[i] in SetOf(b);
    assert forall i :: 0 <= i < |b| ==> b[i] in SetOf(b) && b[i] in SetOf(a);
    assert AllInRange(d, a) <==> AllInRange(d, b);
    UpdateRefines(h, d, filled, st, used, Leaves(a, FILLED), true);
    UpdateRefines(h, d, filled, st, used, Leaves(b, FILLED), true);
    if DryRun(h, d, filled, st, Leaves(a, FILLED), true).Updated? {
      SameSetSameAnswers(h, d, filled, NullifyState(h, d, filled, st, a), NullifyState(h, d, filled, st, b),
                         used + SetOf(a));
    }
  }

  lemma SameElements(a: seq<nat>, b: seq<nat>)
    requires multiset(a) == multiset(b)
    ensures SetOf(a) == SetOf(b)
    ensures Distinct(a) ==> Distinct(b)
  {
    forall x ensures x in SetOf(a) <==> x in SetOf(b) {
      assert x in SetOf(a) <==> x in multiset(a);
      assert x in SetOf(b) <==> x in multiset(b);
    }
    if Distinct(a) {
      forall i, j | 0 <= i < j < |b| ensures b[i] != b[j] {
        if b[i] == b[j] {
          TwiceCounted(b, i, j);
          DistinctOnce(a, b[i]);
        }
      }
    }
  }

  /** recover(s) after nullify(s) is accepted and restores every answer. */
  lemma RecoverUndoesNullify<T(!new)>(h: Hasher<T>, d: nat, filled: T, st: SmtState<T>, used: set<nat>, s: seq<nat>)
    requires Injective(h.parentOf) && Represents(h, d, filled, st, used) && AllNoticed(d, s)
    requires DryRun(h, d, filled, st, Leaves(s, FILLED), true).Updated?
    ensures var mid := NullifyState(h, d, filled, st, s);
      && DryRun(h, d, filled, mid, Leaves(s, EMPTY), true).Updated?
      && SameAnswers(h, d, Update(h, d, filled, mid, Leaves(s, EMPTY), true), st)
  {
    var mid := NullifyState(h, d, filled, st, s);
    NullifyAcceptedIff(h, d, filled, st, used, s);
    UpdateRefines(h, d, filled, st, used, Leaves(s, FILLED), true);
    RecoverAcceptedIff(h, d, filled, mid, used + SetOf(s), s);
    UpdateRefines(h, d, filled, mid, used + SetOf(s), Leaves(s, EMPTY), true);
    assert used + SetOf(s) - SetOf(s) == used;
    SameSetSameAnswers(h, d, filled, Update(h, d, filled, mid, Leaves(s, EMPTY), true), st, used);
  }

  // ----- membership

  datatype SmtProof<T> = SmtProved(proof: MerkleProof<T>) | SmtOutOfRange | SmtInvalid

  /** getInclusionProof (val FILLED) and getNonInclusionProof (val EMPTY). */
  function ProofFor<T(==)>(h: Hasher<T>, d: nat, filled: T, st: SmtState<T>, index: nat, val: SMTLeaf): SmtProof<T>
    requires |h.preHash| == d + 1
  {
    if OrBit(d, index) <= index then SmtOutOfRange
    else
      var proof := MerkleProof(CurrentRoot(h, st), index, ValueOf(h, filled, val),
                               StoredSiblings(h, d, st.nodes, index));
      if Verifies(h, proof) then SmtProved(proof) else SmtInvalid
  }

  lemma StoredSiblingsTrue<T>(h: Hasher<T>, d: nat, filled: T, st: SmtState<T>, used: set<nat>, index: nat)
    requires Represents(h, d, filled, st, used) && index < Pow2(d)
    ensures StoredSiblings(h, d, st.nodes, index) == TrueSiblings(h, MemberFn(h, filled, used), index, d)
  {
    forall l | 0 <= l < d
      ensures StoredSiblings(h, d, st.nodes, index)[l] == TrueSibling(h, MemberFn(h, filled, used), index, l)
    {
      SiblingKey(d, index, l);
    }
  }

  /** Inclusion is provable exactly for members, non-inclusion exactly for the rest. */
  lemma MembershipExact<T(!new)>(h: Hasher<T>, d: nat, filled: T, st: SmtState<T>, used: set<nat>, index: nat)
    requires Injective(h.parentOf) && Represents(h, d, filled, st, used) && index < Pow2(d)
    ensures ProofFor(h, d, filled, st, index, FILLED).SmtProved? <==> index in used
    ensures ProofFor(h, d, filled, st, index, EMPTY).SmtProved? <==> index !in used
  {
    OrBitInRange(d, index);
    StoredSiblingsTrue(h, d, filled, st, used, index);
    ProofExact(h, MemberFn(h, filled, used), d, index, filled, StoredSiblings(h, d, st.nodes, index));
    ProofExact(h, MemberFn(h, filled, used), d, index, h.preHash[0], StoredSiblings(h, d, st.nodes, index));
  }

  /** Nothing is provable under an index with the bit that marks leaves: its path is that of a leaf of the tree. */
  lemma MarkedNotProved<T>(h: Hasher<T>, d: nat, filled: T, st: SmtState<T>, index: nat, val: SMTLeaf)
    requires |h.preHash| == d + 1 && (index / Pow2(d)) % 2 == 1
    ensures ProofFor(h, d, filled, st, index, val) == SmtOutOfRange
  {
    RangeGuardExact(d, index);
  }

  /** findUsedNullifier reads the leaf rows: it returns exactly the queried members. */
  lemma FindUsedExact<T>(h: Hasher<T>, d: nat, filled: T, st: SmtState<T>, used: set<nat>, index: nat)
    requires Represents(h, d, filled, st, used) && index < Pow2(d)
    ensures (OrBit(d, index) in st.nodes && st.nodes[OrBit(d, index)] == filled) <==> index in used
  {
    OrBitInRange(d, index);
    assert Stored(h, st.nodes, Key(d, 0, index), 0) == Node(h, MemberFn(h, filled, used), 0, index);
  }
}
