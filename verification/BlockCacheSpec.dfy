/** The confirmation-delayed write cache of packages/database/src/block-cache.ts as a state machine over whole runs. */
module BlockCacheSpec {
  import opened Sequences

  /** A queued operation. `id` is its identity as an object: the number of operations submitted before it. */
  datatype PendingOperation<P> = PendingOperation(id: nat, blockNumber: nat, blockHash: string, payload: P)

  /** One write to the database and the block number known when it was made. */
  datatype Write<P> = Write(op: PendingOperation<P>, at: nat)

  datatype CacheState<P> = CacheState(pending: seq<PendingOperation<P>>, current: nat, written: seq<Write<P>>,
                                      submitted: nat)

  /** A new block header, writes to `failing` operations raising an error; a block that was reorganised away; an
      operation submitted while the chain head is at `chainHead`, its immediate write failing or not. */
  datatype Step<P> =
    | Header(number: nat, failing: set<nat>)
    | Clear(hash: string)
    | Submit(blockNumber: nat, blockHash: string, payload: P, chainHead: nat, fails: bool)

  predicate Confirmed<P>(op: PendingOperation<P>, current: nat, confirmations: nat) {
    current - op.blockNumber >= confirmations
  }

  predicate Due<P>(op: PendingOperation<P>, current: nat, confirmations: nat, failing: set<nat>) {
    Confirmed(op, current, confirmations) && op.id !in failing
  }

  function IsDue<P>(current: nat, confirmations: nat, failing: set<nat>): PendingOperation<P> -> bool {
    (op: PendingOperation<P>) => Due(op, current, confirmations, failing)
  }

  function NotDue<P>(current: nat, confirmations: nat, failing: set<nat>): PendingOperation<P> -> bool {
    (op: PendingOperation<P>) => !Due(op, current, confirmations, failing)
  }

  function OfOtherBlock<P>(hash: string): PendingOperation<P> -> bool {
    (op: PendingOperation<P>) => op.blockHash != hash
  }

  function DueOf<P>(ops: seq<PendingOperation<P>>, current: nat, confirmations: nat, failing: set<nat>)
    : seq<PendingOperation<P>>
  {
    Filter(IsDue(current, confirmations, failing), ops)
  }

  function NotDueOf<P>(ops: seq<PendingOperation<P>>, current: nat, confirmations: nat, failing: set<nat>)
    : seq<PendingOperation<P>>
  {
    Filter(NotDue(current, confirmations, failing), ops)
  }

  function Without<P>(ops: seq<PendingOperation<P>>, hash: string): seq<PendingOperation<P>> {
    Filter(OfOtherBlock(hash), ops)
  }

  /** Writing operations one after another at one block number. */
  function Stamped<P>(ops: seq<PendingOperation<P>>, at: nat): (w: seq<Write<P>>)
    ensures |w| == |ops| && forall i :: 0 <= i < |w| ==> w[i] == Write(ops[i], at)
  {
    seq(|ops|, i requires 0 <= i < |ops| => Write(ops[i], at))
  }

  /** `blockNumber()`: the chain is asked only while nothing is known. */
  function Known(current: nat, chainHead: nat): nat {
    if current == 0 then chainHead else current
  }

  function StepTo<P>(st: CacheState<P>, confirmations: nat, step: Step<P>): CacheState<P> {
    match step
    case Header(number, failing) =>
      CacheState(NotDueOf(st.pending, number, confirmations, failing), number,
                 st.written + Stamped(DueOf(st.pending, number, confirmations, failing), number), st.submitted)
    case Clear(hash) => st.(pending := Without(st.pending, hash))
    case Submit(blockNumber, blockHash, payload, chainHead, fails) =>
      var op := PendingOperation(st.submitted, blockNumber, blockHash, payload);
      var current := Known(st.current, chainHead);
      if confirmations == 0 || Confirmed(op, current, confirmations) then
        CacheState(st.pending, current, if fails then st.written else st.written + [Write(op, current)],
                   st.submitted + 1)
      else
        CacheState(st.pending + [op], current, st.written, st.submitted + 1)
  }

  function Run<P>(st: CacheState<P>, confirmations: nat, steps: seq<Step<P>>): CacheState<P> {
    if steps == [] then st
    else StepTo(Run(st, confirmations, steps[..|steps| - 1]), confirmations, steps[|steps| - 1])
  }

  function Fresh<P>(): CacheState<P> {
    CacheState([], 0, [], 0)
  }

  // ----- filters

  ghost predicate Increasing<P>(ops: seq<PendingOperation<P>>) {
    forall i, j :: 0 <= i < j < |ops| ==> ops[i].id < ops[j].id
  }

  lemma {:induction false} FilterIncreasing<P>(keep: PendingOperation<P> -> bool, ops: seq<PendingOperation<P>>, n: nat)
    requires n <= |ops| && Increasing(ops)
    ensures Increasing(FilterTo(keep, ops, n))
    ensures forall op :: op in FilterTo(keep, ops, n) ==> n > 0 && op.id <= ops[n - 1].id
  {
    if n > 0 { FilterIncreasing(keep, ops, n - 1); }
  }

  lemma FilterFacts<P>(keep: PendingOperation<P> -> bool, ops: seq<PendingOperation<P>>)
    requires Increasing(ops)
    ensures Increasing(Filter(keep, ops))
    ensures forall op :: op in Filter(keep, ops) ==> op in ops && keep(op)
    ensures forall op :: op in ops && keep(op) ==> op in Filter(keep, ops)
  {
    FilterIncreasing(keep, ops, |ops|);
    FilterMembers(keep, ops, |ops|);
  }

  /** A header splits the queue: what is due, in order, and the rest, in order. */
  lemma HeaderSplit<P>(ops: seq<PendingOperation<P>>, current: nat, confirmations: nat, failing: set<nat>)
    requires Increasing(ops)
    ensures var due := DueOf(ops, current, confirmations, failing);
      var rest := NotDueOf(ops, current, confirmations, failing);
      && Increasing(due) && Increasing(rest)
      && (forall op :: op in due ==> op in ops && Due(op, current, confirmations, failing))
      && (forall op :: op in rest ==> op in ops && !Due(op, current, confirmations, failing))
      && (forall op :: op in ops && !Due(op, current, confirmations, failing) ==> op in rest)
      && (forall op :: op in ops && Due(op, current, confirmations, failing) ==> op in due)
  {
    FilterFacts(IsDue(current, confirmations, failing), ops);
    FilterFacts(NotDue(current, confirmations, failing), ops);
  }

  lemma WithoutFacts<P>(ops: seq<PendingOperation<P>>, hash: string)
    requires Increasing(ops)
    ensures Increasing(Without(ops, hash))
    ensures forall op :: op in Without(ops, hash) ==> op in ops && op.blockHash != hash
    ensures forall op :: op in ops && op.blockHash != hash ==> op in Without(ops, hash)
  {
    FilterFacts(OfOtherBlock(hash), ops);
  }

  // ----- what every run keeps

  /** Operations have one identity each, wait in submission order, and are written at most once, when confirmed. */
  ghost predicate Sound<P>(st: CacheState<P>, confirmations: nat) {
    && Increasing(st.pending)
    && (forall op :: op in st.pending ==> op.id < st.submitted)
    && (forall w :: w in st.written ==> w.op.id < st.submitted)
    && (forall i, j :: 0 <= i < j < |st.written| ==> st.written[i].op.id != st.written[j].op.id)
    && (forall op, w :: op in st.pending && w in st.written ==> op.id != w.op.id)
    && (forall w :: w in st.written ==> confirmations == 0 || Confirmed(w.op, w.at, confirmations))
  }

  lemma StepSound<P>(st: CacheState<P>, confirmations: nat, step: Step<P>)
    requires Sound(st, confirmations)
    ensures Sound(StepTo(st, confirmations, step), confirmations)
  {
    match step
    case Header(number, failing) => HeaderSound(st, confirmations, number, failing);
    case Clear(hash) => ClearSound(st, confirmations, hash);
    case Submit(_, _, _, _, _) => SubmitSound(st, confirmations, step);
  }

  lemma ClearSound<P>(st: CacheState<P>, confirmations: nat, hash: string)
    requires Sound(st, confirmations)
    ensures Sound(StepTo(st, confirmations, Clear(hash)), confirmations)
  {
    WithoutFacts(st.pending, hash);
  }

  lemma SubmitSound<P>(st: CacheState<P>, confirmations: nat, step: Step<P>)
    requires Sound(st, confirmations) && step.Submit?
    ensures Sound(StepTo(st, confirmations, step), confirmations)
  {
    var after := StepTo(st, confirmations, step);
    forall w | w in after.written ensures w in st.written || w.op.id == st.submitted {}
    forall op | op in after.pending ensures op in st.pending || op.id == st.submitted {}
    forall i, j | 0 <= i < j < |after.written| ensures after.written[i].op.id != after.written[j].op.id {
      assert after.written[i] == st.written[i] && st.written[i] in st.written;
    }
  }

  lemma SamePosition<P>(ops: seq<PendingOperation<P>>, a: PendingOperation<P>, b: PendingOperation<P>)
    requires Increasing(ops) && a in ops && b in ops && a.id == b.id
    ensures a == b
  {
    var i :| 0 <= i < |ops| && ops[i] == a;
    var j :| 0 <= j < |ops| && ops[j] == b;
    assert !(i < j) && !(j < i);
  }

  /** Due operations are neither written before nor written twice. */
  lemma AppendedDiffer<P>(st: CacheState<P>, due: seq<PendingOperation<P>>, number: nat, i: nat, j: nat)
    requires i < j < |st.written| + |due| && Increasing(due)
    requires forall a, b :: 0 <= a < b < |st.written| ==> st.written[a].op.id != st.written[b].op.id
    requires forall op, w :: op in due && w in st.written ==> op.id != w.op.id
    ensures (st.written + Stamped(due, number))[i].op.id != (st.written + Stamped(due, number))[j].op.id
  {
    var n := |st.written|;
    var after := st.written + Stamped(due, number);
    if j < n {
      assert after[i] == st.written[i] && after[j] == st.written[j];
    } else if i < n {
      assert after[i] in st.written && after[j].op == due[j - n];
    } else {
      assert after[i].op == due[i - n] && after[j].op == due[j - n];
    }
  }

  lemma HeaderSound<P>(st: CacheState<P>, confirmations: nat, number: nat, failing: set<nat>)
    requires Sound(st, confirmations)
    ensures Sound(StepTo(st, confirmations, Header(number, failing)), confirmations)
  {
    HeaderSplit(st.pending, number, confirmations, failing);
    var due := DueOf(st.pending, number, confirmations, failing);
    var rest := NotDueOf(st.pending, number, confirmations, failing);
    var after := st.written + Stamped(due, number);
    forall k | 0 <= k < |after|
      ensures after[k] in st.written || (after[k].op in due && after[k].at == number)
    {
      if k >= |st.written| { assert after[k] == Stamped(due, number)[k - |st.written|]; }
    }
    forall i, j | 0 <= i < j < |after| ensures after[i].op.id != after[j].op.id {
      AppendedDiffer(st, due, number, i, j);
    }
    forall op, w | op in rest && w in after ensures op.id != w.op.id {
      if w !in st.written && op.id == w.op.id { SamePosition(st.pending, op, w.op); }
    }
  }

  lemma {:induction false} RunSound<P>(st: CacheState<P>, confirmations: nat, steps: seq<Step<P>>)
    requires Sound(st, confirmations)
    ensures Sound(Run(st, confirmations, steps), confirmations)
    ensures Run(st, confirmations, steps).submitted >= st.submitted
  {
    if steps != [] {
      RunSound(st, confirmations, steps[..|steps| - 1]);
      StepSound(Run(st, confirmations, steps[..|steps| - 1]), confirmations, steps[|steps| - 1]);
    }
  }

  /** In every run from an empty cache an operation reaches the database at most once, and only when confirmed. */
  lemma WrittenOnceWhenConfirmed<P>(confirmations: nat, steps: seq<Step<P>>)
    ensures var written := Run(Fresh<P>(), confirmations, steps).written;
      && (forall i, j :: 0 <= i < j < |written| ==> written[i].op.id != written[j].op.id)
      && (forall w :: w in written ==> confirmations == 0 || w.at - w.op.blockNumber >= confirmations)
  {
    RunSound(Fresh<P>(), confirmations, steps);
  }

  // ----- revocation

  ghost predicate Gone<P>(st: CacheState<P>, id: nat) {
    && id < st.submitted
    && (forall op :: op in st.pending ==> op.id != id)
    && (forall w :: w in st.written ==> w.op.id != id)
  }

  lemma WrittenAfterHeader<P>(st: CacheState<P>, confirmations: nat, number: nat, failing: set<nat>)
    ensures var after := StepTo(st, confirmations, Header(number, failing));
      forall w :: w in after.written ==>
        w in st.written || (w.op in DueOf(st.pending, number, confirmations, failing) && w.at == number)
  {}

  lemma StepStaysGone<P>(st: CacheState<P>, confirmations: nat, step: Step<P>, id: nat)
    requires Sound(st, confirmations) && Gone(st, id)
    ensures Gone(StepTo(st, confirmations, step), id)
  {
    match step
    case Header(number, failing) =>
      HeaderSplit(st.pending, number, confirmations, failing);
      WrittenAfterHeader(st, confirmations, number, failing);
    case Clear(hash) => WithoutFacts(st.pending, hash);
    case Submit(_, _, _, _, _) =>
  }

  lemma {:induction false} RunStaysGone<P>(st: CacheState<P>, confirmations: nat, steps: seq<Step<P>>, id: nat)
    requires Sound(st, confirmations) && Gone(st, id)
    ensures Gone(Run(st, confirmations, steps), id)
  {
    if steps != [] {
      RunStaysGone(st, confirmations, steps[..|steps| - 1], id);
      RunSound(st, confirmations, steps[..|steps| - 1]);
      StepStaysGone(Run(st, confirmations, steps[..|steps| - 1]), confirmations, steps[|steps| - 1], id);
    }
  }

  /** An operation still pending when its block is cleared is never written, whatever happens next. */
  lemma ClearedNeverWritten<P>(before: seq<Step<P>>, after: seq<Step<P>>, confirmations: nat, hash: string,
                               op: PendingOperation<P>)
    requires op in Run(Fresh(), confirmations, before).pending && op.blockHash == hash
    ensures var cleared := StepTo(Run(Fresh(), confirmations, before), confirmations, Clear(hash));
      forall w :: w in Run(cleared, confirmations, after).written ==> w.op.id != op.id
  {
    var st := Run(Fresh(), confirmations, before);
    RunSound(Fresh<P>(), confirmations, before);
    WithoutFacts(st.pending, hash);
    var cleared := StepTo(st, confirmations, Clear(hash));
    forall other | other in cleared.pending ensures other.id != op.id {
      if other.id == op.id { SamePosition(st.pending, other, op); }
    }
    StepSound(st, confirmations, Clear(hash));
    RunStaysGone(cleared, confirmations, after, op.id);
  }

  /** Clearing touches nothing else. */
  lemma ClearKeepsOthers<P>(st: CacheState<P>, confirmations: nat, hash: string)
    requires Sound(st, confirmations)
    ensures var cleared := StepTo(st, confirmations, Clear(hash));
      && cleared.written == st.written && cleared.current == st.current
      && (forall op :: op in cleared.pending ==> op in st.pending && op.blockHash != hash)
      && (forall op :: op in st.pending && op.blockHash != hash ==> op in cleared.pending)
  {
    WithoutFacts(st.pending, hash);
  }

  /** After a header only unconfirmed operations and failed writes stay pending. */
  lemma HeaderLeavesUnconfirmed<P>(st: CacheState<P>, confirmations: nat, number: nat, failing: set<nat>)
    requires Sound(st, confirmations)
    ensures var after := StepTo(st, confirmations, Header(number, failing));
      && (forall op :: op in after.pending ==>
            op in st.pending && (!Confirmed(op, number, confirmations) || op.id in failing))
      && (forall op :: op in st.pending && (!Confirmed(op, number, confirmations) || op.id in failing) ==>
            op in after.pending)
  {
    HeaderSplit(st.pending, number, confirmations, failing);
  }

  // ----- order

  /** Every write succeeds and the block number is known. */
  ghost predicate Smooth<P>(steps: seq<Step<P>>) {
    forall k :: 0 <= k < |steps| ==>
      match steps[k]
      case Header(number, failing) => number > 0 && failing == {}
      case Clear(_) => true
      case Submit(_, _, _, chainHead, fails) => chainHead > 0 && !fails
  }

  /** `later` may not overtake `earlier`. */
  predicate MustPrecede<P>(earlier: PendingOperation<P>, later: PendingOperation<P>) {
    earlier.id < later.id && earlier.blockNumber <= later.blockNumber
  }

  ghost predicate Ordered<P>(st: CacheState<P>, confirmations: nat) {
    && Sound(st, confirmations)
    && (forall op :: op in st.pending ==>
          st.current > 0 && confirmations > 0 && !Confirmed(op, st.current, confirmations))
    && (forall op, w :: op in st.pending && w in st.written ==> !MustPrecede(op, w.op))
    && (forall i, j :: 0 <= i < j < |st.written| ==> !MustPrecede(st.written[j].op, st.written[i].op))
  }

  lemma HeaderOrdered<P>(st: CacheState<P>, confirmations: nat, number: nat)
    requires Ordered(st, confirmations) && number > 0
    ensures Ordered(StepTo(st, confirmations, Header(number, {})), confirmations)
  {
    HeaderSound(st, confirmations, number, {});
    HeaderSplit(st.pending, number, confirmations, {});
    WrittenAfterHeader(st, confirmations, number, {});
    var due := DueOf(st.pending, number, confirmations, {});
    var after := st.written + Stamped(due, number);
    forall i, j | 0 <= i < j < |after| ensures !MustPrecede(after[j].op, after[i].op) {
      AppendedInOrder(st, due, number, i, j);
    }
    var rest := NotDueOf(st.pending, number, confirmations, {});
    forall op, w | op in rest && w in after ensures !MustPrecede(op, w.op) {
      if w !in st.written { assert Confirmed(w.op, number, confirmations) && !Confirmed(op, number, confirmations); }
    }
  }

  /** What is due is in submission order and precedes nothing already written. */
  lemma AppendedInOrder<P>(st: CacheState<P>, due: seq<PendingOperation<P>>, number: nat, i: nat, j: nat)
    requires i < j < |st.written| + |due| && Increasing(due)
    requires forall a, b :: 0 <= a < b < |st.written| ==> !MustPrecede(st.written[b].op, st.written[a].op)
    requires forall op, w :: op in due && w in st.written ==> !MustPrecede(op, w.op)
    ensures !MustPrecede((st.written + Stamped(due, number))[j].op, (st.written + Stamped(due, number))[i].op)
  {
    var n := |st.written|;
    var after := st.written + Stamped(due, number);
    if j < n {
      assert after[i] == st.written[i] && after[j] == st.written[j];
    } else if i < n {
      assert after[i] == st.written[i] && after[i] in st.written;
      assert after[j].op == due[j - n] && due[j - n] in due;
    } else {
      assert after[i].op == due[i - n] && after[j].op == due[j - n];
    }
  }

  lemma SubmitOrdered<P>(st: CacheState<P>, confirmations: nat, step: Step<P>)
    requires Ordered(st, confirmations) && step.Submit? && step.chainHead > 0 && !step.fails
    ensures Ordered(StepTo(st, confirmations, step), confirmations)
  {
    StepSound(st, confirmations, step);
    var after := StepTo(st, confirmations, step);
    forall i, j | 0 <= i < j < |after.written| ensures !MustPrecede(after.written[j].op, after.written[i].op) {
      if j == |st.written| { assert after.written[i] in st.written; }
    }
  }

  lemma {:induction false} RunOrdered<P>(st: CacheState<P>, confirmations: nat, steps: seq<Step<P>>)
    requires Ordered(st, confirmations) && Smooth(steps)
    ensures Ordered(Run(st, confirmations, steps), confirmations)
  {
    if steps != [] {
      var n := |steps| - 1;
      assert forall k :: 0 <= k < n ==> steps[..n][k] == steps[k];
      RunOrdered(st, confirmations, steps[..n]);
      var mid := Run(st, confirmations, steps[..n]);
      match steps[n]
      case Header(number, failing) => HeaderOrdered(mid, confirmations, number);
      case Clear(hash) => WithoutFacts(mid.pending, hash); StepSound(mid, confirmations, steps[n]);
      case Submit(_, _, _, _, _) => SubmitOrdered(mid, confirmations, steps[n]);
    }
  }

  /** Operations with non-decreasing block numbers reach the database in submission order, in every smooth run. */
  lemma WritesInSubmissionOrder<P>(confirmations: nat, steps: seq<Step<P>>, i: nat, j: nat)
    requires Smooth(steps)
    requires i < |Run(Fresh<P>(), confirmations, steps).written| && j < |Run(Fresh<P>(), confirmations, steps).written|
    ensures var written := Run(Fresh<P>(), confirmations, steps).written;
      MustPrecede(written[i].op, written[j].op) ==> i < j
  {
    RunOrdered(Fresh<P>(), confirmations, steps);
  }
}
