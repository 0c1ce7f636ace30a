/** What becomes of every operation submitted to the cache of packages/database/src/block-cache.ts. */
module BlockCacheFate {
  import opened Sequences
  import opened BlockCacheSpec

  /** The operation waits, or was written. */
  ghost predicate Held<P>(st: CacheState<P>, op: PendingOperation<P>) {
    op in st.pending || Written(st, op)
  }

  ghost predicate Written<P>(st: CacheState<P>, op: PendingOperation<P>) {
    exists w :: w in st.written && w.op == op
  }

  /** The operation that a submitting step makes of its arguments. */
  function Submitted<P>(st: CacheState<P>, step: Step<P>): PendingOperation<P>
    requires step.Submit?
  {
    PendingOperation(st.submitted, step.blockNumber, step.blockHash, step.payload)
  }

  /** It does not have to wait. */
  predicate AtOnce<P>(st: CacheState<P>, confirmations: nat, step: Step<P>)
    requires step.Submit?
  {
    var known := if st.current == 0 then step.chainHead else st.current;
    confirmations == 0 || known - step.blockNumber >= confirmations
  }

  /** It is written at once, and that write fails. */
  predicate RefusedAtOnce<P>(st: CacheState<P>, confirmations: nat, step: Step<P>)
    requires step.Submit?
  {
    AtOnce(st, confirmations, step) && step.fails
  }

  // ----- single steps

  /** A submission waits exactly when it is not confirmed, and is written at once exactly when it is and the write
      succeeds. */
  lemma SubmissionHeld<P>(st: CacheState<P>, confirmations: nat, step: Step<P>)
    requires Sound(st, confirmations) && step.Submit?
    ensures var op, after := Submitted(st, step), StepTo(st, confirmations, step);
      && (op in after.pending <==> !AtOnce(st, confirmations, step))
      && (Written(after, op) <==> AtOnce(st, confirmations, step) && !step.fails)
  {
    var op, after := Submitted(st, step), StepTo(st, confirmations, step);
    if AtOnce(st, confirmations, step) && !step.fails {
      assert after.written[|st.written|] in after.written && after.written[|st.written|].op == op;
    }
  }

  lemma StepKeepsWritten<P>(st: CacheState<P>, confirmations: nat, step: Step<P>, op: PendingOperation<P>)
    requires Written(st, op)
    ensures Written(StepTo(st, confirmations, step), op)
  {
    var w :| w in st.written && w.op == op;
    assert w in StepTo(st, confirmations, step).written;
  }

  /** What is due after a header is written by it. */
  lemma HeaderWrites<P>(st: CacheState<P>, confirmations: nat, number: nat, failing: set<nat>, op: PendingOperation<P>)
    requires Sound(st, confirmations) && op in st.pending
    ensures var after := StepTo(st, confirmations, Header(number, failing));
      if number - op.blockNumber >= confirmations && op.id !in failing
      then Written(after, op) && op !in after.pending
      else op in after.pending
  {
    HeaderSplit(st.pending, number, confirmations, failing);
    var due := DueOf(st.pending, number, confirmations, failing);
    if op in due {
      var i :| 0 <= i < |due| && due[i] == op;
      var after := st.written + Stamped(due, number);
      assert after[|st.written| + i].op == op && after[|st.written| + i] in after;
    }
  }

  /** Only its own block being cleared loses an operation. */
  lemma StepHolds<P>(st: CacheState<P>, confirmations: nat, step: Step<P>, op: PendingOperation<P>)
    requires Sound(st, confirmations) && Held(st, op) && step != Clear(op.blockHash)
    ensures Held(StepTo(st, confirmations, step), op)
  {
    if Written(st, op) {
      StepKeepsWritten(st, confirmations, step, op);
    } else {
      match step
      case Header(number, failing) => HeaderWrites(st, confirmations, number, failing, op);
      case Clear(hash) => WithoutFacts(st.pending, hash);
      case Submit(_, _, _, _, _) =>
    }
  }

  // ----- runs

  lemma {:induction false} RunConcat<P>(st: CacheState<P>, confirmations: nat, a: seq<Step<P>>, b: seq<Step<P>>)
    ensures Run(st, confirmations, a + b) == Run(Run(st, confirmations, a), confirmations, b)
    decreases |b|
  {
    if b == [] {
      assert a + b == a;
    } else {
      var n := |b| - 1;
      assert (a + b)[..|a| + n] == a + b[..n];
      RunConcat(st, confirmations, a, b[..n]);
    }
  }

  ghost predicate NeverCleared<P>(steps: seq<Step<P>>, hash: string) {
    forall k :: 0 <= k < |steps| ==> steps[k] != Clear(hash)
  }

  lemma {:induction false} RunHolds<P>(st: CacheState<P>, confirmations: nat, steps: seq<Step<P>>,
                                       op: PendingOperation<P>)
    requires Sound(st, confirmations) && Held(st, op) && NeverCleared(steps, op.blockHash)
    ensures Held(Run(st, confirmations, steps), op)
  {
    if steps != [] {
      var n := |steps| - 1;
      RunHolds(st, confirmations, steps[..n], op);
      RunSound(st, confirmations, steps[..n]);
      StepHolds(Run(st, confirmations, steps[..n]), confirmations, steps[n], op);
    }
  }

  lemma {:induction false} RunKeepsWritten<P>(st: CacheState<P>, confirmations: nat, steps: seq<Step<P>>,
                                              op: PendingOperation<P>)
    requires Written(st, op)
    ensures Written(Run(st, confirmations, steps), op)
  {
    if steps != [] {
      var n := |steps| - 1;
      RunKeepsWritten(st, confirmations, steps[..n], op);
      StepKeepsWritten(Run(st, confirmations, steps[..n]), confirmations, steps[n], op);
    }
  }

  /** In every run an operation submitted at step k is pending or written at the end, unless its immediate write failed
      or its block was cleared afterwards. */
  lemma SubmittedIsHeld<P>(confirmations: nat, before: seq<Step<P>>, step: Step<P>, after: seq<Step<P>>)
    requires step.Submit? && NeverCleared(after, step.blockHash)
    requires !RefusedAtOnce(Run(Fresh(), confirmations, before), confirmations, step)
    ensures Held(Run(Fresh(), confirmations, before + [step] + after),
                 Submitted(Run(Fresh(), confirmations, before), step))
  {
    var st := Run(Fresh<P>(), confirmations, before);
    var next := StepTo(st, confirmations, step);
    RunSound(Fresh<P>(), confirmations, before);
    StepSound(st, confirmations, step);
    SubmissionHeld(st, confirmations, step);
    OneStep(st, confirmations, step);
    RunConcat(Fresh<P>(), confirmations, before, [step]);
    RunConcat(Fresh<P>(), confirmations, before + [step], after);
    RunHolds(next, confirmations, after, Submitted(st, step));
  }

  lemma OneStep<P>(st: CacheState<P>, confirmations: nat, step: Step<P>)
    ensures Run(st, confirmations, [step]) == StepTo(st, confirmations, step)
  {
    assert [step][..0] == [];
  }

  /** It is written at the latest by the first header that confirms it and whose write of it succeeds, if its block is
      not cleared before that; and it stays written whatever happens next. */
  lemma ConfirmedIsWritten<P>(confirmations: nat, before: seq<Step<P>>, step: Step<P>, between: seq<Step<P>>,
                              number: nat, failing: set<nat>, after: seq<Step<P>>)
    requires step.Submit? && NeverCleared(between, step.blockHash)
    requires !RefusedAtOnce(Run(Fresh(), confirmations, before), confirmations, step)
    requires number - step.blockNumber >= confirmations
    requires Run(Fresh(), confirmations, before).submitted !in failing
    ensures Written(Run(Fresh(), confirmations, before + [step] + between + [Header(number, failing)] + after),
                    Submitted(Run(Fresh(), confirmations, before), step))
  {
    var op := Submitted(Run(Fresh<P>(), confirmations, before), step);
    var upTo, header := before + [step] + between, Header(number, failing);
    var st := Run(Fresh<P>(), confirmations, upTo);
    SubmittedIsHeld(confirmations, before, step, between);
    RunSound(Fresh<P>(), confirmations, upTo);
    if Written(st, op) {
      StepKeepsWritten(st, confirmations, header, op);
    } else {
      HeaderWrites(st, confirmations, number, failing, op);
    }
    OneStep(st, confirmations, header);
    RunConcat(Fresh<P>(), confirmations, upTo, [header]);
    RunConcat(Fresh<P>(), confirmations, upTo + [header], after);
    RunKeepsWritten(StepTo(st, confirmations, header), confirmations, after, op);
  }

  /** The operation comes from step k of the run. */
  ghost predicate SubmittedAt<P>(confirmations: nat, steps: seq<Step<P>>, k: nat, op: PendingOperation<P>) {
    && k < |steps| && steps[k].Submit?
    && op == Submitted(Run(Fresh(), confirmations, steps[..k]), steps[k])
    && !RefusedAtOnce(Run(Fresh(), confirmations, steps[..k]), confirmations, steps[k])
  }

  /** Nothing is held that was not submitted. */
  lemma {:induction false} NothingInvented<P>(confirmations: nat, steps: seq<Step<P>>, op: PendingOperation<P>)
    returns (k: nat)
    requires Held(Run(Fresh<P>(), confirmations, steps), op)
    ensures SubmittedAt(confirmations, steps, k, op)
  {
    var n := |steps| - 1;
    var st := Run(Fresh<P>(), confirmations, steps[..n]);
    RunSound(Fresh<P>(), confirmations, steps[..n]);
    if Held(st, op) {
      k := NothingInvented(confirmations, steps[..n], op);
      assert steps[..n][..k] == steps[..k];
    } else {
      k := n;
      NewlyHeld(st, confirmations, steps[n], op);
    }
  }

  lemma NewlyHeld<P>(st: CacheState<P>, confirmations: nat, step: Step<P>, op: PendingOperation<P>)
    requires Sound(st, confirmations) && !Held(st, op) && Held(StepTo(st, confirmations, step), op)
    ensures step.Submit? && op == Submitted(st, step) && !RefusedAtOnce(st, confirmations, step)
  {
    var after := StepTo(st, confirmations, step);
    match step
    case Header(number, failing) =>
      HeaderSplit(st.pending, number, confirmations, failing);
      WrittenAfterHeader(st, confirmations, number, failing);
    case Clear(hash) => WithoutFacts(st.pending, hash);
    case Submit(_, _, _, _, _) => SubmissionHeld(st, confirmations, step);
  }

  // ----- the known block number

  lemma {:induction false} KnownStays<P>(st: CacheState<P>, confirmations: nat, steps: seq<Step<P>>)
    requires st.current > 0 && forall k :: 0 <= k < |steps| ==> !steps[k].Header?
    ensures Run(st, confirmations, steps).current == st.current
  {
    if steps != [] { KnownStays(st, confirmations, steps[..|steps| - 1]); }
  }

  /** The number known is that of the latest header, whatever the chain would answer. */
  lemma LatestHeaderKnown<P>(st: CacheState<P>, confirmations: nat, before: seq<Step<P>>, number: nat,
                             failing: set<nat>, after: seq<Step<P>>)
    requires number > 0 && forall k :: 0 <= k < |after| ==> !after[k].Header?
    ensures Run(st, confirmations, before + [Header(number, failing)] + after).current == number
  {
    var header := Header(number, failing);
    RunConcat(st, confirmations, before, [header]);
    RunConcat(st, confirmations, before + [header], after);
    OneStep(Run(st, confirmations, before), confirmations, header);
    KnownStays(StepTo(Run(st, confirmations, before), confirmations, header), confirmations, after);
  }

  /** Without any header it is what the chain answered at the first submission. */
  lemma FirstAnswerKnown<P>(confirmations: nat, step: Step<P>, after: seq<Step<P>>)
    requires step.Submit? && step.chainHead > 0 && forall k :: 0 <= k < |after| ==> !after[k].Header?
    ensures Run(Fresh(), confirmations, [step] + after).current == step.chainHead
  {
    RunConcat(Fresh<P>(), confirmations, [step], after);
    OneStep(Fresh<P>(), confirmations, step);
    KnownStays(StepTo(Fresh<P>(), confirmations, step), confirmations, after);
  }
}
