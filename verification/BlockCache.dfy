/** packages/database/src/block-cache.ts: the cache object. The database is the log of what was written to it. */
module BlockCaches {
  import opened Sequences
  import opened BlockCacheSpec

  class BlockCache<P(==)> {
    const BLOCK_CONFIRMATIONS: nat
    var pendingOperations: seq<PendingOperation<P>>
    var currentBlockNumber: nat
    var database: seq<Write<P>>
    var submitted: nat

    constructor (confirmations: nat)
      ensures BLOCK_CONFIRMATIONS == confirmations && State() == Fresh()
    {
      BLOCK_CONFIRMATIONS := confirmations;
      pendingOperations, currentBlockNumber, database, submitted := [], 0, [], 0;
    }

    ghost function State(): CacheState<P>
      reads this
    {
      CacheState(pendingOperations, currentBlockNumber, database, submitted)
    }

    /** A header arrives; the database refuses the writes of `failing`. */
    method OnBlockHeader(number: nat, failing: set<nat>)
      requires Increasing(pendingOperations)
      modifies this
      ensures State() == StepTo(old(State()), BLOCK_CONFIRMATIONS, Header(number, failing))
    {
      currentBlockNumber := number;
      WriteChangesIfNeeded(failing);
    }

    method WriteChangesIfNeeded(failing: set<nat>)
      requires Increasing(pendingOperations)
      modifies this
      ensures State() == StepTo(old(State()), BLOCK_CONFIRMATIONS, Header(old(currentBlockNumber), failing))
    {
      var docsToRemove: seq<PendingOperation<P>> := [];
      for i := 0 to |pendingOperations|
        invariant pendingOperations == old(pendingOperations) && currentBlockNumber == old(currentBlockNumber)
        invariant submitted == old(submitted)
        invariant docsToRemove == FilterTo(IsDue(currentBlockNumber, BLOCK_CONFIRMATIONS, failing), pendingOperations,
                                           i)
        invariant database == old(database) + Stamped(docsToRemove, currentBlockNumber)
      {
        var op := pendingOperations[i];
        if currentBlockNumber - op.blockNumber < BLOCK_CONFIRMATIONS { continue; }
        if op.id !in failing {
          database := database + [Write(op, currentBlockNumber)];
          docsToRemove := docsToRemove + [op];
        }
      }
      DropWritten(docsToRemove, failing);
    }

    /** `filter(doc => docsToRemove.indexOf(doc) === -1)` */
    method DropWritten(docsToRemove: seq<PendingOperation<P>>, ghost failing: set<nat>)
      requires Increasing(pendingOperations)
      requires docsToRemove == DueOf(pendingOperations, currentBlockNumber, BLOCK_CONFIRMATIONS, failing)
      modifies this`pendingOperations
      ensures pendingOperations == NotDueOf(old(pendingOperations), currentBlockNumber, BLOCK_CONFIRMATIONS, failing)
    {
      HeaderSplit(pendingOperations, currentBlockNumber, BLOCK_CONFIRMATIONS, failing);
      var kept: seq<PendingOperation<P>> := [];
      for i := 0 to |pendingOperations|
        invariant pendingOperations == old(pendingOperations)
        invariant kept == FilterTo(NotDue(currentBlockNumber, BLOCK_CONFIRMATIONS, failing), pendingOperations, i)
      {
        assert pendingOperations[i] in pendingOperations;
        if pendingOperations[i] !in docsToRemove { kept := kept + [pendingOperations[i]]; }
      }
      pendingOperations := kept;
    }

    method ClearChangesForBlockHash(hash: string)
      modifies this`pendingOperations
      ensures State() == StepTo(old(State()), BLOCK_CONFIRMATIONS, Clear(hash))
    {
      var kept: seq<PendingOperation<P>> := [];
      for i := 0 to |pendingOperations|
        invariant pendingOperations == old(pendingOperations)
        invariant kept == FilterTo(OfOtherBlock(hash), pendingOperations, i)
      {
        if pendingOperations[i].blockHash != hash { kept := kept + [pendingOperations[i]]; }
      }
      pendingOperations := kept;
    }

    /** `blockNumber()`; `chainHead` is what the chain answers if it has to be asked. */
    method BlockNumber(chainHead: nat) returns (number: nat)
      modifies this`currentBlockNumber
      ensures number == currentBlockNumber == Known(old(currentBlockNumber), chainHead)
    {
      if currentBlockNumber == 0 { currentBlockNumber := chainHead; }
      return currentBlockNumber;
    }

    /** upsertCache, updateCache and transactionCache, which differ only in the payload they record. `ok` is false
        when the immediate write raises an error. */
    method Submit(blockNumber: nat, blockHash: string, payload: P, chainHead: nat, fails: bool) returns (ok: bool)
      modifies this
      ensures State() == StepTo(old(State()), BLOCK_CONFIRMATIONS,
        BlockCacheSpec.Submit(blockNumber, blockHash, payload, chainHead, fails))
      ensures !ok <==> fails && (BLOCK_CONFIRMATIONS == 0 || currentBlockNumber - blockNumber >= BLOCK_CONFIRMATIONS)
    {
      var current := BlockNumber(chainHead);
      var op := PendingOperation(submitted, blockNumber, blockHash, payload);
      submitted := submitted + 1;
      if BLOCK_CONFIRMATIONS == 0 || current - blockNumber >= BLOCK_CONFIRMATIONS {
        if fails { return false; }
        database := database + [Write(op, current)];
      } else {
        pendingOperations := pendingOperations + [op];
      }
      return true;
    }
  }
}
