/** packages/transaction/src/tx-builder.ts: the transaction builder. */
module TxBuilders {
  import opened Options
  import opened Sequences
  import opened NoteSum
  import opened EtherSelection
  import opened TokenSelection
  import opened NftPhase
  import opened TokenChange
  import opened SpentNotes
  import opened TxBuilderSpec

  /** Where a withdrawal or a migration goes on the first layer, and what it pays there. */
  datatype Exit = Exit(to: nat, fee: nat)

  function SentAs(note: Note, withdrawal: Option<Exit>, migration: Option<Exit>): Note {
    match withdrawal
    case Some(Exit(to, fee)) => note.(outflowType := WITHDRAWAL, to := to, fee := fee)
    case None =>
      match migration
      case Some(Exit(to, fee)) => note.(outflowType := MIGRATION, to := to, fee := fee)
      case None => note
  }

  /** What the exit costs on the first layer. */
  function ExitFee(withdrawal: Option<Exit>, migration: Option<Exit>): nat {
    if withdrawal.Some? then withdrawal.value.fee else if migration.Some? then migration.value.fee else 0
  }

  /** The note sent is the note given, except for the public data of its exit. */
  lemma SentAsGiven(note: Note, withdrawal: Option<Exit>, migration: Option<Exit>)
    ensures var sent := SentAs(note, withdrawal, migration);
      && sent.(outflowType := note.outflowType, to := note.to, fee := note.fee) == note
      && (withdrawal.Some? ==> sent.outflowType == WITHDRAWAL && Exit(sent.to, sent.fee) == withdrawal.value)
      && (withdrawal.None? && migration.Some? ==>
            sent.outflowType == MIGRATION && Exit(sent.to, sent.fee) == migration.value)
      && (withdrawal.None? && migration.None? ==> sent == note)
  {}

  /** Every exit adds its own fee to what is paid on the first layer, and one outflow that leaves the second. */
  lemma SendingAdds(sendings: seq<Note>, note: Note, withdrawal: Option<Exit>, migration: Option<Exit>)
    requires note.outflowType.UTXO?
    ensures var after := sendings + [SentAs(note, withdrawal, migration)];
      && L1FeeOf(after) == L1FeeOf(sendings) + ExitFee(withdrawal, migration)
      && CrossLayer(after) == CrossLayer(sendings) + if withdrawal.Some? || migration.Some? then 1 else 0
  {
    SumSnoc(L1FeeValue(), sendings, SentAs(note, withdrawal, migration));
    FilterSnoc((n: Note) => !n.outflowType.UTXO?, sendings, SentAs(note, withdrawal, migration));
  }

  ghost predicate SameAssets(a: Note, b: Note) {
    && EthOf([a]) == EthOf([b])
    && forall addr :: Erc20Of([a], addr) == Erc20Of([b], addr) && NftsOf([a], addr) == NftsOf([b], addr)
  }

  /** A built transaction neither makes nor loses any asset and pays for its own size. */
  ghost predicate Balanced(tx: RawTx, provided: seq<Note>, sendings: seq<Note>, owner: nat, feePerByte: nat,
                           swap: Option<nat>) {
    && multiset(tx.inflow) <= multiset(provided)
    && EthOf(tx.inflow) == EthOf(tx.outflow) + tx.fee + L1FeeOf(sendings)
    && SameErc20(tx.inflow, tx.outflow)
    && SameNftListsWithin(tx.inflow, tx.outflow, NftKeys(tx.inflow))
    && (Unmixed(provided) ==> SameNftLists(tx.inflow, tx.outflow))
    && tx.fee == TxFee(feePerByte, |tx.inflow|, |tx.outflow|, sendings, swap)
    && tx.swap == swap
  }

  /** Everything asked for is sent, and everything else goes back to the owner on the second layer. */
  ghost predicate SendsAndReturns(tx: RawTx, sendings: seq<Note>, owner: nat) {
    && sendings <= tx.outflow
    && (forall i :: |sendings| <= i < |tx.outflow| ==> tx.outflow[i].id == owner && tx.outflow[i].outflowType.UTXO?)
    && tx.withdrawals == Filter((n: Note) => n.outflowType.WITHDRAWAL?, sendings)
  }

  class TxBuilder {
    var spendables: seq<Note>
    var sendings: seq<Note>
    var feePerByte: nat
    var swap: Option<nat>
    const changeTo: nat

    constructor (owner: nat)
      ensures spendables == [] && sendings == [] && feePerByte == 0 && swap == None && changeTo == owner
    {
      spendables, sendings, feePerByte, swap, changeTo := [], [], 0, None, owner;
    }

    method WeiPerByte(value: nat)
      modifies this`feePerByte
      ensures feePerByte == value
    {
      feePerByte := value;
    }

    method Provide(utxos: seq<Note>)
      modifies this`spendables
      ensures spendables == old(spendables) + utxos
    {
      for i := 0 to |utxos|
        invariant spendables == old(spendables) + utxos[..i]
      {
        spendables := spendables + [utxos[i]];
        assert utxos[..i + 1] == utxos[..i] + [utxos[i]];
      }
      assert utxos[..|utxos|] == utxos;
    }

    /** `send`: a withdrawal wins over a migration. */
    method Send(note: Note, withdrawal: Option<Exit>, migration: Option<Exit>)
      requires note.outflowType.UTXO?
      modifies this`sendings
      ensures sendings == old(sendings) + [SentAs(note, withdrawal, migration)]
      ensures SameAssets(SentAs(note, withdrawal, migration), note)
      ensures L1FeeOf(sendings) == old(L1FeeOf(sendings)) + ExitFee(withdrawal, migration)
      ensures CrossLayer(sendings) == old(CrossLayer(sendings)) + if withdrawal.Some? || migration.Some? then 1 else 0
    {
      var sent := note;
      if withdrawal.Some? {
        sent := note.(outflowType := WITHDRAWAL, to := withdrawal.value.to, fee := withdrawal.value.fee);
      } else if migration.Some? {
        sent := note.(outflowType := MIGRATION, to := migration.value.to, fee := migration.value.fee);
      }
      SentAssets(sent, note);
      SendingAdds(sendings, note, withdrawal, migration);
      sendings := sendings + [sent];
    }

    /** The token phases and the change they make. */
    method PickTokens() returns (result: BuildResult, pick: TokenPick)
      ensures result.NotEnoughErc20? <==> !CoversErc20(spendables, sendings)
      ensures result.NotEnoughErc20? ==> FirstShort(spendables, sendings, result.addr)
      ensures result.NotEnoughNfts? <==> CoversErc20(spendables, sendings) && !CoversNfts(spendables, sendings)
      ensures result.NotEnoughNfts? ==> exists k :: FailsAt(spendables, sendings, result.check, k)
      ensures result.NotEnoughErc20? || result.NotEnoughNfts? || result.NotEnoughEther?
      ensures result.NotEnoughEther? ==> TokensPicked(pick, spendables, sendings, changeTo)
      ensures result.NotEnoughEther? && Regular(spendables, sendings) ==> SpendsInOrder(pick.spendings, sendings)
      ensures result.NotEnoughEther? ==> SpendsSmallest(pick, sendings)
      ensures result.NotEnoughEther? && Regular(spendables, sendings) && DistinctAmounts(spendables) ==>
        FixedByInput(pick, spendables, sendings)
      ensures result.NotEnoughEther? && OnlyEther(sendings) ==> pick == TokenPick(spendables, [], [])
    {
      pick := TokenPick([], [], []);
      var left, erc20Notes, short := SelectAllErc20(spendables, sendings);
      if short != [] { return NotEnoughErc20(short[0]), pick; }
      ghost var leftAfterErc20 := left;
      if Regular(spendables, sendings) { Erc20NotesAway(spendables, sendings, erc20Notes); }
      var nftNotes, check;
      left, nftNotes, check := SelectAllNfts(spendables, sendings, left, erc20Notes);
      if !check.Exact? { return NotEnoughNfts(check), pick; }
      if Regular(spendables, sendings) { RegularPick(spendables, sendings, leftAfterErc20, erc20Notes, nftNotes); }
      var spendings := erc20Notes + nftNotes;
      MoreCovers(erc20Notes, nftNotes, sendings);
      var erc20Changes := Erc20Changes(spendings, sendings, changeTo);
      var nftChanges := NftChanges(spendings, sendings, changeTo);
      BothChanges(erc20Changes, nftChanges, spendings, sendings, changeTo);
      if OnlyEther(sendings) { NoChange(erc20Changes, nftChanges, sendings); }
      pick := TokenPick(left, spendings, erc20Changes + nftChanges);
      SmallestThrough(spendables, sendings, leftAfterErc20, erc20Notes, nftNotes, pick);
      if Regular(spendables, sendings) && DistinctAmounts(spendables) {
        Fixed(spendables, sendings, erc20Notes, nftNotes, erc20Changes, nftChanges, pick);
      }
      result := NotEnoughEther;
    }

    ghost function RequiredFor(pick: TokenPick): nat -> nat
      reads this
    {
      Required(feePerByte, sendings, |pick.changes|, swap)
    }

    /** `build`. The token phases fail exactly when a token falls short, the ether phase exactly when no choice among
        the notes left would do; otherwise the transaction balances unless an assertion on tokens fires, which happens
        exactly when a note among the most valuable ones that are needed brings a token along, or, with regular notes,
        when some contract's NFTs are not sent in ascending order. */
    method Build() returns (result: BuildResult, ghost pick: TokenPick, ghost more: seq<Note>)
      ensures Decided(result, pick, more, spendables, sendings, changeTo, RequiredFor(pick))
      ensures Covers(spendables, sendings) ==> TokensDecide(result, pick, spendables, sendings, RequiredFor(pick))
      ensures Covers(spendables, sendings) && Regular(spendables, sendings) && DistinctAmounts(spendables) ==>
        TokensDecide(result, InputPick(spendables, sendings), spendables, sendings,
                     Required(feePerByte, sendings, ChangeCount(spendables, sendings), swap))
      ensures result.Built? ==> Balanced(result.tx, spendables, sendings, changeTo, feePerByte, swap)
      ensures result.Built? ==> SendsAndReturns(result.tx, sendings, changeTo)
    {
      var tokens;
      result, tokens := PickTokens();
      pick, more := tokens, [];
      if !result.NotEnoughEther? { return; }
      result, more := PayEther(tokens);
      SpendablesProvided(pick, spendables, sendings, changeTo);
      DecidedByTokens(result, pick, more, spendables, sendings, RequiredFor(pick));
      if Regular(spendables, sendings) && DistinctAmounts(spendables) {
        DecidedByInput(result, pick, more, spendables, sendings, RequiredFor(pick));
      }
    }

    /** The ether phase. */
    method PayEther(tokens: TokenPick) returns (result: BuildResult, ghost more: seq<Note>)
      requires TokensPicked(tokens, spendables, sendings, changeTo) && CoversNfts(spendables, sendings)
      requires Regular(spendables, sendings) ==> SpendsInOrder(tokens.spendings, sendings)
      ensures result.NotEnoughEther? <==> !Feasible(tokens.spendings, tokens.spendables, RequiredFor(tokens))
      ensures !result.NotEnoughEther? ==>
        EtherTaken(tokens, more, RequiredFor(tokens)) && Settled(result, spendables, sendings, more)
      ensures result.Built? ==> Balanced(result.tx, spendables, sendings, changeTo, feePerByte, swap)
      ensures result.Built? ==> SendsAndReturns(result.tx, sendings, changeTo)
    {
      var required := Required(feePerByte, sendings, |tokens.changes|, swap);
      RequiredGrows(feePerByte, sendings, |tokens.changes|, swap);
      var taken, ok := SpendEther(tokens.spendings, tokens.spendables, required);
      more := taken;
      if !ok { return NotEnoughEther, more; }
      result := Finish(tokens, taken);
    }

    /** The ether change and the final assertions. */
    method Finish(tokens: TokenPick, more: seq<Note>) returns (result: BuildResult)
      requires TokensPicked(tokens, spendables, sendings, changeTo) && CoversNfts(spendables, sendings)
      requires Regular(spendables, sendings) ==> SpendsInOrder(tokens.spendings, sendings)
      requires Affords(tokens.spendings, tokens.spendables, RequiredFor(tokens), more)
      ensures Settled(result, spendables, sendings, more)
      ensures result.Built? ==> Balanced(result.tx, spendables, sendings, changeTo, feePerByte, swap)
      ensures result.Built? ==> SendsAndReturns(result.tx, sendings, changeTo)
    {
      var required := Required(feePerByte, sendings, |tokens.changes|, swap);
      var inflow := tokens.spendings + more;
      EtherBalances(tokens, more, spendables, sendings, changeTo, feePerByte, swap);
      assert EthOf(inflow) >= required(|inflow|);
      var changeETH := EthOf(inflow) - required(|inflow|);
      var failure := CheckTokens(tokens, more, changeETH);
      if failure.Some? { return failure.value; }
      var outflow := Outflow(sendings, tokens.changes, EtherChange(changeTo, changeETH));
      var fee := TxFee(feePerByte, |inflow|, |outflow|, sendings, swap);
      assert EthOf(inflow) == EthOf(outflow) + fee + L1FeeOf(sendings);
      InflowProvided(tokens, more, spendables);
      ReturnsToOwner(tokens, sendings, changeTo, changeETH);
      var withdrawals := Filter((n: Note) => n.outflowType.WITHDRAWAL?, sendings);
      result := Built(RawTx(inflow, outflow, swap, fee, withdrawals));
    }

    /** The assertions on tokens. */
    method CheckTokens(tokens: TokenPick, more: seq<Note>, changeETH: nat) returns (failure: Option<BuildResult>)
      requires TokensPicked(tokens, spendables, sendings, changeTo) && CoversNfts(spendables, sendings)
      requires Regular(spendables, sendings) ==> SpendsInOrder(tokens.spendings, sendings)
      ensures failure.Some? ==>
        && (failure.value.Erc20Mismatch? || failure.value.NftMismatch?)
        && Settled(failure.value, spendables, sendings, more)
      ensures failure.None? ==>
        && !Brings(IsErc20, more)
        && (Regular(spendables, sendings) ==> !Brings(IsNft, more) && NftsInOrder(sendings))
      ensures failure.None? ==>
        var inflow := tokens.spendings + more;
        var outflow := Outflow(sendings, tokens.changes, EtherChange(changeTo, changeETH));
        && SameErc20(inflow, outflow) && SameNftListsWithin(inflow, outflow, NftKeys(inflow))
        && (Unmixed(spendables) ==> SameNftLists(inflow, outflow))
    {
      var inflow := tokens.spendings + more;
      var outflow := Outflow(sendings, tokens.changes, EtherChange(changeTo, changeETH));
      Erc20Balances(tokens, more, spendables, sendings, changeTo, changeETH);
      Erc20FailsIff(tokens, more, spendables, sendings, changeTo, changeETH);
      if Unmixed(spendables) { NftsBalance(tokens, more, spendables, sendings, changeTo, changeETH); }
      if Regular(spendables, sendings) { NftsFailIff(tokens, more, sendings, changeTo, changeETH); }
      var erc20 := Erc20Agrees(inflow, outflow);
      if !erc20 { return Some(Erc20Mismatch); }
      var nfts := NftsAgree(inflow, outflow);
      failure := if nfts then None else Some(NftMismatch);
    }
  }

  // ----- the assertion loops

  method Erc20Agrees(inflow: seq<Note>, outflow: seq<Note>) returns (ok: bool)
    ensures ok <==> SameErc20Within(inflow, outflow, Erc20Keys(inflow))
  {
    var keys := Erc20Keys(inflow);
    for k := 0 to |keys|
      invariant SameErc20Within(inflow, outflow, keys[..k])
    {
      if Erc20Of(inflow, keys[k]) != Erc20Of(outflow, keys[k]) { return false; }
    }
    assert keys[..|keys|] == keys;
    ok := true;
  }

  method NftsAgree(inflow: seq<Note>, outflow: seq<Note>) returns (ok: bool)
    ensures ok <==> SameNftListsWithin(inflow, outflow, NftKeys(inflow))
  {
    var keys := NftKeys(inflow);
    for k := 0 to |keys|
      invariant SameNftListsWithin(inflow, outflow, keys[..k])
    {
      if NftsOf(inflow, keys[k]) != NftsOf(outflow, keys[k]) { return false; }
    }
    assert keys[..|keys|] == keys;
    ok := true;
  }

  // ----- joining the phases

  /** Where a note goes changes none of its assets. */
  lemma SentAssets(a: Note, b: Note)
    requires a.(outflowType := UTXO, to := 0, fee := 0) == b.(outflowType := UTXO, to := 0, fee := 0)
    ensures SameAssets(a, b)
  {
    SumOne(EthValue(), a);
    SumOne(EthValue(), b);
    forall addr: nat ensures Erc20Of([a], addr) == Erc20Of([b], addr) && NftsOf([a], addr) == NftsOf([b], addr) {
      SumOne(Erc20Value(addr), a);
      SumOne(Erc20Value(addr), b);
      assert NftsTo([a], addr, 0) == NftsTo([b], addr, 0);
    }
  }

  /** Spending nothing for tokens gives nothing back. */
  lemma NoChange(erc20Changes: seq<Note>, nftChanges: seq<Note>, sendings: seq<Note>)
    requires ReturnsErc20(erc20Changes, [], sendings) && forall x :: x in erc20Changes ==> IsErc20(x)
    requires ReturnsNfts(nftChanges, [], sendings) && forall x :: x in nftChanges ==> IsNft(x)
    ensures erc20Changes == [] && nftChanges == []
  {
    if erc20Changes != [] {
      var addr := erc20Changes[0].tokenAddr;
      assert Erc20Of(erc20Changes, addr) + Erc20Of(sendings, addr) == Erc20Of([], addr);
      SumMember(Erc20Value(addr), erc20Changes, |erc20Changes|, 0);
    }
    if nftChanges != [] {
      var addr := nftChanges[0].tokenAddr;
      assert NftsOf(nftChanges, addr) == Extra(NftsOf([], addr), NftsOf(sendings, addr));
      NftListed(nftChanges, addr, |nftChanges|, 0);
    }
  }

  lemma MoreCovers(spendings: seq<Note>, more: seq<Note>, sendings: seq<Note>)
    requires CoversErc20(spendings, sendings)
    ensures CoversErc20(spendings + more, sendings)
  {
    forall addr: nat ensures Erc20Of(sendings, addr) <= Erc20Of(spendings + more, addr) {
      SumConcat(Erc20Value(addr), spendings, more);
    }
  }

  /** ERC20 change carries no NFT and NFT change no amount, so together they return both. */
  lemma BothChanges(erc20Changes: seq<Note>, nftChanges: seq<Note>, spendings: seq<Note>, sendings: seq<Note>,
                    owner: nat)
    requires ReturnsErc20(erc20Changes, spendings, sendings) && forall x :: x in erc20Changes ==> IsErc20(x)
    requires ReturnsNfts(nftChanges, spendings, sendings) && forall x :: x in nftChanges ==> IsNft(x)
    requires TokenChanges(erc20Changes, owner) && TokenChanges(nftChanges, owner)
    ensures ReturnsErc20(erc20Changes + nftChanges, spendings, sendings)
    ensures ReturnsNfts(erc20Changes + nftChanges, spendings, sendings)
    ensures TokenChanges(erc20Changes + nftChanges, owner)
  {
    var changes := erc20Changes + nftChanges;
    forall addr: nat ensures Erc20Of(changes, addr) == Erc20Of(erc20Changes, addr) {
      SumConcat(Erc20Value(addr), erc20Changes, nftChanges);
      SumZero(Erc20Value(addr), nftChanges, |nftChanges|);
    }
    forall addr: nat ensures NftsOf(changes, addr) == NftsOf(nftChanges, addr) {
      NftsConcat(erc20Changes, nftChanges, addr);
      NoNfts(erc20Changes, addr, |erc20Changes|);
    }
  }

  lemma ReturnsToOwner(tokens: TokenPick, sendings: seq<Note>, owner: nat, changeETH: nat)
    requires TokenChanges(tokens.changes, owner)
    ensures var outflow := Outflow(sendings, tokens.changes, EtherChange(owner, changeETH));
      && sendings <= outflow
      && forall i :: |sendings| <= i < |outflow| ==> outflow[i].id == owner && outflow[i].outflowType.UTXO?
  {
    var outflow := Outflow(sendings, tokens.changes, EtherChange(owner, changeETH));
    forall i | |sendings| <= i < |outflow| ensures outflow[i].id == owner && outflow[i].outflowType.UTXO? {
      assert outflow[i] == (tokens.changes + [EtherChange(owner, changeETH)])[i - |sendings|];
      if i - |sendings| < |tokens.changes| { assert IsTokenChange(tokens.changes[i - |sendings|], owner); }
    }
  }
}
