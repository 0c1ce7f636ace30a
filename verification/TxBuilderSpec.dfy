/** What `build` in packages/transaction/src/tx-builder.ts promises, and why its final assertions hold. */
module TxBuilderSpec {
  import opened Options
  import opened Sequences
  import opened NoteSum
  import opened EtherSelection
  import opened TokenSelection
  import opened NftPhase
  import opened TokenChange
  import opened SpentNotes
  import opened TxSize

  datatype RawTx = RawTx(inflow: seq<Note>, outflow: seq<Note>, swap: Option<nat>, fee: nat, withdrawals: seq<Note>)

  datatype BuildResult =
    | Built(tx: RawTx)
    | NotEnoughErc20(addr: nat)
    | NotEnoughNfts(check: NftCheck)
    | NotEnoughEther
    | Erc20Mismatch
    | NftMismatch

  /** The notes left to pay ether with, the notes already being spent for tokens, and the change those make. */
  datatype TokenPick = TokenPick(spendables: seq<Note>, spendings: seq<Note>, changes: seq<Note>)

  function L1FeeValue(): Note -> nat { (n: Note) => if n.outflowType.UTXO? then 0 else n.fee }

  function L1FeeOf(notes: seq<Note>): nat { Sum(L1FeeValue(), notes) }

  function CrossLayer(notes: seq<Note>): nat { |Filter((n: Note) => !n.outflowType.UTXO?, notes)| }

  function TxFee(feePerByte: nat, inflowNum: nat, outflowNum: nat, sendings: seq<Note>, swap: Option<nat>): nat {
    feePerByte * TxSizeCalculator(inflowNum, outflowNum, CrossLayer(sendings), swap.Some?, false)
  }

  /** The ether needed when a number of notes is spent and the tokens make a number of change notes; one more outflow
      is the ether change. */
  function Required(feePerByte: nat, sendings: seq<Note>, changes: nat, swap: Option<nat>): nat -> nat {
    (inflowNum: nat) =>
      EthOf(sendings) + TxFee(feePerByte, inflowNum, |sendings| + changes + 1, sendings, swap) + L1FeeOf(sendings)
  }

  lemma FeeGrows(feePerByte: nat, a: nat, b: nat)
    requires a <= b
    ensures feePerByte * a <= feePerByte * b
  {
    assert feePerByte * b == feePerByte * a + feePerByte * (b - a);
  }

  /** Every further input makes the transaction longer, so the requirement never falls. */
  lemma RequiredGrows(feePerByte: nat, sendings: seq<Note>, changes: nat, swap: Option<nat>)
    ensures NonDecreasing(Required(feePerByte, sendings, changes, swap))
  {
    var required := Required(feePerByte, sendings, changes, swap);
    var outflowNum, cross := |sendings| + changes + 1, CrossLayer(sendings);
    forall a: nat, b: nat | a <= b ensures required(a) <= required(b) {
      FeeGrows(feePerByte, TxSizeCalculator(a, outflowNum, cross, swap.Some?, false),
               TxSizeCalculator(b, outflowNum, cross, swap.Some?, false));
    }
  }

  // ----- the parts of a transaction

  /** The token phases have succeeded. */
  ghost predicate TokensPicked(pick: TokenPick, provided: seq<Note>, sendings: seq<Note>, owner: nat) {
    && Piles(pick.spendables, pick.spendings, provided)
    && CoversErc20(pick.spendings, sendings)
    && SpendsNfts(provided, sendings, pick.spendings, NftKeys(sendings))
    && ReturnsErc20(pick.changes, pick.spendings, sendings)
    && ReturnsNfts(pick.changes, pick.spendings, sendings)
    && TokenChanges(pick.changes, owner)
  }

  /** Of every token the smallest notes are spent, and no more of them than are needed; the notes spent for NFTs come
      after those. */
  ghost predicate SpendsSmallest(pick: TokenPick, sendings: seq<Note>) {
    exists n :: 0 <= n <= |pick.spendings| &&
      SmallestFirst(pick.spendings[..n], pick.spendings[n..] + pick.spendables, sendings)
  }

  /** The notes spent, the notes left and the number of change notes, as the notes provided and sent fix them. */
  ghost predicate FixedByInput(pick: TokenPick, provided: seq<Note>, sendings: seq<Note>) {
    && multiset(pick.spendings) == multiset(Spent(provided, sendings))
    && multiset(pick.spendables) == multiset(Left(provided, sendings))
    && |pick.changes| == ChangeCount(provided, sendings)
  }

  /** The NFT phase takes nothing from the notes spent for ERC20 tokens. */
  lemma SmallestThrough(provided: seq<Note>, sendings: seq<Note>, leftAfterErc20: seq<Note>, erc20Notes: seq<Note>,
                        nftNotes: seq<Note>, pick: TokenPick)
    requires Piles(leftAfterErc20, erc20Notes, provided) && SmallestFirst(erc20Notes, leftAfterErc20, sendings)
    requires pick.spendings == erc20Notes + nftNotes && Piles(pick.spendables, pick.spendings, provided)
    ensures SmallestFirst(erc20Notes, nftNotes + pick.spendables, sendings) && SpendsSmallest(pick, sendings)
  {
    var n, rest := |erc20Notes|, nftNotes + pick.spendables;
    assert pick.spendings[..n] == erc20Notes && pick.spendings[n..] == nftNotes;
    assert multiset(pick.spendings) == multiset(erc20Notes) + multiset(nftNotes);
    assert multiset(rest) == multiset(nftNotes) + multiset(pick.spendables);
    forall y | y in rest ensures y in leftAfterErc20 {
      assert multiset(provided)[y] == multiset(leftAfterErc20)[y] + multiset(erc20Notes)[y];
      assert multiset(provided)[y] == multiset(pick.spendables)[y] + multiset(pick.spendings)[y];
      assert multiset(rest)[y] > 0;
    }
    forall addr: nat ensures SmallestAt(erc20Notes, rest, addr, Erc20Of(sendings, addr)) {
      assert SmallestAt(erc20Notes, leftAfterErc20, addr, Erc20Of(sendings, addr));
    }
  }

  /** With regular notes no NFT comes back. */
  lemma NoNftChanges(changes: seq<Note>, spendings: seq<Note>, sendings: seq<Note>)
    requires SpendsInOrder(spendings, sendings) && ReturnsNfts(changes, spendings, sendings)
    requires forall x :: x in changes ==> IsNft(x)
    ensures changes == []
  {
    if changes != [] {
      var addr := changes[0].tokenAddr;
      var have, sent := NftsOf(spendings, addr), NftsOf(sendings, addr);
      assert InOrderAt(spendings, sendings, addr);
      forall x | x in have ensures x in sent { assert x in multiset(have) && x in multiset(sent); }
      NothingExtra(have, sent, |have|);
      NftListed(changes, addr, |changes|, 0);
      assert false;
    }
  }

  lemma Fixed(provided: seq<Note>, sendings: seq<Note>, erc20Notes: seq<Note>, nftNotes: seq<Note>,
              erc20Changes: seq<Note>, nftChanges: seq<Note>, pick: TokenPick)
    requires DistinctAmounts(provided) && pick.spendings == erc20Notes + nftNotes
    requires Piles(pick.spendables, pick.spendings, provided) && CoversErc20(erc20Notes, sendings)
    requires SmallestFirst(erc20Notes, nftNotes + pick.spendables, sendings)
    requires SentSplit(sendings, nftNotes, pick.spendables, NftKeys(sendings))
    requires pick.changes == erc20Changes + nftChanges && |erc20Changes| == |Surplus(pick.spendings, sendings)|
    requires SpendsInOrder(pick.spendings, sendings) && ReturnsNfts(nftChanges, pick.spendings, sendings)
    requires forall x :: x in nftChanges ==> IsNft(x)
    ensures FixedByInput(pick, provided, sendings)
  {
    PilesFixed(provided, sendings, pick.spendables, erc20Notes, nftNotes);
    NoNftChanges(nftChanges, pick.spendings, sendings);
    SurplusPermuted(pick.spendings, Spent(provided, sendings), sendings);
  }

  function EtherChange(owner: nat, eth: nat): Note { Note(owner, eth, 0, 0, 0, UTXO, 0, 0) }

  function Outflow(sendings: seq<Note>, changes: seq<Note>, etherChange: Note): seq<Note> {
    sendings + (changes + [etherChange])
  }

  /** Only notes that were provided are spent, each as often as it was provided. */
  lemma InflowProvided(pick: TokenPick, more: seq<Note>, provided: seq<Note>)
    requires Piles(pick.spendables, pick.spendings, provided) && multiset(more) <= multiset(pick.spendables)
    ensures multiset(pick.spendings + more) <= multiset(provided)
  {
    assert multiset(pick.spendings + more) == multiset(pick.spendings) + multiset(more);
  }

  // ----- ether

  lemma TokenChangesNoEther(changes: seq<Note>, owner: nat)
    requires TokenChanges(changes, owner)
    ensures EthOf(changes) == 0
  {
    forall x | x in changes ensures EthValue()(x) == 0 { assert IsTokenChange(x, owner); }
    SumZero(EthValue(), changes, |changes|);
  }

  lemma OutflowSum(f: Note -> nat, sendings: seq<Note>, changes: seq<Note>, etherChange: Note)
    ensures Sum(f, Outflow(sendings, changes, etherChange)) == Sum(f, sendings) + Sum(f, changes) + f(etherChange)
  {
    SumConcat(f, sendings, changes + [etherChange]);
    SumSnoc(f, changes, etherChange);
  }

  /** The ether change closes the gap, so the assertion on ether always holds. */
  lemma EtherBalances(pick: TokenPick, more: seq<Note>, provided: seq<Note>, sendings: seq<Note>, owner: nat,
                      feePerByte: nat, swap: Option<nat>)
    requires TokensPicked(pick, provided, sendings, owner)
    requires Affords(pick.spendings, pick.spendables, Required(feePerByte, sendings, |pick.changes|, swap), more)
    ensures var inflow := pick.spendings + more;
      var required := Required(feePerByte, sendings, |pick.changes|, swap)(|inflow|);
      && EthOf(inflow) > required
      && var outflow := Outflow(sendings, pick.changes, EtherChange(owner, EthOf(inflow) - required));
        EthOf(inflow) == EthOf(outflow) + TxFee(feePerByte, |inflow|, |outflow|, sendings, swap) + L1FeeOf(sendings)
  {
    var inflow := pick.spendings + more;
    SumConcat(EthValue(), pick.spendings, more);
    var required := Required(feePerByte, sendings, |pick.changes|, swap)(|inflow|);
    TokenChangesNoEther(pick.changes, owner);
    OutflowSum(EthValue(), sendings, pick.changes, EtherChange(owner, EthOf(inflow) - required));
  }

  // ----- ERC20

  /** The notes that pay the ether are the only ones that can unbalance a token. */
  lemma Erc20Drift(pick: TokenPick, more: seq<Note>, provided: seq<Note>, sendings: seq<Note>, owner: nat, eth: nat,
                   addr: nat)
    requires TokensPicked(pick, provided, sendings, owner)
    ensures Erc20Of(pick.spendings + more, addr) ==
      Erc20Of(Outflow(sendings, pick.changes, EtherChange(owner, eth)), addr) + Erc20Of(more, addr)
  {
    assert Erc20Of(pick.changes, addr) + Erc20Of(sendings, addr) == Erc20Of(pick.spendings, addr);
    SumConcat(Erc20Value(addr), pick.spendings, more);
    OutflowSum(Erc20Value(addr), sendings, pick.changes, EtherChange(owner, eth));
  }

  ghost predicate SameErc20(inflow: seq<Note>, outflow: seq<Note>) {
    forall addr :: Erc20Of(inflow, addr) == Erc20Of(outflow, addr)
  }

  ghost predicate SameErc20Within(inflow: seq<Note>, outflow: seq<Note>, keys: seq<nat>) {
    forall addr :: addr in keys ==> Erc20Of(inflow, addr) == Erc20Of(outflow, addr)
  }

  /** The assertion looks only at tokens that come in; the others balance anyway. */
  lemma Erc20Balances(pick: TokenPick, more: seq<Note>, provided: seq<Note>, sendings: seq<Note>, owner: nat, eth: nat)
    requires TokensPicked(pick, provided, sendings, owner)
    ensures var inflow, outflow := pick.spendings + more, Outflow(sendings, pick.changes, EtherChange(owner, eth));
      SameErc20Within(inflow, outflow, Erc20Keys(inflow)) <==> SameErc20(inflow, outflow)
  {
    var inflow, outflow := pick.spendings + more, Outflow(sendings, pick.changes, EtherChange(owner, eth));
    if SameErc20Within(inflow, outflow, Erc20Keys(inflow)) {
      forall addr: nat ensures Erc20Of(inflow, addr) == Erc20Of(outflow, addr) {
        Erc20KeysExact(inflow, |inflow|, addr);
        Erc20Drift(pick, more, provided, sendings, owner, eth, addr);
      }
    }
  }

  /** Some of the notes are of a kind. */
  ghost predicate Brings(kind: Note -> bool, notes: seq<Note>) {
    exists x :: x in notes && kind(x)
  }

  /** It fails exactly when a note taken for its ether brings a token along. */
  lemma Erc20FailsIff(pick: TokenPick, more: seq<Note>, provided: seq<Note>, sendings: seq<Note>, owner: nat, eth: nat)
    requires TokensPicked(pick, provided, sendings, owner)
    ensures var inflow, outflow := pick.spendings + more, Outflow(sendings, pick.changes, EtherChange(owner, eth));
      SameErc20(inflow, outflow) <==> !Brings(IsErc20, more)
  {
    var inflow, outflow := pick.spendings + more, Outflow(sendings, pick.changes, EtherChange(owner, eth));
    if !Brings(IsErc20, more) {
      forall addr: nat ensures Erc20Of(inflow, addr) == Erc20Of(outflow, addr) {
        SumZero(Erc20Value(addr), more, |more|);
        Erc20Drift(pick, more, provided, sendings, owner, eth, addr);
      }
    } else {
      var i :| 0 <= i < |more| && IsErc20(more[i]);
      SumMember(Erc20Value(more[i].tokenAddr), more, |more|, i);
      Erc20Drift(pick, more, provided, sendings, owner, eth, more[i].tokenAddr);
    }
  }

  // ----- NFTs

  ghost predicate SameNftLists(inflow: seq<Note>, outflow: seq<Note>) {
    forall addr :: NftsOf(inflow, addr) == NftsOf(outflow, addr)
  }

  ghost predicate SameNftListsWithin(inflow: seq<Note>, outflow: seq<Note>, keys: seq<nat>) {
    forall addr :: addr in keys ==> NftsOf(inflow, addr) == NftsOf(outflow, addr)
  }

  lemma OutflowNfts(sendings: seq<Note>, changes: seq<Note>, owner: nat, eth: nat, addr: nat)
    ensures NftsOf(Outflow(sendings, changes, EtherChange(owner, eth)), addr)
         == NftsOf(sendings, addr) + NftsOf(changes, addr)
  {
    var etherChange := EtherChange(owner, eth);
    NftsConcat(sendings, changes + [etherChange], addr);
    NftsConcat(changes, [etherChange], addr);
    NoNfts([etherChange], addr, 1);
  }

  /** An NFT that is sent is among the NFTs spent, when no note mixes an amount and an NFT. */
  lemma SentNftSpent(pick: TokenPick, provided: seq<Note>, sendings: seq<Note>, owner: nat, addr: nat)
    requires TokensPicked(pick, provided, sendings, owner) && Unmixed(provided) && CoversNfts(provided, sendings)
    requires NftsOf(sendings, addr) != []
    ensures NftsOf(pick.spendings, addr) != []
  {
    var wanted := NftsOf(sendings, addr);
    NftKeysExact(sendings, |sendings|, addr);
    assert CoveredAt(provided, sendings, addr);
    var matching := Matching(provided, addr, wanted);
    assert wanted[0] in multiset(wanted);
    assert wanted[0] in multiset(Numbers(matching));
    var x := matching[0];
    MatchingFacts(provided, addr, wanted);
    NftsNonZero(sendings, addr, |sendings|);
    assert x in pick.spendings;
    var i :| 0 <= i < |pick.spendings| && pick.spendings[i] == x;
    NftListed(pick.spendings, addr, |pick.spendings|, i);
  }

  lemma ExtraOfNothing(sent: seq<nat>)
    ensures Extra([], sent) == []
  {}

  /** The assertion looks only at contracts whose NFTs come in; the others have none on either side. */
  lemma NftsBalance(pick: TokenPick, more: seq<Note>, provided: seq<Note>, sendings: seq<Note>, owner: nat, eth: nat)
    requires TokensPicked(pick, provided, sendings, owner) && Unmixed(provided) && CoversNfts(provided, sendings)
    ensures var inflow, outflow := pick.spendings + more, Outflow(sendings, pick.changes, EtherChange(owner, eth));
      SameNftListsWithin(inflow, outflow, NftKeys(inflow)) <==> SameNftLists(inflow, outflow)
  {
    var inflow, outflow := pick.spendings + more, Outflow(sendings, pick.changes, EtherChange(owner, eth));
    if SameNftListsWithin(inflow, outflow, NftKeys(inflow)) {
      forall addr: nat ensures NftsOf(inflow, addr) == NftsOf(outflow, addr) {
        NftKeysExact(inflow, |inflow|, addr);
        if addr !in NftKeys(inflow) { NoNftsEitherSide(pick, more, provided, sendings, owner, eth, addr); }
      }
    }
  }

  lemma NoNftsEitherSide(pick: TokenPick, more: seq<Note>, provided: seq<Note>, sendings: seq<Note>, owner: nat,
                         eth: nat, addr: nat)
    requires TokensPicked(pick, provided, sendings, owner) && Unmixed(provided) && CoversNfts(provided, sendings)
    requires NftsOf(pick.spendings + more, addr) == []
    ensures NftsOf(Outflow(sendings, pick.changes, EtherChange(owner, eth)), addr) == []
  {
    NftsConcat(pick.spendings, more, addr);
    OutflowNfts(sendings, pick.changes, owner, eth, addr);
    if NftsOf(sendings, addr) != [] { SentNftSpent(pick, provided, sendings, owner, addr); }
    ExtraOfNothing(NftsOf(sendings, addr));
  }

  // ----- when the assertions on tokens hold

  ghost predicate TokensCarryNoEther(notes: seq<Note>) {
    forall x :: x in notes && (IsErc20(x) || IsNft(x)) ==> x.eth == 0
  }

  /** No address is an ERC20 token for one note and an NFT contract for another. */
  ghost predicate OneKind(notes: seq<Note>) {
    forall x, y :: x in notes && y in notes && IsErc20(x) && IsNft(y) ==> x.tokenAddr != y.tokenAddr
  }

  ghost predicate Regular(provided: seq<Note>, sendings: seq<Note>) {
    Unmixed(provided) && OneKind(provided + sendings)
  }

  /** Every contract's NFTs are sent in ascending order. Sending at most one of each contract is a special case. */
  ghost predicate NftsInOrder(sendings: seq<Note>) {
    forall addr :: AscendingNumbers(NftsOf(sendings, addr))
  }

  lemma OneEachInOrder(sendings: seq<Note>)
    requires forall addr :: |NftsOf(sendings, addr)| <= 1
    ensures NftsInOrder(sendings)
  {
    forall addr: nat ensures AscendingNumbers(NftsOf(sendings, addr)) {
      assert |NftsOf(sendings, addr)| <= 1;
    }
  }

  /** At the address of an ERC20 token that is sent, nothing is an NFT. */
  lemma Erc20AddressHasNoNft(provided: seq<Note>, sendings: seq<Note>, addr: nat, x: Note)
    requires OneKind(provided + sendings) && addr in Erc20Keys(sendings)
    requires x in provided + sendings && x.tokenAddr == addr
    ensures !IsNft(x)
  {
    var i := Erc20KeyNote(sendings, |sendings|, addr);
    assert sendings[i] in provided + sendings;
  }

  /** The notes spent for ERC20 tokens are of no contract whose NFTs are sent. */
  lemma Erc20NotesAway(provided: seq<Note>, sendings: seq<Note>, spendings: seq<Note>)
    requires OneKind(provided + sendings) && forall x :: x in spendings ==> x.tokenAddr in Erc20Keys(sendings)
    ensures AwayFrom(spendings, NftKeys(sendings))
  {
    forall x | x in spendings ensures x.tokenAddr !in NftKeys(sendings) {
      if x.tokenAddr in NftKeys(sendings) {
        NftKeysExact(sendings, |sendings|, x.tokenAddr);
        var i := ListedNft(sendings, x.tokenAddr, |sendings|, NftsOf(sendings, x.tokenAddr)[0]);
        Erc20AddressHasNoNft(provided, sendings, x.tokenAddr, sendings[i]);
        assert false;
      }
    }
  }

  /** They carry no NFT themselves. */
  lemma Erc20NotesNoNfts(provided: seq<Note>, sendings: seq<Note>, spendables: seq<Note>, spendings: seq<Note>,
                         addr: nat)
    requires OneKind(provided + sendings) && Piles(spendables, spendings, provided)
    requires forall x :: x in spendings ==> x.tokenAddr in Erc20Keys(sendings)
    ensures NftsOf(spendings, addr) == []
  {
    forall x | x in spendings ensures !(IsNft(x) && x.tokenAddr == addr) {
      assert x in multiset(spendings) && x in multiset(provided);
      Erc20AddressHasNoNft(provided, sendings, x.tokenAddr, x);
    }
    NoNfts(spendings, addr, |spendings|);
  }

  /** With regular notes the token phases spend exactly the NFTs sent, listed in ascending order. */
  ghost predicate SpendsInOrder(spendings: seq<Note>, sendings: seq<Note>) {
    forall addr :: InOrderAt(spendings, sendings, addr)
  }

  ghost predicate InOrderAt(spendings: seq<Note>, sendings: seq<Note>, addr: nat) {
    AscendingNumbers(NftsOf(spendings, addr)) && multiset(NftsOf(spendings, addr)) == multiset(NftsOf(sendings, addr))
  }

  lemma RegularPick(provided: seq<Note>, sendings: seq<Note>, spendables: seq<Note>, erc20Notes: seq<Note>,
                    nftNotes: seq<Note>)
    requires OneKind(provided + sendings) && Piles(spendables, erc20Notes, provided)
    requires forall x :: x in erc20Notes ==> x.tokenAddr in Erc20Keys(sendings)
    requires ListsAscending(nftNotes, sendings, NftKeys(sendings))
    ensures SpendsInOrder(erc20Notes + nftNotes, sendings)
  {
    var both := erc20Notes + nftNotes;
    forall addr: nat ensures InOrderAt(both, sendings, addr) {
      Erc20NotesNoNfts(provided, sendings, spendables, erc20Notes, addr);
      NftsConcat(erc20Notes, nftNotes, addr);
      assert ListedAt(nftNotes, sendings, NftKeys(sendings), addr);
      NftKeysExact(sendings, |sendings|, addr);
      assert NftsOf(both, addr) == NftsOf(nftNotes, addr);
    }
  }

  lemma NftsInAndOut(pick: TokenPick, more: seq<Note>, sendings: seq<Note>, owner: nat, eth: nat, addr: nat)
    requires SpendsInOrder(pick.spendings, sendings) && ReturnsNfts(pick.changes, pick.spendings, sendings)
    ensures NftsOf(pick.spendings + more, addr) == NftsOf(pick.spendings, addr) + NftsOf(more, addr)
    ensures NftsOf(Outflow(sendings, pick.changes, EtherChange(owner, eth)), addr) == NftsOf(sendings, addr)
    ensures |NftsOf(pick.spendings, addr)| == |NftsOf(sendings, addr)|
  {
    NftsConcat(pick.spendings, more, addr);
    OutflowNfts(sendings, pick.changes, owner, eth, addr);
    var have, sent := NftsOf(pick.spendings, addr), NftsOf(sendings, addr);
    assert InOrderAt(pick.spendings, sendings, addr);
    forall n | n in have ensures n in sent { assert n in multiset(have) && n in multiset(sent); }
    NothingExtra(have, sent, |have|);
    SameCounts(have, sent);
  }

  /** At one address: the lists agree exactly when what is sent is in order and nothing else comes in. */
  lemma NftsAgreeAt(pick: TokenPick, more: seq<Note>, sendings: seq<Note>, owner: nat, eth: nat, addr: nat)
    requires SpendsInOrder(pick.spendings, sendings) && ReturnsNfts(pick.changes, pick.spendings, sendings)
    ensures NftsOf(pick.spendings + more, addr) == NftsOf(Outflow(sendings, pick.changes, EtherChange(owner, eth)),
                                                          addr)
       <==> AscendingNumbers(NftsOf(sendings, addr)) && NftsOf(more, addr) == []
  {
    NftsInAndOut(pick, more, sendings, owner, eth, addr);
    assert InOrderAt(pick.spendings, sendings, addr);
    var have, sent, extra := NftsOf(pick.spendings, addr), NftsOf(sendings, addr), NftsOf(more, addr);
    if have + extra == sent { assert extra == []; }
    if extra == [] {
      assert have + extra == have;
      if AscendingNumbers(sent) { AscendingUnique(have, sent); }
    }
  }

  lemma NoNftListedIff(notes: seq<Note>)
    ensures (forall addr :: NftsOf(notes, addr) == []) <==> !Brings(IsNft, notes)
  {
    if x :| x in notes && IsNft(x) {
      var i :| 0 <= i < |notes| && notes[i] == x;
      NftListed(notes, x.tokenAddr, |notes|, i);
      assert NftsOf(notes, x.tokenAddr) != [];
    } else {
      forall addr: nat ensures NftsOf(notes, addr) == [] { NoNfts(notes, addr, |notes|); }
    }
  }

  /** With regular notes the assertion on NFTs holds exactly when every contract's NFTs are sent in ascending order
      and no note taken for its ether brings an NFT along. */
  lemma NftsFailIff(pick: TokenPick, more: seq<Note>, sendings: seq<Note>, owner: nat, eth: nat)
    requires SpendsInOrder(pick.spendings, sendings) && ReturnsNfts(pick.changes, pick.spendings, sendings)
    ensures SameNftLists(pick.spendings + more, Outflow(sendings, pick.changes, EtherChange(owner, eth)))
      <==> NftsInOrder(sendings) && !Brings(IsNft, more)
  {
    var inflow, outflow := pick.spendings + more, Outflow(sendings, pick.changes, EtherChange(owner, eth));
    NoNftListedIff(more);
    forall addr: nat
      ensures NftsOf(inflow, addr) == NftsOf(outflow, addr)
         <==> AscendingNumbers(NftsOf(sendings, addr)) && NftsOf(more, addr) == []
    {
      NftsAgreeAt(pick, more, sendings, owner, eth, addr);
    }
  }

  // ----- the ether phase, seen from the pool

  /** What the ether phase takes: the least number of notes that can do, and the most valuable ones. */
  ghost predicate EtherTaken(pick: TokenPick, more: seq<Note>, required: nat -> nat) {
    && Affords(pick.spendings, pick.spendables, required, more)
    && LeastNumber(pick.spendings, pick.spendables, required, |more|)
    && TopChoice(pick.spendables, more)
    && forall x :: x in more ==> x.eth > 0
  }

  /** A note of a kind, with ether, is among as many most valuable notes as are needed. */
  ghost predicate Needed(kind: Note -> bool, pick: TokenPick, required: nat -> nat) {
    exists k :: LeastNumber(pick.spendings, pick.spendables, required, k) && OnTop(kind, pick.spendables, k)
  }

  /** It is so whatever the order of notes with the same ether. */
  ghost predicate ClearlyNeeded(kind: Note -> bool, pick: TokenPick, required: nat -> nat) {
    exists k :: LeastNumber(pick.spendings, pick.spendables, required, k) && ClearlyOnTop(kind, pick.spendables, k)
  }

  /** Whether the ether phase brings a token along, read off the notes left to it. */
  lemma BringsIff(kind: Note -> bool, pick: TokenPick, more: seq<Note>, required: nat -> nat)
    requires EtherTaken(pick, more, required)
    ensures Brings(kind, more) ==> Needed(kind, pick, required)
    ensures ClearlyNeeded(kind, pick, required) ==> Brings(kind, more)
    ensures DistinctEther(pick.spendables) ==> (Brings(kind, more) <==> Needed(kind, pick, required))
  {
    ChosenKind(kind, pick.spendables, more);
    forall k | LeastNumber(pick.spendings, pick.spendables, required, k) ensures k == |more| {
      LeastUnique(pick.spendings, pick.spendables, required, k, |more|);
    }
    if DistinctEther(pick.spendables) { DistinctOnTop(kind, pick.spendables, |more|); }
  }

  lemma NoTokenNeeded(kind: Note -> bool, pick: TokenPick, required: nat -> nat, provided: seq<Note>)
    requires multiset(pick.spendables) <= multiset(provided)
    requires forall x :: x in provided && kind(x) ==> x.eth == 0
    ensures !Needed(kind, pick, required)
  {
    forall x | x in pick.spendables ensures x in provided {
      assert x in multiset(pick.spendables) && x in multiset(provided);
    }
  }

  /** What comes out once the ether is there: which assertion fires, if any. */
  ghost predicate Settled(result: BuildResult, provided: seq<Note>, sendings: seq<Note>, more: seq<Note>) {
    && (result.Built? || result.Erc20Mismatch? || result.NftMismatch?)
    && (result.Erc20Mismatch? <==> Brings(IsErc20, more))
    && (Regular(provided, sendings) ==>
          (result.NftMismatch? <==>
             !Brings(IsErc20, more) && (Brings(IsNft, more) || !NftsInOrder(sendings))))
  }

  /** Nothing but ether is sent. */
  ghost predicate OnlyEther(sendings: seq<Note>) {
    Erc20Keys(sendings) == [] && NftKeys(sendings) == []
  }

  ghost predicate Covers(provided: seq<Note>, sendings: seq<Note>) {
    CoversErc20(provided, sendings) && CoversNfts(provided, sendings)
  }

  /** Ether that no choice among the notes left can make up, or an assertion on tokens, or a transaction. */
  ghost predicate EtherDecided(result: BuildResult, pick: TokenPick, more: seq<Note>, provided: seq<Note>,
                               sendings: seq<Note>, required: nat -> nat) {
    if Feasible(pick.spendings, pick.spendables, required)
    then EtherTaken(pick, more, required) && Settled(result, provided, sendings, more)
    else result.NotEnoughEther?
  }

  /** Which error comes out: a token that falls short, a contract whose NFTs are not there, or ether that no choice
      among the notes left can make up. When only ether is sent those are all the notes provided. */
  ghost predicate Decided(result: BuildResult, pick: TokenPick, more: seq<Note>, provided: seq<Note>,
                          sendings: seq<Note>, owner: nat, required: nat -> nat) {
    && (result.NotEnoughErc20? <==> !CoversErc20(provided, sendings))
    && (result.NotEnoughErc20? ==> FirstShort(provided, sendings, result.addr))
    && (result.NotEnoughNfts? <==> CoversErc20(provided, sendings) && !CoversNfts(provided, sendings))
    && (result.NotEnoughNfts? ==> exists k :: FailsAt(provided, sendings, result.check, k))
    && (Covers(provided, sendings) ==>
          && TokensPicked(pick, provided, sendings, owner)
          && SpendsSmallest(pick, sendings)
          && (Regular(provided, sendings) && DistinctAmounts(provided) ==> FixedByInput(pick, provided, sendings))
          && (OnlyEther(sendings) ==> pick == TokenPick(provided, [], []))
          && EtherDecided(result, pick, more, provided, sendings, required))
  }

  /** Which assertion on tokens fires, read off the notes left to the ether phase. */
  ghost predicate TokensDecide(result: BuildResult, pick: TokenPick, provided: seq<Note>, sendings: seq<Note>,
                               required: nat -> nat) {
    && (result.NotEnoughEther? <==> !Feasible(pick.spendings, pick.spendables, required))
    && (result.Erc20Mismatch? ==> Needed(IsErc20, pick, required))
    && (ClearlyNeeded(IsErc20, pick, required) ==> result.Erc20Mismatch?)
    && (DistinctEther(pick.spendables) ==> (result.Erc20Mismatch? <==> Needed(IsErc20, pick, required)))
    && (Regular(provided, sendings) && DistinctEther(pick.spendables) ==>
          (result.Built? <==>
             && Feasible(pick.spendings, pick.spendables, required) && NftsInOrder(sendings)
             && !Needed(IsErc20, pick, required) && !Needed(IsNft, pick, required)))
    && (Regular(provided, sendings) && TokensCarryNoEther(provided) ==>
          (result.Built? <==> Feasible(pick.spendings, pick.spendables, required) && NftsInOrder(sendings)))
  }

  lemma NeededIsFeasible(pick: TokenPick, required: nat -> nat)
    ensures Needed(IsErc20, pick, required) || ClearlyNeeded(IsErc20, pick, required) ==>
      Feasible(pick.spendings, pick.spendables, required)
  {}

  lemma SpendablesProvided(pick: TokenPick, provided: seq<Note>, sendings: seq<Note>, owner: nat)
    requires TokensPicked(pick, provided, sendings, owner)
    ensures multiset(pick.spendables) <= multiset(provided)
  {}

  /** The first of the two follows the code, the second follows from the first. */
  lemma DecidedByTokens(result: BuildResult, pick: TokenPick, more: seq<Note>, provided: seq<Note>, sendings: seq<Note>,
                        required: nat -> nat)
    requires EtherDecided(result, pick, more, provided, sendings, required)
    requires multiset(pick.spendables) <= multiset(provided)
    ensures TokensDecide(result, pick, provided, sendings, required)
  {
    NeededIsFeasible(pick, required);
    if Feasible(pick.spendings, pick.spendables, required) {
      BringsIff(IsErc20, pick, more, required);
      BringsIff(IsNft, pick, more, required);
      if TokensCarryNoEther(provided) {
        NoTokenNeeded(IsErc20, pick, required, provided);
        NoTokenNeeded(IsNft, pick, required, provided);
      }
    }
  }

  // ----- the whole decision, from the notes provided and sent

  /** The piles after the token phases, in any order. */
  function InputPick(provided: seq<Note>, sendings: seq<Note>): TokenPick {
    TokenPick(Left(provided, sendings), Spent(provided, sendings), [])
  }

  lemma SameAfford(a: TokenPick, b: TokenPick, required: nat -> nat, chosen: seq<Note>)
    requires multiset(a.spendings) == multiset(b.spendings) && multiset(a.spendables) == multiset(b.spendables)
    ensures Affords(a.spendings, a.spendables, required, chosen)
       <==> Affords(b.spendings, b.spendables, required, chosen)
  {
    SumPermuted(EthValue(), a.spendings, b.spendings);
    SameCounts(a.spendings, b.spendings);
  }

  /** The ether phase does not see the order of the piles. */
  lemma SameChoice(a: TokenPick, b: TokenPick, required: nat -> nat, more: seq<Note>)
    requires multiset(a.spendings) == multiset(b.spendings) && multiset(a.spendables) == multiset(b.spendables)
    ensures Feasible(a.spendings, a.spendables, required) <==> Feasible(b.spendings, b.spendables, required)
    ensures EtherTaken(a, more, required) ==> EtherTaken(b, more, required)
  {
    forall chosen: seq<Note>
      ensures Affords(a.spendings, a.spendables, required, chosen)
         <==> Affords(b.spendings, b.spendables, required, chosen)
    {
      SameAfford(a, b, required, chosen);
    }
    if TopChoice(a.spendables, more) {
      var left: seq<Note> :| TopSplit(a.spendables, more, left);
      assert TopSplit(b.spendables, more, left);
    }
  }

  /** With regular notes and distinct amounts the outcome is fixed by the notes provided and sent. */
  lemma DecidedByInput(result: BuildResult, pick: TokenPick, more: seq<Note>, provided: seq<Note>, sendings: seq<Note>,
                       required: nat -> nat)
    requires EtherDecided(result, pick, more, provided, sendings, required) && FixedByInput(pick, provided, sendings)
    ensures TokensDecide(result, InputPick(provided, sendings), provided, sendings, required)
  {
    var fixed := InputPick(provided, sendings);
    SameChoice(pick, fixed, required, more);
    FilterWithin(IsLeft(provided, sendings), provided, |provided|);
    assert provided[..|provided|] == provided;
    DecidedByTokens(result, fixed, more, provided, sendings, required);
  }
}
