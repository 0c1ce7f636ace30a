/** Inputs on which the final assertions of `build` in packages/transaction/src/tx-builder.ts fire. */
module TxBuilderExamples {
  import opened Options
  import opened Sequences
  import opened NoteSum
  import opened EtherSelection
  import opened TokenSelection
  import opened NftPhase
  import opened TokenChange
  import opened SpentNotes
  import opened TxBuilderSpec
  import opened TxBuilders

  /** A builder that was given notes to spend and notes to send, at no fee. */
  method BuilderOf(provided: seq<Note>, sendings: seq<Note>, owner: nat) returns (builder: TxBuilder)
    requires forall x :: x in sendings ==> x.outflowType.UTXO?
    ensures fresh(builder) && builder.spendables == provided && builder.sendings == sendings
    ensures builder.feePerByte == 0 && builder.swap == None && builder.changeTo == owner
  {
    builder := new TxBuilder(owner);
    builder.Provide(provided);
    for i := 0 to |sendings|
      invariant builder.spendables == provided && builder.sendings == sendings[..i]
      invariant builder.feePerByte == 0 && builder.swap == None && builder.changeTo == owner && fresh(builder)
    {
      builder.Send(sendings[i], None, None);
      assert sendings[..i + 1] == sendings[..i] + [sendings[i]];
    }
    assert sendings[..|sendings|] == sendings;
  }

  /** One ERC20 note that carries ether, nothing sent and nothing to pay: the note is taken for the positive ether the
      loop asks for, its tokens come in and never go out. */
  method Erc20WithEtherFails(note: Note) returns (result: BuildResult)
    requires IsErc20(note) && note.eth > 0
    ensures result == Erc20Mismatch
  {
    var builder := BuilderOf([note], [], note.id);
    NothingSent(note);
    ghost var pick, more;
    result, pick, more := builder.Build();
    OneNoteNeeded(note, Required(0, [], 0, None));
  }

  lemma NothingSent(note: Note)
    ensures Covers([note], []) && OnlyEther([])
  {
    forall addr: nat ensures Erc20Of([], addr) <= Erc20Of([note], addr) {}
  }

  lemma OneNoteNeeded(note: Note, required: nat -> nat)
    requires IsErc20(note) && note.eth > 0 && required(0) == 0 && required(1) == 0
    ensures ClearlyNeeded(IsErc20, TokenPick([note], [], []), required)
  {
    SumOne(EthValue(), note);
    assert Affords([], [note], required, [note]);
    forall chosen: seq<Note> | |chosen| < 1 ensures !Affords([], [note], required, chosen) { assert chosen == []; }
    assert LeastNumber([], [note], required, 1);
    SumOne(NoLessThan(note.eth), note);
    assert note in [note] && ClearlyOnTop(IsErc20, [note], 1);
  }

  /** Two notes of one token carry ether; as much of the token is sent as the smaller one is worth, and more ether
      than it carries. The smaller note is spent for the token, the larger one for its ether, and the assertion fires.
      */
  method LargerNoteFails(a: Note, b: Note, x: Note) returns (result: BuildResult)
    requires IsErc20(a) && IsErc20(b) && IsErc20(x) && a.tokenAddr == b.tokenAddr == x.tokenAddr
    requires x.erc20Amount == a.erc20Amount < b.erc20Amount && a.eth <= x.eth < a.eth + b.eth && x.outflowType.UTXO?
    ensures result == Erc20Mismatch
  {
    var builder := BuilderOf([a, b], [x], a.id);
    LargerNoteCovered(a, b, x);
    LargerNoteLeft(a, b, x);
    ghost var pick, more;
    result, pick, more := builder.Build();
    LargerNoteNeeded(a, b, x, Required(0, [x], ChangeCount([a, b], [x]), None));
  }

  lemma SumTwo(f: Note -> nat, a: Note, b: Note)
    ensures Sum(f, [a, b]) == f(a) + f(b)
  {
    SumOne(f, a);
    SumSnoc(f, [a], b);
    assert [a] + [b] == [a, b];
  }

  lemma LargerNoteCovered(a: Note, b: Note, x: Note)
    requires IsErc20(a) && IsErc20(b) && IsErc20(x) && a.tokenAddr == b.tokenAddr == x.tokenAddr
    requires x.erc20Amount == a.erc20Amount < b.erc20Amount
    ensures Covers([a, b], [x]) && Regular([a, b], [x]) && DistinctAmounts([a, b])
  {
    forall addr: nat ensures Erc20Of([x], addr) <= Erc20Of([a, b], addr) {
      SumOne(Erc20Value(addr), x);
      SumTwo(Erc20Value(addr), a, b);
    }
    assert NftKeysTo([x], 1) == NftKeysTo([x], 0);
  }

  lemma LargerNoteLeft(a: Note, b: Note, x: Note)
    requires IsErc20(a) && IsErc20(b) && IsErc20(x) && a.tokenAddr == b.tokenAddr == x.tokenAddr
    requires x.erc20Amount == a.erc20Amount < b.erc20Amount
    ensures Spent([a, b], [x]) == [a] && Left([a, b], [x]) == [b]
  {
    var provided, addr := [a, b], a.tokenAddr;
    SumOne(Erc20Value(addr), x);
    SumTwo(SmallerErc20(addr, a.erc20Amount), a, b);
    SumTwo(SmallerErc20(addr, b.erc20Amount), a, b);
    NoNfts([x], addr, 1);
    assert NftsOf([x], addr) == [];
    assert Erc20Of([x], addr) == x.erc20Amount;
    assert Sum(SmallerErc20(a.tokenAddr, a.erc20Amount), provided) == 0;
    assert Sum(SmallerErc20(b.tokenAddr, b.erc20Amount), provided) == a.erc20Amount;
    assert IsSpent(provided, [x])(a);
    assert !IsSent([x])(b);
    assert !IsSpent(provided, [x])(b);
    FilterOneOfTwo(IsSpent(provided, [x]), a, b);
    FilterOneOfTwo(IsLeft(provided, [x]), a, b);
  }

  lemma FilterOneOfTwo(keep: Note -> bool, a: Note, b: Note)
    requires keep(a) != keep(b)
    ensures Filter(keep, [a, b]) == if keep(a) then [a] else [b]
  {
    assert FilterTo(keep, [a, b], 1) == FilterTo(keep, [a, b], 0) + (if keep(a) then [a] else []);
    assert FilterTo(keep, [a, b], 2) == FilterTo(keep, [a, b], 1) + (if keep(b) then [b] else []);
  }

  lemma LargerNoteNeeded(a: Note, b: Note, x: Note, required: nat -> nat)
    requires IsErc20(b) && a.eth <= x.eth < a.eth + b.eth && x.outflowType.UTXO?
    requires exists changes :: required == Required(0, [x], changes, None)
    ensures ClearlyNeeded(IsErc20, TokenPick([b], [a], []), required)
  {
    SumOne(EthValue(), a);
    SumOne(EthValue(), b);
    SumOne(EthValue(), x);
    SumOne(L1FeeValue(), x);
    assert required(1) == required(2) == x.eth;
    assert Affords([a], [b], required, [b]);
    forall chosen: seq<Note> | |chosen| < 1 ensures !Affords([a], [b], required, chosen) { assert chosen == []; }
    assert LeastNumber([a], [b], required, 1);
    SumOne(NoLessThan(b.eth), b);
    assert b in [b] && ClearlyOnTop(IsErc20, [b], 1);
  }

  /** Two NFTs of one contract, sent the higher number first, with more than enough of everything: the notes spent list
      them the other way round, the list of what comes in is not the list of what goes out, and the assertion fires. */
  method DescendingNftsFail(coin: Note, low: Note, high: Note) returns (result: BuildResult)
    requires coin.eth > 0 && coin.erc20Amount == 0 && coin.nft == 0
    requires IsNft(low) && IsNft(high) && low.nft < high.nft && low.tokenAddr == high.tokenAddr
    requires low.eth == 0 && high.eth == 0 && low.outflowType.UTXO? && high.outflowType.UTXO?
    ensures result == NftMismatch
  {
    var builder := BuilderOf([coin, low, high], [high, low], coin.id);
    DescendingNftsGiven(builder.spendables, builder.sendings, coin, low, high);
    ghost var pick, more;
    result, pick, more := builder.Build();
    FreeIsFeasible(pick, builder.spendables, builder.sendings, builder.swap, coin.id);
    OutOfOrderFails(result, pick, more, builder.spendables, builder.sendings, coin.id, builder.RequiredFor(pick));
  }

  lemma OutOfOrderFails(result: BuildResult, pick: TokenPick, more: seq<Note>, provided: seq<Note>, sendings: seq<Note>,
                        owner: nat, required: nat -> nat)
    requires Covers(provided, sendings) && Decided(result, pick, more, provided, sendings, owner, required)
    requires TokensDecide(result, pick, provided, sendings, required) && !NftsInOrder(sendings)
    requires Regular(provided, sendings) && TokensCarryNoEther(provided)
    requires Feasible(pick.spendings, pick.spendables, required)
    ensures result == NftMismatch
  {
    SpendablesProvided(pick, provided, sendings, owner);
    NoTokenNeeded(IsErc20, pick, required, provided);
  }

  /** Everything is there, and only the order is wrong. */
  lemma DescendingNftsGiven(provided: seq<Note>, sendings: seq<Note>, coin: Note, low: Note, high: Note)
    requires provided == [coin, low, high] && sendings == [high, low]
    requires coin.eth > 0 && coin.erc20Amount == 0 && coin.nft == 0
    requires IsNft(low) && IsNft(high) && low.nft < high.nft && low.tokenAddr == high.tokenAddr
    requires low.eth == 0 && high.eth == 0 && low.outflowType.UTXO? && high.outflowType.UTXO?
    ensures Covers(provided, sendings) && !NftsInOrder(sendings)
    ensures Regular(provided, sendings) && TokensCarryNoEther(provided)
    ensures EthOf(provided) > EthOf(sendings) + L1FeeOf(sendings)
  {
    DescendingNftsCovered(coin, low, high);
    CoinPays(coin, low, high);
  }

  lemma CoinPays(coin: Note, low: Note, high: Note)
    requires coin.eth > 0 && coin.erc20Amount == 0 && coin.nft == 0
    requires IsNft(low) && IsNft(high) && low.eth == 0 && high.eth == 0
    requires low.outflowType.UTXO? && high.outflowType.UTXO?
    ensures EthOf([coin, low, high]) > EthOf([high, low]) + L1FeeOf([high, low])
    ensures CoversErc20([coin, low, high], [high, low])
    ensures Regular([coin, low, high], [high, low]) && TokensCarryNoEther([coin, low, high])
  {
    var provided, sendings := [coin, low, high], [high, low];
    SumZero(EthValue(), sendings, 2);
    SumZero(L1FeeValue(), sendings, 2);
    SumMember(EthValue(), provided, 3, 0);
    assert provided[0] == coin;
    forall a: nat ensures Erc20Of(sendings, a) <= Erc20Of(provided, a) { SumZero(Erc20Value(a), sendings, 2); }
  }

  lemma DescendingNftsCovered(coin: Note, low: Note, high: Note)
    requires coin.erc20Amount == 0 && coin.nft == 0
    requires IsNft(low) && IsNft(high) && low.nft < high.nft && low.tokenAddr == high.tokenAddr
    ensures CoversNfts([coin, low, high], [high, low]) && !NftsInOrder([high, low])
  {
    var addr, wanted := low.tokenAddr, [high.nft, low.nft];
    NftsOfTwo(high, low);
    assert wanted[0] > wanted[1];
    FilterLastTwo(Wanted(addr, wanted), coin, low, high);
    assert Numbers(Matching([coin, low, high], addr, wanted)) == [low.nft, high.nft];
    assert multiset([low.nft, high.nft]) == multiset(wanted);
    OneContract([coin, low, high], [high, low], addr);
  }

  lemma OneContract(provided: seq<Note>, sendings: seq<Note>, addr: nat)
    requires CoveredAt(provided, sendings, addr) && forall x :: x in sendings ==> x.tokenAddr == addr
    ensures CoversNfts(provided, sendings)
  {
    forall a | a in NftKeys(sendings) ensures CoveredAt(provided, sendings, a) {
      NftKeysExact(sendings, |sendings|, a);
      var i := ListedNft(sendings, a, |sendings|, NftsOf(sendings, a)[0]);
    }
  }

  /** When inputs cost nothing, spending everything left is a choice that does. */
  lemma FreeIsFeasible(pick: TokenPick, provided: seq<Note>, sendings: seq<Note>, swap: Option<nat>, owner: nat)
    requires TokensPicked(pick, provided, sendings, owner)
    requires EthOf(provided) > EthOf(sendings) + L1FeeOf(sendings)
    ensures Feasible(pick.spendings, pick.spendables, Required(0, sendings, |pick.changes|, swap))
  {
    SumSplit(EthValue(), pick.spendables, pick.spendings, provided);
    assert Affords(pick.spendings, pick.spendables, Required(0, sendings, |pick.changes|, swap), pick.spendables);
  }

  lemma NftsOfTwo(a: Note, b: Note)
    requires IsNft(a) && IsNft(b) && a.tokenAddr == b.tokenAddr
    ensures NftsOf([a, b], a.tokenAddr) == [a.nft, b.nft]
  {
    NftsOfOne(a);
    NftsOfOne(b);
    NftsConcat([a], [b], a.tokenAddr);
    assert [a] + [b] == [a, b];
  }

  lemma FilterLastTwo(keep: Note -> bool, a: Note, b: Note, c: Note)
    requires !keep(a) && keep(b) && keep(c)
    ensures Filter(keep, [a, b, c]) == [b, c]
  {
    assert FilterTo(keep, [a, b, c], 1) == FilterTo(keep, [a, b, c], 0) + [];
    assert FilterTo(keep, [a, b, c], 2) == FilterTo(keep, [a, b, c], 1) + [b];
    assert FilterTo(keep, [a, b, c], 3) == FilterTo(keep, [a, b, c], 2) + [c];
  }
}
