/** The NFT phase of `build` over all contracts, and what it leaves in the lists of the notes being spent. */
module NftPhase {
  import opened Sequences
  import opened NoteSum
  import opened TokenSelection

  /** No note mixes an ERC20 amount with an NFT; the note constructors never make one that does. */
  ghost predicate Unmixed(notes: seq<Note>) {
    forall x :: x in notes ==> x.erc20Amount == 0 || x.nft == 0
  }

  ghost predicate CoveredAt(provided: seq<Note>, sendings: seq<Note>, addr: nat) {
    SameNfts(provided, addr, NftsOf(sendings, addr))
  }

  /** Every contract's NFTs are there, once each. */
  ghost predicate CoversNfts(provided: seq<Note>, sendings: seq<Note>) {
    forall addr :: addr in NftKeys(sendings) ==> CoveredAt(provided, sendings, addr)
  }

  /** The notes with the NFTs sent are being spent. */
  ghost predicate SpendsNfts(provided: seq<Note>, sendings: seq<Note>, spendings: seq<Note>, keys: seq<nat>) {
    forall addr, x :: addr in keys && x in Matching(provided, addr, NftsOf(sendings, addr)) ==> x in spendings
  }

  /** Per contract, the taken notes list the NFTs sent, in ascending order, and nothing for other contracts. */
  ghost predicate ListsAscending(taken: seq<Note>, sendings: seq<Note>, keys: seq<nat>) {
    forall addr :: ListedAt(taken, sendings, keys, addr)
  }

  ghost predicate AwayFrom(notes: seq<Note>, keys: seq<nat>) {
    forall x :: x in notes ==> x.tokenAddr !in keys
  }

  ghost predicate OnlyAt(notes: seq<Note>, keys: seq<nat>) {
    forall x :: x in notes ==> x.tokenAddr in keys
  }

  lemma {:induction false} NftsNonZero(notes: seq<Note>, addr: nat, n: nat)
    requires n <= |notes|
    ensures 0 !in NftsTo(notes, addr, n)
  {
    if n > 0 { NftsNonZero(notes, addr, n - 1); }
  }

  lemma {:induction false} NftsAreNumbers(t: seq<Note>, addr: nat, n: nat)
    requires n <= |t| && forall x :: x in t ==> IsNft(x) && x.tokenAddr == addr
    ensures NftsTo(t, addr, n) == Numbers(t)[..n]
  {
    if n > 0 {
      NftsAreNumbers(t, addr, n - 1);
      assert Numbers(t)[..n] == Numbers(t)[..n - 1] + [t[n - 1].nft];
    }
  }

  lemma MatchingFacts(provided: seq<Note>, addr: nat, wanted: seq<nat>)
    ensures forall x :: x in Matching(provided, addr, wanted) ==>
      x.tokenAddr == addr && x.nft in wanted && x in provided
  {
    FilterMembers(Wanted(addr, wanted), provided, |provided|);
    forall x | x in Matching(provided, addr, wanted)
      ensures x.tokenAddr == addr && x.nft in wanted && x in provided
    {
      assert Wanted(addr, wanted)(x);
    }
  }

  /** The notes taken for one contract list its NFTs in ascending order, and none of another contract. */
  lemma PartListed(provided: seq<Note>, addr: nat, sendings: seq<Note>, t: seq<Note>, other: nat)
    requires Unmixed(provided)
    requires multiset(t) == multiset(Matching(provided, addr, NftsOf(sendings, addr)))
    requires SameNfts(provided, addr, NftsOf(sendings, addr)) && AscendingNumbers(Numbers(t))
    ensures forall x :: x in t ==> x.tokenAddr == addr
    ensures NftsOf(t, other) == if other == addr then Numbers(t) else []
    ensures multiset(Numbers(t)) == multiset(NftsOf(sendings, addr))
  {
    var wanted := NftsOf(sendings, addr);
    MatchingFacts(provided, addr, wanted);
    NftsNonZero(sendings, addr, |sendings|);
    SameMembers(t, Matching(provided, addr, wanted));
    forall x | x in t ensures IsNft(x) && x.tokenAddr == addr {
      assert x in Matching(provided, addr, wanted);
    }
    NumbersPermuted(t, Matching(provided, addr, wanted));
    if other == addr {
      NftsAreNumbers(t, addr, |t|);
      assert Numbers(t)[..|t|] == Numbers(t);
    } else {
      NoNfts(t, other, |t|);
    }
  }

  ghost predicate ListedAt(taken: seq<Note>, sendings: seq<Note>, keys: seq<nat>, addr: nat) {
    if addr in keys
    then AscendingNumbers(NftsOf(taken, addr)) && multiset(NftsOf(taken, addr)) == multiset(NftsOf(sendings, addr))
    else NftsOf(taken, addr) == []
  }

  /** Taking more notes keeps the lists of the contracts those notes are not of, and makes the list of the one they
      are. */
  lemma ListsExtendAt(sendings: seq<Note>, before: seq<nat>, key: nat, taken: seq<Note>, t: seq<Note>, addr: nat)
    requires key !in before && ListedAt(taken, sendings, before, addr)
    requires addr != key ==> NftsOf(t, addr) == []
    requires addr == key ==> AscendingNumbers(NftsOf(t, addr))
    requires addr == key ==> multiset(NftsOf(t, addr)) == multiset(NftsOf(sendings, addr))
    ensures ListedAt(taken + t, sendings, before + [key], addr)
  {
    NftsConcat(taken, t, addr);
    if addr == key {
      assert NftsOf(taken + t, addr) == NftsOf(t, addr);
    } else {
      assert NftsOf(taken + t, addr) == NftsOf(taken, addr);
    }
  }

  lemma ListsExtend(provided: seq<Note>, sendings: seq<Note>, before: seq<nat>, key: nat, taken: seq<Note>,
                    t: seq<Note>)
    requires key !in before && Unmixed(provided) && ListsAscending(taken, sendings, before)
    requires multiset(t) == multiset(Matching(provided, key, NftsOf(sendings, key)))
    requires SameNfts(provided, key, NftsOf(sendings, key)) && AscendingNumbers(Numbers(t))
    ensures ListsAscending(taken + t, sendings, before + [key])
  {
    var both, keys := taken + t, before + [key];
    forall addr: nat ensures ListedAt(both, sendings, keys, addr) {
      PartListed(provided, key, sendings, t, addr);
      assert ListedAt(taken, sendings, before, addr);
      ListsExtendAt(sendings, before, key, taken, t, addr);
    }
  }

  ghost predicate Listed(taken: seq<Note>, sendings: seq<Note>, keys: seq<nat>) {
    ListsAscending(taken, sendings, keys) && OnlyAt(taken, keys)
  }

  lemma ListsNext(provided: seq<Note>, sendings: seq<Note>, keys: seq<nat>, k: nat, taken: seq<Note>, t: seq<Note>)
    requires k < |keys| && Distinct(keys) && Unmixed(provided) && Listed(taken, sendings, keys[..k])
    requires multiset(t) == multiset(Matching(provided, keys[k], NftsOf(sendings, keys[k])))
    requires SameNfts(provided, keys[k], NftsOf(sendings, keys[k])) && AscendingNumbers(Numbers(t))
    ensures Listed(taken + t, sendings, keys[..k + 1])
  {
    assert keys[..k + 1] == keys[..k] + [keys[k]];
    assert keys[k] !in keys[..k];
    PartListed(provided, keys[k], sendings, t, keys[k]);
    ListsExtend(provided, sendings, keys[..k], keys[k], taken, t);
  }

  lemma SpendsExtend(provided: seq<Note>, sendings: seq<Note>, keys: seq<nat>, k: nat, spent: seq<Note>,
                     more: seq<Note>)
    requires k < |keys| && SpendsNfts(provided, sendings, spent, keys[..k])
    requires forall x :: x in Matching(provided, keys[k], NftsOf(sendings, keys[k])) ==> x in spent + more
    ensures SpendsNfts(provided, sendings, spent + more, keys[..k + 1])
  {
    assert keys[..k + 1] == keys[..k] + [keys[k]];
  }

  lemma NextKeyAway(keys: seq<nat>, k: nat, spendings: seq<Note>, taken: seq<Note>)
    requires k < |keys| && Distinct(keys) && AwayFrom(spendings, keys) && OnlyAt(taken, keys[..k])
    ensures forall x :: x in spendings + taken ==> x.tokenAddr != keys[k]
  {
    assert keys[k] !in keys[..k];
  }

  /** Carries an NFT that is sent. */
  function IsSent(sendings: seq<Note>): Note -> bool {
    (n: Note) => n.nft in NftsOf(sendings, n.tokenAddr)
  }

  /** Of the contracts named, the notes with the NFTs sent are taken and no others. */
  ghost predicate SentSplit(sendings: seq<Note>, taken: seq<Note>, rest: seq<Note>, keys: seq<nat>) {
    && (forall x :: x in taken ==> IsSent(sendings)(x))
    && forall y :: y in rest && y.tokenAddr in keys ==> !IsSent(sendings)(y)
  }

  /** A note with an NFT that is sent cannot be left once as many as were there are taken. */
  lemma SentTaken(provided: seq<Note>, sendings: seq<Note>, spendables: seq<Note>, spendings: seq<Note>,
                  more: seq<Note>, key: nat, y: Note)
    requires Piles(spendables, spendings + more, provided)
    requires multiset(more) == multiset(Matching(provided, key, NftsOf(sendings, key)))
    requires y in spendables && y.tokenAddr == key
    ensures !IsSent(sendings)(y)
  {
    var wanted := NftsOf(sendings, key);
    FilterCounts(Wanted(key, wanted), provided, |provided|, y);
    assert provided[..|provided|] == provided;
    assert multiset(spendings + more)[y] == multiset(spendings)[y] + multiset(more)[y];
    assert multiset(spendables)[y] > 0;
  }

  lemma SentNext(provided: seq<Note>, sendings: seq<Note>, before: seq<Note>, spendables: seq<Note>,
                 spendings: seq<Note>, taken: seq<Note>, more: seq<Note>, keys: seq<nat>, key: nat)
    requires SentSplit(sendings, taken, before, keys)
    requires Piles(before, spendings, provided) && Piles(spendables, spendings + more, provided)
    requires multiset(more) == multiset(Matching(provided, key, NftsOf(sendings, key)))
    ensures SentSplit(sendings, taken + more, spendables, keys + [key])
  {
    SameMembers(more, Matching(provided, key, NftsOf(sendings, key)));
    MatchingFacts(provided, key, NftsOf(sendings, key));
    forall y | y in spendables && y.tokenAddr in keys + [key] ensures !IsSent(sendings)(y) {
      if y.tokenAddr == key {
        SentTaken(provided, sendings, spendables, spendings, more, key, y);
      } else {
        StillThere(provided, before, spendings, spendables, more, y);
      }
    }
  }

  /** What one turn of the loop keeps, when no note of the contracts involved was being spent before. */
  ghost predicate RegularTo(sendings: seq<Note>, taken: seq<Note>, rest: seq<Note>, keys: seq<nat>) {
    Listed(taken, sendings, keys) && SentSplit(sendings, taken, rest, keys)
  }

  /** What the loop has reached after k contracts. */
  ghost predicate Reached(provided: seq<Note>, sendings: seq<Note>, spendables0: seq<Note>, spendings: seq<Note>,
                          spendables: seq<Note>, taken: seq<Note>, k: nat, regular: bool) {
    && k <= |NftKeys(sendings)|
    && Piles(spendables, spendings + taken, provided)
    && (forall j :: 0 <= j < k ==> CoveredAt(provided, sendings, NftKeys(sendings)[j]))
    && SpendsNfts(provided, sendings, spendings + taken, NftKeys(sendings)[..k])
    && (regular ==> RegularTo(sendings, taken, spendables, NftKeys(sendings)[..k]))
    && (k == 0 ==> spendables == spendables0 && taken == [])
  }

  lemma NothingTaken(provided: seq<Note>, sendings: seq<Note>, spendables: seq<Note>, spendings: seq<Note>,
                     regular: bool)
    requires Piles(spendables, spendings, provided)
    ensures Reached(provided, sendings, spendables, spendings, spendables, [], 0, regular)
  {
    assert spendings + [] == spendings && NftKeys(sendings)[..0] == [];
    assert ListsAscending([], sendings, []);
  }

  lemma AllTaken(provided: seq<Note>, sendings: seq<Note>, spendables0: seq<Note>, spendings: seq<Note>,
                 spendables: seq<Note>, taken: seq<Note>, regular: bool)
    requires Reached(provided, sendings, spendables0, spendings, spendables, taken, |NftKeys(sendings)|, regular)
    ensures CoversNfts(provided, sendings) && Piles(spendables, spendings + taken, provided)
    ensures SpendsNfts(provided, sendings, spendings + taken, NftKeys(sendings))
    ensures NftKeys(sendings) == [] ==> spendables == spendables0 && taken == []
    ensures regular ==> ListsAscending(taken, sendings, NftKeys(sendings))
    ensures regular ==> SentSplit(sendings, taken, spendables, NftKeys(sendings))
  {
    var keys := NftKeys(sendings);
    assert keys[..|keys|] == keys;
    forall addr | addr in keys ensures CoveredAt(provided, sendings, addr) {
      var j :| 0 <= j < |keys| && keys[j] == addr;
    }
  }

  /** Contract k is the first one whose NFTs are not there, and `check` says in which way. */
  ghost predicate FailsAt(provided: seq<Note>, sendings: seq<Note>, check: NftCheck, k: nat) {
    && k < |NftKeys(sendings)|
    && (forall j :: 0 <= j < k ==> CoveredAt(provided, sendings, NftKeys(sendings)[j]))
    && var wanted := NftsOf(sendings, NftKeys(sendings)[k]);
       && !SameNfts(provided, NftKeys(sendings)[k], wanted)
       && check == if |Matching(provided, NftKeys(sendings)[k], wanted)| != |wanted| then WrongCount else WrongNumber
  }

  lemma NotCovered(provided: seq<Note>, sendings: seq<Note>, check: NftCheck, k: nat)
    requires FailsAt(provided, sendings, check, k)
    ensures !CoversNfts(provided, sendings) && exists j :: FailsAt(provided, sendings, check, j)
  {
    assert !CoveredAt(provided, sendings, NftKeys(sendings)[k]);
  }

  lemma ReachedPiles(provided: seq<Note>, sendings: seq<Note>, spendables0: seq<Note>, spendings: seq<Note>,
                     before: seq<Note>, taken: seq<Note>, k: nat, regular: bool)
    requires k < |NftKeys(sendings)|
    requires Reached(provided, sendings, spendables0, spendings, before, taken, k, regular)
    requires regular ==> AwayFrom(spendings, NftKeys(sendings))
    ensures Piles(before, spendings + taken, provided)
    ensures regular ==> forall x :: x in spendings + taken ==> x.tokenAddr != NftKeys(sendings)[k]
  {
    NftKeysExact(sendings, |sendings|, 0);
    if regular { NextKeyAway(NftKeys(sendings), k, spendings, taken); }
  }

  lemma RegularNext(provided: seq<Note>, sendings: seq<Note>, spendings: seq<Note>, before: seq<Note>,
                    spendables: seq<Note>, taken: seq<Note>, more: seq<Note>, keys: seq<nat>, k: nat)
    requires k < |keys| && Distinct(keys) && Unmixed(provided) && RegularTo(sendings, taken, before, keys[..k])
    requires Piles(before, spendings, provided) && Piles(spendables, spendings + more, provided)
    requires SameNfts(provided, keys[k], NftsOf(sendings, keys[k])) && AscendingNumbers(Numbers(more))
    requires multiset(more) == multiset(Matching(provided, keys[k], NftsOf(sendings, keys[k])))
    ensures RegularTo(sendings, taken + more, spendables, keys[..k + 1])
  {
    ListsNext(provided, sendings, keys, k, taken, more);
    SentNext(provided, sendings, before, spendables, spendings, taken, more, keys[..k], keys[k]);
    assert keys[..k + 1] == keys[..k] + [keys[k]];
  }

  lemma ReachedNext(provided: seq<Note>, sendings: seq<Note>, spendables0: seq<Note>, spendings: seq<Note>,
                    before: seq<Note>, spendables: seq<Note>, taken: seq<Note>, more: seq<Note>, k: nat, regular: bool)
    requires k < |NftKeys(sendings)| && CoveredAt(provided, sendings, NftKeys(sendings)[k])
    requires Reached(provided, sendings, spendables0, spendings, before, taken, k, regular)
    requires Piles(spendables, spendings + taken + more, provided)
    requires var key := NftKeys(sendings)[k];
      && (forall x :: x in Matching(provided, key, NftsOf(sendings, key)) ==> x in spendings + taken + more)
      && (regular ==>
            && Unmixed(provided) && AscendingNumbers(Numbers(more))
            && multiset(more) == multiset(Matching(provided, key, NftsOf(sendings, key))))
    ensures Reached(provided, sendings, spendables0, spendings, spendables, taken + more, k + 1, regular)
  {
    var keys := NftKeys(sendings);
    NftKeysExact(sendings, |sendings|, 0);
    ConcatAssociative(spendings, taken, more);
    if regular { RegularNext(provided, sendings, spendings + taken, before, spendables, taken, more, keys, k); }
    SpendsExtend(provided, sendings, keys, k, spendings + taken, more);
  }

  /** One turn of the loop: contract k. */
  method SelectNext(provided: seq<Note>, sendings: seq<Note>, k: nat, ghost spendables0: seq<Note>,
                    spendings: seq<Note>, before: seq<Note>, taken0: seq<Note>, ghost regular: bool)
    returns (spendables: seq<Note>, taken: seq<Note>, check: NftCheck)
    requires k < |NftKeys(sendings)|
    requires Reached(provided, sendings, spendables0, spendings, before, taken0, k, regular)
    requires regular ==> Unmixed(provided) && AwayFrom(spendings, NftKeys(sendings))
    ensures check.Exact? ==> Reached(provided, sendings, spendables0, spendings, spendables, taken, k + 1, regular)
    ensures !check.Exact? ==> FailsAt(provided, sendings, check, k)
  {
    var key := NftKeys(sendings)[k];
    ReachedPiles(provided, sendings, spendables0, spendings, before, taken0, k, regular);
    var more;
    spendables, more, check := SelectNfts(provided, key, NftsOf(sendings, key), before, spendings + taken0);
    taken := taken0 + more;
    if check.Exact? {
      ReachedNext(provided, sendings, spendables0, spendings, before, spendables, taken0, more, k, regular);
    }
  }

  /** All contracts in turn. It fails exactly when some contract's NFTs are not all there, once each. When no note of
      the contracts involved was being spent before, the notes taken list exactly the NFTs sent, in ascending order. */
  method SelectAllNfts(provided: seq<Note>, sendings: seq<Note>, spendables0: seq<Note>, spendings: seq<Note>)
    returns (spendables: seq<Note>, taken: seq<Note>, check: NftCheck)
    requires Piles(spendables0, spendings, provided)
    ensures check.Exact? <==> CoversNfts(provided, sendings)
    ensures !check.Exact? ==> exists k :: FailsAt(provided, sendings, check, k)
    ensures check.Exact? ==> Piles(spendables, spendings + taken, provided)
    ensures check.Exact? ==> SpendsNfts(provided, sendings, spendings + taken, NftKeys(sendings))
    ensures NftKeys(sendings) == [] ==> spendables == spendables0 && taken == []
    ensures check.Exact? && Unmixed(provided) && AwayFrom(spendings, NftKeys(sendings)) ==>
      && ListsAscending(taken, sendings, NftKeys(sendings))
      && SentSplit(sendings, taken, spendables, NftKeys(sendings))
  {
    var keys := NftKeys(sendings);
    spendables, taken, check := spendables0, [], Exact;
    ghost var regular := Unmixed(provided) && AwayFrom(spendings, keys);
    NothingTaken(provided, sendings, spendables0, spendings, regular);
    for k := 0 to |keys|
      invariant Reached(provided, sendings, spendables0, spendings, spendables, taken, k, regular)
    {
      spendables, taken, check := SelectNext(provided, sendings, k, spendables0, spendings, spendables, taken, regular);
      if !check.Exact? {
        NotCovered(provided, sendings, check, k);
        return;
      }
    }
    AllTaken(provided, sendings, spendables0, spendings, spendables, taken, regular);
    check := Exact;
  }
}
