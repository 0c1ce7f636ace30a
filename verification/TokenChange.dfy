/** The change `build` gives back for the tokens it spends. */
module TokenChange {
  import opened Sequences
  import opened NoteSum
  import opened TokenSelection
  import opened NftPhase

  /** A note without ether that goes back to the owner on the second layer. */
  predicate IsTokenChange(x: Note, owner: nat) {
    x.id == owner && x.eth == 0 && x.outflowType.UTXO?
  }

  ghost predicate TokenChanges(changes: seq<Note>, owner: nat) {
    forall x :: x in changes ==> IsTokenChange(x, owner)
  }

  // ----- ERC20

  ghost predicate ReturnedAt(changes: seq<Note>, spendings: seq<Note>, sendings: seq<Note>, keys: seq<nat>, addr: nat) {
    Erc20Of(changes, addr) == if addr in keys then Erc20Of(spendings, addr) - Erc20Of(sendings, addr) else 0
  }

  /** What is spent beyond what is sent. */
  ghost predicate ReturnsErc20(changes: seq<Note>, spendings: seq<Note>, sendings: seq<Note>) {
    forall addr :: Erc20Of(changes, addr) + Erc20Of(sendings, addr) == Erc20Of(spendings, addr)
  }

  lemma ReturnNext(changes: seq<Note>, spendings: seq<Note>, sendings: seq<Note>, before: seq<nat>, key: nat,
                   more: seq<Note>, addr: nat)
    requires key !in before && ReturnedAt(changes, spendings, sendings, before, addr)
    requires more == [] || (|more| == 1 && IsErc20(more[0]) && more[0].tokenAddr == key)
    requires Erc20Of(spendings, key) - Erc20Of(sendings, key) == if more == [] then 0 else more[0].erc20Amount
    ensures ReturnedAt(changes + more, spendings, sendings, before + [key], addr)
  {
    if more == [] {
      assert changes + more == changes;
    } else {
      SumSnoc(Erc20Value(addr), changes, more[0]);
      assert more == [more[0]];
    }
  }

  /** The tokens of which more is spent than sent. */
  ghost function Surplus(spendings: seq<Note>, sendings: seq<Note>): set<nat> {
    set x | x in spendings && Erc20Of(spendings, x.tokenAddr) > Erc20Of(sendings, x.tokenAddr) :: x.tokenAddr
  }

  ghost function SurplusIn(spendings: seq<Note>, sendings: seq<Note>, keys: seq<nat>): set<nat> {
    set addr | addr in keys && Erc20Of(spendings, addr) > Erc20Of(sendings, addr)
  }

  lemma SurplusNext(spendings: seq<Note>, sendings: seq<Note>, before: seq<nat>, key: nat)
    requires key !in before
    ensures |SurplusIn(spendings, sendings, before + [key])|
         == |SurplusIn(spendings, sendings, before)|
            + (if Erc20Of(spendings, key) > Erc20Of(sendings, key) then 1 else 0)
  {
    var old', more := SurplusIn(spendings, sendings, before), SurplusIn(spendings, sendings, before + [key]);
    assert more == if Erc20Of(spendings, key) > Erc20Of(sendings, key) then old' + {key} else old';
  }

  lemma AllSurplus(spendings: seq<Note>, sendings: seq<Note>)
    ensures SurplusIn(spendings, sendings, Erc20Keys(spendings)) == Surplus(spendings, sendings)
  {
    forall addr: nat
      ensures addr in SurplusIn(spendings, sendings, Erc20Keys(spendings)) <==> addr in Surplus(spendings, sendings)
    {
      Erc20KeysExact(spendings, |spendings|, addr);
      if addr in Erc20Keys(spendings) {
        var i := Erc20KeyNote(spendings, |spendings|, addr);
        assert spendings[i] in spendings;
      }
    }
  }

  /** The subtraction of the source cannot go below zero here, and the change is exactly the surplus of every token. */
  method Erc20Changes(spendings: seq<Note>, sendings: seq<Note>, owner: nat) returns (changes: seq<Note>)
    requires CoversErc20(spendings, sendings)
    ensures ReturnsErc20(changes, spendings, sendings)
    ensures TokenChanges(changes, owner) && forall x :: x in changes ==> IsErc20(x)
    ensures |changes| == |Surplus(spendings, sendings)|
  {
    var keys := Erc20Keys(spendings);
    AllSurplus(spendings, sendings);
    Erc20KeysExact(spendings, |spendings|, 0);
    changes := [];
    for k := 0 to |keys|
      invariant TokenChanges(changes, owner) && forall x :: x in changes ==> IsErc20(x)
      invariant forall addr :: ReturnedAt(changes, spendings, sendings, keys[..k], addr)
      invariant |changes| == |SurplusIn(spendings, sendings, keys[..k])|
    {
      var key := keys[k];
      var change := Erc20Of(spendings, key) - Erc20Of(sendings, key);
      var more := if change != 0 then [Note(owner, 0, key, change, 0, UTXO, 0, 0)] else [];
      ghost var before, both, upTo := keys[..k], changes + more, keys[..k + 1];
      assert upTo == before + [key];
      SurplusNext(spendings, sendings, before, key);
      forall addr: nat ensures ReturnedAt(both, spendings, sendings, upTo, addr) {
        ReturnNext(changes, spendings, sendings, before, key, more, addr);
      }
      changes := changes + more;
    }
    assert keys[..|keys|] == keys;
    forall addr: nat ensures Erc20Of(changes, addr) + Erc20Of(sendings, addr) == Erc20Of(spendings, addr) {
      assert ReturnedAt(changes, spendings, sendings, keys, addr);
      Erc20KeysExact(spendings, |spendings|, addr);
    }
  }

  // ----- NFTs

  /** The numbers of `have` that are not sent. */
  function ExtraTo(have: seq<nat>, sent: seq<nat>, n: nat): seq<nat>
    requires n <= |have|
  {
    if n == 0 then [] else ExtraTo(have, sent, n - 1) + (if have[n - 1] !in sent then [have[n - 1]] else [])
  }

  function Extra(have: seq<nat>, sent: seq<nat>): seq<nat> { ExtraTo(have, sent, |have|) }

  lemma {:induction false} NothingExtra(have: seq<nat>, sent: seq<nat>, n: nat)
    requires n <= |have| && forall x :: x in have ==> x in sent
    ensures ExtraTo(have, sent, n) == []
  {
    if n > 0 { NothingExtra(have, sent, n - 1); }
  }

  method ExtraNotes(addr: nat, have: seq<nat>, sent: seq<nat>, owner: nat) returns (notes: seq<Note>)
    requires 0 !in have
    ensures NftsOf(notes, addr) == Extra(have, sent)
    ensures TokenChanges(notes, owner) && forall x :: x in notes ==> IsNft(x) && x.tokenAddr == addr
  {
    notes := [];
    for i := 0 to |have|
      invariant NftsOf(notes, addr) == ExtraTo(have, sent, i)
      invariant TokenChanges(notes, owner) && forall x :: x in notes ==> IsNft(x) && x.tokenAddr == addr
    {
      if have[i] !in sent {
        var note := Note(owner, 0, addr, 0, have[i], UTXO, 0, 0);
        NftsConcat(notes, [note], addr);
        NftsOfOne(note);
        notes := notes + [note];
      }
    }
  }

  lemma NftsOfOne(note: Note)
    requires IsNft(note)
    ensures NftsOf([note], note.tokenAddr) == [note.nft]
  {
    assert NftsTo([note], note.tokenAddr, 1) == NftsTo([note], note.tokenAddr, 0) + [note.nft];
  }

  ghost predicate GivenBackAt(changes: seq<Note>, spendings: seq<Note>, sendings: seq<Note>, keys: seq<nat>,
                              addr: nat) {
    NftsOf(changes, addr) == if addr in keys then Extra(NftsOf(spendings, addr), NftsOf(sendings, addr)) else []
  }

  /** The NFTs spent and not sent, in the order they are spent. */
  ghost predicate ReturnsNfts(changes: seq<Note>, spendings: seq<Note>, sendings: seq<Note>) {
    forall addr :: NftsOf(changes, addr) == Extra(NftsOf(spendings, addr), NftsOf(sendings, addr))
  }

  lemma GiveBackNext(changes: seq<Note>, spendings: seq<Note>, sendings: seq<Note>, before: seq<nat>, key: nat,
                     more: seq<Note>, addr: nat)
    requires key !in before && GivenBackAt(changes, spendings, sendings, before, addr)
    requires forall x :: x in more ==> x.tokenAddr == key
    requires NftsOf(more, key) == Extra(NftsOf(spendings, key), NftsOf(sendings, key))
    ensures GivenBackAt(changes + more, spendings, sendings, before + [key], addr)
  {
    NftsConcat(changes, more, addr);
    if addr != key { NoNfts(more, addr, |more|); }
  }

  ghost predicate GivenBack(changes: seq<Note>, spendings: seq<Note>, sendings: seq<Note>, keys: seq<nat>) {
    forall addr :: GivenBackAt(changes, spendings, sendings, keys, addr)
  }

  lemma GiveBackStep(changes: seq<Note>, spendings: seq<Note>, sendings: seq<Note>, keys: seq<nat>, k: nat,
                     more: seq<Note>)
    requires k < |keys| && Distinct(keys) && GivenBack(changes, spendings, sendings, keys[..k])
    requires forall x :: x in more ==> x.tokenAddr == keys[k]
    requires NftsOf(more, keys[k]) == Extra(NftsOf(spendings, keys[k]), NftsOf(sendings, keys[k]))
    ensures GivenBack(changes + more, spendings, sendings, keys[..k + 1])
  {
    var before, both, upTo := keys[..k], changes + more, keys[..k + 1];
    assert upTo == before + [keys[k]];
    forall addr: nat ensures GivenBackAt(both, spendings, sendings, upTo, addr) {
      assert GivenBackAt(changes, spendings, sendings, before, addr);
      GiveBackNext(changes, spendings, sendings, before, keys[k], more, addr);
    }
  }

  method NftChanges(spendings: seq<Note>, sendings: seq<Note>, owner: nat) returns (changes: seq<Note>)
    ensures ReturnsNfts(changes, spendings, sendings)
    ensures TokenChanges(changes, owner) && forall x :: x in changes ==> IsNft(x)
  {
    var keys := NftKeys(spendings);
    NftKeysExact(spendings, |spendings|, 0);
    changes := [];
    for k := 0 to |keys|
      invariant TokenChanges(changes, owner) && forall x :: x in changes ==> IsNft(x)
      invariant GivenBack(changes, spendings, sendings, keys[..k])
    {
      var key := keys[k];
      NftsNonZero(spendings, key, |spendings|);
      var more := ExtraNotes(key, NftsOf(spendings, key), NftsOf(sendings, key), owner);
      GiveBackStep(changes, spendings, sendings, keys, k, more);
      changes := changes + more;
    }
    assert keys[..|keys|] == keys;
    forall addr: nat ensures NftsOf(changes, addr) == Extra(NftsOf(spendings, addr), NftsOf(sendings, addr)) {
      assert GivenBackAt(changes, spendings, sendings, keys, addr);
      NftKeysExact(spendings, |spendings|, addr);
    }
  }
}
