/** packages/transaction/src/note-sum.ts: the assets of a list of notes. */
module NoteSum {
  import opened Sequences

  datatype OutflowType = UTXO | WITHDRAWAL | MIGRATION

  /** A note; `id` stands for owner and salt, `to` and `fee` are the public data of a withdrawal or migration: the
      recipient on the first layer and the fee paid there. */
  datatype Note = Note(
    id: nat, eth: nat, tokenAddr: nat, erc20Amount: nat, nft: nat, outflowType: OutflowType, to: nat, fee: nat)

  predicate IsErc20(n: Note) { n.erc20Amount != 0 && n.nft == 0 }

  predicate IsNft(n: Note) { n.erc20Amount == 0 && n.nft != 0 }

  // ----- sums

  function SumTo(f: Note -> nat, notes: seq<Note>, n: nat): nat
    requires n <= |notes|
  {
    if n == 0 then 0 else SumTo(f, notes, n - 1) + f(notes[n - 1])
  }

  function Sum(f: Note -> nat, notes: seq<Note>): nat {
    SumTo(f, notes, |notes|)
  }

  function EthValue(): Note -> nat { (n: Note) => n.eth }

  function Erc20Value(addr: nat): Note -> nat {
    (n: Note) => if IsErc20(n) && n.tokenAddr == addr then n.erc20Amount else 0
  }

  /** Counts the notes that carry one particular NFT. */
  function NftCount(addr: nat, nft: nat): Note -> nat {
    (n: Note) => if IsNft(n) && n.tokenAddr == addr && n.nft == nft then 1 else 0
  }

  function EthOf(notes: seq<Note>): nat { Sum(EthValue(), notes) }

  function Erc20Of(notes: seq<Note>, addr: nat): nat { Sum(Erc20Value(addr), notes) }

  lemma {:induction false} SumPrefix(f: Note -> nat, a: seq<Note>, b: seq<Note>, n: nat)
    requires n <= |a|
    ensures SumTo(f, a + b, n) == SumTo(f, a, n)
  {
    if n > 0 { SumPrefix(f, a, b, n - 1); }
  }

  lemma {:induction false} SumSuffix(f: Note -> nat, a: seq<Note>, b: seq<Note>, n: nat)
    requires n <= |b|
    ensures SumTo(f, a + b, |a| + n) == Sum(f, a) + SumTo(f, b, n)
  {
    if n == 0 { SumPrefix(f, a, b, |a|); } else { SumSuffix(f, a, b, n - 1); }
  }

  lemma SumConcat(f: Note -> nat, a: seq<Note>, b: seq<Note>)
    ensures Sum(f, a + b) == Sum(f, a) + Sum(f, b)
  {
    SumSuffix(f, a, b, |b|);
  }

  lemma SumOne(f: Note -> nat, x: Note)
    ensures Sum(f, [x]) == f(x)
  {
    assert SumTo(f, [x], 1) == SumTo(f, [x], 0) + f(x);
  }

  lemma SumSnoc(f: Note -> nat, a: seq<Note>, x: Note)
    ensures Sum(f, a + [x]) == Sum(f, a) + f(x)
  {
    SumConcat(f, a, [x]);
    SumOne(f, x);
  }

  /** A sum over notes none of which counts. */
  lemma {:induction false} SumZero(f: Note -> nat, notes: seq<Note>, n: nat)
    requires n <= |notes| && forall x :: x in notes ==> f(x) == 0
    ensures SumTo(f, notes, n) == 0
  {
    if n > 0 { SumZero(f, notes, n - 1); }
  }

  lemma {:induction false} SumMember(f: Note -> nat, notes: seq<Note>, n: nat, i: nat)
    requires i < n <= |notes|
    ensures SumTo(f, notes, n) >= f(notes[i])
  {
    if i < n - 1 { SumMember(f, notes, n - 1, i); }
  }

  // ----- taking one note out

  lemma DeleteSum(f: Note -> nat, s: seq<Note>, k: nat)
    requires k < |s|
    ensures Sum(f, s) == Sum(f, Delete(s, k)) + f(s[k])
  {
    assert s == (s[..k] + [s[k]]) + s[k + 1..];
    SumConcat(f, s[..k] + [s[k]], s[k + 1..]);
    SumSnoc(f, s[..k], s[k]);
    SumConcat(f, s[..k], s[k + 1..]);
  }

  lemma CancelOne(a: multiset<Note>, b: multiset<Note>, x: Note)
    requires a + multiset{x} <= b + multiset{x}
    ensures a <= b
  {
    forall y ensures a[y] <= b[y] {
      assert (a + multiset{x})[y] <= (b + multiset{x})[y];
    }
  }

  /** Fewer notes, a smaller sum; the same notes in any order, the same sum. */
  lemma {:induction false} SumWithin(f: Note -> nat, a: seq<Note>, b: seq<Note>)
    requires multiset(a) <= multiset(b)
    ensures Sum(f, a) <= Sum(f, b)
    decreases |a|
  {
    if a != [] {
      var x := a[0];
      assert x in multiset(a) && x in multiset(b);
      var k :| 0 <= k < |b| && b[k] == x;
      DeleteCounts(a, 0);
      DeleteCounts(b, k);
      CancelOne(multiset(Delete(a, 0)), multiset(Delete(b, k)), x);
      SumWithin(f, Delete(a, 0), Delete(b, k));
      DeleteSum(f, a, 0);
      DeleteSum(f, b, k);
    }
  }

  lemma SumPermuted(f: Note -> nat, a: seq<Note>, b: seq<Note>)
    requires multiset(a) == multiset(b)
    ensures Sum(f, a) == Sum(f, b)
  {
    SumWithin(f, a, b);
    SumWithin(f, b, a);
  }

  /** Conservation across two piles. */
  lemma SumSplit(f: Note -> nat, a: seq<Note>, b: seq<Note>, whole: seq<Note>)
    requires multiset(a) + multiset(b) == multiset(whole)
    ensures Sum(f, a) + Sum(f, b) == Sum(f, whole)
  {
    assert multiset(a + b) == multiset(a) + multiset(b);
    SumPermuted(f, a + b, whole);
    SumConcat(f, a, b);
  }

  // ----- NFTs and the dictionaries of a sum

  function NftsTo(notes: seq<Note>, addr: nat, n: nat): seq<nat>
    requires n <= |notes|
  {
    if n == 0 then []
    else NftsTo(notes, addr, n - 1) +
         (if IsNft(notes[n - 1]) && notes[n - 1].tokenAddr == addr then [notes[n - 1].nft] else [])
  }

  function NftsOf(notes: seq<Note>, addr: nat): seq<nat> { NftsTo(notes, addr, |notes|) }

  lemma CountSnoc(s: seq<nat>, x: nat, y: nat)
    ensures multiset(s + [x])[y] == multiset(s)[y] + (if x == y then 1 else 0)
    ensures s + [] == s
  {}

  lemma NextCounted(notes: seq<Note>, addr: nat, n: nat, nft: nat)
    requires 0 < n <= |notes|
    ensures multiset(NftsTo(notes, addr, n))[nft]
         == multiset(NftsTo(notes, addr, n - 1))[nft] + NftCount(addr, nft)(notes[n - 1])
  {
    CountSnoc(NftsTo(notes, addr, n - 1), notes[n - 1].nft, nft);
  }

  /** How often an NFT is listed is how many notes carry it. */
  lemma {:induction false} NftsCounted(notes: seq<Note>, addr: nat, n: nat, nft: nat)
    requires n <= |notes|
    ensures multiset(NftsTo(notes, addr, n))[nft] == SumTo(NftCount(addr, nft), notes, n)
  {
    if n > 0 {
      NftsCounted(notes, addr, n - 1, nft);
      NextCounted(notes, addr, n, nft);
    }
  }

  lemma {:induction false} NftsPrefix(a: seq<Note>, b: seq<Note>, addr: nat, n: nat)
    requires n <= |a|
    ensures NftsTo(a + b, addr, n) == NftsTo(a, addr, n)
  {
    if n > 0 { NftsPrefix(a, b, addr, n - 1); }
  }

  lemma {:induction false} NftsSuffix(a: seq<Note>, b: seq<Note>, addr: nat, n: nat)
    requires n <= |b|
    ensures NftsTo(a + b, addr, |a| + n) == NftsOf(a, addr) + NftsTo(b, addr, n)
  {
    if n == 0 { NftsPrefix(a, b, addr, |a|); } else { NftsSuffix(a, b, addr, n - 1); }
  }

  lemma NftsConcat(a: seq<Note>, b: seq<Note>, addr: nat)
    ensures NftsOf(a + b, addr) == NftsOf(a, addr) + NftsOf(b, addr)
  {
    NftsSuffix(a, b, addr, |b|);
  }

  lemma {:induction false} NoNfts(notes: seq<Note>, addr: nat, n: nat)
    requires n <= |notes|
    requires forall x :: x in notes ==> !(IsNft(x) && x.tokenAddr == addr)
    ensures NftsTo(notes, addr, n) == []
  {
    if n > 0 { NoNfts(notes, addr, n - 1); }
  }

  lemma {:induction false} NftListed(notes: seq<Note>, addr: nat, n: nat, i: nat)
    requires i < n <= |notes| && IsNft(notes[i]) && notes[i].tokenAddr == addr
    ensures notes[i].nft in NftsTo(notes, addr, n)
  {
    if i < n - 1 { NftListed(notes, addr, n - 1, i); }
  }

  lemma {:induction false} ListedNft(notes: seq<Note>, addr: nat, n: nat, nft: nat) returns (i: nat)
    requires n <= |notes| && nft in NftsTo(notes, addr, n)
    ensures i < n && IsNft(notes[i]) && notes[i].tokenAddr == addr && notes[i].nft == nft
  {
    if IsNft(notes[n - 1]) && notes[n - 1].tokenAddr == addr && notes[n - 1].nft == nft {
      i := n - 1;
    } else {
      i := ListedNft(notes, addr, n - 1, nft);
    }
  }

  /** The addresses with an entry in the ERC20 dictionary, in the order their entries were made. */
  function Erc20KeysTo(notes: seq<Note>, n: nat): seq<nat>
    requires n <= |notes|
  {
    if n == 0 then []
    else
      var before := Erc20KeysTo(notes, n - 1);
      if IsErc20(notes[n - 1]) && notes[n - 1].tokenAddr !in before then before + [notes[n - 1].tokenAddr] else before
  }

  function Erc20Keys(notes: seq<Note>): seq<nat> { Erc20KeysTo(notes, |notes|) }

  function NftKeysTo(notes: seq<Note>, n: nat): seq<nat>
    requires n <= |notes|
  {
    if n == 0 then []
    else
      var before := NftKeysTo(notes, n - 1);
      if IsNft(notes[n - 1]) && notes[n - 1].tokenAddr !in before then before + [notes[n - 1].tokenAddr] else before
  }

  function NftKeys(notes: seq<Note>): seq<nat> { NftKeysTo(notes, |notes|) }

  /** An address has an ERC20 entry exactly when its total is not zero. */
  lemma {:induction false} Erc20KeysExact(notes: seq<Note>, n: nat, addr: nat)
    requires n <= |notes|
    ensures Distinct(Erc20KeysTo(notes, n))
    ensures addr in Erc20KeysTo(notes, n) <==> SumTo(Erc20Value(addr), notes, n) > 0
  {
    if n > 0 { Erc20KeysExact(notes, n - 1, addr); }
  }

  lemma {:induction false} Erc20KeyNote(notes: seq<Note>, n: nat, addr: nat) returns (i: nat)
    requires n <= |notes| && addr in Erc20KeysTo(notes, n)
    ensures i < n && IsErc20(notes[i]) && notes[i].tokenAddr == addr
  {
    if IsErc20(notes[n - 1]) && notes[n - 1].tokenAddr == addr {
      i := n - 1;
    } else {
      i := Erc20KeyNote(notes, n - 1, addr);
    }
  }

  /** An address has an NFT entry exactly when some NFT is listed. */
  lemma {:induction false} NftKeysExact(notes: seq<Note>, n: nat, addr: nat)
    requires n <= |notes|
    ensures Distinct(NftKeysTo(notes, n))
    ensures addr in NftKeysTo(notes, n) <==> NftsTo(notes, addr, n) != []
  {
    if n > 0 { NftKeysExact(notes, n - 1, addr); }
  }

  /** What a single note counts for: its ether always, its amount only without an NFT, its NFT only without one. */
  lemma NoteCounts(note: Note, addr: nat)
    ensures EthOf([note]) == note.eth
    ensures Erc20Of([note], addr) == if note.nft == 0 && note.tokenAddr == addr then note.erc20Amount else 0
    ensures NftsOf([note], addr)
         == if note.erc20Amount == 0 && note.nft != 0 && note.tokenAddr == addr then [note.nft] else []
  {
    SumOne(EthValue(), note);
    SumOne(Erc20Value(addr), note);
    assert NftsTo([note], addr, 1) == NftsTo([note], addr, 0)
      + (if IsNft(note) && note.tokenAddr == addr then [note.nft] else []);
  }

  /** Entries come in the order in which their addresses first occur: more notes only add entries behind. */
  lemma {:induction false} KeysGrow(notes: seq<Note>, m: nat, n: nat)
    requires m <= n <= |notes|
    ensures Erc20KeysTo(notes, m) <= Erc20KeysTo(notes, n) && NftKeysTo(notes, m) <= NftKeysTo(notes, n)
  {
    if m < n { KeysGrow(notes, m, n - 1); }
  }

  /** `Sum.from` */
  datatype AssetSum = AssetSum(eth: nat, erc20: map<nat, nat>, erc721: map<nat, seq<nat>>) {
    function GetERC20(addr: nat): nat { if addr in erc20 then erc20[addr] else 0 }
    function GetNFTs(addr: nat): seq<nat> { if addr in erc721 then erc721[addr] else [] }
  }

  method EtherFrom(notes: seq<Note>) returns (sum: nat)
    ensures sum == EthOf(notes)
  {
    sum := 0;
    for i := 0 to |notes|
      invariant sum == SumTo(EthValue(), notes, i)
    {
      sum := sum + notes[i].eth;
    }
  }

  method Erc20From(notes: seq<Note>) returns (erc20: map<nat, nat>)
    ensures forall addr :: addr in erc20 <==> addr in Erc20Keys(notes)
    ensures forall addr :: addr in erc20 ==> erc20[addr] == Erc20Of(notes, addr)
  {
    erc20 := map[];
    for i := 0 to |notes|
      invariant forall addr :: addr in erc20 <==> addr in Erc20KeysTo(notes, i)
      invariant forall addr :: addr in erc20 ==> erc20[addr] == SumTo(Erc20Value(addr), notes, i)
    {
      var addr := notes[i].tokenAddr;
      Erc20KeysExact(notes, i, addr);
      if notes[i].erc20Amount != 0 && notes[i].nft == 0 {
        var prev := if addr in erc20 then erc20[addr] else 0;
        erc20 := erc20[addr := prev + notes[i].erc20Amount];
      }
    }
  }

  method NftsFrom(notes: seq<Note>) returns (erc721: map<nat, seq<nat>>)
    ensures forall addr :: addr in erc721 <==> addr in NftKeys(notes)
    ensures forall addr :: addr in erc721 ==> erc721[addr] == NftsOf(notes, addr)
  {
    erc721 := map[];
    for i := 0 to |notes|
      invariant forall addr :: addr in erc721 <==> addr in NftKeysTo(notes, i)
      invariant forall addr :: addr in erc721 ==> erc721[addr] == NftsTo(notes, addr, i)
    {
      var addr := notes[i].tokenAddr;
      NftKeysExact(notes, i, addr);
      if notes[i].erc20Amount == 0 && notes[i].nft != 0 {
        if addr !in erc721 { erc721 := erc721[addr := []]; }
        erc721 := erc721[addr := erc721[addr] + [notes[i].nft]];
      }
    }
  }

  method SumFrom(notes: seq<Note>) returns (sum: AssetSum)
    ensures sum.eth == EthOf(notes)
    ensures forall addr :: sum.GetERC20(addr) == Erc20Of(notes, addr)
    ensures forall addr :: sum.GetNFTs(addr) == NftsOf(notes, addr)
  {
    var eth := EtherFrom(notes);
    var erc20 := Erc20From(notes);
    var erc721 := NftsFrom(notes);
    sum := AssetSum(eth, erc20, erc721);
    forall addr: nat ensures sum.GetERC20(addr) == Erc20Of(notes, addr) && sum.GetNFTs(addr) == NftsOf(notes, addr) {
      Erc20KeysExact(notes, |notes|, addr);
      NftKeysExact(notes, |notes|, addr);
    }
  }
}
