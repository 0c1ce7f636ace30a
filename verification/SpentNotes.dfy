/** Which notes the token phases of `build` spend, read off the notes provided and the notes sent. */
module SpentNotes {
  import opened Sequences
  import opened NoteSum
  import opened TokenSelection
  import opened NftPhase
  import opened TokenChange

  /** What a token's notes of less than an amount are worth. */
  function SmallerErc20(addr: nat, amount: nat): Note -> nat {
    (n: Note) => if IsErc20(n) && n.tokenAddr == addr && n.erc20Amount < amount then n.erc20Amount else 0
  }

  /** All smaller notes of the token together fall short of what is sent, or the note carries an NFT that is sent. */
  function IsSpent(provided: seq<Note>, sendings: seq<Note>): Note -> bool {
    (n: Note) =>
      || Sum(SmallerErc20(n.tokenAddr, n.erc20Amount), provided) < Erc20Of(sendings, n.tokenAddr)
      || IsSent(sendings)(n)
  }

  function IsLeft(provided: seq<Note>, sendings: seq<Note>): Note -> bool {
    (n: Note) => !IsSpent(provided, sendings)(n)
  }

  function Spent(provided: seq<Note>, sendings: seq<Note>): seq<Note> { Filter(IsSpent(provided, sendings), provided) }

  function Left(provided: seq<Note>, sendings: seq<Note>): seq<Note> { Filter(IsLeft(provided, sendings), provided) }

  /** No two notes of a token are of the same amount, unless none. */
  ghost predicate DistinctAmounts(notes: seq<Note>) {
    forall i, j :: 0 <= i < j < |notes| && notes[i].tokenAddr == notes[j].tokenAddr && notes[i].erc20Amount > 0 ==>
      notes[i].erc20Amount != notes[j].erc20Amount
  }

  // ----- sums

  lemma {:induction false} SumMonotone(f: Note -> nat, g: Note -> nat, notes: seq<Note>, n: nat)
    requires n <= |notes| && forall x :: x in notes ==> f(x) <= g(x)
    ensures SumTo(f, notes, n) <= SumTo(g, notes, n)
  {
    if n > 0 { SumMonotone(f, g, notes, n - 1); }
  }

  lemma {:induction false} SumGap(f: Note -> nat, g: Note -> nat, notes: seq<Note>, n: nat, i: nat)
    requires i < n <= |notes| && (forall x :: x in notes ==> f(x) <= g(x)) && f(notes[i]) == 0
    ensures SumTo(f, notes, n) + g(notes[i]) <= SumTo(g, notes, n)
  {
    if i < n - 1 { SumGap(f, g, notes, n - 1, i); } else { SumMonotone(f, g, notes, n - 1); }
  }

  // ----- amounts once each

  function OfAmount(addr: nat, amount: nat): Note -> nat {
    (n: Note) => if n.tokenAddr == addr && n.erc20Amount == amount then 1 else 0
  }

  lemma {:induction false} AmountOnce(notes: seq<Note>, n: nat, addr: nat, amount: nat)
    requires n <= |notes| && DistinctAmounts(notes) && amount > 0
    ensures SumTo(OfAmount(addr, amount), notes, n) <= 1
    ensures SumTo(OfAmount(addr, amount), notes, n) == 1 ==>
      exists i :: 0 <= i < n && notes[i].tokenAddr == addr && notes[i].erc20Amount == amount
  {
    if n > 0 { AmountOnce(notes, n - 1, addr, amount); }
  }

  /** Two notes of one token on different piles differ in amount. */
  lemma PilesDiffer(rest: seq<Note>, spendings: seq<Note>, provided: seq<Note>, x: Note, y: Note)
    requires Piles(rest, spendings, provided) && DistinctAmounts(provided) && x in spendings && y in rest
    requires x.tokenAddr == y.tokenAddr && x.erc20Amount > 0
    ensures x.erc20Amount != y.erc20Amount
  {
    if x.erc20Amount == y.erc20Amount {
      var f := OfAmount(x.tokenAddr, x.erc20Amount);
      var i :| 0 <= i < |spendings| && spendings[i] == x;
      var j :| 0 <= j < |rest| && rest[j] == y;
      SumMember(f, spendings, |spendings|, i);
      SumMember(f, rest, |rest|, j);
      SumSplit(f, rest, spendings, provided);
      AmountOnce(provided, |provided|, x.tokenAddr, x.erc20Amount);
      assert false;
    }
  }

  // ----- one token

  /** What is spent is not beyond the target, whatever the order of equal amounts. */
  lemma PaidIsSmall(provided: seq<Note>, rest: seq<Note>, spendings: seq<Note>, target: nat, x: Note)
    requires Piles(rest, spendings, provided) && SmallestAt(spendings, rest, x.tokenAddr, target) && x in spendings
    ensures Sum(SmallerErc20(x.tokenAddr, x.erc20Amount), provided) < target
  {
    var f, g := SmallerErc20(x.tokenAddr, x.erc20Amount), Erc20Value(x.tokenAddr);
    var last :| LastNeeded(spendings, x.tokenAddr, target, last);
    var i :| 0 <= i < |spendings| && spendings[i] == last;
    SumGap(f, g, spendings, |spendings|, i);
    SumZero(f, rest, |rest|);
    SumSplit(f, rest, spendings, provided);
  }

  /** What is left is beyond it, when amounts are distinct. */
  lemma LeftIsLarge(provided: seq<Note>, rest: seq<Note>, spendings: seq<Note>, target: nat, y: Note)
    requires Piles(rest, spendings, provided) && SmallestAt(spendings, rest, y.tokenAddr, target) && y in rest
    requires DistinctAmounts(provided) && target <= Erc20Of(spendings, y.tokenAddr)
    ensures Sum(SmallerErc20(y.tokenAddr, y.erc20Amount), provided) >= target
  {
    var f, g := SmallerErc20(y.tokenAddr, y.erc20Amount), Erc20Value(y.tokenAddr);
    forall x | x in spendings ensures g(x) <= f(x) {
      if x.tokenAddr == y.tokenAddr && x.erc20Amount > 0 { PilesDiffer(rest, spendings, provided, x, y); }
    }
    SumMonotone(g, f, spendings, |spendings|);
    SumSplit(f, rest, spendings, provided);
  }

  // ----- all of them

  /** With distinct amounts the piles after the token phases are fixed by the notes provided and sent. */
  lemma PilesFixed(provided: seq<Note>, sendings: seq<Note>, spendables: seq<Note>, erc20Notes: seq<Note>,
                   nftNotes: seq<Note>)
    requires DistinctAmounts(provided) && Piles(spendables, erc20Notes + nftNotes, provided)
    requires SmallestFirst(erc20Notes, nftNotes + spendables, sendings) && CoversErc20(erc20Notes, sendings)
    requires SentSplit(sendings, nftNotes, spendables, NftKeys(sendings))
    ensures multiset(erc20Notes + nftNotes) == multiset(Spent(provided, sendings))
    ensures multiset(spendables) == multiset(Left(provided, sendings))
  {
    var spendings, rest := erc20Notes + nftNotes, nftNotes + spendables;
    assert Piles(rest, erc20Notes, provided) by {
      assert multiset(rest) == multiset(nftNotes) + multiset(spendables);
      assert multiset(spendings) == multiset(erc20Notes) + multiset(nftNotes);
    }
    forall x | x in spendings ensures IsSpent(provided, sendings)(x) {
      if x in erc20Notes {
        assert SmallestAt(erc20Notes, rest, x.tokenAddr, Erc20Of(sendings, x.tokenAddr));
        PaidIsSmall(provided, rest, erc20Notes, Erc20Of(sendings, x.tokenAddr), x);
      }
    }
    forall y | y in spendables ensures !IsSpent(provided, sendings)(y) {
      LeftNotSpent(provided, sendings, spendables, erc20Notes, nftNotes, rest, y);
    }
    FilterSplit(IsSpent(provided, sendings), spendings, spendables, provided);
    FilterSplit(IsLeft(provided, sendings), spendables, spendings, provided);
  }

  lemma LeftNotSpent(provided: seq<Note>, sendings: seq<Note>, spendables: seq<Note>, erc20Notes: seq<Note>,
                     nftNotes: seq<Note>, rest: seq<Note>, y: Note)
    requires DistinctAmounts(provided) && Piles(rest, erc20Notes, provided) && y in spendables && y in rest
    requires SmallestFirst(erc20Notes, rest, sendings) && CoversErc20(erc20Notes, sendings)
    requires SentSplit(sendings, nftNotes, spendables, NftKeys(sendings))
    ensures !IsSpent(provided, sendings)(y)
  {
    var addr := y.tokenAddr;
    assert SmallestAt(erc20Notes, rest, addr, Erc20Of(sendings, addr));
    LeftIsLarge(provided, rest, erc20Notes, Erc20Of(sendings, addr), y);
    NftKeysExact(sendings, |sendings|, addr);
    assert !IsSent(sendings)(y) by {
      if addr in NftKeys(sendings) { assert y in spendables; } else { assert NftsOf(sendings, addr) == []; }
    }
  }

  // ----- the change they make

  /** How many change notes the tokens spent make: one for every token of which more is spent than sent. */
  ghost function ChangeCount(provided: seq<Note>, sendings: seq<Note>): nat {
    |Surplus(Spent(provided, sendings), sendings)|
  }

  lemma SurplusPermuted(a: seq<Note>, b: seq<Note>, sendings: seq<Note>)
    requires multiset(a) == multiset(b)
    ensures Surplus(a, sendings) == Surplus(b, sendings)
  {
    SameMembers(a, b);
    SameMembers(b, a);
    forall x: Note ensures Erc20Of(a, x.tokenAddr) == Erc20Of(b, x.tokenAddr) {
      SumPermuted(Erc20Value(x.tokenAddr), a, b);
    }
  }
}
