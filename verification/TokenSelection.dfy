/** The first phases of coin selection in packages/transaction/src/tx-builder.ts: notes that pay the tokens. */
module TokenSelection {
  import opened Sequences
  import opened NoteSum
  import opened EtherSelection

  /** Every provided note is still spendable or already being spent. */
  ghost predicate Piles(spendables: seq<Note>, spendings: seq<Note>, provided: seq<Note>) {
    multiset(spendables) + multiset(spendings) == multiset(provided)
  }

  // ----- filters

  lemma {:induction false} FilterSum(keep: Note -> bool, f: Note -> nat, notes: seq<Note>, n: nat)
    requires n <= |notes| && forall x :: !keep(x) ==> f(x) == 0
    ensures Sum(f, FilterTo(keep, notes, n)) == SumTo(f, notes, n)
  {
    if n > 0 {
      FilterSum(keep, f, notes, n - 1);
      SumSnoc(f, FilterTo(keep, notes, n - 1), notes[n - 1]);
      assert FilterTo(keep, notes, n - 1) + [] == FilterTo(keep, notes, n - 1);
    }
  }

  /** Splitting a list in two so that one part is kept and the other is not leaves one choice. */
  lemma FilterSplit(keep: Note -> bool, a: seq<Note>, b: seq<Note>, s: seq<Note>)
    requires multiset(a) + multiset(b) == multiset(s)
    requires (forall x :: x in a ==> keep(x)) && forall x :: x in b ==> !keep(x)
    ensures multiset(a) == multiset(Filter(keep, s))
  {
    assert s[..|s|] == s;
    var kept := multiset(Filter(keep, s));
    forall x: Note ensures multiset(a)[x] == kept[x] {
      FilterCounts(keep, s, |s|, x);
      assert multiset(s)[x] == multiset(a)[x] + multiset(b)[x];
    }
  }

  // ----- splicing

  datatype Splice = Splice(taken: seq<Note>, rest: seq<Note>)

  /** `spendables.splice(spendables.indexOf(utxo), 1)`: a note that is not there has index -1, which takes the last. */
  function SpliceOut(s: seq<Note>, x: Note): Splice {
    if x in s then Splice([x], Delete(s, IndexOf(s, x)))
    else if s == [] then Splice([], [])
    else Splice([s[|s| - 1]], s[..|s| - 1])
  }

  /** `indexOf` and `splice(start, 1)` as the language defines them: -1 for what is not there, and a negative start
      counts from the end, but not beyond the beginning. */
  function JsIndexOf(s: seq<Note>, x: Note): int {
    if x in s then IndexOf(s, x) else -1
  }

  function JsSpliceOne(s: seq<Note>, start: int): Splice {
    var from := if start >= 0 then start else if |s| + start < 0 then 0 else |s| + start;
    if from >= |s| then Splice([], s) else Splice([s[from]], s[..from] + s[from + 1..])
  }

  lemma SpliceAsDefined(s: seq<Note>, x: Note)
    ensures SpliceOut(s, x) == JsSpliceOne(s, JsIndexOf(s, x))
  {
    if s != [] && x !in s { assert s[|s| - 1 + 1..] == []; }
  }

  /** A splice only moves a note from one pile to the other. */
  lemma SpliceMoves(s: seq<Note>, x: Note, spendings: seq<Note>, provided: seq<Note>)
    requires Piles(s, spendings, provided)
    ensures Piles(SpliceOut(s, x).rest, spendings + SpliceOut(s, x).taken, provided)
  {
    var Splice(taken, rest) := SpliceOut(s, x);
    if x in s {
      DeleteCounts(s, IndexOf(s, x));
      assert multiset(taken) == multiset{x};
    } else if s != [] {
      LastCounts(s);
      assert multiset(taken) == multiset{s[|s| - 1]};
    }
    assert multiset(spendings + taken) == multiset(spendings) + multiset(taken);
  }

  /** A note provided and not yet spent is where the splice looks for it. */
  lemma StillSpendable(spendables: seq<Note>, before: seq<Note>, chosen: seq<Note>, i: nat, provided: seq<Note>)
    requires i < |chosen| && Piles(spendables, before + chosen[..i], provided)
    requires multiset(chosen) <= multiset(provided) && chosen[i] !in before
    ensures chosen[i] in spendables
  {
    var x := chosen[i];
    assert chosen == chosen[..i] + chosen[i..];
    assert multiset(chosen) == multiset(chosen[..i]) + multiset(chosen[i..]);
    assert chosen[i..][0] == x && x in multiset(chosen[i..]);
    assert multiset(before + chosen[..i]) == multiset(before) + multiset(chosen[..i]);
    assert multiset(before)[x] == 0;
    assert multiset(provided)[x] >= multiset(chosen)[x] > multiset(chosen[..i])[x];
    assert multiset(spendables)[x] > 0;
  }

  // ----- ERC20

  function AtAddress(addr: nat): Note -> bool { (n: Note) => n.tokenAddr == addr }

  function Amount(): Note -> nat { (n: Note) => n.erc20Amount }

  /** The notes of one token, by ascending amount. */
  method NotesOfToken(provided: seq<Note>, addr: nat) returns (same: seq<Note>)
    ensures multiset(same) == multiset(Filter(AtAddress(addr), provided)) && Ascending(Amount(), same)
    ensures multiset(same) <= multiset(provided)
    ensures forall x :: x in same ==> x.tokenAddr == addr
  {
    FilterWithin(AtAddress(addr), provided, |provided|);
    FilterMembers(AtAddress(addr), provided, |provided|);
    assert provided[..|provided|] == provided;
    same := SortBy(Amount(), Filter(AtAddress(addr), provided));
    SameAddress(same, Filter(AtAddress(addr), provided), addr);
  }

  /** x is the largest note spent of a token, and without it the target is not reached. */
  ghost predicate LastNeeded(spendings: seq<Note>, addr: nat, target: nat, x: Note) {
    && x in spendings && x.tokenAddr == addr
    && (forall y :: y in spendings && y.tokenAddr == addr ==> y.erc20Amount <= x.erc20Amount)
    && Erc20Of(spendings, addr) < target + Erc20Value(addr)(x)
  }

  ghost predicate NoneAt(notes: seq<Note>, addr: nat) {
    forall x :: x in notes ==> x.tokenAddr != addr
  }

  ghost predicate NoneSmaller(spendings: seq<Note>, rest: seq<Note>, addr: nat) {
    forall x, y :: x in spendings && y in rest && x.tokenAddr == addr && y.tokenAddr == addr ==>
      x.erc20Amount <= y.erc20Amount
  }

  /** The smallest notes of the token are spent, and no more of them than are needed. */
  ghost predicate SmallestAt(spendings: seq<Note>, rest: seq<Note>, addr: nat, target: nat) {
    && NoneSmaller(spendings, rest, addr)
    && (NoneAt(spendings, addr) || exists x :: LastNeeded(spendings, addr, target, x))
  }

  /** Takes notes of one token, smallest first, until the target is reached; fails exactly when all there is falls
      short. */
  method SelectErc20(provided: seq<Note>, addr: nat, target: nat, spendables0: seq<Note>, spendings: seq<Note>)
    returns (spendables: seq<Note>, taken: seq<Note>, ok: bool)
    requires Piles(spendables0, spendings, provided)
    requires NoneAt(spendings, addr)
    ensures Piles(spendables, spendings + taken, provided)
    ensures forall x :: x in taken ==> x.tokenAddr == addr
    ensures ok <==> target <= Erc20Of(spendings + taken, addr)
    ensures ok <==> target <= Erc20Of(provided, addr)
    ensures SmallestAt(spendings + taken, spendables, addr, target)
  {
    var same := NotesOfToken(provided, addr);
    spendables, taken := spendables0, [];
    var i := 0;
    assert spendings + [] == spendings;
    while i < |same| && target > Erc20Of(spendings + taken, addr)
      invariant 0 <= i <= |same| && taken == same[..i]
      invariant Piles(spendables, spendings + taken, provided)
      invariant i > 0 ==> Erc20Of(spendings + same[..i - 1], addr) < target
    {
      spendables, taken := TakeNext(provided, spendables, spendings, same, i);
      i := i + 1;
    }
    ok := target <= Erc20Of(spendings + taken, addr);
    Erc20Reach(provided, addr, spendables, spendings, same, i, spendings + taken);
    Erc20Smallest(provided, addr, target, spendables, spendings, same, i, spendings + taken);
  }

  /** What is left of the token comes later in the order. */
  lemma LeftIsLater(provided: seq<Note>, addr: nat, spendables: seq<Note>, spendings0: seq<Note>, same: seq<Note>,
                    i: nat, y: Note)
    requires i <= |same| && Piles(spendables, spendings0 + same[..i], provided)
    requires multiset(same) == multiset(Filter(AtAddress(addr), provided)) && NoneAt(spendings0, addr)
    requires y in spendables && y.tokenAddr == addr
    ensures y in same[i..]
  {
    FilterCounts(AtAddress(addr), provided, |provided|, y);
    assert provided[..|provided|] == provided;
    assert same == same[..i] + same[i..];
    assert multiset(same)[y] == multiset(same[..i])[y] + multiset(same[i..])[y];
    assert multiset(spendings0 + same[..i])[y] == multiset(spendings0)[y] + multiset(same[..i])[y];
    assert multiset(spendings0)[y] == 0 && multiset(spendables)[y] > 0;
    assert multiset(same[i..])[y] > 0;
  }

  lemma Erc20Smallest(provided: seq<Note>, addr: nat, target: nat, spendables: seq<Note>, spendings0: seq<Note>,
                      same: seq<Note>, i: nat, spendings: seq<Note>)
    requires i <= |same| && spendings == spendings0 + same[..i] && Piles(spendables, spendings, provided)
    requires multiset(same) == multiset(Filter(AtAddress(addr), provided)) && Ascending(Amount(), same)
    requires NoneAt(spendings0, addr) && forall x :: x in same ==> x.tokenAddr == addr
    requires i > 0 ==> Erc20Of(spendings0 + same[..i - 1], addr) < target
    ensures SmallestAt(spendings, spendables, addr, target)
  {
    forall x, y | x in spendings && y in spendables && x.tokenAddr == addr && y.tokenAddr == addr
      ensures x.erc20Amount <= y.erc20Amount
    {
      LeftIsLater(provided, addr, spendables, spendings0, same, i, y);
      Earlier(same, i, x, y);
    }
    if i > 0 { LastTaken(addr, target, spendings0, same, i, spendings); }
  }

  lemma Earlier(same: seq<Note>, i: nat, x: Note, y: Note)
    requires i <= |same| && Ascending(Amount(), same) && x in same[..i] && y in same[i..]
    ensures x.erc20Amount <= y.erc20Amount
  {
    var j :| 0 <= j < i && same[j] == x;
    var k :| i <= k < |same| && same[k] == y;
    assert Amount()(same[j]) <= Amount()(same[k]);
  }

  lemma LastTaken(addr: nat, target: nat, spendings0: seq<Note>, same: seq<Note>, i: nat, spendings: seq<Note>)
    requires 0 < i <= |same| && spendings == spendings0 + same[..i] && Ascending(Amount(), same)
    requires NoneAt(spendings0, addr) && forall x :: x in same ==> x.tokenAddr == addr
    requires Erc20Of(spendings0 + same[..i - 1], addr) < target
    ensures LastNeeded(spendings, addr, target, same[i - 1])
  {
    var last := same[i - 1];
    assert spendings == spendings0 + same[..i - 1] + [last];
    SumSnoc(Erc20Value(addr), spendings0 + same[..i - 1], last);
    forall y | y in spendings && y.tokenAddr == addr ensures y.erc20Amount <= last.erc20Amount {
      var j :| 0 <= j < i && same[j] == y;
      if j < i - 1 { assert Amount()(same[j]) <= Amount()(last); }
    }
  }

  /** One splice of a note that is known to be there. */
  method TakeNext(provided: seq<Note>, spendables0: seq<Note>, spendings: seq<Note>, chosen: seq<Note>, i: nat)
    returns (spendables: seq<Note>, taken: seq<Note>)
    requires i < |chosen| && Piles(spendables0, spendings + chosen[..i], provided)
    requires multiset(chosen) <= multiset(provided) && chosen[i] !in spendings
    ensures Piles(spendables, spendings + taken, provided) && taken == chosen[..i + 1]
  {
    StillSpendable(spendables0, spendings, chosen, i, provided);
    SpliceMoves(spendables0, chosen[i], spendings + chosen[..i], provided);
    var splice := SpliceOut(spendables0, chosen[i]);
    taken := chosen[..i] + splice.taken;
    spendables := splice.rest;
    assert spendings + chosen[..i] + splice.taken == spendings + taken;
  }

  lemma SameAddress(sorted: seq<Note>, filtered: seq<Note>, addr: nat)
    requires multiset(sorted) == multiset(filtered) && forall x :: x in filtered ==> x.tokenAddr == addr
    ensures forall x :: x in sorted ==> x.tokenAddr == addr
  {
    forall x | x in sorted ensures x in filtered { assert x in multiset(sorted); }
  }

  /** What the loop has spent of the token is at most what there is, and all of it once the notes run out. */
  lemma Erc20Reach(provided: seq<Note>, addr: nat, spendables: seq<Note>, spendings0: seq<Note>, same: seq<Note>,
                   i: nat, spendings: seq<Note>)
    requires i <= |same| && spendings == spendings0 + same[..i] && Piles(spendables, spendings, provided)
    requires multiset(same) == multiset(Filter(AtAddress(addr), provided))
    requires forall x :: x in spendings0 ==> x.tokenAddr != addr
    ensures Erc20Of(spendings, addr) <= Erc20Of(provided, addr)
    ensures i == |same| ==> Erc20Of(spendings, addr) == Erc20Of(provided, addr)
  {
    SumSplit(Erc20Value(addr), spendables, spendings, provided);
    SumConcat(Erc20Value(addr), spendings0, same[..i]);
    SumZero(Erc20Value(addr), spendings0, |spendings0|);
    if i == |same| {
      assert same[..i] == same;
      SumPermuted(Erc20Value(addr), same, Filter(AtAddress(addr), provided));
      FilterSum(AtAddress(addr), Erc20Value(addr), provided, |provided|);
    }
  }

  /** For every token there is at least as much as is sent. */
  ghost predicate CoversErc20(notes: seq<Note>, sendings: seq<Note>) {
    forall addr :: Erc20Of(sendings, addr) <= Erc20Of(notes, addr)
  }

  /** For every token the smallest notes are spent, and no more of them than are needed. */
  ghost predicate SmallestFirst(spendings: seq<Note>, rest: seq<Note>, sendings: seq<Note>) {
    forall addr :: SmallestAt(spendings, rest, addr, Erc20Of(sendings, addr))
  }

  /** A note left now was left before. */
  lemma StillThere(provided: seq<Note>, before: seq<Note>, spendings: seq<Note>, spendables: seq<Note>,
                   taken: seq<Note>, y: Note)
    requires Piles(before, spendings, provided) && Piles(spendables, spendings + taken, provided) && y in spendables
    ensures y in before
  {
    assert multiset(spendings + taken) == multiset(spendings) + multiset(taken);
    assert multiset(spendables)[y] > 0;
    assert multiset(before)[y] + multiset(spendings)[y] == multiset(provided)[y];
    assert multiset(spendables)[y] + (multiset(spendings)[y] + multiset(taken)[y]) == multiset(provided)[y];
  }

  /** Spending other notes does not matter to a token. */
  lemma SmallestKept(provided: seq<Note>, spendables: seq<Note>, spendings: seq<Note>, spendables': seq<Note>,
                     taken: seq<Note>, addr: nat, target: nat)
    requires Piles(spendables, spendings, provided) && Piles(spendables', spendings + taken, provided)
    requires SmallestAt(spendings, spendables, addr, target) && NoneAt(taken, addr)
    ensures SmallestAt(spendings + taken, spendables', addr, target)
  {
    assert multiset(spendings + taken) == multiset(spendings) + multiset(taken);
    forall y | y in spendables' ensures y in spendables {
      StillThere(provided, spendables, spendings, spendables', taken, y);
    }
    SumConcat(Erc20Value(addr), spendings, taken);
    SumZero(Erc20Value(addr), taken, |taken|);
    if !NoneAt(spendings, addr) {
      var x :| LastNeeded(spendings, addr, target, x);
      assert LastNeeded(spendings + taken, addr, target, x);
    }
  }

  /** What the loop has reached after k tokens. */
  ghost predicate PaidTo(provided: seq<Note>, sendings: seq<Note>, spendables: seq<Note>, spendings: seq<Note>,
                         k: nat) {
    && k <= |Erc20Keys(sendings)|
    && Piles(spendables, spendings, provided)
    && (forall x :: x in spendings ==> x.tokenAddr in Erc20Keys(sendings)[..k])
    && (forall j :: 0 <= j < k ==> PaidAt(sendings, spendables, spendings, Erc20Keys(sendings)[j]))
    && (k == 0 ==> spendables == provided && spendings == [])
  }

  ghost predicate PaidAt(sendings: seq<Note>, spendables: seq<Note>, spendings: seq<Note>, addr: nat) {
    && Erc20Of(sendings, addr) <= Erc20Of(spendings, addr)
    && SmallestAt(spendings, spendables, addr, Erc20Of(sendings, addr))
  }

  lemma NextTokenAway(provided: seq<Note>, sendings: seq<Note>, spendables: seq<Note>, spendings: seq<Note>, k: nat)
    requires PaidTo(provided, sendings, spendables, spendings, k) && k < |Erc20Keys(sendings)|
    ensures NoneAt(spendings, Erc20Keys(sendings)[k])
  {
    Erc20KeysExact(sendings, |sendings|, 0);
  }

  lemma PaidKept(provided: seq<Note>, sendings: seq<Note>, spendables: seq<Note>, spendings: seq<Note>,
                 spendables': seq<Note>, taken: seq<Note>, addr: nat)
    requires Piles(spendables, spendings, provided) && Piles(spendables', spendings + taken, provided)
    requires PaidAt(sendings, spendables, spendings, addr) && NoneAt(taken, addr)
    ensures PaidAt(sendings, spendables', spendings + taken, addr)
  {
    SumConcat(Erc20Value(addr), spendings, taken);
    SmallestKept(provided, spendables, spendings, spendables', taken, addr, Erc20Of(sendings, addr));
  }

  lemma PaidNext(provided: seq<Note>, sendings: seq<Note>, spendables: seq<Note>, spendings: seq<Note>, k: nat,
                 spendables': seq<Note>, taken: seq<Note>)
    requires PaidTo(provided, sendings, spendables, spendings, k) && k < |Erc20Keys(sendings)|
    requires Piles(spendables', spendings + taken, provided)
    requires forall x :: x in taken ==> x.tokenAddr == Erc20Keys(sendings)[k]
    requires PaidAt(sendings, spendables', spendings + taken, Erc20Keys(sendings)[k])
    ensures PaidTo(provided, sendings, spendables', spendings + taken, k + 1)
  {
    var keys := Erc20Keys(sendings);
    Erc20KeysExact(sendings, |sendings|, 0);
    assert keys[..k + 1] == keys[..k] + [keys[k]];
    forall j | 0 <= j < k ensures PaidAt(sendings, spendables', spendings + taken, keys[j]) {
      PaidKept(provided, sendings, spendables, spendings, spendables', taken, keys[j]);
    }
  }

  lemma AllPaid(provided: seq<Note>, sendings: seq<Note>, spendables: seq<Note>, spendings: seq<Note>)
    requires PaidTo(provided, sendings, spendables, spendings, |Erc20Keys(sendings)|)
    ensures CoversErc20(provided, sendings) && CoversErc20(spendings, sendings)
    ensures SmallestFirst(spendings, spendables, sendings)
    ensures forall x :: x in spendings ==> x.tokenAddr in Erc20Keys(sendings)
  {
    var keys := Erc20Keys(sendings);
    forall addr: nat
      ensures Erc20Of(sendings, addr) <= Erc20Of(spendings, addr) <= Erc20Of(provided, addr)
      ensures SmallestAt(spendings, spendables, addr, Erc20Of(sendings, addr))
    {
      Erc20KeysExact(sendings, |sendings|, addr);
      SumSplit(Erc20Value(addr), spendables, spendings, provided);
      if addr in keys { var j :| 0 <= j < |keys| && keys[j] == addr; }
    }
  }

  /** Token k is the first one of which there is less than is sent. */
  ghost predicate ShortAt(provided: seq<Note>, sendings: seq<Note>, addr: nat, k: nat) {
    && k < |Erc20Keys(sendings)| && addr == Erc20Keys(sendings)[k]
    && Erc20Of(provided, addr) < Erc20Of(sendings, addr)
    && forall j :: 0 <= j < k ==>
         Erc20Of(sendings, Erc20Keys(sendings)[j]) <= Erc20Of(provided, Erc20Keys(sendings)[j])
  }

  ghost predicate FirstShort(provided: seq<Note>, sendings: seq<Note>, addr: nat) {
    exists k :: ShortAt(provided, sendings, addr, k)
  }

  lemma FoundShort(provided: seq<Note>, sendings: seq<Note>, spendables: seq<Note>, spendings: seq<Note>, k: nat)
    requires PaidTo(provided, sendings, spendables, spendings, k) && k < |Erc20Keys(sendings)|
    requires Erc20Of(provided, Erc20Keys(sendings)[k]) < Erc20Of(sendings, Erc20Keys(sendings)[k])
    ensures FirstShort(provided, sendings, Erc20Keys(sendings)[k]) && !CoversErc20(provided, sendings)
  {
    forall j | 0 <= j < k
      ensures Erc20Of(sendings, Erc20Keys(sendings)[j]) <= Erc20Of(provided, Erc20Keys(sendings)[j])
    {
      assert PaidAt(sendings, spendables, spendings, Erc20Keys(sendings)[j]);
      SumSplit(Erc20Value(Erc20Keys(sendings)[j]), spendables, spendings, provided);
    }
    assert ShortAt(provided, sendings, Erc20Keys(sendings)[k], k);
  }

  /** All tokens in turn. It fails, naming the first one that falls short, exactly when some token does; of every token
      the smallest notes are spent, and no more of them than are needed. */
  method SelectAllErc20(provided: seq<Note>, sendings: seq<Note>)
    returns (spendables: seq<Note>, spendings: seq<Note>, short: seq<nat>)
    ensures short == [] <==> CoversErc20(provided, sendings)
    ensures short != [] ==> FirstShort(provided, sendings, short[0])
    ensures short == [] ==> Piles(spendables, spendings, provided) && CoversErc20(spendings, sendings)
    ensures short == [] ==> SmallestFirst(spendings, spendables, sendings)
    ensures short == [] ==> forall x :: x in spendings ==> x.tokenAddr in Erc20Keys(sendings)
    ensures Erc20Keys(sendings) == [] ==> short == [] && spendables == provided && spendings == []
  {
    spendables, spendings := provided, [];
    var keys := Erc20Keys(sendings);
    for k := 0 to |keys|
      invariant PaidTo(provided, sendings, spendables, spendings, k)
    {
      NextTokenAway(provided, sendings, spendables, spendings, k);
      var left, taken, ok := SelectErc20(provided, keys[k], Erc20Of(sendings, keys[k]), spendables, spendings);
      if !ok {
        FoundShort(provided, sendings, spendables, spendings, k);
        return spendables, spendings, [keys[k]];
      }
      PaidNext(provided, sendings, spendables, spendings, k, left, taken);
      spendables, spendings := left, spendings + taken;
    }
    AllPaid(provided, sendings, spendables, spendings);
    short := [];
  }

  // ----- NFTs

  ghost predicate AscendingNumbers(s: seq<nat>) {
    forall i, j :: 0 <= i < j < |s| ==> s[i] <= s[j]
  }

  function Numbers(notes: seq<Note>): (r: seq<nat>)
    ensures |r| == |notes| && forall i :: 0 <= i < |r| ==> r[i] == notes[i].nft
  {
    seq(|notes|, i requires 0 <= i < |notes| => notes[i].nft)
  }

  /** The provided notes at an address with one of the wanted numbers. */
  function Wanted(addr: nat, wanted: seq<nat>): Note -> bool {
    (n: Note) => n.tokenAddr == addr && n.nft in wanted
  }

  function Matching(provided: seq<Note>, addr: nat, wanted: seq<nat>): seq<Note> {
    Filter(Wanted(addr, wanted), provided)
  }

  /** They carry exactly the wanted NFTs. */
  ghost predicate SameNfts(provided: seq<Note>, addr: nat, wanted: seq<nat>) {
    multiset(Numbers(Matching(provided, addr, wanted))) == multiset(wanted)
  }

  /** The two ways the notes found can fail to be the notes wanted. */
  datatype NftCheck = Exact | WrongCount | WrongNumber

  function NumberIs(nft: nat): Note -> nat { (n: Note) => if n.nft == nft then 1 else 0 }

  lemma {:induction false} NumbersCounted(notes: seq<Note>, n: nat, nft: nat)
    requires n <= |notes|
    ensures multiset(Numbers(notes)[..n])[nft] == SumTo(NumberIs(nft), notes, n)
  {
    if n > 0 {
      NumbersCounted(notes, n - 1, nft);
      assert Numbers(notes)[..n] == Numbers(notes)[..n - 1] + [notes[n - 1].nft];
    }
  }

  lemma NumbersPermuted(a: seq<Note>, b: seq<Note>)
    requires multiset(a) == multiset(b)
    ensures multiset(Numbers(a)) == multiset(Numbers(b))
  {
    forall nft: nat ensures multiset(Numbers(a))[nft] == multiset(Numbers(b))[nft] {
      NumbersCounted(a, |a|, nft);
      NumbersCounted(b, |b|, nft);
      assert Numbers(a)[..|a|] == Numbers(a) && Numbers(b)[..|b|] == Numbers(b);
      SumPermuted(NumberIs(nft), a, b);
    }
  }

  method SortNumbers(s: seq<nat>) returns (r: seq<nat>)
    ensures multiset(r) == multiset(s) && AscendingNumbers(r)
  {
    r := SortBy((x: nat) => x, s);
    assert forall i, j :: 0 <= i < j < |r| ==> ((x: nat) => x)(r[i]) <= ((x: nat) => x)(r[j]);
  }

  /** There is one way to sort numbers. */
  lemma {:induction false} AscendingUnique(a: seq<nat>, b: seq<nat>)
    requires AscendingNumbers(a) && AscendingNumbers(b) && multiset(a) == multiset(b)
    ensures a == b
    decreases |a|
  {
    assert |a| == |multiset(a)| == |multiset(b)| == |b|;
    if a != [] {
      LeastFirst(a, b);
      LeastFirst(b, a);
      TailsAgree(a, b);
      AscendingUnique(a[1..], b[1..]);
    }
  }

  lemma TailsAgree(a: seq<nat>, b: seq<nat>)
    requires a != [] && b != [] && a[0] == b[0] && multiset(a) == multiset(b)
    ensures multiset(a[1..]) == multiset(b[1..])
    ensures a[1..] == b[1..] ==> a == b
  {
    assert a == [a[0]] + a[1..] && b == [b[0]] + b[1..];
    assert multiset(a[1..]) == multiset(a) - multiset{a[0]};
    assert multiset(b[1..]) == multiset(b) - multiset{b[0]};
  }

  lemma LeastFirst(a: seq<nat>, b: seq<nat>)
    requires AscendingNumbers(a) && multiset(a) == multiset(b) && a != [] && b != []
    ensures a[0] <= b[0]
  {
    assert b[0] in multiset(b) && b[0] in multiset(a);
    var i :| 0 <= i < |a| && a[i] == b[0];
  }

  /** The provided notes with the wanted NFTs, by number. */
  method NotesOfNfts(provided: seq<Note>, addr: nat, wanted: seq<nat>) returns (notes: seq<Note>)
    ensures multiset(notes) == multiset(Matching(provided, addr, wanted))
    ensures multiset(notes) <= multiset(provided)
    ensures AscendingNumbers(Numbers(notes))
    ensures forall x :: x in notes ==> x.tokenAddr == addr && x.nft in wanted && x in provided
  {
    FilterWithin(Wanted(addr, wanted), provided, |provided|);
    FilterMembers(Wanted(addr, wanted), provided, |provided|);
    assert provided[..|provided|] == provided;
    notes := SortBy((n: Note) => n.nft, Matching(provided, addr, wanted));
    forall x | x in notes ensures x in Matching(provided, addr, wanted) { assert x in multiset(notes); }
  }

  lemma SameMembers(a: seq<Note>, b: seq<Note>)
    requires multiset(a) == multiset(b)
    ensures forall x :: x in a ==> x in b
  {
    forall x | x in a ensures x in b { assert x in multiset(a); }
  }

  /** Finds the notes that carry the NFTs sent from one address, fails exactly when they are not all there, once each,
      saying whether it is their number or the NFTs themselves, and moves them to the notes being spent. */
  method SelectNfts(provided: seq<Note>, addr: nat, wanted: seq<nat>, spendables0: seq<Note>, spendings: seq<Note>)
    returns (spendables: seq<Note>, taken: seq<Note>, check: NftCheck)
    requires Piles(spendables0, spendings, provided)
    ensures check.Exact? <==> SameNfts(provided, addr, wanted)
    ensures check.WrongCount? <==> |Matching(provided, addr, wanted)| != |wanted|
    ensures check.Exact? ==> Piles(spendables, spendings + taken, provided)
    ensures check.Exact? ==> forall x :: x in Matching(provided, addr, wanted) ==> x in spendings + taken
    ensures check.Exact? && (forall x :: x in spendings ==> x.tokenAddr != addr) ==>
      multiset(taken) == multiset(Matching(provided, addr, wanted)) && AscendingNumbers(Numbers(taken))
  {
    spendables, taken := spendables0, [];
    var sendingNFTs := SortNumbers(wanted);
    var spendingNFTNotes := NotesOfNfts(provided, addr, wanted);
    NumbersPermuted(spendingNFTNotes, Matching(provided, addr, wanted));
    if SameNfts(provided, addr, wanted) { AscendingUnique(Numbers(spendingNFTNotes), sendingNFTs); }
    SameCounts(spendingNFTNotes, Matching(provided, addr, wanted));
    SameCounts(sendingNFTs, wanted);
    check := CarryExactly(spendingNFTNotes, sendingNFTs);
    if !check.Exact? { return; }
    spendables, taken := MoveAll(provided, addr, spendables0, spendings, spendingNFTNotes);
    SameMembers(Matching(provided, addr, wanted), spendingNFTNotes);
  }

  /** The two comparisons: as many notes as numbers, and number for number the same. */
  method CarryExactly(notes: seq<Note>, numbers: seq<nat>) returns (check: NftCheck)
    ensures check.Exact? <==> Numbers(notes) == numbers
    ensures check.WrongCount? <==> |notes| != |numbers|
  {
    if |numbers| != |notes| { return WrongCount; }
    for i := 0 to |numbers|
      invariant forall j :: 0 <= j < i ==> numbers[j] == Numbers(notes)[j]
    {
      if numbers[i] != notes[i].nft { return WrongNumber; }
    }
    assert numbers == Numbers(notes);
    check := Exact;
  }

  lemma SameCounts<A>(a: seq<A>, b: seq<A>)
    requires multiset(a) == multiset(b)
    ensures |a| == |b|
  {
    assert |multiset(a)| == |a| && |multiset(b)| == |b|;
  }

  /** Splices notes out one after another. Notes that are already being spent make the splice take another note
      instead; when none of the address is, exactly the given notes move. */
  method MoveAll(provided: seq<Note>, addr: nat, spendables0: seq<Note>, spendings: seq<Note>, notes: seq<Note>)
    returns (spendables: seq<Note>, taken: seq<Note>)
    requires Piles(spendables0, spendings, provided) && multiset(notes) <= multiset(provided)
    requires forall x :: x in notes ==> x.tokenAddr == addr && x in provided
    ensures Piles(spendables, spendings + taken, provided)
    ensures forall x :: x in notes ==> x in spendings + taken
    ensures (forall x :: x in spendings ==> x.tokenAddr != addr) ==> taken == notes
  {
    spendables, taken := spendables0, [];
    assert spendings + [] == spendings;
    for i := 0 to |notes|
      invariant Piles(spendables, spendings + taken, provided)
      invariant forall j :: 0 <= j < i ==> notes[j] in spendings + taken
      invariant (forall x :: x in spendings ==> x.tokenAddr != addr) ==> taken == notes[..i]
    {
      MoveOne(provided, addr, spendables, spendings, taken, notes, i);
      var splice := SpliceOut(spendables, notes[i]);
      taken := taken + splice.taken;
      spendables := splice.rest;
    }
    assert notes[..|notes|] == notes;
  }

  lemma MoveOne(provided: seq<Note>, addr: nat, spendables: seq<Note>, spendings: seq<Note>, taken: seq<Note>,
                notes: seq<Note>, i: nat)
    requires i < |notes| && Piles(spendables, spendings + taken, provided) && multiset(notes) <= multiset(provided)
    requires notes[i].tokenAddr == addr && notes[i] in provided
    ensures var splice := SpliceOut(spendables, notes[i]);
      && Piles(splice.rest, spendings + (taken + splice.taken), provided)
      && notes[i] in spendings + (taken + splice.taken)
      && (forall x :: x in spendings + taken ==> x in spendings + (taken + splice.taken))
      && ((forall x :: x in spendings ==> x.tokenAddr != addr) && taken == notes[..i] ==>
            taken + splice.taken == notes[..i + 1])
  {
    var splice := SpliceOut(spendables, notes[i]);
    SpliceMoves(spendables, notes[i], spendings + taken, provided);
    assert spendings + taken + splice.taken == spendings + (taken + splice.taken);
    InOnePile(spendables, spendings + taken, provided, notes[i]);
    if (forall x :: x in spendings ==> x.tokenAddr != addr) && taken == notes[..i] {
      StillSpendable(spendables, spendings, notes, i, provided);
      assert notes[..i + 1] == notes[..i] + [notes[i]];
    }
  }

  lemma InOnePile(spendables: seq<Note>, spendings: seq<Note>, provided: seq<Note>, x: Note)
    requires Piles(spendables, spendings, provided) && x in provided
    ensures x in spendables || x in spendings
  {
    assert x in multiset(provided);
    assert x in multiset(spendables) || x in multiset(spendings);
  }
}
