/** The last phase of coin selection in packages/transaction/src/tx-builder.ts: notes that pay ether and fee. */
module EtherSelection {
  import opened Sequences
  import opened NoteSum

  ghost predicate NonDecreasing(required: nat -> nat) {
    forall a, b :: a <= b ==> required(a) <= required(b)
  }

  // ----- exchange

  /** No choice of k notes is worth more than the k most valuable ones. */
  lemma {:induction false} Exchange(f: Note -> nat, s: seq<Note>, chosen: seq<Note>)
    requires Ascending(f, s) && multiset(chosen) <= multiset(s)
    ensures |chosen| <= |s| && Sum(f, chosen) <= Sum(f, s[|s| - |chosen|..])
    decreases |s|
  {
    if chosen != [] {
      NonEmptyWithin(chosen, s);
      var most := s[|s| - 1];
      var j := if most in chosen then IndexOf(chosen, most) else 0;
      var others := Delete(chosen, j);
      DropChosen(chosen, j, s);
      Exchange(f, s[..|s| - 1], others);
      AtMostLast(f, s, chosen[j], chosen);
      DeleteSum(f, chosen, j);
      TopSum(f, s, |chosen|);
    }
  }

  lemma NonEmptyWithin(chosen: seq<Note>, s: seq<Note>)
    requires chosen != [] && multiset(chosen) <= multiset(s)
    ensures s != []
  {
    assert chosen[0] in multiset(chosen) && chosen[0] in multiset(s);
  }

  lemma AtMostLast(f: Note -> nat, s: seq<Note>, x: Note, chosen: seq<Note>)
    requires Ascending(f, s) && s != [] && x in chosen && multiset(chosen) <= multiset(s)
    ensures f(x) <= f(s[|s| - 1])
  {
    assert x in multiset(chosen) && x in multiset(s);
    var i :| 0 <= i < |s| && s[i] == x;
  }

  lemma TopSum(f: Note -> nat, s: seq<Note>, k: nat)
    requires 0 < k <= |s|
    ensures Sum(f, s[|s| - k..]) == Sum(f, s[..|s| - 1][|s| - k..]) + f(s[|s| - 1])
  {
    SumSnoc(f, s[..|s| - 1][|s| - k..], s[|s| - 1]);
    assert s[|s| - k..] == s[..|s| - 1][|s| - k..] + [s[|s| - 1]];
  }

  function IndexOf(s: seq<Note>, x: Note): (k: nat)
    requires x in s
    ensures k < |s| && s[k] == x && x !in s[..k]
  {
    if s[0] == x then 0 else 1 + IndexOf(s[1..], x)
  }

  lemma LastCounts(s: seq<Note>)
    requires s != []
    ensures multiset(s) == multiset(s[..|s| - 1]) + multiset{s[|s| - 1]}
  {
    assert s == s[..|s| - 1] + [s[|s| - 1]];
  }

  /** Without the last note of s, or any note when the last is not chosen, the rest is chosen from the rest. */
  lemma DropChosen(chosen: seq<Note>, j: nat, s: seq<Note>)
    requires s != [] && j < |chosen| && multiset(chosen) <= multiset(s)
    requires chosen[j] == s[|s| - 1] || s[|s| - 1] !in chosen
    ensures multiset(Delete(chosen, j)) <= multiset(s[..|s| - 1])
  {
    var rest, most := s[..|s| - 1], s[|s| - 1];
    LastCounts(s);
    DeleteCounts(chosen, j);
    if chosen[j] == most {
      CancelOne(multiset(Delete(chosen, j)), multiset(rest), most);
    } else {
      forall y ensures multiset(Delete(chosen, j))[y] <= multiset(rest)[y] {
        assert multiset(chosen)[y] <= multiset(s)[y];
        if y == most { assert multiset(chosen)[most] == 0; }
      }
    }
  }

  // ----- what the loop decides

  /** Some choice among the pool makes the ether spent exceed what that number of inputs requires. */
  ghost predicate Feasible(spendings: seq<Note>, pool: seq<Note>, required: nat -> nat) {
    exists chosen: seq<Note> :: Affords(spendings, pool, required, chosen)
  }

  ghost predicate Affords(spendings: seq<Note>, pool: seq<Note>, required: nat -> nat, chosen: seq<Note>) {
    multiset(chosen) <= multiset(pool) && EthOf(spendings) + EthOf(chosen) > required(|spendings| + |chosen|)
  }

  /** The i most valuable notes of a sorted pool are not enough. */
  ghost predicate TopFails(spendings: seq<Note>, pool: seq<Note>, required: nat -> nat, i: nat)
    requires i <= |pool|
  {
    EthOf(spendings) + EthOf(pool[|pool| - i..]) <= required(|spendings| + i)
  }

  ghost predicate TopsFail(spendings: seq<Note>, pool: seq<Note>, required: nat -> nat, n: nat)
    requires n <= |pool| + 1
  {
    forall i :: 0 <= i < n ==> TopFails(spendings, pool, required, i)
  }

  /** If the n smallest numbers of most valuable notes are not enough, no choice of as few notes is. */
  lemma TopsFailMeans(spendings: seq<Note>, sorted: seq<Note>, pool: seq<Note>, required: nat -> nat, n: nat)
    requires multiset(sorted) == multiset(pool) && Ascending(EthValue(), sorted)
    requires n <= |sorted| + 1 && TopsFail(spendings, sorted, required, n)
    ensures forall chosen: seq<Note> :: |chosen| < n ==> !Affords(spendings, pool, required, chosen)
  {
    forall chosen: seq<Note> | |chosen| < n ensures !Affords(spendings, pool, required, chosen) {
      if multiset(chosen) <= multiset(pool) {
        Exchange(EthValue(), sorted, chosen);
        assert TopFails(spendings, sorted, required, |chosen|);
      }
    }
  }

  lemma TopFailsInfeasible(spendings: seq<Note>, sorted: seq<Note>, pool: seq<Note>, required: nat -> nat)
    requires multiset(sorted) == multiset(pool) && Ascending(EthValue(), sorted)
    requires TopsFail(spendings, sorted, required, |sorted| + 1)
    ensures !Feasible(spendings, pool, required)
  {
    TopsFailMeans(spendings, sorted, pool, required, |sorted| + 1);
    forall chosen: seq<Note> ensures !Affords(spendings, pool, required, chosen) {
      if multiset(chosen) <= multiset(pool) { Exchange(EthValue(), sorted, chosen); }
    }
  }

  // ----- the loop

  /** Of the |sorted| - n most valuable notes, `picked` carry ether and `skipped` carry none. */
  ghost predicate Picked(sorted: seq<Note>, n: nat, picked: seq<Note>, skipped: seq<Note>)
    requires n <= |sorted|
  {
    && multiset(picked) + multiset(skipped) == multiset(sorted[n..])
    && (forall x :: x in picked ==> x.eth > 0)
    && (forall x :: x in skipped ==> x.eth == 0)
  }

  lemma PickNothing(sorted: seq<Note>)
    ensures Picked(sorted, |sorted|, [], [])
  {
    assert sorted[|sorted|..] == [];
  }

  /** Moving the most valuable note left from the pool to the picked ones, if it carries ether. */
  lemma PickNext(sorted: seq<Note>, n: nat, picked: seq<Note>, skipped: seq<Note>)
    requires n < |sorted| && Picked(sorted, n + 1, picked, skipped)
    ensures if sorted[n].eth > 0 then Picked(sorted, n, picked + [sorted[n]], skipped)
            else Picked(sorted, n, picked, skipped + [sorted[n]])
  {
    var next := sorted[n];
    assert sorted[n..] == [next] + sorted[n + 1..];
    assert multiset(sorted[n..]) == multiset{next} + multiset(sorted[n + 1..]);
    assert multiset(picked + [next]) == multiset(picked) + multiset{next};
    assert multiset(skipped + [next]) == multiset(skipped) + multiset{next};
  }

  lemma PickedWorth(sorted: seq<Note>, n: nat, picked: seq<Note>, skipped: seq<Note>)
    requires n <= |sorted| && Picked(sorted, n, picked, skipped)
    ensures EthOf(picked) == EthOf(sorted[n..]) && |picked| <= |sorted| - n
  {
    SumSplit(EthValue(), picked, skipped, sorted[n..]);
    SumZero(EthValue(), skipped, |skipped|);
    assert |multiset(picked)| + |multiset(skipped)| == |multiset(sorted[n..])|;
  }

  lemma PickedTopsFail(spendings: seq<Note>, sorted: seq<Note>, required: nat -> nat, n: nat, picked: seq<Note>,
                       skipped: seq<Note>)
    requires NonDecreasing(required) && n <= |sorted| && Picked(sorted, n, picked, skipped)
    requires EthOf(spendings + picked) <= required(|spendings| + |picked|)
    requires TopsFail(spendings, sorted, required, |sorted| - n)
    ensures TopsFail(spendings, sorted, required, |sorted| - n + 1)
  {
    PickedWorth(sorted, n, picked, skipped);
    SumConcat(EthValue(), spendings, picked);
    assert required(|spendings| + |picked|) <= required(|spendings| + (|sorted| - n));
    assert sorted[|sorted| - (|sorted| - n)..] == sorted[n..];
    assert TopFails(spendings, sorted, required, |sorted| - n);
  }

  // ----- what it leaves

  /** Nothing left in the pool is worth more than anything chosen. */
  ghost predicate TopSplit(pool: seq<Note>, chosen: seq<Note>, left: seq<Note>) {
    && multiset(chosen) + multiset(left) == multiset(pool)
    && forall x, y :: x in chosen && y in left ==> y.eth <= x.eth
  }

  ghost predicate TopChoice(pool: seq<Note>, chosen: seq<Note>) {
    exists left: seq<Note> :: TopSplit(pool, chosen, left)
  }

  /** k is the least number of notes with which some choice does. */
  ghost predicate LeastNumber(spendings: seq<Note>, pool: seq<Note>, required: nat -> nat, k: nat) {
    && (exists chosen: seq<Note> :: |chosen| == k && Affords(spendings, pool, required, chosen))
    && forall chosen: seq<Note> :: |chosen| < k ==> !Affords(spendings, pool, required, chosen)
  }

  lemma PickedTop(sorted: seq<Note>, pool: seq<Note>, n: nat, picked: seq<Note>, skipped: seq<Note>)
    requires multiset(sorted) == multiset(pool) && Ascending(EthValue(), sorted)
    requires n <= |sorted| && Picked(sorted, n, picked, skipped)
    ensures TopChoice(pool, picked) && multiset(picked) <= multiset(pool)
  {
    var left := sorted[..n] + skipped;
    assert sorted == sorted[..n] + sorted[n..];
    assert multiset(left) == multiset(sorted[..n]) + multiset(skipped);
    assert multiset(picked) + multiset(left) == multiset(pool);
    forall x, y | x in picked && y in left ensures y.eth <= x.eth {
      if y !in skipped { LowerPart(sorted, n, picked, skipped, x, y); }
    }
    assert TopSplit(pool, picked, left);
  }

  lemma LowerPart(sorted: seq<Note>, n: nat, picked: seq<Note>, skipped: seq<Note>, x: Note, y: Note)
    requires Ascending(EthValue(), sorted) && n <= |sorted| && Picked(sorted, n, picked, skipped)
    requires x in picked && y in sorted[..n]
    ensures y.eth <= x.eth
  {
    assert x in multiset(picked) && x in multiset(sorted[n..]);
    var i :| n <= i < |sorted| && sorted[i] == x;
    var j :| 0 <= j < n && sorted[j] == y;
    assert EthValue()(sorted[j]) <= EthValue()(sorted[i]);
  }

  lemma PickedLeast(spendings: seq<Note>, sorted: seq<Note>, pool: seq<Note>, required: nat -> nat, n: nat,
                    picked: seq<Note>, skipped: seq<Note>)
    requires multiset(sorted) == multiset(pool) && Ascending(EthValue(), sorted)
    requires n <= |sorted| && Picked(sorted, n, picked, skipped) && multiset(picked) <= multiset(pool)
    requires TopsFail(spendings, sorted, required, |sorted| - n)
    requires EthOf(spendings + picked) > required(|spendings| + |picked|)
    ensures Affords(spendings, pool, required, picked) && Feasible(spendings, pool, required)
    ensures LeastNumber(spendings, pool, required, |picked|)
  {
    PickedWorth(sorted, n, picked, skipped);
    SumConcat(EthValue(), spendings, picked);
    assert Affords(spendings, pool, required, picked);
    TopsFailMeans(spendings, sorted, pool, required, |sorted| - n);
  }

  /** `required` is what the transaction needs in ether for a number of inputs. The notes are taken from the most
      valuable down until the ether spent exceeds it; notes without ether are skipped. It gives up exactly when no
      choice of notes, of any number, would do; otherwise it takes the least number of notes that can do, and the most
      valuable ones. */
  method SpendEther(spendings: seq<Note>, pool: seq<Note>, required: nat -> nat) returns (picked: seq<Note>, ok: bool)
    requires NonDecreasing(required)
    ensures ok <==> Feasible(spendings, pool, required)
    ensures ok ==> Affords(spendings, pool, required, picked)
    ensures ok ==> LeastNumber(spendings, pool, required, |picked|) && TopChoice(pool, picked)
    ensures forall x :: x in picked ==> x.eth > 0
  {
    var sorted := SortBy(EthValue(), pool);
    var n := |sorted|;
    picked := [];
    ghost var skipped: seq<Note> := [];
    PickNothing(sorted);
    while EthOf(spendings + picked) <= required(|spendings| + |picked|)
      invariant 0 <= n <= |sorted| && Picked(sorted, n, picked, skipped)
      invariant TopsFail(spendings, sorted, required, |sorted| - n)
      decreases n
    {
      PickedTopsFail(spendings, sorted, required, n, picked, skipped);
      if n == 0 {
        TopFailsInfeasible(spendings, sorted, pool, required);
        return picked, false;
      }
      n := n - 1;
      PickNext(sorted, n, picked, skipped);
      var spending := sorted[n];
      if spending.eth > 0 {
        picked := picked + [spending];
      } else {
        skipped := skipped + [spending];
      }
    }
    PickedTop(sorted, pool, n, picked, skipped);
    PickedLeast(spendings, sorted, pool, required, n, picked, skipped);
    ok := true;
  }

  // ----- which notes those are

  function MoreThan(eth: nat): Note -> nat { (n: Note) => if n.eth > eth then 1 else 0 }

  function NoLessThan(eth: nat): Note -> nat { (n: Note) => if n.eth >= eth then 1 else 0 }

  function Exactly(eth: nat): Note -> nat { (n: Note) => if n.eth == eth then 1 else 0 }

  /** Some note of a kind, with ether, has fewer than k notes above it. */
  ghost predicate OnTop(kind: Note -> bool, pool: seq<Note>, k: nat) {
    exists x :: x in pool && kind(x) && x.eth > 0 && Sum(MoreThan(x.eth), pool) < k
  }

  /** Some note of a kind, with ether, has fewer than k others above it or level with it. */
  ghost predicate ClearlyOnTop(kind: Note -> bool, pool: seq<Note>, k: nat) {
    exists x :: x in pool && kind(x) && x.eth > 0 && Sum(NoLessThan(x.eth), pool) <= k
  }

  lemma {:induction false} SumOnes(f: Note -> nat, notes: seq<Note>, n: nat)
    requires n <= |notes| && forall x :: x in notes ==> f(x) <= 1
    ensures SumTo(f, notes, n) <= n
    ensures (forall x :: x in notes ==> f(x) == 1) ==> SumTo(f, notes, n) == n
  {
    if n > 0 { SumOnes(f, notes, n - 1); }
  }

  lemma {:induction false} SumMisses(f: Note -> nat, notes: seq<Note>, n: nat, i: nat)
    requires i < n <= |notes| && (forall x :: x in notes ==> f(x) <= 1) && f(notes[i]) == 0
    ensures SumTo(f, notes, n) < n
  {
    if i < n - 1 { SumMisses(f, notes, n - 1, i); } else { SumOnes(f, notes, n - 1); }
  }

  /** A note that is chosen has fewer above it than were chosen. */
  lemma ChosenRank(pool: seq<Note>, chosen: seq<Note>, x: Note)
    requires TopChoice(pool, chosen) && x in chosen
    ensures x in pool && Sum(MoreThan(x.eth), pool) < |chosen|
  {
    var left :| TopSplit(pool, chosen, left);
    var f := MoreThan(x.eth);
    assert x in multiset(chosen) && x in multiset(pool);
    SumSplit(f, chosen, left, pool);
    SumZero(f, left, |left|);
    var i :| 0 <= i < |chosen| && chosen[i] == x;
    SumMisses(f, chosen, |chosen|, i);
  }

  /** A note that is left has all the chosen ones above it or level with it. */
  lemma LeftRank(pool: seq<Note>, chosen: seq<Note>, x: Note)
    requires TopChoice(pool, chosen) && x in pool && x !in chosen
    ensures Sum(NoLessThan(x.eth), pool) > |chosen|
  {
    var left :| TopSplit(pool, chosen, left);
    var f := NoLessThan(x.eth);
    assert x in multiset(pool) && x in multiset(left);
    SumSplit(f, chosen, left, pool);
    SumOnes(f, chosen, |chosen|);
    var i :| 0 <= i < |left| && left[i] == x;
    SumMember(f, left, |left|, i);
  }

  /** Whether a note of a kind is chosen, read off the pool. Only notes level with each other leave it open. */
  lemma ChosenKind(kind: Note -> bool, pool: seq<Note>, chosen: seq<Note>)
    requires TopChoice(pool, chosen) && forall x :: x in chosen ==> x.eth > 0
    ensures (exists x :: x in chosen && kind(x)) ==> OnTop(kind, pool, |chosen|)
    ensures ClearlyOnTop(kind, pool, |chosen|) ==> exists x :: x in chosen && kind(x)
  {
    if x :| x in chosen && kind(x) { ChosenRank(pool, chosen, x); }
    if ClearlyOnTop(kind, pool, |chosen|) {
      var x :| x in pool && kind(x) && x.eth > 0 && Sum(NoLessThan(x.eth), pool) <= |chosen|;
      if x !in chosen { LeftRank(pool, chosen, x); }
    }
  }

  /** No two notes carry the same ether, unless none. */
  ghost predicate DistinctEther(pool: seq<Note>) {
    forall i, j :: 0 <= i < j < |pool| && pool[i].eth > 0 ==> pool[i].eth != pool[j].eth
  }

  lemma {:induction false} CountOne(pool: seq<Note>, n: nat, i: nat)
    requires i < |pool| && n <= |pool| && DistinctEther(pool) && pool[i].eth > 0
    ensures SumTo(Exactly(pool[i].eth), pool, n) == if i < n then 1 else 0
  {
    if n > 0 {
      CountOne(pool, n - 1, i);
      if n - 1 != i { assert pool[n - 1].eth != pool[i].eth; }
    }
  }

  lemma {:induction false} LevelOrAbove(pool: seq<Note>, n: nat, eth: nat)
    requires n <= |pool|
    ensures SumTo(NoLessThan(eth), pool, n) == SumTo(MoreThan(eth), pool, n) + SumTo(Exactly(eth), pool, n)
  {
    if n > 0 { LevelOrAbove(pool, n - 1, eth); }
  }

  lemma DistinctOnTop(kind: Note -> bool, pool: seq<Note>, k: nat)
    requires DistinctEther(pool)
    ensures OnTop(kind, pool, k) <==> ClearlyOnTop(kind, pool, k)
  {
    forall x | x in pool && x.eth > 0 ensures Sum(NoLessThan(x.eth), pool) == Sum(MoreThan(x.eth), pool) + 1 {
      var i :| 0 <= i < |pool| && pool[i] == x;
      CountOne(pool, |pool|, i);
      LevelOrAbove(pool, |pool|, x.eth);
    }
  }

  lemma LeastUnique(spendings: seq<Note>, pool: seq<Note>, required: nat -> nat, j: nat, k: nat)
    requires LeastNumber(spendings, pool, required, j) && LeastNumber(spendings, pool, required, k)
    ensures j == k
  {
    var a: seq<Note> :| |a| == j && Affords(spendings, pool, required, a);
    var b: seq<Note> :| |b| == k && Affords(spendings, pool, required, b);
    assert !(|a| < k) && !(|b| < j);
  }
}
