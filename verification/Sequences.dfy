/** Lists: taking an element out and putting one in, sorting, filters, lists without repetitions. */
module Sequences {

  /** The list without its k-th element. */
  function Delete<A>(s: seq<A>, k: nat): (r: seq<A>)
    requires k < |s|
    ensures |r| == |s| - 1
  {
    s[..k] + s[k + 1..]
  }

  lemma DeleteMembers<A>(s: seq<A>, k: nat)
    requires k < |s|
    ensures forall x :: x in Delete(s, k) ==> x in s
  {}

  lemma DeleteCounts<A>(s: seq<A>, k: nat)
    requires k < |s|
    ensures multiset(s) == multiset(Delete(s, k)) + multiset{s[k]}
  {
    assert s == s[..k] + [s[k]] + s[k + 1..];
  }

  lemma InsertIndex<A>(s: seq<A>, k: nat, x: A, i: nat)
    requires k <= |s| && i <= |s|
    ensures (s[..k] + [x] + s[k..])[i] == if i < k then s[i] else if i == k then x else s[i - 1]
  {}

  lemma InsertCounts<A>(s: seq<A>, k: nat, x: A)
    requires k <= |s|
    ensures multiset(s[..k] + [x] + s[k..]) == multiset(s) + multiset{x}
  {
    assert s == s[..k] + s[k..];
  }

  lemma ConcatAssociative<A>(a: seq<A>, b: seq<A>, c: seq<A>)
    ensures (a + b) + c == a + (b + c)
  {}

  // ----- sorting

  ghost predicate Ascending<A>(f: A -> nat, s: seq<A>) {
    forall i, j :: 0 <= i < j < |s| ==> f(s[i]) <= f(s[j])
  }

  /** `s.sort((a, b) => f(a) > f(b) ? 1 : -1)`: the comparison leaves the order of equals open, and so does this. */
  method SortBy<A>(f: A -> nat, s: seq<A>) returns (r: seq<A>)
    ensures multiset(r) == multiset(s) && Ascending(f, r)
  {
    r := [];
    for i := 0 to |s|
      invariant multiset(r) == multiset(s[..i]) && Ascending(f, r)
    {
      assert s[..i + 1] == s[..i] + [s[i]];
      r := InsertBy(f, r, s[i]);
    }
    assert s[..|s|] == s;
  }

  method InsertBy<A>(f: A -> nat, s: seq<A>, x: A) returns (r: seq<A>)
    requires Ascending(f, s)
    ensures multiset(r) == multiset(s) + multiset{x} && Ascending(f, r)
  {
    var k := 0;
    while k < |s| && f(s[k]) <= f(x)
      invariant k <= |s| && forall i :: 0 <= i < k ==> f(s[i]) <= f(x)
    {
      k := k + 1;
    }
    r := s[..k] + [x] + s[k..];
    InsertCounts(s, k, x);
    forall i, j | 0 <= i < j < |r| ensures f(r[i]) <= f(r[j]) {
      InsertIndex(s, k, x, i);
      InsertIndex(s, k, x, j);
    }
  }

  // ----- filters

  function FilterTo<A>(keep: A -> bool, s: seq<A>, n: nat): seq<A>
    requires n <= |s|
  {
    if n == 0 then [] else FilterTo(keep, s, n - 1) + (if keep(s[n - 1]) then [s[n - 1]] else [])
  }

  function Filter<A>(keep: A -> bool, s: seq<A>): seq<A> { FilterTo(keep, s, |s|) }

  lemma {:induction false} FilterMembers<A>(keep: A -> bool, s: seq<A>, n: nat)
    requires n <= |s|
    ensures forall x :: x in FilterTo(keep, s, n) ==> keep(x) && x in s
    ensures forall i :: 0 <= i < n && keep(s[i]) ==> s[i] in FilterTo(keep, s, n)
  {
    if n > 0 { FilterMembers(keep, s, n - 1); }
  }

  lemma {:induction false} FilterPrefix<A>(keep: A -> bool, a: seq<A>, b: seq<A>, n: nat)
    requires n <= |a|
    ensures FilterTo(keep, a + b, n) == FilterTo(keep, a, n)
  {
    if n > 0 { FilterPrefix(keep, a, b, n - 1); }
  }

  lemma FilterSnoc<A>(keep: A -> bool, s: seq<A>, x: A)
    ensures Filter(keep, s + [x]) == Filter(keep, s) + (if keep(x) then [x] else [])
  {
    FilterPrefix(keep, s, [x], |s|);
  }

  lemma {:induction false} FilterCounts<A>(keep: A -> bool, s: seq<A>, n: nat, x: A)
    requires n <= |s|
    ensures multiset(FilterTo(keep, s, n))[x] == if keep(x) then multiset(s[..n])[x] else 0
  {
    if n > 0 {
      FilterCounts(keep, s, n - 1, x);
      assert s[..n] == s[..n - 1] + [s[n - 1]];
    }
  }

  lemma FilterWithin<A>(keep: A -> bool, s: seq<A>, n: nat)
    requires n <= |s|
    ensures multiset(FilterTo(keep, s, n)) <= multiset(s[..n])
  {
    forall x ensures multiset(FilterTo(keep, s, n))[x] <= multiset(s[..n])[x] { FilterCounts(keep, s, n, x); }
  }

  // ----- no repetitions

  ghost predicate Distinct<A(!new)>(s: seq<A>) {
    forall i, j :: 0 <= i < j < |s| ==> s[i] != s[j]
  }

  lemma ConcatCounts<A>(a: seq<A>, b: seq<A>)
    ensures multiset(a + b) == multiset(a) + multiset(b)
  {}

  lemma TwiceCounted<A>(s: seq<A>, i: nat, j: nat)
    requires i < j < |s|
    ensures s[i] == s[j] ==> multiset(s)[s[i]] >= 2
  {
    assert s == s[..j] + s[j..];
    ConcatCounts(s[..j], s[j..]);
    assert s[..j][i] == s[i] && s[j..][0] == s[j];
  }

  lemma {:induction false} DistinctOnce<A(!new)>(s: seq<A>, x: A)
    requires Distinct(s)
    ensures multiset(s)[x] <= 1
  {
    if s != [] {
      var n := |s| - 1;
      assert s == s[..n] + [s[n]];
      ConcatCounts(s[..n], [s[n]]);
      DistinctOnce(s[..n], x);
      if x == s[n] { assert x !in s[..n]; }
    }
  }
}
