/** Sequence facts shared by the listing, filtering and pruning steps. */
module Seqs {

  /** No name occurs twice: true of any directory listing. */
  predicate NoDup<T(==)>(s: seq<T>) {
    forall i, j :: 0 <= i < j < |s| ==> s[i] != s[j]
  }

  /** A list comprehension `[x for x in s if keep(x)]`: keeps the entries
      that pass, every copy of them and nothing else. */
  function Filter<T(==,!new)>(s: seq<T>, keep: T -> bool): (r: seq<T>)
    ensures |r| <= |s|
    ensures forall x :: multiset(r)[x] == if keep(x) then multiset(s)[x] else 0
    ensures forall x :: x in r <==> x in s && keep(x)
  {
    if |s| == 0 then []
    else
      assert s == [s[0]] + s[1..];
      if keep(s[0]) then [s[0]] + Filter(s[1..], keep) else Filter(s[1..], keep)
  }

  lemma NoDupTail<T>(s: seq<T>)
    requires NoDup(s) && |s| > 0
    ensures NoDup(s[1..]) && s[0] !in s[1..]
  {
    forall j | 0 <= j < |s[1..]|
      ensures s[1..][j] != s[0]
    {
      assert s[1..][j] == s[j + 1];
    }
  }

  /** Filtering a list without repeats gives a list without repeats. */
  lemma {:induction false} FilterNoDup<T(!new)>(s: seq<T>, keep: T -> bool)
    ensures NoDup(s) ==> NoDup(Filter(s, keep))
    decreases |s|
  {
    if |s| > 0 && NoDup(s) {
      NoDupTail(s);
      FilterNoDup(s[1..], keep);
    }
  }

  /** In a list without repeats each element occurs exactly once. */
  lemma {:induction false} NoDupCounts<T>(s: seq<T>)
    requires NoDup(s)
    ensures forall x :: multiset(s)[x] == if x in s then 1 else 0
    decreases |s|
  {
    if |s| > 0 {
      assert s == [s[0]] + s[1..];
      NoDupTail(s);
      NoDupCounts(s[1..]);
    }
  }

  /** A list in which nothing occurs twice has no repeats. */
  lemma {:induction false} CountsNoDup<T>(s: seq<T>)
    requires forall x :: multiset(s)[x] <= 1
    ensures NoDup(s)
    decreases |s|
  {
    if |s| > 0 {
      var t := s[1..];
      assert s == [s[0]] + t;
      assert forall x :: multiset(t)[x] <= multiset(s)[x];
      CountsNoDup(t);
      assert multiset(t)[s[0]] == 0;
      forall i, j | 0 <= i < j < |s|
        ensures s[i] != s[j]
      {
        assert s[j] == t[j - 1];
        if i > 0 {
          assert s[i] == t[i - 1];
        } else {
          assert t[j - 1] in multiset(t);
        }
      }
    }
  }

  /** Rearranging a list without repeats gives a list without repeats. */
  lemma PermutationNoDup<T>(s: seq<T>, t: seq<T>)
    requires NoDup(s) && multiset(t) == multiset(s)
    ensures NoDup(t)
  {
    NoDupCounts(s);
    CountsNoDup(t);
  }

  /** Every prefix of a list without repeats has none. */
  lemma NoDupPrefix<T>(s: seq<T>, k: nat)
    requires NoDup(s) && k <= |s|
    ensures NoDup(s[..k])
  {
    forall i, j | 0 <= i < j < k
      ensures s[..k][i] != s[..k][j]
    {
      assert s[..k][i] == s[i] && s[..k][j] == s[j];
    }
  }

  /** Multisets with the same count for every element are equal. */
  lemma MultisetExtensional<T>(a: multiset<T>, b: multiset<T>)
    requires forall x :: a[x] == b[x]
    ensures a == b
  {
  }
}
