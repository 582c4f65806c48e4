/**
  Ordering facts about integer sequences and the in-place ascending sort that
  stands for `Array.prototype.sort((a, b) => a - b)`.
 */
module Sorting {

  predicate Sorted(s: seq<int>) {
    forall i, j :: 0 <= i < j < |s| ==> s[i] <= s[j]
  }

  /** The first `n` elements of `s` are in ascending order; `SortedPrefix(s, |s|)` is
      `Sorted(s)`. The sort's invariants use this named form so that the solver does not
      instantiate their quantifiers where they are not needed. */
  ghost predicate SortedPrefix(s: seq<int>, n: nat) {
    forall p, q :: 0 <= p < q < n && q < |s| ==> s[p] <= s[q]
  }

  predicate StrictlyIncreasing(s: seq<int>) {
    forall i, j :: 0 <= i < j < |s| ==> s[i] < s[j]
  }

  predicate Distinct(s: seq<int>) {
    forall i, j :: 0 <= i < j < |s| ==> s[i] != s[j]
  }

  /** Exchanging two elements keeps the multiset of elements. */
  lemma SwapPermutes(s: seq<int>, i: nat, j: nat)
    requires i < |s| && j < |s|
    ensures multiset(s[i := s[j]][j := s[i]]) == multiset(s)
  {
  }

  /** Sorts `a` ascending in place by numeric comparison; the result is a permutation of the input. */
  method InsertionSort(a: array<int>)
    modifies a
    ensures Sorted(a[..])
    ensures multiset(a[..]) == multiset(old(a[..]))
  {
    var i := 0;
    while i < a.Length
      invariant 0 <= i <= a.Length
      invariant SortedPrefix(a[..], i)
      invariant multiset(a[..]) == multiset(old(a[..]))
    {
      Insert(a, i);
      i := i + 1;
    }
    assert SortedPrefix(a[..], a.Length);
  }

  /** Midway through inserting the element now at `j` into the sorted prefix: `s[..i + 1]`
      is sorted once position `j` is ignored, and what follows `j` up to `i` is no smaller. */
  ghost predicate Inserting(s: seq<int>, j: nat, i: nat) {
    && j <= i < |s|
    && (forall p, q :: 0 <= p < q <= i && p != j && q != j ==> s[p] <= s[q])
    && (forall q :: j < q <= i ==> s[j] <= s[q])
  }

  /** Swapping the element with a larger left neighbour moves it one place left. */
  lemma InsertingStep(s: seq<int>, j: nat, i: nat)
    requires Inserting(s, j, i) && 0 < j && s[j - 1] > s[j]
    ensures Inserting(s[j - 1 := s[j]][j := s[j - 1]], j - 1, i)
  {
    var t := s[j - 1 := s[j]][j := s[j - 1]];
    forall p, q | 0 <= p < q <= i && p != j - 1 && q != j - 1 ensures t[p] <= t[q] {
      if p == j {
        assert t[p] == s[j - 1] && t[q] == s[q];
      } else if q == j {
        assert t[q] == s[j - 1] && t[p] == s[p];
      } else {
        assert t[p] == s[p] && t[q] == s[q];
      }
    }
  }

  /** Once the left neighbour is no larger (or there is none), the prefix is sorted. */
  lemma InsertingDone(s: seq<int>, j: nat, i: nat)
    requires Inserting(s, j, i) && (j == 0 || s[j - 1] <= s[j])
    ensures SortedPrefix(s, i + 1)
  {
    forall p, q | 0 <= p < q <= i ensures s[p] <= s[q] {
      if q == j && p < j - 1 {
        assert s[p] <= s[j - 1];
      }
    }
  }

  /** Moves `a[i]` left into the sorted prefix `a[..i]`, so that `a[..i + 1]` is sorted:
      the prefix is only permuted and nothing beyond index `i` changes. */
  method Insert(a: array<int>, i: nat)
    requires i < a.Length
    requires SortedPrefix(a[..], i)
    modifies a
    ensures SortedPrefix(a[..], i + 1)
    ensures a[i + 1..] == old(a[i + 1..])
    ensures multiset(a[..i + 1]) == multiset(old(a[..i + 1]))
    ensures multiset(a[..]) == multiset(old(a[..]))
  {
    var j := i;
    while j > 0 && a[j - 1] > a[j]
      invariant 0 <= j && Inserting(a[..], j, i)
      invariant a[i + 1..] == old(a[i + 1..])
      invariant multiset(a[..i + 1]) == multiset(old(a[..i + 1]))
      invariant multiset(a[..]) == multiset(old(a[..]))
    {
      ghost var before := a[..];
      a[j - 1], a[j] := a[j], a[j - 1];
      assert a[..] == before[j - 1 := before[j]][j := before[j - 1]];
      assert a[..i + 1] == before[..i + 1][j - 1 := before[j]][j := before[j - 1]];
      SwapPermutes(before, j - 1, j);
      SwapPermutes(before[..i + 1], j - 1, j);
      InsertingStep(before, j, i);
      j := j - 1;
    }
    InsertingDone(a[..], j, i);
  }

  /** A sequence is duplicate-free exactly when no value occurs in it more than once. */
  lemma {:induction false} DistinctCounts(s: seq<int>)
    ensures Distinct(s) <==> forall x :: multiset(s)[x] <= 1
    decreases |s|
  {
    if s != [] {
      var t := s[1..];
      assert s == [s[0]] + t;
      assert multiset(s) == multiset{s[0]} + multiset(t);
      DistinctCounts(t);
      if Distinct(s) {
        assert s[0] !in t by {
          forall k | 0 <= k < |t| ensures t[k] != s[0] { assert t[k] == s[k + 1]; }
        }
        assert Distinct(t) by {
          forall p, q | 0 <= p < q < |t| ensures t[p] != t[q] { assert t[p] == s[p + 1] && t[q] == s[q + 1]; }
        }
      }
      if forall x :: multiset(s)[x] <= 1 {
        assert multiset(s)[s[0]] <= 1;
        assert multiset(t)[s[0]] == 0;
        assert forall x :: multiset(t)[x] <= multiset(s)[x];
        forall p, q | 0 <= p < q < |s| ensures s[p] != s[q] {
          if p == 0 {
            assert s[q] == t[q - 1] && s[q] in multiset(t);
          } else {
            assert s[p] == t[p - 1] && s[q] == t[q - 1];
          }
        }
      }
    }
  }

  /** A permutation of a duplicate-free sequence is duplicate-free. */
  lemma PermutationDistinct(a: seq<int>, b: seq<int>)
    requires multiset(a) == multiset(b) && Distinct(b)
    ensures Distinct(a)
  {
    DistinctCounts(b);
    DistinctCounts(a);
  }

  /** Two strictly increasing sequences with the same members are the same sequence:
      the ascending listing of a finite set of integers is unique. */
  lemma {:induction false} StrictlyIncreasingUnique(a: seq<int>, b: seq<int>)
    requires StrictlyIncreasing(a) && StrictlyIncreasing(b)
    requires forall x :: x in a <==> x in b
    ensures a == b
    decreases |a|
  {
    assert a != [] ==> a[0] in a && a[0] in b;
    assert b != [] ==> b[0] in b && b[0] in a;
    if a != [] {
      assert a[0] == b[0] by {
        assert a[0] in b && b[0] in a;
      }
      forall x ensures x in a[1..] <==> x in b[1..] {
        if x in a[1..] { assert x in a && x > a[0]; }
        if x in b[1..] { assert x in b && x > b[0]; }
      }
      StrictlyIncreasingUnique(a[1..], b[1..]);
      assert a == [a[0]] + a[1..] && b == [b[0]] + b[1..];
    }
  }
}
