/**
 * `isPermutation` of the sorting driver: two arrays are permutations of each
 * other when they have the same length and their sorted copies are equal.
 * The library sort is stood in for by a functional insertion sort; any sort
 * gives the same copy, because a sorted sequence is fixed by its multiset.
 */
module Permutation {

  /** Non-decreasing order, over every pair of positions. */
  ghost predicate Sorted(s: seq<int>) {
    forall i, j :: 0 <= i < j < |s| ==> s[i] <= s[j]
  }

  /** Every element of `t` is at least `h`. */
  ghost predicate Below(h: int, t: seq<int>) {
    forall k :: 0 <= k < |t| ==> h <= t[k]
  }

  lemma BelowSameMultiset(h: int, t: seq<int>, u: seq<int>)
    requires Below(h, u) && multiset(t) == multiset(u)
    ensures Below(h, t)
  {
    forall k | 0 <= k < |t| ensures h <= t[k] {
      assert t[k] in multiset(u);
    }
  }

  lemma SortedPrepend(h: int, t: seq<int>)
    requires Sorted(t) && Below(h, t)
    ensures Sorted([h] + t)
  {
    var s := [h] + t;
    forall i, j | 0 <= i < j < |s| ensures s[i] <= s[j] {
      if i > 0 {
        assert s[i] == t[i - 1] && s[j] == t[j - 1];
      } else {
        assert s[j] == t[j - 1];
      }
    }
  }

  lemma SortedTail(s: seq<int>)
    requires Sorted(s) && s != []
    ensures Sorted(s[1..]) && Below(s[0], s[1..])
  {
  }

  /** Insert `x` into a sorted sequence, before the first larger element. */
  function Insert(x: int, s: seq<int>): (r: seq<int>)
    requires Sorted(s)
    ensures Sorted(r) && multiset(r) == multiset(s) + multiset{x}
    decreases |s|
  {
    if s == [] then
      [x]
    else if x <= s[0] then
      SortedTail(s);
      assert Below(x, s);
      SortedPrepend(x, s);
      [x] + s
    else
      assert s == [s[0]] + s[1..];
      SortedTail(s);
      var rest := Insert(x, s[1..]);
      assert Below(s[0], s[1..] + [x]);
      assert multiset(rest) == multiset(s[1..] + [x]);
      BelowSameMultiset(s[0], rest, s[1..] + [x]);
      SortedPrepend(s[0], rest);
      [s[0]] + rest
  }

  /** The sorted copy of `s` (the clone handed to the library sort). */
  function SortedCopy(s: seq<int>): (r: seq<int>)
    ensures Sorted(r) && multiset(r) == multiset(s)
    decreases |s|
  {
    if s == [] then
      []
    else
      assert s == [s[0]] + s[1..];
      Insert(s[0], SortedCopy(s[1..]))
  }

  /**
   * `isPermutation`: a length mismatch answers false straight away; otherwise
   * the sorted copies are compared element by element. Being a function, it
   * changes neither argument. The answer is exactly whether the two arrays
   * hold the same multiset of values.
   */
  function IsPermutation(a: seq<int>, b: seq<int>): (r: bool)
    ensures r <==> multiset(a) == multiset(b)
  {
    if |a| != |b| then
      assert |multiset(a)| == |a| && |multiset(b)| == |b|;
      false
    else
      var sa, sb := SortedCopy(a), SortedCopy(b);
      if multiset(a) == multiset(b) then
        SortedUnique(sa, sb);
        sa == sb
      else
        sa == sb
  }

  /** The head of a sorted sequence is its least element. */
  lemma HeadIsLeast(a: seq<int>, y: int)
    requires Sorted(a) && a != [] && y in multiset(a)
    ensures a[0] <= y
  {
    var m :| 0 <= m < |a| && a[m] == y;
  }

  lemma DropHead(a: seq<int>)
    requires a != []
    ensures a[0] in multiset(a) && multiset(a[1..]) == multiset(a) - multiset{a[0]}
  {
    assert a == [a[0]] + a[1..];
  }

  /** Two sorted sequences with the same elements are the same sequence. */
  lemma {:induction false} SortedUnique(a: seq<int>, b: seq<int>)
    requires Sorted(a) && Sorted(b) && multiset(a) == multiset(b)
    ensures a == b
    decreases |a|
  {
    assert |a| == |multiset(a)| == |multiset(b)| == |b|;
    if a != [] {
      DropHead(a);
      DropHead(b);
      HeadIsLeast(a, b[0]);
      HeadIsLeast(b, a[0]);
      SortedTail(a);
      SortedTail(b);
      assert a[0] == b[0];
      assert multiset(a[1..]) == multiset(b[1..]);
      SortedUnique(a[1..], b[1..]);
      assert a == [a[0]] + a[1..] && b == [b[0]] + b[1..];
    }
  }

  /** Arrays of different lengths are never permutations of each other. */
  lemma LengthMismatchIsNoPermutation(a: seq<int>, b: seq<int>)
    requires |a| != |b|
    ensures !IsPermutation(a, b)
  {
  }
}
