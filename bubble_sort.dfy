/**
 * `bubbleSort` of the two sorting drivers (the same text in both): repeated
 * passes over the array that swap out-of-order neighbours, until a pass
 * makes no swap. Termination is by the number of inversions, which every
 * swap lowers by one.
 */
module BubbleSorting {
  import opened Permutation

  /** What the drivers assert after sorting: each element is at most its right neighbour. */
  ghost predicate AdjacentSorted(s: seq<int>) {
    forall i :: 0 <= i < |s| - 1 ==> s[i] <= s[i + 1]
  }

  /** Elements of `t` smaller than `x`. */
  ghost function CountLess(x: int, t: seq<int>): nat
    decreases |t|
  {
    if t == [] then 0 else (if t[0] < x then 1 else 0) + CountLess(x, t[1..])
  }

  /** Pairs of positions `i < j` with `s[i] > s[j]`. */
  ghost function Inversions(s: seq<int>): nat
    decreases |s|
  {
    if s == [] then 0 else CountLess(s[0], s[1..]) + Inversions(s[1..])
  }

  /** `s` with positions `k` and `k + 1` exchanged. */
  ghost function SwapNext(s: seq<int>, k: int): (r: seq<int>)
    requires 0 <= k < |s| - 1
    ensures |r| == |s| && multiset(r) == multiset(s)
  {
    s[k := s[k + 1]][k + 1 := s[k]]
  }

  /** Exchanging two neighbours does not change how many elements are below `x`. */
  lemma {:induction false} CountLessSwap(x: int, t: seq<int>, k: int)
    requires 0 <= k < |t| - 1
    ensures CountLess(x, SwapNext(t, k)) == CountLess(x, t)
    decreases k
  {
    var u := SwapNext(t, k);
    if k == 0 {
      assert u[0] == t[1] && u[1..][0] == t[0];
      assert u[1..][1..] == t[1..][1..];
      assert CountLess(x, u) == (if t[1] < x then 1 else 0) + CountLess(x, u[1..]);
      assert CountLess(x, u[1..]) == (if t[0] < x then 1 else 0) + CountLess(x, t[1..][1..]);
      assert CountLess(x, t[1..]) == (if t[1] < x then 1 else 0) + CountLess(x, t[1..][1..]);
    } else {
      assert u[1..] == SwapNext(t[1..], k - 1);
      CountLessSwap(x, t[1..], k - 1);
    }
  }

  /** Swapping an out-of-order pair of neighbours removes exactly one inversion. */
  lemma {:induction false} SwapRemovesInversion(s: seq<int>, k: int)
    requires 0 <= k < |s| - 1 && s[k] > s[k + 1]
    ensures Inversions(SwapNext(s, k)) == Inversions(s) - 1
    decreases k
  {
    var u := SwapNext(s, k);
    if k == 0 {
      var t := s[2..];
      assert s[1..] == [s[1]] + t && s[1..][1..] == t;
      assert u[1..] == [s[0]] + t && u[1..][1..] == t;
    } else {
      assert u[0] == s[0];
      assert u[1..] == SwapNext(s[1..], k - 1);
      CountLessSwap(s[0], s[1..], k - 1);
      SwapRemovesInversion(s[1..], k - 1);
    }
  }

  /** A sequence whose neighbours are in order is sorted. */
  lemma {:induction false} AdjacentSortedIsSorted(s: seq<int>)
    requires AdjacentSorted(s)
    ensures Sorted(s)
    decreases |s|
  {
    if |s| > 1 {
      AdjacentSortedIsSorted(s[1..]);
      forall j | 1 <= j < |s| ensures s[0] <= s[j] {
        assert s[j] == s[1..][j - 1];
        if j > 1 {
          assert s[1..][0] <= s[1..][j - 1];
        }
      }
    }
  }

  /** A sorted sequence has no inversion. */
  lemma {:induction false} SortedHasNoInversions(s: seq<int>)
    requires Sorted(s)
    ensures Inversions(s) == 0
    decreases |s|
  {
    if s != [] {
      SortedTail(s);
      NoneBelowHead(s[0], s[1..]);
      SortedHasNoInversions(s[1..]);
    }
  }

  /** No element of `t` is below a lower bound of `t`. */
  lemma {:induction false} NoneBelowHead(x: int, t: seq<int>)
    requires Below(x, t)
    ensures CountLess(x, t) == 0
    decreases |t|
  {
    if t != [] {
      NoneBelowHead(x, t[1..]);
    }
  }

  /**
   * What a pass knows after comparing positions below `i` of `a0`: the
   * elements are those of `a0`; a swap so far means fewer inversions, no swap
   * means `a0` unchanged with its first `i` neighbours in order; and `s[i]` is
   * the largest of `s[..i + 1]`.
   */
  ghost predicate PassInvariant(a0: seq<int>, s: seq<int>, i: int, swapped: bool) {
    && |s| == |a0| && 0 <= i && (i < |s| || i == 0)
    && multiset(s) == multiset(a0)
    && (swapped ==> Inversions(s) < Inversions(a0))
    && (!swapped ==> s == a0 && forall k :: 0 <= k < i ==> s[k] <= s[k + 1])
    && (|s| > 0 ==> forall k :: 0 <= k <= i ==> s[k] <= s[i])
  }

  /** One comparison of a pass, with or without its swap, keeps PassInvariant. */
  lemma PassStep(a0: seq<int>, s: seq<int>, i: int, swapped: bool)
    requires PassInvariant(a0, s, i, swapped) && i < |s| - 1
    ensures s[i] > s[i + 1] ==> PassInvariant(a0, SwapNext(s, i), i + 1, true)
    ensures s[i] <= s[i + 1] ==> PassInvariant(a0, s, i + 1, swapped)
  {
    if s[i] > s[i + 1] {
      SwapRemovesInversion(s, i);
      var u := SwapNext(s, i);
      forall k | 0 <= k <= i + 1 ensures u[k] <= u[i + 1] {
        if k < i {
          assert u[k] == s[k];
        }
      }
    }
  }

  /**
   * One pass of the do-while loop: compare each element with its right
   * neighbour and swap them when out of order. A pass that swaps lowers the
   * inversion count; a pass that does not leaves the array as it was, with
   * every neighbour in order. Either way the largest element ends last.
   */
  method Pass(arr: array<int>) returns (swapped: bool)
    modifies arr
    ensures multiset(arr[..]) == multiset(old(arr[..]))
    ensures swapped ==> Inversions(arr[..]) < Inversions(old(arr[..]))
    ensures !swapped ==> arr[..] == old(arr[..]) && AdjacentSorted(arr[..])
    ensures forall k :: 0 <= k < arr.Length ==> arr[k] <= arr[arr.Length - 1]
  {
    var n := arr.Length;
    swapped := false;
    var i := 0;
    while i < n - 1
      invariant PassInvariant(old(arr[..]), arr[..], i, swapped)
    {
      PassStep(old(arr[..]), arr[..], i, swapped);
      if arr[i] > arr[i + 1] {
        SwapNeighbours(arr, i);
        swapped := true;
      }
      i := i + 1;
    }
    assert n > 0 ==> i == n - 1;
  }

  /** The swap through `temp` in the body of a pass. */
  method SwapNeighbours(arr: array<int>, i: int)
    requires 0 <= i < arr.Length - 1
    modifies arr
    ensures arr[..] == SwapNext(old(arr[..]), i)
  {
    var temp := arr[i];
    arr[i] := arr[i + 1];
    arr[i + 1] := temp;
  }

  /**
   * `bubbleSort`: passes until one makes no swap. The result is sorted and
   * a permutation of the input, and an input already sorted is left as it was.
   */
  method BubbleSort(arr: array<int>)
    modifies arr
    ensures Sorted(arr[..]) && AdjacentSorted(arr[..])
    ensures multiset(arr[..]) == multiset(old(arr[..]))
    ensures IsPermutation(old(arr[..]), arr[..])
    ensures Sorted(old(arr[..])) ==> arr[..] == old(arr[..])
  {
    ghost var original := arr[..];
    // The do-while loop: the first pass always runs.
    var swapped := true;
    while swapped
      invariant multiset(arr[..]) == multiset(original)
      invariant !swapped ==> AdjacentSorted(arr[..])
      invariant Sorted(original) ==> arr[..] == original
      decreases Inversions(arr[..]) + (if swapped then 1 else 0)
    {
      if Sorted(original) {
        SortedHasNoInversions(arr[..]);
      }
      swapped := Pass(arr);
    }
    AdjacentSortedIsSorted(arr[..]);
  }
}
