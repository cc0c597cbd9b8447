/**
 * The exhaustive oracle of the static Banker driver: a depth-first search
 * over completion orders (`dfs`, `validateSafeSequence`), and the driver's
 * cross-check that the greedy `isSafe` never claims a state safe when no
 * completion order exists.
 */
module SequenceSearch {
  import opened BankerState
  import SafetyCheck

  /**
   * While some process is unfinished, a completion order has to start with an
   * unfinished process that fits the current work; so once every such
   * candidate is exhausted, no completion order exists.
   */
  lemma ExhaustedHasNoCompletion(w: seq<int>, alloc: seq<seq<int>>, need: seq<seq<int>>, f: seq<bool>)
    requires Width(alloc, |w|) && |need| == |alloc| && |f| == |alloc|
    requires FinishedCount(f) < |f|
    ensures Exhausted(w, alloc, need, f, |f|) ==> !SafeFrom(w, alloc, need, f)
  {
    if SafeFrom(w, alloc, need, f) {
      var order :| IsCompletion(order, f) && ValidFrom(order, w, alloc, need);
      FinishedCountBound(f);
      var i :| 0 <= i < |f| && !f[i];
      assert i in order;
      CompletionFirst(w, alloc, need, f, order);
      var x := order[0];
      assert IsCompletion(order[1..], f[x := true]);
    }
  }

  /**
   * No candidate below `n` leads to a completion: each unfinished process that
   * fits `w` has been tried and its subtree holds no completion order.
   */
  ghost predicate Exhausted(w: seq<int>, alloc: seq<seq<int>>, need: seq<seq<int>>, f: seq<bool>, n: int)
    requires Width(alloc, |w|) && |need| == |alloc| && |f| == |alloc| && n <= |f|
  {
    forall x :: 0 <= x < n && !f[x] && Fits(need[x], w) ==>
      !SafeFrom(Add(w, alloc[x]), alloc, need, f[x := true])
  }

  lemma ExhaustedExtends(w: seq<int>, alloc: seq<seq<int>>, need: seq<seq<int>>, f: seq<bool>, i: int)
    requires Width(alloc, |w|) && |need| == |alloc| && |f| == |alloc| && 0 <= i < |f|
    requires Exhausted(w, alloc, need, f, i)
    requires !f[i] && Fits(need[i], w) ==> !SafeFrom(Add(w, alloc[i]), alloc, need, f[i := true])
    ensures Exhausted(w, alloc, need, f, i + 1)
  {
  }

  /**
   * `dfs`: try, in index order, every unfinished process whose need fits
   * `work`; mark it finished, release its allocation into `work` and recurse;
   * on failure unmark it and go back to the work saved before the candidate.
   * The answer is whether the unfinished processes have a completion order
   * from `work`; on a negative answer `finished` is as it was on entry.
   * (Like the Java code, a failed call leaves the caller's `work` array
   * changed; the caller never reads it again.)
   */
  method Dfs(finished: array<bool>, work: array<int>, allocation: array2<int>, need: array2<int>, depth: int)
    returns (found: bool)
    requires finished.Length == allocation.Length0 == need.Length0
    requires work.Length == allocation.Length1 == need.Length1
    requires depth == FinishedCount(finished[..])
    modifies finished, work
    ensures found <==> SafeFrom(old(work[..]), Rows(allocation), Rows(need), old(finished[..]))
    ensures depth == finished.Length ==> found
    ensures !found ==> finished[..] == old(finished[..])
    decreases finished.Length - depth, 1
  {
    var P, R := finished.Length, work.Length;
    ghost var alloc, needs := Rows(allocation), Rows(need);
    ghost var f0, w0 := finished[..], work[..];
    FinishedCountBound(f0);
    if depth == P {
      assert IsCompletion([], f0) && ValidFrom([], w0, alloc, needs);
      return true;
    }
    var w := work;
    var i := 0;
    while i < P
      invariant 0 <= i <= P
      invariant w.Length == R
      invariant w == work || fresh(w)
      invariant finished[..] == f0 && w[..] == w0
      invariant Exhausted(w0, alloc, needs, f0, i)
    {
      var ok := false;
      if !finished[i] {
        ok := SafetyCheck.CanProceed(need, i, w);
      }
      if ok {
        var savedWork := new int[R](k requires 0 <= k < R reads w => w[k]);
        var r := Descend(finished, w, allocation, need, depth, i);
        if r {
          ghost var rest :| IsCompletion(rest, f0[i := true]) && ValidFrom(rest, Add(w0, alloc[i]), alloc, needs);
          CompletionStep(w0, alloc, needs, f0, i, rest);
          return true;
        }
        finished[i] := false;
        assert finished[..] == f0;
        w := savedWork;
      }
      ExhaustedExtends(w0, alloc, needs, f0, i);
      i := i + 1;
    }
    ExhaustedHasNoCompletion(w0, alloc, needs, f0);
    return false;
  }

  /**
   * One candidate of `dfs`: mark process `i` finished, release its allocation
   * into `work` and search on from one level deeper.
   */
  method Descend(finished: array<bool>, work: array<int>, allocation: array2<int>, need: array2<int>,
                 depth: int, i: int)
    returns (found: bool)
    requires finished.Length == allocation.Length0 == need.Length0
    requires work.Length == allocation.Length1 == need.Length1
    requires depth == FinishedCount(finished[..])
    requires 0 <= i < finished.Length && !finished[i]
    modifies finished, work
    ensures found <==> SafeFrom(Add(old(work[..]), Rows(allocation)[i]), Rows(allocation), Rows(need),
                                old(finished[..])[i := true])
    ensures !found ==> finished[..] == old(finished[..])[i := true]
    decreases finished.Length - depth, 0
  {
    FinishedCountMark(finished[..], i);
    FinishedCountBound(finished[..][i := true]);
    finished[i] := true;
    SafetyCheck.ReleaseRow(work, allocation, i);
    found := Dfs(finished, work, allocation, need, depth + 1);
  }

  /**
   * `validateSafeSequence`: run the search from a fresh all-unfinished array
   * and a copy of `available`, so `available` itself is left untouched.
   * The answer is exactly whether the state is safe.
   */
  method ValidateSafeSequence(available: array<int>, allocation: array2<int>, need: array2<int>)
    returns (ok: bool)
    requires Conforms(available, allocation, need)
    ensures ok <==> Safe(View(available, allocation, need))
  {
    var P, R := allocation.Length0, available.Length;
    var finished := new bool[P](_ => false);
    var work := new int[R](j requires 0 <= j < R reads available => available[j]);
    FinishedCountNone(P);
    assert finished[..] == NoneFinished(P);
    assert work[..] == available[..];
    ok := Dfs(finished, work, allocation, need, 0);
  }

  /**
   * The check of the static driver: run the greedy check and, when it answers
   * safe, the exhaustive search, whose answer must then be positive too.
   * `validated` is false when the search was not run.
   */
  method CheckState(available: array<int>, allocation: array2<int>, need: array2<int>)
    returns (safe: bool, validated: bool)
    requires Conforms(available, allocation, need)
    ensures safe ==> validated
    ensures validated ==> Safe(View(available, allocation, need))
    ensures NonNegative(Rows(allocation)) ==> (safe <==> Safe(View(available, allocation, need)))
  {
    safe := SafetyCheck.IsSafe(available, allocation, need);
    validated := false;
    if safe {
      validated := ValidateSafeSequence(available, allocation, need);
    }
  }
}
