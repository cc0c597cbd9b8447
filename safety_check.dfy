/**
 * The greedy safety check of the Banker's Algorithm (`isSafe` and its helper
 * `canProceed`). Both Banker drivers carry the same text of these two
 * methods, so one definition serves both.
 */
module SafetyCheck {
  import opened BankerState

  /** `canProceed`: the need row of process `i` fits the work vector. */
  method CanProceed(need: array2<int>, i: int, work: array<int>) returns (ok: bool)
    requires 0 <= i < need.Length0 && need.Length1 == work.Length
    ensures ok <==> forall j :: 0 <= j < work.Length ==> need[i, j] <= work[j]
    ensures ok <==> Fits(Rows(need)[i], work[..])
  {
    var j := 0;
    while j < work.Length
      invariant 0 <= j <= work.Length
      invariant forall k :: 0 <= k < j ==> need[i, k] <= work[k]
    {
      if need[i, j] > work[j] {
        return false;
      }
      j := j + 1;
    }
    return true;
  }

  /**
   * Once no unfinished process fits the work released by `done`, every
   * completion order (if one exists) must already lie inside `done`, provided
   * allocations are non-negative: this is why the greedy scan misses no safe state.
   */
  lemma StuckScanIsComplete(avail: seq<int>, alloc: seq<seq<int>>, need: seq<seq<int>>, done: seq<int>)
    requires Width(alloc, |avail|) && |need| == |alloc| && Indices(done, |alloc|)
    requires forall x :: 0 <= x < |alloc| && x !in done ==> !Fits(need[x], Released(avail, alloc, done))
    ensures NonNegative(alloc) && SafeFrom(avail, alloc, need, NoneFinished(|alloc|)) ==>
              forall x :: 0 <= x < |alloc| ==> x in done
  {
    if NonNegative(alloc) && SafeFrom(avail, alloc, need, NoneFinished(|alloc|)) {
      var order :| IsCompletion(order, NoneFinished(|alloc|)) && ValidFrom(order, avail, alloc, need);
      OrderInsideDone(avail, alloc, need, done, order, |order|);
      forall x | 0 <= x < |alloc| ensures x in done {
        assert !NoneFinished(|alloc|)[x];
        var m :| 0 <= m < |order| && order[m] == x;
      }
    }
  }

  /** Induction step of StuckScanIsComplete: the first `k` processes of `order` lie in `done`. */
  lemma {:induction false} OrderInsideDone(avail: seq<int>, alloc: seq<seq<int>>, need: seq<seq<int>>,
                                           done: seq<int>, order: seq<int>, k: int)
    requires Width(alloc, |avail|) && |need| == |alloc| && Indices(done, |alloc|)
    requires NonNegative(alloc)
    requires forall x :: 0 <= x < |alloc| && x !in done ==> !Fits(need[x], Released(avail, alloc, done))
    requires IsCompletion(order, NoneFinished(|alloc|)) && ValidFrom(order, avail, alloc, need)
    requires 0 <= k <= |order|
    ensures forall m :: 0 <= m < k ==> order[m] in done
    decreases k
  {
    if k > 0 {
      OrderInsideDone(avail, alloc, need, done, order, k - 1);
      var prefix := order[..k - 1];
      ReleasedMonotone(avail, alloc, prefix, done);
      assert Fits(need[order[k - 1]], Released(avail, alloc, prefix));
    }
  }

  /** The release loop of `isSafe`: process `i` finishes and gives its allocation back to `work`. */
  method ReleaseRow(work: array<int>, allocation: array2<int>, i: int)
    requires 0 <= i < allocation.Length0 && allocation.Length1 == work.Length
    modifies work
    ensures work[..] == Add(old(work[..]), Rows(allocation)[i])
  {
    var j := 0;
    while j < work.Length
      invariant 0 <= j <= work.Length
      invariant forall k :: 0 <= k < j ==> work[k] == old(work[k]) + allocation[i, k]
      invariant forall k :: j <= k < work.Length ==> work[k] == old(work[k])
    {
      work[j] := work[j] + allocation[i, j];
      j := j + 1;
    }
  }

  /**
   * What a scan of `isSafe` knows about its local state: `done` lists the
   * finished processes in the order they finished, `finish` marks exactly
   * them, `work` is what they released, and each fitted when it finished.
   */
  ghost predicate Scanned(avail: seq<int>, alloc: seq<seq<int>>, need: seq<seq<int>>,
                          work: seq<int>, finish: seq<bool>, done: seq<int>)
    requires Width(alloc, |avail|) && |need| == |alloc|
  {
    && |finish| == |alloc|
    && Indices(done, |alloc|) && Distinct(done)
    && (forall x :: 0 <= x < |finish| ==> (finish[x] <==> x in done))
    && |done| == FinishedCount(finish) <= |finish|
    && work == Released(avail, alloc, done)
    && ValidFrom(done, avail, alloc, need)
  }

  /** Finishing one unfinished process that fits keeps Scanned and adds it to `done`. */
  lemma ScanFinishes(avail: seq<int>, alloc: seq<seq<int>>, need: seq<seq<int>>,
                     work: seq<int>, finish: seq<bool>, done: seq<int>, x: int)
    requires Width(alloc, |avail|) && |need| == |alloc|
    requires Scanned(avail, alloc, need, work, finish, done)
    requires 0 <= x < |finish| && !finish[x] && Fits(need[x], work)
    ensures Scanned(avail, alloc, need, Add(work, alloc[x]), finish[x := true], done + [x])
  {
    ValidFromSnoc(done, avail, alloc, need, x);
    FinishedCountMark(finish, x);
    FinishedCountBound(finish[x := true]);
  }

  /**
   * When a scan ends with nobody able to proceed, "all finished" is exactly
   * the safety verdict: it is witnessed by `done`, and (with non-negative
   * allocations) any safe order forces every process into `done`.
   */
  lemma ScanVerdict(avail: seq<int>, alloc: seq<seq<int>>, need: seq<seq<int>>,
                    work: seq<int>, finish: seq<bool>, done: seq<int>)
    requires Width(alloc, |avail|) && |need| == |alloc|
    requires Scanned(avail, alloc, need, work, finish, done)
    requires Stuck(need, work, finish, |finish|)
    ensures (forall x :: 0 <= x < |finish| ==> finish[x]) ==> SafeFrom(avail, alloc, need, NoneFinished(|alloc|))
    ensures NonNegative(alloc) && SafeFrom(avail, alloc, need, NoneFinished(|alloc|)) ==>
              forall x :: 0 <= x < |finish| ==> finish[x]
  {
    StuckScanIsComplete(avail, alloc, need, done);
    if forall x :: 0 <= x < |finish| ==> finish[x] {
      assert IsCompletion(done, NoneFinished(|alloc|));
    }
  }

  /** None of the first `n` processes is unfinished with a need that fits `work`. */
  ghost predicate Stuck(need: seq<seq<int>>, work: seq<int>, finish: seq<bool>, n: int)
    requires n <= |need| && n <= |finish|
  {
    forall x :: 0 <= x < n && !finish[x] ==> !Fits(need[x], work)
  }

  lemma StuckExtends(need: seq<seq<int>>, work: seq<int>, finish: seq<bool>, i: int)
    requires 0 <= i < |need| && i < |finish|
    requires Stuck(need, work, finish, i) && (finish[i] || !Fits(need[i], work))
    ensures Stuck(need, work, finish, i + 1)
  {
  }

  /** The closing loop of `isSafe`: every process is marked finished. */
  method AllFinished(finish: array<bool>) returns (all: bool)
    ensures all <==> forall x :: 0 <= x < finish.Length ==> finish[x]
  {
    var k := 0;
    while k < finish.Length
      invariant 0 <= k <= finish.Length
      invariant forall x :: 0 <= x < k ==> finish[x]
    {
      if !finish[k] {
        return false;
      }
      k := k + 1;
    }
    return true;
  }

  /**
   * `done'` is `done` followed by processes in strictly increasing index
   * order, all below `bound`.
   */
  ghost predicate AppendsInOrder(done: seq<int>, done': seq<int>, bound: int) {
    && |done| <= |done'| && done'[..|done|] == done
    && (forall k, l :: |done| <= k < l < |done'| ==> done'[k] < done'[l])
    && (forall k :: |done| <= k < |done'| ==> done'[k] < bound)
  }

  lemma AppendStep(done: seq<int>, done': seq<int>, i: int)
    requires AppendsInOrder(done, done', i)
    ensures AppendsInOrder(done, done' + [i], i + 1)
  {
    assert (done' + [i])[..|done|] == done'[..|done|];
  }

  lemma AppendsInOrderWeaken(done: seq<int>, done': seq<int>, i: int)
    requires AppendsInOrder(done, done', i)
    ensures AppendsInOrder(done, done', i + 1)
  {
  }

  /**
   * One pass of the do-while loop of `isSafe`: scan the processes in index
   * order and finish every unfinished one whose need fits `work`. The pass
   * appends to `done` the processes it finished, in increasing index order.
   * `progress` tells whether anybody finished; when nobody did, nobody can.
   */
  method ScanPass(allocation: array2<int>, need: array2<int>, work: array<int>, finish: array<bool>,
                  ghost avail: seq<int>, ghost done: seq<int>)
    returns (progress: bool, ghost done': seq<int>)
    requires allocation.Length1 == need.Length1 == work.Length == |avail|
    requires allocation.Length0 == need.Length0 == finish.Length
    requires Scanned(avail, Rows(allocation), Rows(need), work[..], finish[..], done)
    modifies work, finish
    ensures Scanned(avail, Rows(allocation), Rows(need), work[..], finish[..], done')
    ensures |done| <= |done'| && done'[..|done|] == done
    ensures forall k, l :: |done| <= k < l < |done'| ==> done'[k] < done'[l]
    ensures progress ==> |done| < |done'|
    ensures !progress ==> done' == done && Stuck(Rows(need), work[..], finish[..], finish.Length)
  {
    progress := false;
    done' := done;
    var i := 0;
    while i < finish.Length
      invariant 0 <= i <= finish.Length
      invariant Scanned(avail, Rows(allocation), Rows(need), work[..], finish[..], done')
      invariant AppendsInOrder(done, done', i)
      invariant progress ==> |done| < |done'|
      invariant !progress ==> done' == done && Stuck(Rows(need), work[..], finish[..], i)
    {
      progress, done' := ScanStep(allocation, need, work, finish, avail, done, done', i, progress);
      i := i + 1;
    }
  }

  /**
   * One iteration of the scan: when process `i` is unfinished and fits
   * `work`, release its allocation, mark it finished and record progress.
   */
  method ScanStep(allocation: array2<int>, need: array2<int>, work: array<int>, finish: array<bool>,
                  ghost avail: seq<int>, ghost done: seq<int>, ghost done': seq<int>, i: int, progress: bool)
    returns (progress': bool, ghost done'': seq<int>)
    requires allocation.Length1 == need.Length1 == work.Length == |avail|
    requires allocation.Length0 == need.Length0 == finish.Length
    requires 0 <= i < finish.Length
    requires Scanned(avail, Rows(allocation), Rows(need), work[..], finish[..], done')
    requires AppendsInOrder(done, done', i)
    requires progress ==> |done| < |done'|
    requires !progress ==> done' == done && Stuck(Rows(need), work[..], finish[..], i)
    modifies work, finish
    ensures Scanned(avail, Rows(allocation), Rows(need), work[..], finish[..], done'')
    ensures AppendsInOrder(done, done'', i + 1)
    ensures progress' ==> |done| < |done''|
    ensures !progress' ==> done'' == done && Stuck(Rows(need), work[..], finish[..], i + 1)
    ensures !old(finish[i]) && Fits(Rows(need)[i], old(work[..])) ==>
              done'' == done' + [i] && progress' && finish[..] == old(finish[..])[i := true] &&
              work[..] == Add(old(work[..]), Rows(allocation)[i])
    ensures !(!old(finish[i]) && Fits(Rows(need)[i], old(work[..]))) ==>
              done'' == done' && progress' == progress &&
              finish[..] == old(finish[..]) && work[..] == old(work[..])
  {
    ghost var alloc, needs := Rows(allocation), Rows(need);
    progress' := progress;
    done'' := done';
    var ok := false;
    if !finish[i] {
      ok := CanProceed(need, i, work);
    }
    if ok {
      ScanFinishes(avail, alloc, needs, work[..], finish[..], done', i);
      AppendStep(done, done', i);
      ReleaseRow(work, allocation, i);
      finish[i] := true;
      progress' := true;
      done'' := done' + [i];
    } else {
      AppendsInOrderWeaken(done, done', i);
      if !progress {
        StuckExtends(needs, work[..], finish[..], i);
      }
    }
  }

  /**
   * `isSafe`: repeat full scans over the processes, finishing every unfinished
   * process whose need fits `work` and releasing its allocation, until a scan
   * finishes nobody; the state is safe when every process finished.
   * A true answer is never a false positive; with non-negative allocations a
   * false answer is never a false negative either.
   */
  method IsSafe(available: array<int>, allocation: array2<int>, need: array2<int>) returns (safe: bool)
    requires Conforms(available, allocation, need)
    ensures safe ==> Safe(View(available, allocation, need))
    ensures NonNegative(Rows(allocation)) && Safe(View(available, allocation, need)) ==> safe
  {
    var P, R := allocation.Length0, available.Length;
    ghost var avail, alloc, needs := available[..], Rows(allocation), Rows(need);
    var work := new int[R](j requires 0 <= j < R reads available => available[j]);
    var finish := new bool[P](_ => false);
    ghost var done: seq<int> := [];
    FinishedCountNone(P);
    assert finish[..] == NoneFinished(P);
    var progress := true;
    while progress
      invariant work.Length == R && finish.Length == P
      invariant Scanned(avail, alloc, needs, work[..], finish[..], done)
      invariant !progress ==> Stuck(needs, work[..], finish[..], P)
      decreases P - |done| + (if progress then 1 else 0)
    {
      progress, done := ScanPass(allocation, need, work, finish, avail, done);
    }
    ScanVerdict(avail, alloc, needs, work[..], finish[..], done);
    assert View(available, allocation, need) == Bank(avail, alloc, needs);
    safe := AllFinished(finish);
    if safe {
      assert forall x :: 0 <= x < P ==> finish[..][x];
      assert Safe(Bank(avail, alloc, needs));
    }
  }
}
