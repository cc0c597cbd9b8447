/**
 * The request arbiter of the dynamic Banker driver (`requestGranted`): deny a
 * request that exceeds `available`; otherwise move the requested resources
 * from `available` to the process (its allocation grows, its need shrinks),
 * run the safety check, and move them back when the new state is unsafe.
 */
module RequestArbiter {
  import opened BankerState
  import SafetyCheck

  /** Every component of the request is at most what is available. */
  ghost predicate Covers(available: seq<int>, request: seq<int>) {
    |request| == |available| && forall j :: 0 <= j < |available| ==> request[j] <= available[j]
  }

  /** The tentative state: `request` moves from `available` to process `p`. */
  ghost function Grant(b: Bank, p: int, request: seq<int>): (r: Bank)
    requires Shaped(b) && 0 <= p < |b.allocation| && |request| == |b.available|
    ensures Shaped(r)
  {
    Bank(Sub(b.available, request),
         b.allocation[p := Add(b.allocation[p], request)],
         b.need[p := Sub(b.need[p], request)])
  }

  /** A grant loses no information: the state before it is determined by the state after it. */
  lemma GrantInjective(b1: Bank, b2: Bank, p: int, request: seq<int>)
    requires Shaped(b1) && 0 <= p < |b1.allocation| && |request| == |b1.available|
    requires Shaped(b2) && |b2.allocation| == |b1.allocation| && |b2.available| == |b1.available|
    ensures Grant(b1, p, request) == Grant(b2, p, request) ==> b1 == b2
  {
    if Grant(b1, p, request) == Grant(b2, p, request) {
      var g1, g2 := Grant(b1, p, request), Grant(b2, p, request);
      forall j | 0 <= j < |b1.available| ensures b1.available[j] == b2.available[j] {
        assert g1.available[j] == g2.available[j];
      }
      forall j | 0 <= j < |b1.available|
        ensures b1.allocation[p][j] == b2.allocation[p][j] && b1.need[p][j] == b2.need[p][j]
      {
        assert g1.allocation[p][j] == g2.allocation[p][j] && g1.need[p][j] == g2.need[p][j];
      }
      forall i | 0 <= i < |b1.allocation|
        ensures b1.allocation[i] == b2.allocation[i] && b1.need[i] == b2.need[i]
      {
        if i != p {
          assert g1.allocation[i] == g2.allocation[i] && g1.need[i] == g2.need[i];
        }
      }
    }
  }

  /** Units of resource type `j` held by the processes. */
  ghost function ColumnSum(m: seq<seq<int>>, j: int): int
    requires 0 <= j && forall i :: 0 <= i < |m| ==> j < |m[i]|
    decreases |m|
  {
    if m == [] then 0 else ColumnSum(m[..|m| - 1], j) + m[|m| - 1][j]
  }

  /** Units of resource type `j` in circulation: available plus allocated. */
  ghost function Total(b: Bank, j: int): int
    requires Shaped(b) && 0 <= j < |b.available|
  {
    b.available[j] + ColumnSum(b.allocation, j)
  }

  /** `need = max - allocation`, entry by entry. */
  ghost predicate NeedMatches(max: seq<seq<int>>, b: Bank)
    requires Shaped(b)
  {
    && |max| == |b.allocation| && Width(max, |b.available|)
    && forall i, j :: 0 <= i < |max| && 0 <= j < |b.available| ==>
         b.need[i][j] == max[i][j] - b.allocation[i][j]
  }

  /** The invariants of a scenario: `0 <= allocation <= max`, `need = max - allocation`, `available >= 0`. */
  ghost predicate WellFormed(max: seq<seq<int>>, b: Bank)
    requires Shaped(b)
  {
    && NeedMatches(max, b)
    && (forall i, j :: 0 <= i < |max| && 0 <= j < |b.available| ==>
          0 <= b.allocation[i][j] <= max[i][j])
    && (forall j :: 0 <= j < |b.available| ==> 0 <= b.available[j])
  }

  /** Replacing row `p` changes a column sum by the difference of the two rows. */
  lemma {:induction false} ColumnSumUpdate(m: seq<seq<int>>, p: int, row: seq<int>, j: int)
    requires 0 <= j && forall i :: 0 <= i < |m| ==> j < |m[i]|
    requires 0 <= p < |m| && j < |row|
    ensures ColumnSum(m[p := row], j) == ColumnSum(m, j) - m[p][j] + row[j]
    decreases |m|
  {
    var n := |m| - 1;
    if p < n {
      assert m[p := row][..n] == m[..n][p := row];
      ColumnSumUpdate(m[..n], p, row, j);
    } else {
      assert m[p := row][..n] == m[..n];
    }
  }

  /** Conservation: a grant moves resources between `available` and one process, creating none. */
  lemma GrantConserves(b: Bank, p: int, request: seq<int>)
    requires Shaped(b) && 0 <= p < |b.allocation| && |request| == |b.available|
    ensures forall j :: 0 <= j < |b.available| ==> Total(Grant(b, p, request), j) == Total(b, j)
  {
    forall j | 0 <= j < |b.available| ensures Total(Grant(b, p, request), j) == Total(b, j) {
      ColumnSumUpdate(b.allocation, p, Add(b.allocation[p], request), j);
    }
  }

  /** A grant keeps `need = max - allocation`: allocation and need move by the same amount. */
  lemma GrantKeepsNeed(max: seq<seq<int>>, b: Bank, p: int, request: seq<int>)
    requires Shaped(b) && 0 <= p < |b.allocation| && |request| == |b.available|
    requires NeedMatches(max, b)
    ensures NeedMatches(max, Grant(b, p, request))
  {
  }

  /**
   * A request of the kind the dynamic driver draws (between 0 and the need,
   * and covered by `available`) keeps every scenario invariant.
   */
  lemma GrantKeepsBounds(max: seq<seq<int>>, b: Bank, p: int, request: seq<int>)
    requires Shaped(b) && 0 <= p < |b.allocation| && |request| == |b.available|
    requires WellFormed(max, b) && Covers(b.available, request)
    requires forall j :: 0 <= j < |request| ==> 0 <= request[j] <= b.need[p][j]
    ensures WellFormed(max, Grant(b, p, request))
    ensures NonNegative(Grant(b, p, request).allocation)
  {
  }

  /**
   * The dynamic driver's check after every request: whether `requestGranted`
   * grants (the arrays hold the tentative state) or denies (the arrays are
   * as before), `need == max - allocation` still holds.
   */
  lemma RequestKeepsNeed(max: seq<seq<int>>, b: Bank, p: int, request: seq<int>, after: Bank)
    requires Shaped(b) && 0 <= p < |b.allocation| && |request| == |b.available|
    requires NeedMatches(max, b)
    requires after == b || after == Grant(b, p, request)
    ensures Shaped(after) && NeedMatches(max, after)
  {
    GrantKeepsNeed(max, b, p, request);
  }

  /**
   * `requestGranted`. A request not covered by `available` is denied with no
   * change. Otherwise the answer is the safety verdict on the tentative state:
   * on a grant the arrays hold exactly that state, which is safe; on a denial
   * they hold exactly what they held before the call. With non-negative
   * allocations every covered request whose tentative state is safe is granted.
   */
  method RequestGranted(available: array<int>, allocation: array2<int>, need: array2<int>,
                        process: int, request: array<int>)
    returns (granted: bool)
    requires Conforms(available, allocation, need)
    requires allocation != need && request != available
    requires request.Length == available.Length
    requires 0 <= process < allocation.Length0
    modifies available, allocation, need
    ensures !Covers(old(available[..]), request[..]) ==> !granted
    ensures granted ==> View(available, allocation, need) ==
                          Grant(old(View(available, allocation, need)), process, request[..])
    ensures granted ==> Safe(View(available, allocation, need))
    ensures !granted ==> View(available, allocation, need) == old(View(available, allocation, need))
    ensures (Covers(old(available[..]), request[..]) &&
             NonNegative(Grant(old(View(available, allocation, need)), process, request[..]).allocation) &&
             Safe(Grant(old(View(available, allocation, need)), process, request[..]))) ==> granted
  {
    var P, R := allocation.Length0, available.Length;
    ghost var before := View(available, allocation, need);
    ghost var req := request[..];
    var j := 0;
    while j < R
      invariant 0 <= j <= R
      invariant forall k :: 0 <= k < j ==> request[k] <= available[k]
    {
      if request[j] > available[j] {
        return false;
      }
      j := j + 1;
    }
    assert Covers(before.available, req);
    ApplyRequest(available, allocation, need, process, request);
    granted := SafetyCheck.IsSafe(available, allocation, need);
    if !granted {
      RollbackRequest(available, allocation, need, process, request);
      GrantInjective(View(available, allocation, need), before, process, req);
    }
  }

  /** `after` is `b` with `delta` added to `available` and subtracted from row `p` of both matrices. */
  ghost predicate MovedFrom(after: Bank, b: Bank, p: int, delta: seq<int>)
    requires Shaped(b) && 0 <= p < |b.allocation| && |delta| == |b.available|
  {
    && Shaped(after) && |after.available| == |b.available| && |after.allocation| == |b.allocation|
    && (forall k :: 0 <= k < |delta| ==> after.available[k] == b.available[k] + delta[k])
    && (forall k :: 0 <= k < |delta| ==> after.allocation[p][k] == b.allocation[p][k] - delta[k])
    && (forall k :: 0 <= k < |delta| ==> after.need[p][k] == b.need[p][k] + delta[k])
    && (forall i :: 0 <= i < |b.allocation| && i != p ==>
          after.allocation[i] == b.allocation[i] && after.need[i] == b.need[i])
  }

  /** A grant moves the request out of `available` and into the process's allocation. */
  lemma MovedIsGrant(after: Bank, b: Bank, p: int, request: seq<int>)
    requires Shaped(b) && 0 <= p < |b.allocation| && |request| == |b.available|
    requires MovedFrom(after, b, p, seq(|request|, k requires 0 <= k < |request| => -request[k]))
    ensures after == Grant(b, p, request)
  {
    var g := Grant(b, p, request);
    assert after.available == g.available;
    assert after.allocation[p] == g.allocation[p] && after.need[p] == g.need[p];
    assert after.allocation == g.allocation;
    assert after.need == g.need;
  }

  /** A rollback moves the request back; granting it again restores the state before. */
  lemma MovedBackIsUngrant(after: Bank, b: Bank, p: int, request: seq<int>)
    requires Shaped(b) && 0 <= p < |b.allocation| && |request| == |b.available|
    requires MovedFrom(after, b, p, request)
    ensures Grant(after, p, request) == b
  {
    var g := Grant(after, p, request);
    assert g.available == b.available;
    assert g.allocation[p] == b.allocation[p] && g.need[p] == b.need[p];
    assert g.allocation == b.allocation;
    assert g.need == b.need;
  }

  /** The arrays, read as a Bank, are `b` moved by `delta` on row `p`. */
  lemma ViewMoved(available: array<int>, allocation: array2<int>, need: array2<int>,
                  b: Bank, p: int, delta: seq<int>)
    requires Conforms(available, allocation, need)
    requires Shaped(b) && |b.available| == available.Length && |b.allocation| == allocation.Length0
    requires 0 <= p < |b.allocation| && |delta| == |b.available|
    requires forall k :: 0 <= k < |delta| ==> available[k] == b.available[k] + delta[k]
    requires forall k :: 0 <= k < |delta| ==> allocation[p, k] == b.allocation[p][k] - delta[k]
    requires forall k :: 0 <= k < |delta| ==> need[p, k] == b.need[p][k] + delta[k]
    requires forall i, k :: 0 <= i < |b.allocation| && i != p && 0 <= k < |delta| ==>
               allocation[i, k] == b.allocation[i][k] && need[i, k] == b.need[i][k]
    ensures MovedFrom(View(available, allocation, need), b, p, delta)
  {
    var v := View(available, allocation, need);
    forall i | 0 <= i < |b.allocation| && i != p
      ensures v.allocation[i] == b.allocation[i] && v.need[i] == b.need[i]
    {
    }
  }

  /** The tentative-allocation loop of `requestGranted`. */
  method ApplyRequest(available: array<int>, allocation: array2<int>, need: array2<int>,
                      process: int, request: array<int>)
    requires Conforms(available, allocation, need)
    requires allocation != need && request != available
    requires request.Length == available.Length
    requires 0 <= process < allocation.Length0
    modifies available, allocation, need
    ensures View(available, allocation, need) ==
              Grant(old(View(available, allocation, need)), process, request[..])
  {
    var P, R := allocation.Length0, available.Length;
    var j := 0;
    while j < R
      invariant 0 <= j <= R
      invariant forall k :: 0 <= k < R ==>
                  available[k] == old(available[k]) - (if k < j then request[k] else 0)
      invariant forall k :: 0 <= k < R ==>
                  allocation[process, k] == old(allocation[process, k]) + (if k < j then request[k] else 0)
      invariant forall k :: 0 <= k < R ==>
                  need[process, k] == old(need[process, k]) - (if k < j then request[k] else 0)
      invariant forall i, k :: 0 <= i < P && i != process && 0 <= k < R ==>
                  allocation[i, k] == old(allocation[i, k]) && need[i, k] == old(need[i, k])
    {
      available[j] := available[j] - request[j];
      allocation[process, j] := allocation[process, j] + request[j];
      need[process, j] := need[process, j] - request[j];
      j := j + 1;
    }
    ghost var delta := seq(R, k requires 0 <= k < R reads request => -request[k]);
    ViewMoved(available, allocation, need, old(View(available, allocation, need)), process, delta);
    MovedIsGrant(View(available, allocation, need), old(View(available, allocation, need)), process, request[..]);
  }

  /**
   * The rollback loop of `requestGranted`: it undoes a grant, so granting the
   * same request again from the rolled-back state gives the state it started from.
   */
  method RollbackRequest(available: array<int>, allocation: array2<int>, need: array2<int>,
                         process: int, request: array<int>)
    requires Conforms(available, allocation, need)
    requires allocation != need && request != available
    requires request.Length == available.Length
    requires 0 <= process < allocation.Length0
    modifies available, allocation, need
    ensures Grant(View(available, allocation, need), process, request[..]) ==
              old(View(available, allocation, need))
  {
    var P, R := allocation.Length0, available.Length;
    var j := 0;
    while j < R
      invariant 0 <= j <= R
      invariant forall k :: 0 <= k < R ==>
                  available[k] == old(available[k]) + (if k < j then request[k] else 0)
      invariant forall k :: 0 <= k < R ==>
                  allocation[process, k] == old(allocation[process, k]) - (if k < j then request[k] else 0)
      invariant forall k :: 0 <= k < R ==>
                  need[process, k] == old(need[process, k]) + (if k < j then request[k] else 0)
      invariant forall i, k :: 0 <= i < P && i != process && 0 <= k < R ==>
                  allocation[i, k] == old(allocation[i, k]) && need[i, k] == old(need[i, k])
    {
      available[j] := available[j] + request[j];
      allocation[process, j] := allocation[process, j] - request[j];
      need[process, j] := need[process, j] + request[j];
      j := j + 1;
    }
    ViewMoved(available, allocation, need, old(View(available, allocation, need)), process, request[..]);
    MovedBackIsUngrant(View(available, allocation, need), old(View(available, allocation, need)), process, request[..]);
  }
}
