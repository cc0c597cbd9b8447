/**
 * The scenarios the Banker drivers build before checking: the generated
 * starting state, the requests the dynamic driver draws, and the invariants
 * the drivers assert after generation and after every request.
 */
module Scenario {
  import opened BankerState
  import opened RequestArbiter

  /**
   * The scenario generator of both drivers: `available` and `max` in 0..3,
   * each allocation between 0 and its maximum, and need derived as their difference.
   */
  ghost predicate Generated(max: seq<seq<int>>, b: Bank)
    requires Shaped(b)
  {
    && |max| == |b.allocation| && Width(max, |b.available|)
    && (forall j :: 0 <= j < |b.available| ==> 0 <= b.available[j] <= 3)
    && (forall i, j :: 0 <= i < |max| && 0 <= j < |b.available| ==>
          0 <= max[i][j] <= 3 && 0 <= b.allocation[i][j] <= max[i][j] &&
          b.need[i][j] == max[i][j] - b.allocation[i][j])
  }

  /** A generated scenario passes the drivers' initial `need == max - allocation` check. */
  lemma GeneratedIsWellFormed(max: seq<seq<int>>, b: Bank)
    requires Shaped(b) && Generated(max, b)
    ensures WellFormed(max, b) && NonNegative(b.allocation)
    ensures forall i, j :: 0 <= i < |b.need| && 0 <= j < |b.available| ==> 0 <= b.need[i][j] <= 3
  {
  }

  /** A request as the dynamic driver draws it: 0 where nothing is needed, else between 0 and the need. */
  ghost predicate Drawn(needRow: seq<int>, request: seq<int>) {
    && |request| == |needRow|
    && forall j :: 0 <= j < |needRow| ==>
         if needRow[j] == 0 then request[j] == 0 else 0 <= request[j] <= needRow[j]
  }

  /**
   * One round of the dynamic driver: a drawn request is either denied (the
   * state stays) or covered and granted (the state becomes `Grant`), as
   * `RequestGranted` promises. Either way the scenario invariants and
   * non-negative allocations survive, so the driver's check after the
   * request holds and the next round starts from a well-formed state.
   */
  lemma DriverStepKeepsInvariants(max: seq<seq<int>>, b: Bank, p: int, request: seq<int>, after: Bank)
    requires Shaped(b) && 0 <= p < |b.allocation| && |request| == |b.available|
    requires WellFormed(max, b) && Drawn(b.need[p], request)
    requires after == b || (Covers(b.available, request) && after == Grant(b, p, request))
    ensures Shaped(after) && WellFormed(max, after) && NonNegative(after.allocation)
  {
    if after != b {
      GrantKeepsBounds(max, b, p, request);
    }
  }
}
