/**
 * The state the Banker's Algorithm works on, seen as values: the `available`
 * vector and the `allocation` and `need` matrices, with P = number of rows
 * (processes) and R = number of columns (resource types). Both Banker drivers
 * keep this state in Java arrays; here the arrays are viewed as sequences so
 * that the safety notions can be stated once and shared by the greedy checker,
 * the depth-first oracle and the request arbiter.
 */
module BankerState {

  /** A snapshot of `available`, `allocation` and `need`. */
  datatype Bank = Bank(available: seq<int>, allocation: seq<seq<int>>, need: seq<seq<int>>)

  /** Every row of `m` has `r` columns. */
  ghost predicate Width(m: seq<seq<int>>, r: int) {
    forall i :: 0 <= i < |m| ==> |m[i]| == r
  }

  /** P rows in both matrices, R = |available| columns in every row. */
  ghost predicate Shaped(b: Bank) {
    && |b.need| == |b.allocation|
    && Width(b.allocation, |b.available|)
    && Width(b.need, |b.available|)
  }

  /** Every entry of `s` names a process below `n`. */
  ghost predicate Indices(s: seq<int>, n: int) {
    forall k :: 0 <= k < |s| ==> 0 <= s[k] < n
  }

  ghost predicate Distinct(s: seq<int>) {
    forall k, l :: 0 <= k < l < |s| ==> s[k] != s[l]
  }

  ghost predicate NonNegative(m: seq<seq<int>>) {
    forall i, j :: 0 <= i < |m| && 0 <= j < |m[i]| ==> 0 <= m[i][j]
  }

  /** Component-wise sum of two vectors of the same length. */
  function Add(w: seq<int>, row: seq<int>): seq<int>
    requires |row| == |w|
  {
    seq(|w|, j requires 0 <= j < |w| => w[j] + row[j])
  }

  /** Component-wise difference of two vectors of the same length. */
  function Sub(w: seq<int>, row: seq<int>): seq<int>
    requires |row| == |w|
  {
    seq(|w|, j requires 0 <= j < |w| => w[j] - row[j])
  }

  /** `canProceed`: the need row is component-wise at most the work vector. */
  ghost predicate Fits(row: seq<int>, w: seq<int>) {
    |row| == |w| && forall j :: 0 <= j < |w| ==> row[j] <= w[j]
  }

  /**
   * The work vector after the processes of `s` have finished, in that order,
   * starting from `w`: each finished process gives its allocation back.
   */
  ghost function Released(w: seq<int>, alloc: seq<seq<int>>, s: seq<int>): (r: seq<int>)
    requires Width(alloc, |w|) && Indices(s, |alloc|)
    ensures |r| == |w|
    decreases |s|
  {
    if s == [] then w
    else Add(Released(w, alloc, s[..|s| - 1]), alloc[s[|s| - 1]])
  }

  /**
   * Running the processes of `order` one after another from `w` never meets
   * a process whose need exceeds the work accumulated so far.
   */
  ghost predicate ValidFrom(order: seq<int>, w: seq<int>, alloc: seq<seq<int>>, need: seq<seq<int>>)
    requires Width(alloc, |w|) && |need| == |alloc| && Indices(order, |alloc|)
  {
    forall k {:trigger order[..k]} :: 0 <= k < |order| ==> Fits(need[order[k]], Released(w, alloc, order[..k]))
  }

  /** `order` lists every process not yet finished, each exactly once, and nothing else. */
  ghost predicate IsCompletion(order: seq<int>, finished: seq<bool>) {
    && Indices(order, |finished|)
    && Distinct(order)
    && (forall k :: 0 <= k < |order| ==> !finished[order[k]])
    && (forall i :: 0 <= i < |finished| && !finished[i] ==> i in order)
  }

  /** Some completion order of the unfinished processes runs from `w`. */
  ghost predicate SafeFrom(w: seq<int>, alloc: seq<seq<int>>, need: seq<seq<int>>, finished: seq<bool>)
    requires Width(alloc, |w|) && |need| == |alloc| && |finished| == |alloc|
  {
    exists order :: IsCompletion(order, finished) && ValidFrom(order, w, alloc, need)
  }

  function NoneFinished(n: nat): seq<bool> {
    seq(n, _ => false)
  }

  /** A safe state: all processes can complete in some order from `available`. */
  ghost predicate Safe(b: Bank)
    requires Shaped(b)
  {
    SafeFrom(b.available, b.allocation, b.need, NoneFinished(|b.allocation|))
  }

  /** Number of processes marked finished. */
  function FinishedCount(f: seq<bool>): nat {
    if f == [] then 0 else (if f[0] then 1 else 0) + FinishedCount(f[1..])
  }

  // ---------------------------------------------------------------------
  // The arrays of the Java code, read as a Bank.

  ghost function Rows(m: array2<int>): (r: seq<seq<int>>)
    reads m
    ensures |r| == m.Length0 && Width(r, m.Length1)
    ensures forall i, j :: 0 <= i < m.Length0 && 0 <= j < m.Length1 ==> r[i][j] == m[i, j]
  {
    seq(m.Length0, i requires 0 <= i < m.Length0 reads m =>
      seq(m.Length1, j requires 0 <= j < m.Length1 reads m => m[i, j]))
  }

  ghost function View(available: array<int>, allocation: array2<int>, need: array2<int>): Bank
    reads available, allocation, need
  {
    Bank(available[..], Rows(allocation), Rows(need))
  }

  /** The array shapes both drivers build: P x R matrices and an R vector. */
  predicate Conforms(available: array<int>, allocation: array2<int>, need: array2<int>) {
    && allocation.Length1 == available.Length
    && need.Length0 == allocation.Length0
    && need.Length1 == available.Length
  }

  // ---------------------------------------------------------------------
  // Lemmas about finishing order and released work.

  /** Finishing `x` first and then `s` is finishing `s` from the enlarged work. */
  lemma {:induction false} ReleasedCons(w: seq<int>, alloc: seq<seq<int>>, x: int, s: seq<int>)
    requires Width(alloc, |w|) && 0 <= x < |alloc| && Indices(s, |alloc|)
    ensures Released(w, alloc, [x] + s) == Released(Add(w, alloc[x]), alloc, s)
    decreases |s|
  {
    if s == [] {
      assert ([x] + s)[..0] == [];
    } else {
      var s' := s[..|s| - 1];
      assert ([x] + s)[..|s|] == [x] + s';
      ReleasedCons(w, alloc, x, s');
    }
  }

  /** Taking process `t[m]` out of `t` gives back exactly its allocation. */
  lemma {:induction false} ReleasedRemove(w: seq<int>, alloc: seq<seq<int>>, t: seq<int>, m: int)
    requires Width(alloc, |w|) && Indices(t, |alloc|) && 0 <= m < |t|
    ensures forall j :: 0 <= j < |w| ==>
      Released(w, alloc, t)[j] == Released(w, alloc, t[..m] + t[m + 1..])[j] + alloc[t[m]][j]
    decreases |t|
  {
    if m == |t| - 1 {
      assert t[..m] + t[m + 1..] == t[..|t| - 1];
    } else {
      var u := t[..|t| - 1];
      ReleasedRemove(w, alloc, u, m);
      assert t[..m] + t[m + 1..] == (u[..m] + u[m + 1..]) + [t[|t| - 1]];
      assert (t[..m] + t[m + 1..])[..|t| - 2] == u[..m] + u[m + 1..];
    }
  }

  /** With non-negative allocations, finishing more processes never shrinks the work. */
  lemma {:induction false} ReleasedGrows(w: seq<int>, alloc: seq<seq<int>>, t: seq<int>)
    requires Width(alloc, |w|) && Indices(t, |alloc|) && NonNegative(alloc)
    ensures forall j :: 0 <= j < |w| ==> w[j] <= Released(w, alloc, t)[j]
    decreases |t|
  {
    if t != [] {
      ReleasedGrows(w, alloc, t[..|t| - 1]);
    }
  }

  /**
   * With non-negative allocations, the work after a duplicate-free `s` is at
   * most the work after any `t` that contains every process of `s`.
   */
  lemma {:induction false} ReleasedMonotone(w: seq<int>, alloc: seq<seq<int>>, s: seq<int>, t: seq<int>)
    requires Width(alloc, |w|) && Indices(s, |alloc|) && Indices(t, |alloc|) && NonNegative(alloc)
    requires Distinct(s) && forall k :: 0 <= k < |s| ==> s[k] in t
    ensures forall j :: 0 <= j < |w| ==> Released(w, alloc, s)[j] <= Released(w, alloc, t)[j]
    decreases |s|
  {
    if s == [] {
      ReleasedGrows(w, alloc, t);
    } else {
      var s', x := s[..|s| - 1], s[|s| - 1];
      var m :| 0 <= m < |t| && t[m] == x;
      var t' := t[..m] + t[m + 1..];
      forall k | 0 <= k < |s'| ensures s'[k] in t' {
        var n :| 0 <= n < |t| && t[n] == s'[k];
        assert n != m;
        if n < m { assert t'[n] == s'[k]; } else { assert t'[n - 1] == s'[k]; }
      }
      ReleasedMonotone(w, alloc, s', t');
      ReleasedRemove(w, alloc, t, m);
    }
  }

  /** Finishing one more process `x`, whose need fits the work so far, extends a valid order. */
  lemma ValidFromSnoc(order: seq<int>, w: seq<int>, alloc: seq<seq<int>>, need: seq<seq<int>>, x: int)
    requires Width(alloc, |w|) && |need| == |alloc| && Indices(order, |alloc|) && 0 <= x < |alloc|
    requires ValidFrom(order, w, alloc, need) && Fits(need[x], Released(w, alloc, order))
    ensures ValidFrom(order + [x], w, alloc, need)
    ensures Released(w, alloc, order + [x]) == Add(Released(w, alloc, order), alloc[x])
  {
    var o := order + [x];
    assert o[..|order|] == order;
    forall k | 0 <= k < |o| ensures Fits(need[o[k]], Released(w, alloc, o[..k])) {
      if k < |order| {
        assert o[..k] == order[..k];
      }
    }
  }

  /** A completion order, split into its first process and the rest. */
  lemma CompletionFirst(w: seq<int>, alloc: seq<seq<int>>, need: seq<seq<int>>, f: seq<bool>, order: seq<int>)
    requires Width(alloc, |w|) && |need| == |alloc| && |f| == |alloc|
    requires IsCompletion(order, f) && ValidFrom(order, w, alloc, need) && order != []
    ensures 0 <= order[0] < |f| && !f[order[0]] && Fits(need[order[0]], w)
    ensures IsCompletion(order[1..], f[order[0] := true])
    ensures ValidFrom(order[1..], Add(w, alloc[order[0]]), alloc, need)
  {
    var x, rest := order[0], order[1..];
    assert order[..0] == [];
    forall k | 0 <= k < |rest|
      ensures Fits(need[rest[k]], Released(Add(w, alloc[x]), alloc, rest[..k]))
    {
      assert order[..k + 1] == [x] + rest[..k];
      ReleasedCons(w, alloc, x, rest[..k]);
    }
    forall i | 0 <= i < |f| && !f[x := true][i] ensures i in rest {
      assert i in order && i != order[0];
    }
  }

  /** A first process that fits, followed by a completion of the others. */
  lemma CompletionStep(w: seq<int>, alloc: seq<seq<int>>, need: seq<seq<int>>, f: seq<bool>, x: int, rest: seq<int>)
    requires Width(alloc, |w|) && |need| == |alloc| && |f| == |alloc|
    requires 0 <= x < |f| && !f[x] && Fits(need[x], w)
    requires IsCompletion(rest, f[x := true]) && ValidFrom(rest, Add(w, alloc[x]), alloc, need)
    ensures IsCompletion([x] + rest, f) && ValidFrom([x] + rest, w, alloc, need)
  {
    var order := [x] + rest;
    assert order[..0] == [];
    forall k | 0 <= k < |order| ensures Fits(need[order[k]], Released(w, alloc, order[..k])) {
      if k > 0 {
        assert order[..k] == [x] + rest[..k - 1];
        ReleasedCons(w, alloc, x, rest[..k - 1]);
      }
    }
    forall i | 0 <= i < |f| && !f[i] ensures i in order {
      if i != x { assert i in rest; }
    }
  }

  // ---------------------------------------------------------------------
  // Counting finished processes.

  lemma {:induction false} FinishedCountBound(f: seq<bool>)
    ensures FinishedCount(f) <= |f|
    ensures FinishedCount(f) == |f| <==> forall i :: 0 <= i < |f| ==> f[i]
  {
    if f != [] {
      FinishedCountBound(f[1..]);
      assert forall i :: 1 <= i < |f| ==> f[i] == f[1..][i - 1];
    }
  }

  lemma {:induction false} FinishedCountMark(f: seq<bool>, i: int)
    requires 0 <= i < |f| && !f[i]
    ensures FinishedCount(f[i := true]) == FinishedCount(f) + 1
  {
    if i == 0 {
      assert f[i := true][1..] == f[1..];
    } else {
      assert f[i := true][1..] == f[1..][i - 1 := true];
      FinishedCountMark(f[1..], i - 1);
    }
  }

  lemma {:induction false} FinishedCountNone(n: nat)
    ensures FinishedCount(NoneFinished(n)) == 0
  {
    if n > 0 {
      assert NoneFinished(n)[1..] == NoneFinished(n - 1);
      FinishedCountNone(n - 1);
    }
  }
}
