# Banker's Algorithm and bubble sort, modelled in Dafny

This project models the algorithmic core of a small Java Pathfinder
verification suite. The suite has two groups of code.

- **The Banker's Algorithm drivers.**
  - `BankersVerifier` runs the greedy safety check `isSafe` on a state. It
    cross-checks every "safe" answer with `validateSafeSequence`, an
    exhaustive depth-first search (`dfs`) for a completion order.
  - `DynamicBankersVerifier` grants resource requests with `requestGranted`.
    It checks the request against `available`, allocates it tentatively and
    runs `isSafe`. If the new state is unsafe, it rolls the allocation back.
- **The sorting drivers.** `SortVerifier` and `SortVerifier2` share the
  same in-place `bubbleSort`. `isPermutation` compares sorted copies of two
  arrays.

Java's `int[]` is modelled as `array<int>`, and `int[][]` as
`array2<int>`. The Java constants `P` and `R` become the array dimensions,
so every proof holds for any number of processes and resource types.

The modules are:

- `BankerState` gives the meaning of safety.
  - `Bank` is a snapshot of `available`, `allocation` and `need`.
  - `Released` is the work available after a list of processes has finished.
  - `ValidFrom`, `IsCompletion` and `SafeFrom`/`Safe` say that a state is
    safe when some order of the unfinished processes lets each one fit the
    work released by those before it.
- `SafetyCheck` holds `canProceed` and `isSafe`. Both drivers carry the
  same text of these two methods, so one definition serves both.
- `SequenceSearch` holds `dfs`, `validateSafeSequence` and the static
  driver's check.
- `RequestArbiter` holds `requestGranted`, the tentative-grant and rollback
  loops, and the conservation and `need = max - allocation` invariants.
- `Scenario` describes the drivers' generated starting states and drawn
  requests, and the invariants the drivers assert about them.
- `Permutation` holds `isPermutation`. A functional insertion sort stands
  in for the library sort.
- `BubbleSorting` holds `bubbleSort`. One pass of its do-while loop is the
  method `Pass`.

Paths in the table are relative to the repository root. The source files
live in `jpf-core/src/project/`.

## Model

| member | source | states |
|---|---|---|
| SafetyCheck.CanProceed | jpf-core/src/project/BankersVerifier.java:97-102 | The answer is true exactly when every component of the process's need row is at most the matching component of `work`. The same text is at DynamicBankersVerifier.java:146-151. |
| SafetyCheck.ReleaseRow | jpf-core/src/project/BankersVerifier.java:78-80 | A finished process gives its allocation back. `work` becomes old `work` plus that process's allocation row, component by component. |
| SafetyCheck.ScanPass | jpf-core/src/project/BankersVerifier.java:73-84 | One pass of the do-while loop. The processes finished so far always form a valid order prefix (`Scanned`). The pass only appends to that list (`done` is a prefix of `done'`), and the processes it appends are in strictly increasing index order, as the scan `i = 0..P-1` finishes them. `progress` means at least one more process finished. No progress means no unfinished process fits `work`. |
| SafetyCheck.ScanStep | jpf-core/src/project/BankersVerifier.java:76-83 | One iteration of the scan at index `i`. If process `i` is unfinished and fits `work`, its allocation is added to `work`, it is marked finished and appended to `done`, and progress is recorded. Otherwise `work`, `finish`, `done` and `progress` are unchanged, and without progress no process up to `i` can proceed. The finished list stays a valid order prefix, and what was appended stays in increasing index order below `i + 1`. |
| SafetyCheck.AllFinished | jpf-core/src/project/BankersVerifier.java:88-91 | The closing loop returns true exactly when every `finish` entry is true. |
| SafetyCheck.StuckScanIsComplete | jpf-core/src/project/BankersVerifier.java:72-85 | Suppose allocations are non-negative and the scan stops with no unfinished process fitting. Then a safe state has every process among those finished. So the greedy scan misses no safe state. |
| SafetyCheck.ScanVerdict | jpf-core/src/project/BankersVerifier.java:85-91 | When the scan is stuck, "all finished" implies safe. With non-negative allocations, safe also implies "all finished". |
| SafetyCheck.IsSafe | jpf-core/src/project/BankersVerifier.java:67-92 | `isSafe` terminates and changes none of its inputs. A true answer is never a false positive: a completion order exists. With non-negative allocations, a safe state is always answered true. The same text is at DynamicBankersVerifier.java:116-140. |
| SequenceSearch.Dfs | jpf-core/src/project/BankersVerifier.java:117-140 | `dfs` answers true exactly when the unfinished processes have a completion order starting from `work`. At `depth == P` it answers true. After a false answer, `finished` is as it was on entry: every tried candidate was unmarked again. |
| SequenceSearch.Descend | jpf-core/src/project/BankersVerifier.java:121-132 | One candidate step: mark process `i`, release its allocation, recurse. The answer is whether a completion order exists from the state with `i` finished. |
| SequenceSearch.ExhaustedHasNoCompletion | jpf-core/src/project/BankersVerifier.java:120-139 | Suppose some process is unfinished and every fitting candidate's subtree fails. Then no completion order exists, which justifies `return false`. |
| SequenceSearch.ValidateSafeSequence | jpf-core/src/project/BankersVerifier.java:109-111 | The search runs on a fresh `finished` array and a copy of `available`. It answers exactly whether the state is safe and changes no input. |
| SequenceSearch.CheckState | jpf-core/src/project/BankersVerifier.java:51-60 | The driver's assertion never fails: whenever `isSafe` says safe, `validateSafeSequence` agrees. With non-negative allocations, `isSafe` is exactly the safety verdict. |
| BankerState.CompletionStep | jpf-core/src/project/BankersVerifier.java:121-131 | Put a fitting candidate in front of a completion order of the remaining processes. The result is a completion order of the whole state. |
| BankerState.CompletionFirst | jpf-core/src/project/BankersVerifier.java:120-124 | Every completion order starts with an unfinished process that fits the current work. What follows it is a completion order from the state one level deeper. |
| BankerState.ReleasedMonotone | jpf-core/src/project/BankersVerifier.java:78-80 | With non-negative allocations, releasing a superset of processes gives at least as much work in every component. |
| RequestArbiter.RequestGranted | jpf-core/src/project/DynamicBankersVerifier.java:84-110 | A request exceeding `available` in some component is denied, and nothing changes. A granted request leaves the arrays holding exactly the tentative state (`available - request`, `allocation[p] + request`, `need[p] - request`, other rows unchanged), and that state is safe. A denied request leaves all three arrays equal to their values before the call. With non-negative allocations, a covered request whose tentative state is safe is granted. |
| RequestArbiter.ApplyRequest | jpf-core/src/project/DynamicBankersVerifier.java:91-95 | After the loop, the arrays hold exactly `Grant` of the old state. |
| RequestArbiter.RollbackRequest | jpf-core/src/project/DynamicBankersVerifier.java:101-107 | The rollback is the inverse of the grant: granting the request again from the rolled-back state gives back the state before the rollback. |
| RequestArbiter.GrantInjective | jpf-core/src/project/DynamicBankersVerifier.java:101-107 | Two states with the same grant result are equal. So a rollback restores exactly the state before the tentative grant. |
| RequestArbiter.GrantConserves | jpf-core/src/project/DynamicBankersVerifier.java:91-95 | For every resource type, `available[j]` plus the sum of `allocation[i][j]` over all processes is the same before and after a grant. |
| RequestArbiter.GrantKeepsNeed | jpf-core/src/project/DynamicBankersVerifier.java:91-95 | A grant keeps `need = max - allocation`, because allocation and need move by the same amount. |
| RequestArbiter.RequestKeepsNeed | jpf-core/src/project/DynamicBankersVerifier.java:68-73 | Whether `requestGranted` grants or denies, the driver's `need == max - allocation` check after each request holds. |
| RequestArbiter.GrantKeepsBounds | jpf-core/src/project/DynamicBankersVerifier.java:54-57 | A request drawn as the driver draws it keeps `0 <= allocation <= max`, `need = max - allocation` and `available >= 0`. Such a request is between 0 and the need, and covered by `available`. |
| Scenario.GeneratedIsWellFormed | jpf-core/src/project/BankersVerifier.java:26-49 | A generated scenario satisfies the invariants and passes the driver's `need == max - allocation` assertion. Its allocations are non-negative and its needs lie in 0..3. The dynamic driver generates and checks in the same way, at DynamicBankersVerifier.java:25-48. |
| Scenario.DriverStepKeepsInvariants | jpf-core/src/project/DynamicBankersVerifier.java:51-73 | One round of the dynamic driver: a request drawn as at line 56, then denied (state unchanged) or covered and granted (state becomes `Grant`). Either way the state keeps `0 <= allocation <= max`, `need = max - allocation` and `available >= 0`, so the check at lines 69-73 holds. |
| Permutation.Insert | jpf-core/src/project/SortVerifier2.java:80-81 | Inserting into a sorted sequence keeps it sorted and adds exactly one occurrence of the element. |
| Permutation.SortedCopy | jpf-core/src/project/SortVerifier2.java:78-81 | The sorted clone is sorted and holds the same multiset as its source. |
| Permutation.SortedUnique | jpf-core/src/project/SortVerifier2.java:80-83 | Two sorted sequences with the same multiset are equal. So comparing sorted copies does not depend on which sort produced them. |
| Permutation.IsPermutation | jpf-core/src/project/SortVerifier2.java:75-84 | A length mismatch answers false; otherwise the two sorted copies are compared. The answer is true exactly when `a` and `b` hold the same multiset of values, in both directions and for all inputs. Being a function, it changes neither argument. |
| Permutation.LengthMismatchIsNoPermutation | jpf-core/src/project/SortVerifier2.java:76 | Arrays of different lengths are never permutations of each other. |
| BubbleSorting.SwapNeighbours | jpf-core/src/project/SortVerifier.java:42-44 | The swap through `temp` exchanges positions `i` and `i + 1` and nothing else. |
| BubbleSorting.SwapRemovesInversion | jpf-core/src/project/SortVerifier.java:40-45 | Swapping an out-of-order pair of neighbours removes exactly one inversion. |
| BubbleSorting.PassStep | jpf-core/src/project/SortVerifier.java:39-47 | Each comparison of a pass keeps the pass invariant: same multiset, fewer inversions once swapped, unchanged and in order while not swapped, and the current element the largest so far. |
| BubbleSorting.Pass | jpf-core/src/project/SortVerifier.java:38-48 | A pass keeps the multiset of elements. A pass that swaps strictly lowers the inversion count. A pass without a swap leaves the array unchanged with every neighbour in order. After the pass, the largest element is last. |
| BubbleSorting.BubbleSort | jpf-core/src/project/SortVerifier.java:33-51 | `bubbleSort` terminates, because the inversion count falls with every swapping pass. The result is sorted, which is the driver's assertion at lines 22-24. It is a permutation of the input, and an already sorted input is left unchanged. The same text is `bubbleSort` in SortVerifier2.java:47-65, where the result also satisfies `isPermutation(original, arr)`, the assertion at line 37. |
| BubbleSorting.AdjacentSortedIsSorted | jpf-core/src/project/SortVerifier.java:22-24 | The drivers' neighbour-by-neighbour check implies order over every pair of positions. |
| BubbleSorting.SortedHasNoInversions | jpf-core/src/project/SortVerifier2.java:55 | A sorted array has no inversion. Together with `Pass`'s contract, this is why a pass over a sorted array makes no swap. |

## Left out

- The `main` drivers are not modelled as code. Their nondeterministic input
  (`Verify.getInt`) and their request loop are not modelled either. The
  generated inputs are described by `Scenario.Generated`, and the drawn
  requests by `Scenario.Drawn`. The drivers'
  assertions are stated as contracts of the members they check.
- All console output is left out: `printMatrix`, `System.out.println` and
  `printf`, including the print inside `SortVerifier2.bubbleSort`.
- `AddDemo` only draws two numbers and asserts about their sum. It has no
  logic to model.
- Java's 32-bit `int` overflow is not modelled. The Banker's drivers draw
  every input from 0..3 and the sorting drivers from 0..2, and every
  computed value stays below 10 (`work` in `isSafe` reaches at most
  3 + 2·3 = 9), so no value comes near 2^31. The model uses unbounded
  integers.
- The library `Arrays.sort`, `Arrays.equals`, `Arrays.copyOf` and `clone`
  are modelled by their meaning:
  - a sorted copy by a functional insertion sort (`Permutation.SortedCopy`);
  - equality by sequence equality;
  - copies by fresh arrays with equal contents.
- The Java model checker's own semantics (state-space exploration, assertion
  handling) are left out.
- The row-of-arrays layout of `int[][]` is replaced by `array2`. So two rows
  of a matrix, or `allocation` and `need`, can never share storage. The
  methods that write matrices require `allocation != need`. The methods that
  move a request also require `request != available`. The driver passes a
  request array it has just allocated, so the two never share storage.
- Error signalling for negative components during a transfer is left out.
  The transfer primitives the code uses are plain loops without such a
  check, and the model follows the code.
- The search result is a boolean, not a completion order. The code's `dfs`
  returns a boolean, and the model follows the code. The order that the
  boolean promises exists is the `SafeFrom` existential.
- Several loops are modelled as helper methods: the release loop
  (`ReleaseRow`), one scan pass (`ScanPass`) and one step of it (`ScanStep`), the closing loop of `isSafe`
  (`AllFinished`), one candidate of `dfs` (`Descend`), the two transfer
  loops (`ApplyRequest`, `RollbackRequest`), one pass of `bubbleSort`
  (`Pass`) and its swap (`SwapNeighbours`). Each performs the same steps as
  the inline Java code. In `dfs`, Java marks `finished[i]` before copying
  `work` into `savedWork`, while the model copies first and then marks in
  `Descend`. The copy does not read `finished`, so the order cannot be
  observed.
- SafetyCheck.IsSafe: the completeness direction ("a safe state is answered
  safe") is stated only for non-negative allocations. With a negative
  allocation, the index-order scan can finish that process first and shrink
  `work` for the others. For example: available `[1]`, allocations `[[-1],
  [0]]`, needs `[[0], [1]]`. The order 1, 0 completes, but the scan
  finishes 0 first and then 1 no longer fits. The drivers never create
  negative allocations; see `Scenario.GeneratedIsWellFormed` and
  `Scenario.DriverStepKeepsInvariants`.
- SequenceSearch.CheckState: the "isSafe is exactly the safety verdict" half
  carries the same non-negative-allocation condition, for the same reason.
  The "no false positive" half holds unconditionally.
- RequestArbiter.RequestGranted: "a covered request with a safe tentative
  state is granted" carries the same condition on the tentative allocation.
- SequenceSearch.Dfs: the contract says nothing about the caller's `work`
  array after a call. Like the Java code, a failed candidate leaves it
  changed, because the backtrack rebinds the local `work` to the saved copy.
  The caller never reads it again.
