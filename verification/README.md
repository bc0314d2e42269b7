# Verified model of the kernel, the vault and the library generators

The repository holds a protocol kernel and a vault, and an OpenZeppelin tree with the templates from
which its Solidity libraries are generated and scripts that check and rewrite the code base. This
project models what they do and proves properties of it for every input, every run and every
reachable state.

- **Checkpoints** (`CheckpointArray`, `Traces`, `HistoryLog`, `Histories`, `WordMath`, `Evm`). A history
  stores one checkpoint per block, overwriting within a block, and finds old values by binary search.
  Each class carries a ghost log of every accepted push; the invariant says the array is the
  compressed form of that log, and every lookup is proved against the log alone. `HistoryLog` is the
  log machine: runs, immutability of mined blocks, folds. `WordMath` is the arithmetic the searches
  call, square root by seven Newton steps included; `MulDivs` the full-precision quotient beside it.
- **Enumerable sets and maps** (`Storage`, `Sequences`, `SetOrder`, `EnumerableSets`, `EnumerableMaps`,
  `Conversion`, `TypedCollections`). An array beside a 1-based index with swap-and-pop removal; a map
  that trusts non-zero words; typed wrappers through truncating casts. `SetOrder` tells what happens to
  the order without any index, and refines it to the mathematical set.
- **Inheritance ordering** (`ChainOrders`, `InheritanceCheck`). The script builds a graph from many
  linear orders and reports cycles of length two, noting that this "needs proof". The claim fails as
  soon as three chains order anything, even for linearizations as Solidity makes them, and holds
  for at most two; both are proved. For given chains `ChainOrders.MergeChains` computes whether it
  holds, with a common order when it does; one chain that lists everything is a simple case.
- **Kernel** (`Rosters`, `Kernels`, `KernelRuns`). Active policies and the dependents of each module,
  each an array beside a 0-based index without a sentinel; and the permissions of the policies. However
  dependencies repeat, no access is out of bounds (`KernelRuns.NeverPanics`).
- **Vault** (`Sums`, `DlpVaults`, `Vault`, `VaultAccounts`, `VaultRuns`, `VaultClaims`, `VaultQueue`,
  `VaultCalls`, `VaultEffects`). Shares, a queue of withdrawals and rewards by the second, in checked
  256-bit arithmetic. `DlpVaults` is what each call does to the storage, `Vault` the contract whose
  methods refine it; `VaultCalls` and `VaultEffects` tell, without those functions, when each call is
  accepted and everything it changes, the others what every run keeps.
- **Safe casts** (`SafeCasts`), for every width, with two's complement written out.
- **Line formatter** (`FormatLines`) and **file listing** (`ListFiles`).

Some statements do not hold as they stand, each with an input and its exact condition:

- The comment in `inheritance-ordering.js` (lines 30-31) that only cycles of length two are of interest:
  `ChainOrders.PairwiseCheckCompleteIffTwo`, `ChainOrders.RingHasNoConflictButCycles`,
  `InheritanceCheck.RingIsDeclaredConsistent`.
- The formatter, which the generators nest, is compositional exactly for lists that hold some text: an
  empty list formats to one newline, which reads back as two empty lines (`FormatLines.FormattedLeaf`).
- The kernel's dependents are the active policies only while no policy repeats a module that another
  one names (`KernelRuns.FaithfulIffPrivateRepeats`, `KernelRuns.BehindAndOutDrops`).
- The vault's check that a new reward period is covered compares with the whole balance, what is
  unpaid included (`VaultClaims.GuardSuffices`, `VaultClaims.NotificationPays`, `VaultClaims.NotifiedTwice`).

Verify with `dafny verify dfyconfig.toml` (Dafny 4.11).

Assumptions the theorems name: a linearization lists no contract twice (`AllDistinct`) where order
inside one chain matters; a directory forest is finite; a policy answers alike at activation and
deactivation.

## Model

| member | source | states |
|---|---|---|
| `CheckpointArray.UpperBinaryLookup` | lib/openzeppelin-contracts/scripts/generate/templates/Checkpoints.js:210-225 | splits a sorted window into keys at most the search key and keys above it, with at most floor(log2 w) + 1 comparisons for a window of w > 0 |
| `CheckpointArray.LowerBinaryLookup` | lib/openzeppelin-contracts/scripts/generate/templates/Checkpoints.js:233-248 | splits a sorted window into keys below the search key and keys at least it, under the same comparison bound |
| `CheckpointArray.InsertRepresents` | lib/openzeppelin-contracts/scripts/generate/templates/Checkpoints.js:177-202 | inserting is rejected exactly when the key goes back; otherwise the stored array, overwritten or extended, still means the uncompressed push log with one more entry, and the returned pair is (log's latest value, new value) |
| `CheckpointArray.RepresentationUnique` | lib/openzeppelin-contracts/scripts/generate/templates/Checkpoints.js:177-202 | the stored array is determined by what it means: two arrays with one key set and one meaning are equal, so the log leaves the array no freedom |
| `CheckpointArray.LatestValue` | lib/openzeppelin-contracts/scripts/generate/templates/Checkpoints.js:135-142 | the value of the last accepted push, or 0 |
| `CheckpointArray.LatestCheckpoint` | lib/openzeppelin-contracts/scripts/generate/templates/Checkpoints.js:144-164 | existence, key and value of the last accepted push |
| `CheckpointArray.Length` | lib/openzeppelin-contracts/scripts/generate/templates/Checkpoints.js:166-171 | the number of distinct keys ever accepted; for a history, of distinct blocks pushed at |
| `CheckpointArray.LatestAgrees` | lib/openzeppelin-contracts/scripts/generate/templates/Checkpoints.js:139-142 | the last stored checkpoint is the last push of the log |
| `CheckpointArray.ValueAtSplit` | lib/openzeppelin-contracts/scripts/generate/templates/Checkpoints.js:57-64 | the meaning of any log at a key is the value of its last entry whose key is not greater, or 0 when there is none |
| `CheckpointArray.ValueFromMeaning` | lib/openzeppelin-contracts/scripts/generate/templates/Checkpoints.js:48-55 | the meaning at or after a key is what the log holds at its smallest key that is at least the search key, and 0 when every key is smaller |
| `CheckpointArray.ValueFromSplit` | lib/openzeppelin-contracts/scripts/generate/templates/Checkpoints.js:48-55 | the value at the lower search position of the array is the log's meaning at or after the key |
| `CheckpointArray.SplitCounts` | lib/openzeppelin-contracts/scripts/generate/templates/Checkpoints.js:204-248 | a search position is the number of stored keys on its left |
| `CheckpointArray.PositionsDiffer` | lib/openzeppelin-contracts/scripts/generate/templates/Checkpoints.js:51-64 | the upper position for k is the lower position for k + 1, and exceeds the lower position for k by one exactly when k is stored |
| `Traces.Trace.Push` | lib/openzeppelin-contracts/scripts/generate/templates/Checkpoints.js:40-46 | reverts exactly when the key goes back, changing nothing; otherwise appends to the log and returns (previous latest, value) |
| `Traces.Trace.UpperLookup` | lib/openzeppelin-contracts/scripts/generate/templates/Checkpoints.js:57-64 | returns the value last pushed at a key no greater than the argument |
| `Traces.Trace.LowerLookup` | lib/openzeppelin-contracts/scripts/generate/templates/Checkpoints.js:48-55 | returns what the log holds at its smallest key no smaller than the argument |
| `Traces.Trace.Positions` | lib/openzeppelin-contracts/scripts/generate/templates/Checkpoints.js:51-64 | both search positions counted in stored keys; they differ exactly at a stored key, where both lookups give one value |
| `Traces.PushShadowsFromKeyOn` | lib/openzeppelin-contracts/scripts/generate/templates/Checkpoints.js:40-64 | an accepted push at k changes the upper lookup of no key below k, then or after any later pushes, and gives the new value from k on |
| `Traces.PastIsImmutable` | lib/openzeppelin-contracts/scripts/generate/templates/Checkpoints.js:57-64 | no run of further pushes changes a lookup below the newest key |
| `Traces.Trace.LatestValue` | lib/openzeppelin-contracts/scripts/generate/templates/Checkpoints.js:135-142 | the value of the last accepted push, or 0 |
| `Traces.Trace.LatestCheckpoint` | lib/openzeppelin-contracts/scripts/generate/templates/Checkpoints.js:144-164 | existence, key and value of the last accepted push |
| `Traces.Trace.Length` | lib/openzeppelin-contracts/scripts/generate/templates/Checkpoints.js:166-171 | the number of distinct keys ever accepted |
| `Traces.Replay` | lib/openzeppelin-contracts/scripts/generate/templates/Checkpoints.js:40-46 | after any run of pushes the log is the accepted pushes and the array is its one compressed form |
| `Histories.History.GetAtBlock` | lib/openzeppelin-contracts/scripts/generate/templates/Checkpoints.js:73-80 | on every reachable history: revert for a block not mined or not fitting 32 bits, else the value of the last push made at a block no later; comparisons at most floor(log2 n) + 1 |
| `Histories.History.RecentWindow` | lib/openzeppelin-contracts/scripts/generate/templates/Checkpoints.js:92-104 | the window the fast path searches, with every array access inside the array |
| `Histories.History.GetAtProbablyRecentBlock` | lib/openzeppelin-contracts/scripts/generate/templates/Checkpoints.js:88-109 | the same answer and the same reverts as getAtBlock on every input; for n > 5 and a key not older than checkpoint n - sqrt(n), at most 2 + floor(log2(sqrt(n) - 1)) comparisons |
| `Histories.History.PushValue` | lib/openzeppelin-contracts/scripts/generate/templates/Checkpoints.js:116-118 | reverts exactly when the block or the value does not fit, never for its key; otherwise one more log entry at the current block |
| `Histories.History.PushOperator` | lib/openzeppelin-contracts/scripts/generate/templates/Checkpoints.js:126-132 | pushes what the operator answers for the latest value and the delta, having seen the block, the checkpoints and the rest of the storage; or reverts with the operator, changing nothing |
| `Histories.History.LatestValue` | lib/openzeppelin-contracts/scripts/generate/templates/Checkpoints.js:135-142 | the value of the last accepted push, or 0 |
| `Histories.History.LatestCheckpoint` | lib/openzeppelin-contracts/scripts/generate/templates/Checkpoints.js:144-164 | existence, block and value of the last accepted push |
| `Histories.History.Length` | lib/openzeppelin-contracts/scripts/generate/templates/Checkpoints.js:166-171 | the number of distinct blocks pushed at |
| `CheckpointArray.CompressedRepresents` | lib/openzeppelin-contracts/scripts/generate/templates/Checkpoints.js:177-202 | inserting a log entry by entry gives an array that means the log: what an operator sees is fixed by the pushes |
| `CheckpointArray.LengthBelowKeys` | lib/openzeppelin-contracts/scripts/generate/templates/Checkpoints.js:177-202 | an array of checkpoints is never longer than its key type has keys, so its length is in the domain of the square root |
| `Histories.Replay` | lib/openzeppelin-contracts/scripts/generate/templates/Checkpoints.js:67-133 | every run of pushes and block advances from creation: the record and the returned pairs are those of the uncompressed log machine and the array is its one compressed form |
| `HistoryLog.PastIsImmutable` | lib/openzeppelin-contracts/scripts/generate/templates/Checkpoints.js:67-80 | once a block is mined no later run of pushes or block advances changes its answer |
| `HistoryLog.AnsweredOnceMined` | lib/openzeppelin-contracts/scripts/generate/templates/Checkpoints.js:73-94 | a block is answered exactly once it is mined: the current one and those to come revert, those just mined have the value pushed last |
| `HistoryLog.ViewShowsHistory` | lib/openzeppelin-contracts/scripts/generate/templates/Checkpoints.js:126-132 | an operator sees the block, checkpoints that mean the log, and the storage |
| `HistoryLog.AnswerIsLastPush` | lib/openzeppelin-contracts/scripts/generate/templates/Checkpoints.js:67-80 | the value pushed last in a block is the answer for that block after every later run |
| `HistoryLog.LatestIsFold` | lib/openzeppelin-contracts/scripts/generate/templates/Checkpoints.js:120-142 | over any run whose pushes all use one operator, which may read the contract, the latest value is the left fold of the operator over what each accepted push saw and its delta |
| `HistoryLog.ReturnsAreLinked` | lib/openzeppelin-contracts/scripts/generate/templates/Checkpoints.js:111-132 | over any run each accepted push returns as previous value what the accepted push before it returned as new value |
| `WordMath.Sqrt` | lib/openzeppelin-contracts/contracts/utils/math/Math.sol:158-189 | for every word, seven Newton steps from the first guess and the final minimum give the floor square root |
| `WordMath.NewtonError` | lib/openzeppelin-contracts/contracts/utils/math/Math.sol:179-185 | a step never lands below the floor root, and its squared error falls to at most the square of the one before over four times the square |
| `WordMath.CloseEnough` | lib/openzeppelin-contracts/contracts/utils/math/Math.sol:186-187 | once the square exceeds the argument by a small enough part, the minimum with the quotient is the floor root |
| `WordMath.FirstGuess` | lib/openzeppelin-contracts/contracts/utils/math/Math.sol:159-178 | the first guess from the logarithm has a square at most the argument and above a quarter of it |
| `WordMath.FloorSqrtUnique` | lib/openzeppelin-contracts/contracts/utils/math/Math.sol:152-158 | r * r <= n < (r + 1) * (r + 1) has one solution |
| `WordMath.FloorLog2` | lib/openzeppelin-contracts/contracts/utils/math/Math.sol:205-243 | the eight shifts give the floor logarithm of every word, and 0 for 0 |
| `WordMath.Average` | lib/openzeppelin-contracts/contracts/utils/math/Math.sol:34-37 | the common bits plus half of the differing ones are the floor average of any two numbers |
| `MulDivs.MulDiv` | lib/openzeppelin-contracts/contracts/utils/math/Math.sol:55-135 | for all words: reverts exactly when the denominator is 0 or the quotient leaves the word, otherwise the quotient of the 512-bit product |
| `MulDivs.MulDivRounded` | lib/openzeppelin-contracts/contracts/utils/math/Math.sol:140-151 | rounded up, the quotient of the product and one less than the denominator; also then it reverts exactly when that leaves the word |
| `MulDivs.HighWordExact` | lib/openzeppelin-contracts/contracts/utils/math/Math.sol:64-72 | the high word of a product from its remainders modulo 2^256 and 2^256 - 1, with the borrow |
| `MulDivs.LowestBit` | lib/openzeppelin-contracts/contracts/utils/math/Math.sol:97-99 | a number and its negation have in common exactly the largest power of two that divides it |
| `MulDivs.JoinedIs` | lib/openzeppelin-contracts/contracts/utils/math/Math.sol:98-111 | dividing the low word by that power and moving in the bits of the high word gives the exact quotient by it, modulo 2^256, also when the power is 1 and its complement wraps to 0 |
| `MulDivs.SeedInverts` | lib/openzeppelin-contracts/contracts/utils/math/Math.sol:113-116 | three times an odd number with its second bit flipped is its inverse modulo 16 |
| `MulDivs.HenselDoubles` | lib/openzeppelin-contracts/contracts/utils/math/Math.sol:118-125 | a Newton step modulo 2^256 doubles the bits of the inverse that are right |
| `MulDivs.InverseDivides` | lib/openzeppelin-contracts/contracts/utils/math/Math.sol:127-132 | multiplying an exact product by the inverse gives the quotient |
| `WordMath.SumOfBits` | lib/openzeppelin-contracts/contracts/utils/math/Math.sol:34-37 | two numbers sum to twice their common bits and their differing bits |
| `EnumerableSets.Set.Add` | lib/openzeppelin-contracts/scripts/generate/templates/EnumerableSet.js:75-85 | adds exactly when absent and says so; the new value goes last |
| `EnumerableSets.Set.Remove` | lib/openzeppelin-contracts/scripts/generate/templates/EnumerableSet.js:93-125 | removes exactly when present and says so; the order becomes swap-and-pop of the old order and the index stays exact |
| `EnumerableSets.SwapPopIndexed` | lib/openzeppelin-contracts/scripts/generate/templates/EnumerableSet.js:93-125 | moving the last value's index to the freed slot and clearing the removed one keeps index[v] = position + 1, and 0 exactly for non-members |
| `EnumerableSets.Set.Contains` | lib/openzeppelin-contracts/scripts/generate/templates/EnumerableSet.js:130-132 | the non-zero index test is membership |
| `EnumerableSets.Set.Length` | lib/openzeppelin-contracts/scripts/generate/templates/EnumerableSet.js:137-139 | the length is the number of distinct members |
| `EnumerableSets.Set.At` | lib/openzeppelin-contracts/scripts/generate/templates/EnumerableSet.js:151-153 | the value at the index, no value at two indexes; a revert past the end |
| `EnumerableSets.IndexMeaning` | lib/openzeppelin-contracts/scripts/generate/templates/EnumerableSet.js:93-132 | under the index invariant the stored index is non-zero exactly for members and then one more than the position |
| `EnumerableSets.ReindexedReads` | lib/openzeppelin-contracts/scripts/generate/templates/EnumerableSet.js:103-116 | the two index writes of a removal, the last value first, read as intended even when the removed value is the last |
| `EnumerableSets.IndexDetermined` | lib/openzeppelin-contracts/scripts/generate/templates/EnumerableSet.js:61-68 | the order determines the index mapping |
| `EnumerableSets.AddThenRemove` | lib/openzeppelin-contracts/scripts/generate/templates/EnumerableSet.js:75-125 | adding a fresh value and removing it restores both the values and the indexes |
| `EnumerableSets.Replay` | lib/openzeppelin-contracts/scripts/generate/templates/EnumerableSet.js:75-132 | every run from creation follows the mathematical set, flag by flag |
| `SetOrder.RunRefinesSet` | lib/openzeppelin-contracts/scripts/generate/templates/EnumerableSet.js:75-165 | over every run the enumeration lists each member of the mathematical set exactly once, and the length is successful adds minus successful removes |
| `SetOrder.RemovalMovesOnlyLast` | lib/openzeppelin-contracts/scripts/generate/templates/EnumerableSet.js:103-116 | removal moves at most one survivor: the last element, into the freed slot |
| `SetOrder.AddThenRemoveRestores` | lib/openzeppelin-contracts/scripts/generate/templates/EnumerableSet.js:75-125 | the order after adding a fresh value and removing it is the order before |
| `SetOrder.RemoveThenAddRestoresIffLast` | lib/openzeppelin-contracts/scripts/generate/templates/EnumerableSet.js:75-125 | removing a member and adding it back keeps the members, and keeps the order exactly when the member was last |
| `Storage.MappingExtensional` | lib/openzeppelin-contracts/scripts/generate/templates/EnumerableSet.js:67 | two mappings that read alike are equal |
| `EnumerableMaps.EnumerableMap.Put` | lib/openzeppelin-contracts/scripts/generate/templates/EnumerableMap.js:82-89 | binds the key, even to zero; true exactly when the key was new |
| `EnumerableMaps.EnumerableMap.Remove` | lib/openzeppelin-contracts/scripts/generate/templates/EnumerableMap.js:96-99 | unbinds the key; true exactly when it was bound |
| `EnumerableMaps.RemoveUnbinds` | lib/openzeppelin-contracts/scripts/generate/templates/EnumerableMap.js:96-99 | clearing the stored word with the key keeps every word outside the key set zero |
| `EnumerableMaps.PutBinds` | lib/openzeppelin-contracts/scripts/generate/templates/EnumerableMap.js:82-89 | writing the word with the key keeps every word outside the key set zero |
| `EnumerableMaps.EnumerableMap.TryGet` | lib/openzeppelin-contracts/scripts/generate/templates/EnumerableMap.js:134-141 | exact for every key, including keys bound to zero, although a non-zero word is never checked against the key set |
| `EnumerableMaps.EnumerableMap.Get` | lib/openzeppelin-contracts/scripts/generate/templates/EnumerableMap.js:150-154 | the bound value, or a revert exactly for unbound keys |
| `EnumerableMaps.EnumerableMap.At` | lib/openzeppelin-contracts/scripts/generate/templates/EnumerableMap.js:125-128 | the key at the index with its value, or a revert past the end |
| `EnumerableMaps.EnumerableMap.Length` | lib/openzeppelin-contracts/scripts/generate/templates/EnumerableMap.js:111-113 | the number of bindings |
| `EnumerableMaps.Replay` | lib/openzeppelin-contracts/scripts/generate/templates/EnumerableMap.js:82-154 | every run from creation stands for the mathematical map of that run; keys are enumerated once each, in the order the key set alone gives |
| `Conversion.CastsKeep` | lib/openzeppelin-contracts/scripts/generate/templates/conversion.js:1-25 | a value of a type comes back from its word |
| `Conversion.ToFrom` | lib/openzeppelin-contracts/scripts/generate/templates/conversion.js:1-25 | a word comes back from the typed value read out of it exactly when it is in the image of the type |
| `Conversion.TruncationCollides` | lib/openzeppelin-contracts/scripts/generate/templates/conversion.js:15-25 | outside the image the truncating read is not injective |
| `TypedCollections.ReinterpretedAgrees` | lib/openzeppelin-contracts/scripts/generate/templates/EnumerableSet.js:231-241 | on words of the image, reading through the cast is the identity |
| `TypedCollections.TypedSet.Add` | lib/openzeppelin-contracts/scripts/generate/templates/EnumerableSet.js:181-183 | refines the typed set and keeps every stored word in the image |
| `TypedCollections.TypedSet.Remove` | lib/openzeppelin-contracts/scripts/generate/templates/EnumerableSet.js:191-193 | refines the typed set |
| `TypedCollections.TypedSet.At` | lib/openzeppelin-contracts/scripts/generate/templates/EnumerableSet.js:219-221 | the truncating read at an index; no two indexes give one member |
| `TypedCollections.TypedSet.Values` | lib/openzeppelin-contracts/scripts/generate/templates/EnumerableSet.js:231-241 | the uncast stored array agrees with at(i) at every index |
| `TypedCollections.TypedMap.Put` | lib/openzeppelin-contracts/scripts/generate/templates/EnumerableMap.js:187-193 | refines the typed map and keeps keys and values in their images |
| `TypedCollections.TypedMap.Remove` | lib/openzeppelin-contracts/scripts/generate/templates/EnumerableMap.js:200-202 | refines the typed map |
| `TypedCollections.TypedMap.At` | lib/openzeppelin-contracts/scripts/generate/templates/EnumerableMap.js:227-230 | distinct indexes give distinct typed keys, all of the map's keys, each with its value |
| `TypedCollections.TypedMap.TryGet` | lib/openzeppelin-contracts/scripts/generate/templates/EnumerableMap.js:236-239 | exact for every typed key |
| `TypedCollections.TypedMap.Get` | lib/openzeppelin-contracts/scripts/generate/templates/EnumerableMap.js:248-250 | the bound value, or a revert exactly for unbound keys |
| `InheritanceCheck.Graph.AddChain` | lib/openzeppelin-contracts/scripts/checks/inheritance-ordering.js:24-26 | adds an edge exactly for every pair the chain orders |
| `InheritanceCheck.ChainsOfExact` | lib/openzeppelin-contracts/scripts/checks/inheritance-ordering.js:15-22 | a chain is considered exactly when a source outside the mocks has it |
| `InheritanceCheck.MockHasDirectory` | lib/openzeppelin-contracts/scripts/checks/inheritance-ordering.js:16 | a source is skipped exactly when its path has the directory `/mocks/` in it |
| `InheritanceCheck.ChainsOfAppend` | lib/openzeppelin-contracts/scripts/checks/inheritance-ordering.js:15-22 | the chains keep the order of the sources and of the contracts in each |
| `InheritanceCheck.BuildGraph` | lib/openzeppelin-contracts/scripts/checks/inheritance-ordering.js:15-28 | the graph and the list of linearizations of every source outside the mocks |
| `InheritanceCheck.FindConflicts` | lib/openzeppelin-contracts/scripts/checks/inheritance-ordering.js:32-45 | a pair is reported exactly when two chains order it oppositely, each unordered pair once, with its listing; the report is empty exactly when there is no conflict |
| `InheritanceCheck.ListingExact` | lib/openzeppelin-contracts/scripts/checks/inheritance-ordering.js:37-41 | a listing holds exactly the chains containing both contracts, signed by their order in the chain |
| `InheritanceCheck.ListingAppend` | lib/openzeppelin-contracts/scripts/checks/inheritance-ordering.js:37-39 | the listing keeps the order and the repetitions of the chains |
| `InheritanceCheck.ListingShowsBothSigns` | lib/openzeppelin-contracts/scripts/checks/inheritance-ordering.js:37-41 | the listing of a conflict has a line each way |
| `InheritanceCheck.CheckOrdering` | lib/openzeppelin-contracts/scripts/checks/inheritance-ordering.js:8-50 | one exact report per artifact; "consistent" exactly when no artifact has a conflict |
| `InheritanceCheck.RingIsDeclaredConsistent` | lib/openzeppelin-contracts/scripts/checks/inheritance-ordering.js:8-50 | the script, given one contract file of three linearizations whose graph has a cycle 1, 2, 3, 1, reports nothing and declares it consistent |
| `ChainOrders.NoConflictIffAgree` | lib/openzeppelin-contracts/scripts/checks/inheritance-ordering.js:48-50 | no conflict exactly when every two chains order the contracts they share alike |
| `ChainOrders.CycleInsideChain` | lib/openzeppelin-contracts/scripts/checks/inheritance-ordering.js:30-34 | a cycle of any length inside one chain has two neighbours with edges both ways, so a conflict-free graph has no such cycle |
| `ChainOrders.TwoChainOrder` | lib/openzeppelin-contracts/scripts/checks/inheritance-ordering.js:24-34 | two chains without a conflict merge into one order containing both as subsequences |
| `ChainOrders.GlobalOrderIsAcyclic` | lib/openzeppelin-contracts/scripts/checks/inheritance-ordering.js:24-34 | a common order of all chains excludes every cycle |
| `ChainOrders.RingHasNoConflictButCycles` | lib/openzeppelin-contracts/scripts/checks/inheritance-ordering.js:30-34 | concrete inputs, one for every n >= 3, without a conflicting pair whose graph has a 3-cycle |
| `ChainOrders.RingIsInheritance` | lib/openzeppelin-contracts/scripts/checks/inheritance-ordering.js:20-27 | those inputs are linearizations as Solidity makes them: one per contract, starting with it, each base linearization inside |
| `ChainOrders.PairwiseCheckCompleteIffTwo` | lib/openzeppelin-contracts/scripts/checks/inheritance-ordering.js:30-34 | "only cycles of length 2 matter" holds for all inputs in which n chains order anything exactly when n <= 2, for arbitrary chains and for Solidity linearizations alike |
| `ChainOrders.MergeChains` | lib/openzeppelin-contracts/scripts/checks/inheritance-ordering.js:30-34 | a computable check of given chains: taking good heads off empties them exactly when their graph is acyclic, the heads taken are then a common order, and so no conflicting pair means no cycle exactly for chains with a conflict or that merge |
| `ChainOrders.GoodHeadKeepsCycles` | lib/openzeppelin-contracts/scripts/checks/inheritance-ordering.js:30-34 | any good head will do: taking it off neither makes nor breaks a cycle |
| `ChainOrders.CoveringChainDecides` | lib/openzeppelin-contracts/scripts/checks/inheritance-ordering.js:30-34 | when one chain lists every contract, no conflicting pair means no cycle |
| `ChainOrders.AcyclicIffOrdered` | lib/openzeppelin-contracts/scripts/checks/inheritance-ordering.js:30-34 | for any number of chains the graph is acyclic exactly when a common order exists |
| `ChainOrders.StuckHasCycle` | lib/openzeppelin-contracts/scripts/checks/inheritance-ordering.js:30-34 | when no head is good the heads of the chains hold a cycle |
| `SafeCasts.WrapUnique` | lib/openzeppelin-contracts/scripts/generate/templates/SafeCast.js:117-120 | two's-complement truncation is the one value of the target range congruent to its argument |
| `SafeCasts.ToIntExact` | lib/openzeppelin-contracts/scripts/generate/templates/SafeCast.js:103-121 | toIntN succeeds exactly on the range of intN and then returns its argument |
| `SafeCasts.ToUintExact` | lib/openzeppelin-contracts/scripts/generate/templates/SafeCast.js:83-100 | toUintN succeeds exactly on the range of uintN and then returns its argument |
| `SafeCasts.WrapThroughWider` | lib/openzeppelin-contracts/scripts/generate/templates/SafeCast.js:117-120 | truncating through a wider width changes nothing |
| `SafeCasts.NarrowThroughWider` | lib/openzeppelin-contracts/scripts/generate/templates/SafeCast.js:96-121 | narrowing by way of any wider width gives the value or the revert of narrowing at once |
| `SafeCasts.SignConversionsInverse` | lib/openzeppelin-contracts/scripts/generate/templates/SafeCast.js:124-155 | toInt256 and toUint256 are inverse wherever they succeed, and succeed exactly on their halves |
| `SafeCasts.HistoryCasts` | lib/openzeppelin-contracts/scripts/generate/templates/Checkpoints.js:116-118 | the two casts of a history, to 32 and 224 bits, by the limits they compare with |
| `FormatLines.SplitLines` | lib/openzeppelin-contracts/scripts/generate/format-lines.js:11 | splitting gives lines without newlines whose join is the text |
| `FormatLines.SplitJoin` | lib/openzeppelin-contracts/scripts/generate/format-lines.js:1-3 | a joined list of lines with a final newline splits into the same lines and one empty line |
| `FormatLines.TextUnchanged` | lib/openzeppelin-contracts/scripts/generate/format-lines.js:1-14 | a text is emitted as it stands, and formatted with one newline more |
| `FormatLines.IndentAppend` | lib/openzeppelin-contracts/scripts/generate/format-lines.js:5-14 | lists are emitted one after the other |
| `FormatLines.IndentShifts` | lib/openzeppelin-contracts/scripts/generate/format-lines.js:5-14 | emitting a tree deeper pads the lines it has: padding is additive and empty lines stay empty |
| `FormatLines.IndentedByDepth` | lib/openzeppelin-contracts/scripts/generate/format-lines.js:5-14 | a line at depth d is empty or four spaces a level and the line of depth 0 |
| `FormatLines.FormattedLeaf` | lib/openzeppelin-contracts/scripts/generate/format-lines.js:1-14 | already formatted text emitted as a leaf gives the lines of its tree and one empty line, exactly when the tree holds some text |
| `FormatLines.FormattedPart` | lib/openzeppelin-contracts/scripts/generate/format-lines.js:1-14 | formatting a part beforehand adds one empty line after it and changes nothing else, wherever the part stands |
| `FormatLines.NestedPart` | lib/openzeppelin-contracts/scripts/generate/format-lines.js:5-14 | nesting a part pads its lines by one level |
| `FormatLines.FormatReadsBack` | lib/openzeppelin-contracts/scripts/generate/format-lines.js:1-14 | formatted text reads back as its lines; formatting it again adds one newline |
| `ListFiles.ListFilesRecursively` | lib/openzeppelin-contracts/scripts/migrate-imports.js:112-131 | terminates on every finite forest, returns the matching files level by level, each level left to right, and empties the caller's array |
| `ListFiles.ListsEveryFileOnce` | lib/openzeppelin-contracts/scripts/migrate-imports.js:112-131 | the level-order listing is, as a multiset with depths, the depth-first listing of the matching files |
| `ListFiles.LevelsKeepOrder` | lib/openzeppelin-contracts/scripts/migrate-imports.js:112-131 | each level comes from left to right: at every depth the files are in the order of a depth-first listing |
| `ListFiles.DepthNeverDecreases` | lib/openzeppelin-contracts/scripts/migrate-imports.js:112-131 | the files come in non-decreasing depth |
| `Kernels.Kernel.ActivatePolicy` | src/Kernel.sol:290-317 | reverts for an active policy, changing nothing; otherwise lists the policy, enlists it with every named module in turn and grants what it requests |
| `Kernels.Kernel.DeactivatePolicy` | src/Kernel.sol:319-339 | reverts for an inactive policy, or with an index past an array (which no run reaches), changing nothing; otherwise revokes what it requests, and swap-and-pop in the list and in every named module in turn |
| `Kernels.Kernel.SetPolicyPermissions` | src/Kernel.sol:379-391 | sets every requested permission in turn |
| `Kernels.Kernel.PruneFromDependents` | src/Kernel.sol:393-416 | the swap-and-pop of every named module in turn, at whatever position its index reads |
| `Rosters.ExactIsListed` | src/Kernel.sol:229-231 | with exact indexes the test through a 0-based index without a sentinel is membership, also for policies never seen |
| `Rosters.StrikeExact` | src/Kernel.sol:327-336 | one removal keeps every index exact and the list free of repetitions |
| `Rosters.BehindAnother` | src/Kernel.sol:393-416 | copies of one policy behind entries of another: two or more of them, removed one by one, overwrite the first entry of the other and drop its last |
| `Rosters.AloneComesAndGoes` | src/Kernel.sol:300-336 | any number of copies of a policy alone in a list come and go without trace |
| `Kernels.EnlistAllAt` | src/Kernel.sol:300-311 | a module sees an activation only by how often the policy names it |
| `Kernels.StrikeAllAt` | src/Kernel.sol:393-416 | a module sees a removal only by how often the policy names it |
| `KernelRuns.ActiveExact` | src/Kernel.sol:290-339 | over every run and for any dependency lists the active policies are listed once, at exact indexes |
| `KernelRuns.GrantsFollowActivity` | src/Kernel.sol:290-391 | over every run and for any dependency lists the permissions granted are exactly those the active policies request |
| `KernelRuns.Replay` | src/Kernel.sol:229-416 | every run of a kernel from its creation: exact active policies, permissions of the active policies only, and faithful dependents while repeated names are private |
| `KernelRuns.NeverPanics` | src/Kernel.sol:229-416 | over every run and for any dependency lists no array is accessed past its end: an action reverts exactly when the policy already is, or is not, active, which is as the last action about it says |
| `Rosters.StrikeInRange` | src/Kernel.sol:393-416 | while indexes other than 0 give positions of their policies, a removal fails only on an empty list |
| `KernelRuns.ListsOnceIffNamesOnce` | src/Kernel.sol:290-416 | over every run the active policies and the dependents of every module are listed once, at exact indexes: exactly when no policy names a module twice |
| `KernelRuns.FaithfulIffPrivateRepeats` | src/Kernel.sol:290-416 | over every run the dependents of a module are the active policies that name it: exactly when a module that some policy names twice is named by no other |
| `KernelRuns.BehindAndOutDrops` | src/Kernel.sol:290-416 | otherwise three actions on a new kernel drop the policy that stays and keep the one that left |
| `KernelRuns.EveryRunKeeps` | src/Kernel.sol:229-339 | under that condition a policy is active as the last action about it says, and an action reverts exactly when the policy already is, or is not, active |
| `Vault.DlpVault.Deposit` | src/policies/DLPVault.sol:247-268 | the deposit pays rewards up to date, serves the queue with what it brought, then mints; a revert changes nothing |
| `Vault.DlpVault.Withdraw` | src/policies/DLPVault.sol:271-317 | the allowance of another caller is spent; paid at once or queued, with the reverts in the order of the code; a revert changes nothing |
| `Vault.DlpVault.ProcessWithdrawalQueue` | src/policies/DLPVault.sol:320-353 | the loop settles from the head up to the limit while the cash lasts; panics when the limit added to the index leaves the word |
| `Vault.DlpVault.Transfer` | src/policies/DLPVault.sol:392-406 | both accounts are brought up to date before shares move |
| `Vault.DlpVault.TransferFrom` | src/policies/DLPVault.sol:408-420 | both accounts are brought up to date, the allowance is spent, then shares move |
| `Vault.DlpVault.Spend` | lib/openzeppelin-contracts/contracts/token/ERC20/ERC20.sol:335-348 | an allowance covers the amount and shrinks by it, unless it is unlimited |
| `Vault.DlpVault.NotifyRewardAmount` | src/policies/DLPVault.sol:496-516 | the new rate from the amount and what is left of the period, with its three checks and checked arithmetic |
| `Vault.DlpVault.SetRewardsDuration` | src/policies/DLPVault.sol:488-494 | only between periods, and not to zero |
| `Vault.DlpVault.GetReward` | src/policies/DLPVault.sol:475-482 | the stored reward is paid and cleared; nothing changes when the vault cannot pay |
| `Vault.Replay` | src/policies/DLPVault.sol:247-516 | every run of a vault from its creation: shares total the tokens staked, answers and payments stay within what was notified, and the queue was served in order |
| `VaultRuns.RewardsWithinNotified` | src/policies/DLPVault.sol:441-516 | over every run the shares total the tokens staked, and all that `earned` answers together with all that was paid is at most what was notified |
| `VaultRuns.SmallNeverOverflows` | src/policies/DLPVault.sol:457-473 | while all that was notified is below 2^256 over 10^18, no accrual and no answer of `earned` overflows |
| `VaultAccounts.AccrueKeeps` | src/policies/DLPVault.sol:441-466 | an accrual gives all shares together at most what the schedule loses |
| `VaultAccounts.NothingNew` | src/policies/DLPVault.sol:441-466 | a second accrual at the same time does nothing |
| `VaultAccounts.MoveKeeps` | src/policies/DLPVault.sol:392-420 | shares moved between accounts that are up to date change what no one is owed |
| `VaultAccounts.BurnKeeps` | src/policies/DLPVault.sol:334-337 | burning, also for an owner whose rewards are not up to date, makes no new promise; the unchecked subtraction of the total does not wrap |
| `VaultClaims.EarnedExact` | src/policies/DLPVault.sol:457-473 | what `earned` answers, and exactly when its checked arithmetic fits |
| `VaultClaims.ClaimExact` | src/policies/DLPVault.sol:475-482 | a claim succeeds exactly if that arithmetic fits and the tokens held cover the answer, and then pays it |
| `VaultClaims.ClaimsSucceedIff` | src/policies/DLPVault.sol:475-482 | claims of any accounts other than the vault at one time all succeed exactly if their arithmetic fits and the tokens held cover the sum of their answers |
| `VaultClaims.OthersKeepSolvent` | src/policies/DLPVault.sol:247-494 | only a notification, or reward tokens taken out, can make the tokens held too few for what was promised |
| `VaultClaims.SolventPays` | src/policies/DLPVault.sol:468-482 | while they suffice, every account is paid exactly what `earned` answers; a claim then reverts only if that answer overflows |
| `VaultClaims.SomePassesMeaning` | src/policies/DLPVault.sol:496-512 | when some 256-bit amount passes the checks, from the accrual, the duration, the balance and what is left of the period |
| `VaultClaims.GuardSuffices` | src/policies/DLPVault.sol:496-512 | the balance check admits only amounts the vault can pay beside what is unpaid exactly if no amount passes it, or what is unpaid fits in the balance modulo the duration |
| `VaultClaims.GuardPays` | src/policies/DLPVault.sol:496-512 | in the second case every claim is paid after any accepted amount, until the next notification |
| `VaultClaims.NotificationPays` | src/policies/DLPVault.sol:496-516 | an accepted notification, in terms of claims: if what is unpaid and the new period are within the balance, every later claim is paid; if they exceed it by more than the rounding can lose, the claims of all accounts at the end of the period cannot all succeed |
| `VaultClaims.ShortfallFails` | src/policies/DLPVault.sol:441-482 | more promised than held, by the supply and one token a holder: then the claims of all accounts but the vault at the end of the period fail |
| `VaultClaims.ClaimsAreRun` | src/policies/DLPVault.sol:475-482 | such claims are a run of calls on the vault |
| `VaultClaims.FundedRunPays` | src/policies/DLPVault.sol:441-516 | after any run in which each notification finds its amount beyond all notified and not yet paid, every claim is paid in full, unless its answer overflows, which none does below 2^256 over 10^18 |
| `VaultClaims.NotifiedTwice` | src/policies/DLPVault.sol:496-516 | a run in which the same ten tokens pass the check twice: twenty are owed, ten are held, and the claim reverts |
| `VaultQueue.QueueServedInOrder` | src/policies/DLPVault.sol:295-353 | over every run the settled requests are the first ones queued, in order, each once; the others wait unchanged, and what was settled stays settled however the run goes on |
| `VaultQueue.ProcessServes` | src/policies/DLPVault.sol:320-353 | one pass reverts exactly if the accrual does or the limit added to the index leaves the word; otherwise it settles a stretch from the head, at most the limit: each request within the cash those before it left, and paid exactly if they left its owner the shares; it stops only at the limit or at a request beyond the cash |
| `VaultQueue.WithdrawFifo` | src/policies/DLPVault.sol:288-316 | a withdrawal is paid at once exactly if no request waits and the cash suffices; otherwise it goes to the end of the queue |
| `VaultEffects.UpdateEffect` | src/policies/DLPVault.sol:441-451 | an account is stored what `earned` answered, every share is credited up to now or the end of the period, and nothing else changes |
| `VaultEffects.GetRewardEffect` | src/policies/DLPVault.sol:475-482 | a claim clears the account and pays it what `earned` answered, less nothing for the vault itself |
| `VaultEffects.TransferExact` | src/policies/DLPVault.sol:392-406 | exactly when a transfer is accepted and with which error it is not; the shares move from the sender to the other, both accounts are brought up to date, the sender is paid what `earned` answered, and nothing else changes |
| `VaultEffects.TransferFromExact` | src/policies/DLPVault.sol:408-420 | the same for `transferFrom`, with the allowance of the caller: it has to cover the amount and shrinks by it, and no other allowance changes |
| `VaultEffects.ApproveExact` | lib/openzeppelin-contracts/contracts/token/ERC20/ERC20.sol:317-327 | an approval sets one allowance and no other |
| `VaultEffects.WithdrawEffect` | src/policies/DLPVault.sol:271-317 | everything an accepted withdrawal changes: the rewards paid, cleared and credited, the allowance spent, and either shares and tokens at once, or the request at the end of the queue and a pass without limit over it |
| `VaultEffects.WithdrawReverts` | src/policies/DLPVault.sol:271-317 | while the rewards are covered, the error of a withdrawal that is not accepted, by the first reason that holds |
| `VaultEffects.DepositEffect` | src/policies/DLPVault.sol:247-268 | everything an accepted deposit changes: with its tokens at most thirty requests are settled, fewer only when none waits or the next is beyond the cash left; the receiver is credited before the shares are made |
| `VaultEffects.DepositReverts` | src/policies/DLPVault.sol:247-268 | the error of a deposit that is not accepted, by the first reason that holds |
| `VaultEffects.ProcessExact` | src/policies/DLPVault.sol:320-353 | exactly when a pass over the queue is accepted, and everything it changes: rewards accrue first, no account is brought up to date |
| `VaultEffects.NotifyExact` | src/policies/DLPVault.sol:496-516 | exactly when a notification is accepted and with which error it is not; the new rate spends the amount and what the running period has left, but for less than one a second, over one duration from now, and nothing else changes |
| `VaultEffects.SetDurationExact` | src/policies/DLPVault.sol:488-494 | the duration is set exactly between periods and to anything but zero |
| `VaultEffects.StepSettings` | src/policies/DLPVault.sol:247-516 | duration, cap, period and time change only by the actions for them |
| `VaultEffects.DurationFixed` | src/policies/DLPVault.sol:488-494 | no action changes the duration while a period runs |
| `VaultEffects.PeriodsKeepDuration` | src/policies/DLPVault.sol:488-516 | over every run a running period ends within one duration from now |
| `VaultCalls.DepositAccounts` | src/policies/DLPVault.sol:247-268 | accepted exactly for a receiver other than the zero address, within the cap, and with arithmetic that fits; one share per token for the receiver, after the queue was served with the tokens |
| `VaultCalls.PaidAccounts` | src/policies/DLPVault.sol:288-300 | a withdrawal paid at once takes as many shares from its owner as tokens from the vault, and no other shares |
| `VaultCalls.TransferAccounts` | src/policies/DLPVault.sol:392-406 | while the rewards are covered, a transfer is accepted exactly between accounts other than zero, within the balance, and with arithmetic that fits; it takes from one account what it gives the other, also when both are one |
| `VaultCalls.WithdrawAccepted` | src/policies/DLPVault.sol:271-317 | while the rewards are covered, a withdrawal is accepted exactly for a receiver other than the zero address, some assets, enough shares, the owner or an allowance, and with arithmetic that fits |
| `VaultCalls.AllowanceBounds` | src/policies/DLPVault.sol:280-286 | over every run without another approval, what a spender took for an owner and what is left of the allowance are the allowance there was |

## Left out

- Storage layout, the assembly of `_unsafeAccess`, gas and events: array accesses are plain in-bounds accesses and comparisons are counted by ghost results.
- Operators passed to `push(op, delta)` see the block, the checkpoints and one mapping for all other storage; they change nothing, as the `view` in their type says.
- Arrays are unbounded (the index of the withdrawal queue is checked only where a limit is added to it) and the block number has no upper limit; a 256-bit overflow of a length or of the block counter does not arise below it.
- The `get` overloads with a custom message: they differ from `get` in the text of the revert only.
- Revert texts: an error is named, not spelled.
- Node order of `graphlib`: the library is not in the repository; nodes are listed in order of insertion, so which contract of a pair is named first, and the order of report entries, may differ from a run of the script. Which pairs are reported does not depend on it.
- Contract names, and the name printed for a chain (its first non-zero id): a report line holds the chain itself. Ids are numbers throughout, so the conversions between ids and node names are not modelled.
- `process.exitCode` is taken as unset before the script starts.
- The file system: `stat` and `readdir` see a fixed finite forest whose entries carry their joined paths; missing paths, symbolic links that make the forest infinite and `path.join` normalisation are not modelled. The regular expression is a predicate on paths.
- `updateFile`, `updateImportPaths`, `getUpgradeablePath` and the path table of `migrate-imports.js`: string replacement over a constant table.
- The JavaScript that assembles the Solidity text (headers, `version`, `run.js`, the mocks): the model is of the emitted code and of the formatter.
- `helpers.js`, `compareGasReports.js`, release and documentation scripts: they would add easy members only.
- `src/Kernel.sol`: modules, the executor, migration and the events; what a policy answers for its dependencies and its requests is taken not to change between its activation and its deactivation, and not to call the kernel back.
- `src/policies/DLPVault.sol`: roles, fees, locking, claiming and flash loans act on the model only as changes of the tokens the vault holds. The other tokens transfer what they are asked to or revert, and call nothing back; what a depositor holds is not modelled. `ERC20Upgradeable` is not part of the repository; its balances and allowances follow `ERC20.sol`, lines 226-348, without `increaseAllowance` and `decreaseAllowance`.
- `src/library/FullMath.sol` runs the algorithm of `MulDivs.MulDiv`; there a zero denominator of a small product reverts without a reason, and `mulDivUp` without a panic.
- VaultCalls.DepositAccounts: does not model a deposit that the token itself refuses, which reverts.
- The other sources under `src/` and the contracts the tests exercise: outside the scope of this model.
