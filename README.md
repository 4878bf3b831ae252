# Discrete cores of an RNA pairing engine and a Bayesian-network order search

This project models, in Dafny, the integer and array logic of two programs and proves what that logic guarantees.

**The RNA partition-function engine, `prna-omp/prna.cpp`.** The model covers these parts:
- **Table indexing.** `ind` is row-major indexing of n-by-n tables. `upper_triangle_index` indexes the strict upper triangle, which stores the pairing-constraint table and `wq`. `can_pair` tests whether two positions may pair, and `wrap` is circular wrap-around.
- **Interior and exterior pairs.** `is_interior`/`is_exterior` classify a pair, and `array_val` returns an optional table cell.
- **The wavefront sweep.** On diagonal `d` each position `i` meets `wrap(i+d+1, n)`. A rolling buffer with two slots holds `w`, `wl` and `xl`; one with five slots holds `x`.
- **Internal loops.** The model covers the `(d1, d2)` enumeration of `calc_internal`.
- **Boundary vectors.** The model covers the index pairs read and the entries written by `calc_w5_and_w3`. It also covers the `wl`/`w` chaining of `calc_wl` across the whole sweep.
- **Special hairpins.** The model covers the table dispatch of `lookup_find`.
- **The constraint table.** The model covers the builder `generate_bcp`.
- **Structure extraction.** The model covers the ProbKnot pipeline: greedy partner choice, the mutual filter, and `unpair`, `is_paired` and `remove_helices_shorter_than`.

Energies are reals and are only compared or passed on. The log-sum combinator is a function parameter `sum`. The energy terms a kernel computes from `V` are a function parameter `cell`.

**The order search, `bn-sycl/main.cpp`.** The model covers these parts:
- **Binomial coefficient.** `C` builds a falling factorial and divides it step by step.
- **Ranking.** `findindex` ranks a parent set inside a node's block of the local-score table. `sizepernode` is the size of that block, computed in `initial`.
- **Counters.** `incr` is a binary counter. `incrS` counts digit `n` modulo `STATE_N` and hands its carry to `incr`.
- **Order permutation.** `genOrders` exchanges two nodes of the order matrix. The two nodes are parameters instead of `rand()`.
- **Top-scores table.** `swap` and `sortGraph` run on the table of the `HIGHEST` best scores and graphs. So does the insertion-and-bubble block of `main` that maintains the table.

**How the code is modelled:**
- **Header constants.** `LOOP_MIN`, `LOOP_MAX`, `NODE_N` and `STATE_N` are defined in headers outside this model. They are positive constants of unknown value. `HIGHEST` is 3, as the source defines it.
- **Loops and arrays.** Code that loops and mutates arrays is modelled as methods over `array`s with loop invariants. Each method is proved against a function of its inputs or of the old state, and the properties are proved as lemmas about those functions.
- **`wq` lookups.** The module `PrnaSweep` does not model these on `s`; `BoundaryReads` only proves their indices.

Where the written code and its comments or documented intent differ, the model follows the code:
- The `x` comment above `calc_wl` lists element `i+1` for `x(i+2, j-1)` and for `x(i+2, j-2)`. The code reads element `i+2` for both, and `MultibranchReads` models the code.
- `incrS` carries into a binary `incr`, so the counter it drives is mixed-radix (see `BnCounters.MixedValue`). The model does not treat it as a base-`STATE_N` counter.
- When the table becomes full (`c == HIGHEST`), `main` sorts it and ignores that step's score. `TopScores.Update` keeps this behaviour.

## Model

| member | source | states |
|---|---|---|
| PrnaIndex.IndInRange | prna-omp/prna.cpp:201-204 | for 0 <= i, j < n the row-major position of (i, j) lies inside the n*n table |
| PrnaIndex.IndInjective | prna-omp/prna.cpp:201-204 | two cells whose columns are below n share a position only if they are the same cell |
| PrnaIndex.RowsApart | prna-omp/prna.cpp:201-204 | every cell of an earlier row comes before the start of a later row |
| PrnaIndex.TriangleSizeFormula | prna-omp/prna.cpp:206-209 | the strict upper triangle counted column by column has n(n-1)/2 cells, the size allocated for the constraint table and for wq |
| PrnaIndex.UpperTriangleIndexInRange | prna-omp/prna.cpp:206-209 | for 0 <= i < j < n the triangle index lies in [0, n(n-1)/2) |
| PrnaIndex.UpperTriangleIndexInjective | prna-omp/prna.cpp:206-209 | different pairs i < j get different triangle indices |
| PrnaIndex.TriangleCell | prna-omp/prna.cpp:206-209 | every cell k of the n(n-1)/2 allocation is the triangle index of a pair 0 <= i < j < n (the index is onto, so no cell is left unused) |
| PrnaIndex.CanPairSymmetric | prna-omp/prna.cpp:211-221 | can_pair(i, j) equals can_pair(j, i) |
| PrnaIndex.CanPairOnlyDistinctInRange | prna-omp/prna.cpp:211-221 | can_pair is false when i == j or either index is outside [0, n) |
| PrnaIndex.ArrayVal | prna-omp/prna.cpp:238-241 | a cell is returned exactly when the pair can pair, and it is the cell at ind(i, j, n) |
| PrnaLookup.LookupFind | prna-omp/prna.cpp:61-82 | only loop lengths 3, 4 and 6 (triloop, tetraloop and hexaloop tables) can find anything; nothing is found exactly when d has no table or no entry matches the d+2 bases; otherwise the value is that of the first matching entry |
| PrnaSweep.DiagonalPartnerInRange | prna-omp/prna.cpp:269-271 | for 0 <= i < n and 0 <= d <= n-2 the partner wrap(i+d+1, n) is in [0, n) and differs from i; the pair is exterior exactly when i+d+1 >= n |
| PrnaSweep.EveryPairOnOneDiagonal | prna-omp/prna.cpp:732 | the diagonal loop d = 0..n-2 visits every ordered pair of distinct positions on exactly one diagonal |
| PrnaSweep.RingSlotsDistinct | prna-omp/prna.cpp:474-493 | in a rolling buffer of `depth` slots, diagonals fewer than `depth` apart use different slots, and C's `%` gives a valid slot once d >= k |
| PrnaSweep.MultibranchSlots | prna-omp/prna.cpp:294-301 | under d > 2*LOOP_MIN+3 the slots (d-k)%5 for k = 0..4 are non-negative, agree with the mathematical remainder and are pairwise distinct |
| PrnaSweep.PairSlots | prna-omp/prna.cpp:474-479 | for d >= 1 the previous slot (d-1)%2 is valid and differs from the current slot d%2 |
| PrnaSweep.SlotCell | prna-omp/prna.cpp:480-493 | element i+a of the slot for diagonal d-a-c holds the pair (i+a, j-c), the correspondence tabulated above calc_wl |
| PrnaSweep.MultibranchReads | prna-omp/prna.cpp:294-301 | under their guards the four multibranch reads of x stay in range and read the pairs (i+1, j-1), (i+2, j-1), (i+1, j-2), (i+2, j-2) |
| PrnaSweep.ChainReads | prna-omp/prna.cpp:645-651 | the guard of the chaining reads in calc_x implies d >= 1, and the previous slot holds the pairs (i+1, j) and (i, j-1) |
| PrnaSweep.PreviousCellsWritten | prna-omp/prna.cpp:541-546 | a chaining read of wl or w never hits a cell that calc_wl skipped on the previous diagonal |
| PrnaSweep.StackReadsEarlierDiagonal | prna-omp/prna.cpp:275-280 | with LOOP_MIN >= 2, the guard of the stack term makes V(i+1, j-1) a pair of diagonal d-2, which an earlier iteration has completed |
| PrnaSweep.ExteriorLoopReads | prna-omp/prna.cpp:283-292 | for an exterior pair the w3[i+1], w3[i+2], w5[j-1] and w5[j-2] reads stay inside the n+1 entries (w5 shifted so that w5[-1] exists), and each entry read was completed by init_w5_and_w3 or on an earlier diagonal |
| PrnaSweep.InternalLoopPairs | prna-omp/prna.cpp:319-339 | the loop nest of calc_internal accumulates the inner pair (d1, d2) exactly when the inner pair is admitted by the guards and bounds of that nest |
| PrnaSweep.InternalPairBounds | prna-omp/prna.cpp:328-339 | every accumulated inner pair has i < ip <= n-1, 0 <= jp < j, 1 <= d1+d2 <= LOOP_MAX and can pair, and ip < jp for an interior (i, j) |
| PrnaSweep.BoundaryReads | prna-omp/prna.cpp:676-679 | both wq lookups use strictly increasing pairs inside [0, n) whose triangle index lies in the allocation; w5[i-1] is at least w5[-1] and w3[n-i] lies in the n+1 entries |
| PrnaSweep.InitW5AndW3 | prna-omp/prna.cpp:658-664 | w5[-1], w5[0], w3[n-1] and w3[n] are zero, with w5 stored shifted by one, and no other entry changes |
| PrnaSweep.BoundarySums | prna-omp/prna.cpp:674-680 | the loop's two accumulators are the log-sums W5Scan and W3Scan over its d-LOOP_MIN+1 iterations |
| PrnaSweep.CalcW5AndW3 | prna-omp/prna.cpp:666-685 | w5[d+1] becomes w5[d] combined with the prefix sum and w3[n-d-2] becomes w3[n-d-1] combined with the suffix sum; no other entry changes |
| PrnaSweep.CalcWlAt | prna-omp/prna.cpp:538-546 | one iteration writes WL(i, j) and W(i, j) of the recurrence into slot d%2 at position i and changes no other element |
| PrnaSweep.CalcWlStep | prna-omp/prna.cpp:510-546 | one iteration of calc_wl's loop keeps the loop invariant: positions before i that are not skipped hold WL and W of diagonal d, every other element of both slots is unchanged |
| PrnaSweep.CalcWl | prna-omp/prna.cpp:495-548 | if slot (d-1)%2 holds diagonal d-1, then afterwards slot d%2 holds diagonal d at every position not skipped; the other slot and the skipped positions are unchanged |
| PrnaSweep.SweepWl | prna-omp/prna.cpp:732-745 | running calc_wl for d = 0..n-2 in order always meets its requirement on the previous slot; at the end the two slots hold diagonals n-2 and n-3 |
| PrnaConstraints.BcpCellMeaning | prna-omp/prna.cpp:1041-1051 | a cell is 0 or 1; it is 1 exactly when j-i >= LOOP_MIN+1, both characters are upper case, (i, j) is canonical, and either the outer pair (i-1, j+1) is in range and canonical or j-i >= LOOP_MIN+3 and the inner pair (i+1, j-1) is canonical |
| PrnaConstraints.UpperTriangleCells | prna-omp/prna.cpp:206-209 | all pairs 0 <= i < j < n map into the allocation, and distinct pairs map to distinct cells |
| PrnaConstraints.GenerateBcp | prna-omp/prna.cpp:1031-1054 | the result has n(n-1)/2 cells, and every cell holds the value above for the one pair stored there, so every triangle cell is written |
| PrnaConstraints.GeneratedPairs | prna-omp/prna.cpp:1041-1051 | on a generated table can_pair(i, j) implies a span of at least LOOP_MIN+1, upper-case ends and a canonical pair |
| PrnaProbKnot.FreeEnergyOfPair | prna-omp/prna.cpp:850-860 | a pair that cannot pair has energy INF |
| PrnaProbKnot.FreeEnergySymmetric | prna-omp/prna.cpp:850-860 | the pair energy is symmetric in i and j, and INF for i == j |
| PrnaProbKnot.Unpaired | prna-omp/prna.cpp:938-943 | unpair sets i and its partner to themselves and changes no other entry |
| PrnaProbKnot.UnpairedKeepsStructure | prna-omp/prna.cpp:938-943 | on an involution, unpair gives an involution, only removes pairs, leaves i and its partner unpaired, keeps minimum spans, and lowers the pair count when i was paired |
| PrnaProbKnot.Unpair | prna-omp/prna.cpp:938-943 | the array afterwards is Unpaired of the array before |
| PrnaProbKnot.IsPairedSymmetric | prna-omp/prna.cpp:945-948 | in an involution, i is paired exactly when its partner is |
| PrnaProbKnot.GreedyChoiceUnique | prna-omp/prna.cpp:1008-1012 | the greedy choice is unique: the first j of strictly lowest energy below INF, or i itself |
| PrnaProbKnot.GreedyPartnerCanPair | prna-omp/prna.cpp:1008-1012 | a greedy partner other than i can pair with i |
| PrnaProbKnot.GreedyPartner | prna-omp/prna.cpp:1009-1012 | the inner loop leaves pair[i] at the greedy choice for i |
| PrnaProbKnot.GreedyPairs | prna-omp/prna.cpp:1007-1012 | every entry of the new array is the greedy choice of its position |
| PrnaProbKnot.MutualPairsInvolution | prna-omp/prna.cpp:1015-1017 | the filtered map is an involution that keeps exactly the mutual choices and only unpairs |
| PrnaProbKnot.MutualFilter | prna-omp/prna.cpp:1015-1017 | the in-place filter loop computes MutualPairs of the array, even though it reads entries it has already reset |
| PrnaProbKnot.ForwardWalk | prna-omp/prna.cpp:955-970 | starting from a pair (i, j), the inward walk ends at a pair (i', j') with i <= i' < j', counts at least one pair, and only unpairs |
| PrnaProbKnot.OutwardWalk | prna-omp/prna.cpp:973-986 | the i >= 2 outward walk only unpairs, keeps the structure consistent and stops at or before its start; the corrected version stops at the array start |
| PrnaProbKnot.OutwardWalkFromOne | prna-omp/prna.cpp:987-997 | the i == 1 outward walk only unpairs, keeps the structure consistent and stops at position 0 or 1; the corrected version stops at the array start |
| PrnaProbKnot.RemoveHelicesShorterThan | prna-omp/prna.cpp:950-1001 | on an involution whose pairs span at least four positions, the result is again such an involution, and every pair left was a pair of the input |
| PrnaProbKnot.ProbKnotPairs | prna-omp/prna.cpp:1003-1019 | the result is an involution in which every pair is a mutual greedy choice; without pruning, every mutual greedy choice is kept |
| PrnaProbKnot.OutwardWalkFromOneReadsBeforeStart | prna-omp/prna.cpp:987-997 | a consistent seven-base structure makes the i == 1 loop as written read pair[-1] |
| PrnaProbKnot.OutwardWalkReadsBeforeStart | prna-omp/prna.cpp:973-986 | a consistent nine-base structure makes the i >= 2 loop as written read pair[-1] |
| BnCombinatorics.BinomFactorials | bn-sycl/main.cpp:642-656 | the coefficient that C computes is n! / (a! (n-a)!), and that division is exact |
| BnCombinatorics.FallingFactorialStep | bn-sycl/main.cpp:645-648 | the first loop of C builds n(n-1)...(n-a+1) one factor at a time from the top |
| BnCombinatorics.FallingFactorialBinom | bn-sycl/main.cpp:642-656 | the falling factorial equals C(n, a) * a!, which makes each division of the second loop exact |
| BnCombinatorics.C | bn-sycl/main.cpp:642-656 | for n >= 0 and 0 <= a the result is the binomial coefficient C(n, a); for a <= 0 it is 1, so C(n, 0) == 1 |
| BnCombinatorics.SizeBlockOffset | bn-sycl/main.cpp:627-629 | the first loop of findindex yields the number of parent sets with 1 to size-1 members, C(NODE_N-1, 1) + ... + C(NODE_N-1, size-1) |
| BnCombinatorics.SkippedSum | bn-sycl/main.cpp:632-634 | the inner loop adds C(NODE_N-1-j, k) for every j from lo to hi, the sets skipped by choosing a larger member in this place |
| BnCombinatorics.FindIndex | bn-sycl/main.cpp:623-640 | the loops compute the lexicographic rank Rank of the parent set |
| BnCombinatorics.HockeyStick | bn-sycl/main.cpp:630-635 | the sets skipped for all larger choices of one member add up to one binomial coefficient |
| BnCombinatorics.RankRange | bn-sycl/main.cpp:623-640 | a parent set of size s ranks in (sum over 1 <= i < s of C(NODE_N-1, i), sum over 1 <= i <= s of C(NODE_N-1, i)] |
| BnCombinatorics.RankInjective | bn-sycl/main.cpp:623-640 | different parent sets of the same size get different ranks |
| BnCombinatorics.SizePerNode | bn-sycl/main.cpp:486-490 | the loop of initial yields 1 + C(NODE_N-1, 1) + ... + C(NODE_N-1, 4) |
| BnCombinatorics.ParentSetBelowSizePerNode | bn-sycl/main.cpp:321-322 | a parent set of one to four members ranks strictly between 0, the slot of the empty set, and sizepernode |
| BnCombinatorics.LocalScoreIndexInRange | bn-sycl/main.cpp:321-322 | a rank below sizepernode keeps rank + sizepernode*node inside the node's block and inside the NODE_N*sizepernode allocation |
| BnCombinatorics.LocalScoreIndexInjective | bn-sycl/main.cpp:321-322 | different (node, rank) pairs with ranks below sizepernode use different local-score slots |
| BnCounters.CarryEnd | bn-sycl/main.cpp:587-596 | the carry stops at the first digit at or after n that is below 1, and every digit before that one carries |
| BnCounters.Incr | bn-sycl/main.cpp:587-596 | the digits from n up to the carry's end become 0, the digit at that end goes up by one, and no other digit changes |
| BnCounters.CarryStopsIffNotFull | bn-sycl/main.cpp:587-596 | on binary digits the carry stays inside the array exactly when the number is not already the largest one the digits hold |
| BnCounters.IncrementedValue | bn-sycl/main.cpp:587-596 | on binary digits incr adds one to the little-endian number from position n, keeps the digits binary and leaves the digits below n alone |
| BnCounters.IncrS | bn-sycl/main.cpp:598-607 | digit n goes up by one, or on reaching STATE_N it becomes 0 and incr carries into n+1 |
| BnCounters.StateIncrementedValue | bn-sycl/main.cpp:598-607 | incrS adds one to digit n + STATE_N * (the binary number above it), keeps digit n below STATE_N and the digits above it binary |
| BnOrders.GenOrders | bn-sycl/main.cpp:531-550 | after swapping rows a, b and then columns a, b, the matrix is Relabel of the old one: cell (i, j) holds old cell (T i, T j) for the transposition T of a and b |
| BnOrders.RelabelMoves | bn-sycl/main.cpp:531-550 | new[T i][T j] == old[i][j] |
| BnOrders.RelabelTwice | bn-sycl/main.cpp:531-550 | exchanging the same two nodes twice gives back the matrix |
| BnOrders.RelabelKeepsZeroDiagonal | bn-sycl/main.cpp:531-550 | the diagonal is all zero afterwards exactly when it was before |
| BnOrders.RelabelKeepsOnes | bn-sycl/main.cpp:531-550 | the number of ones is unchanged |
| BnOrders.InitialOrdersIsOrder | bn-sycl/main.cpp:498-505 | the matrix initial builds (orders[i][j] = 1 exactly for j < i) is a strict total order |
| BnOrders.RelabelKeepsOrder | bn-sycl/main.cpp:531-550 | the matrix is a strict total order of the nodes afterwards exactly when it was before |
| BnTopScores.BubbleStep | bn-sycl/main.cpp:182-190 | one comparison of the bubble pass either moves the new score up past its neighbour or has stopped for good |
| BnTopScores.ReplaceKeepsBest | bn-sycl/main.cpp:170-190 | after a better score replaces the last entry of a sorted table, the new score is kept and every kept score is at least the dropped one |
| BnTopScores.TopScores.constructor | bn-sycl/main.cpp:17 | the table starts as {-999999999, 0, 0} with zero graphs and c == 0 |
| BnTopScores.TopScores.Swap | bn-sycl/main.cpp:469-481 | the graphs at a and b trade places |
| BnTopScores.TopScores.Exchange | bn-sycl/main.cpp:462-465 | swap plus the caller's exchange of the two scores: the (score, graph) entries at a and b trade places |
| BnTopScores.TopScores.MaxFrom | bn-sycl/main.cpp:452-459 | the inner loop of sortGraph finds the largest score from j on, at its first position |
| BnTopScores.TopScores.SortGraph | bn-sycl/main.cpp:447-467 | afterwards the scores are non-increasing, and both the scores and the (score, graph) entries are a permutation of those before |
| BnTopScores.TopScores.Bubble | bn-sycl/main.cpp:182-190 | if the table is sorted except for its new last score, the bubble pass sorts it and permutes the entries |
| BnTopScores.TopScores.Holds | bn-sycl/main.cpp:148-152 | the duplicate test reports exactly whether the score is among the first `count` scores |
| BnTopScores.TopScores.Insert | bn-sycl/main.cpp:146-162 | a score already present changes nothing; otherwise it and its graph take entry c and c goes up by one, so the filled scores stay pairwise distinct |
| BnTopScores.TopScores.Replace | bn-sycl/main.cpp:166-192 | a score that is present or not above the last entry changes nothing; otherwise it replaces the last entry and the table is sorted again |
| BnTopScores.TopScores.Update | bn-sycl/main.cpp:146-193 | the three branches of main: filling with distinct scores, one sort when full (ignoring that step's score), then replacement of the last entry by a strictly greater new score, keeping the table sorted |

## Left out

- Floating point: all energies, `maxScore` and the log-sum (`LOG1P`/`EXP`/`LOG`) are reals or an uninterpreted `sum`. Rounding and the float constants' exact values are not modelled.
- The energy functions (hairpin, internal, dangles, terminal stacks, coaxial stacking, `terminal_U_penalty`) and the parameter tables are not modelled. A kernel's energy terms enter only as the parameter `cell`.
- Numeric contents of the V, WQ, Z, XL, X, Y and YL recurrences: only their indices, guards and slots are modelled. `calc_wl`'s writes of `wq` and `z` and the kernels `calc_coaxial`, `calc_xl` and `calc_z` are not modelled.
- `calc_hairpin_stack_exterior_multibranch`: its stack, exterior-loop and multibranch reads are proved in range, but its hairpin read, its `can_pair` guard on V and its V update are not modelled.
- OpenMP target regions and SYCL queues: the kernels are modelled as sequential loops.
- Memory allocation, `prna_delete`, `probability_of_pair`, the getters and all file and console output (`write_ct_structure`, `prna_show`) are not modelled.
- Characters: `isupper` is taken as the C-locale test on single-byte ASCII bases, 'A' to 'Z'; other locales and multi-byte characters are not modelled.
- Helpers from headers that are not shown become parameters: `is_canonical_pair` (`canonical`), `sequence_from_string` (`bases`), `sequences_match` (`matches`).
- Integer width: indices and counters are unbounded. The 32-bit overflow of `C`'s product and of `n*n` is not modelled.
- PrnaProbKnot.RemoveHelicesShorterThan: requires every pair to span at least four positions. With shorter pairs the forward walk can read past the array, and the model does not cover that case. ProbKnotPairs requires the same of the pairing table, which holds for a `generate_bcp` table when LOOP_MIN >= 3.
- PrnaSweep.StackReadsEarlierDiagonal: is stated for LOOP_MIN >= 2 only. With a smaller LOOP_MIN the stack read can reach a diagonal the sweep has not completed.
- BnCombinatorics.C: is stated for n >= 0. The source is not called with a negative n.
- `findBestGraph`, `genScoreKernel`/`computeKernel`, `ConCore`, `Pre_logGamma`, `getState`, `logGamma`: these are device code, random numbers or floating point. Only the local-score index arithmetic that `findBestGraph` relies on is modelled.
- The random exchanges in `initial` and the random number of `genOrders` calls per step are not modelled. Each exchange is the relabelling of `BnOrders.GenOrders`.
- `bestGraph` holds whole graphs as values. `swap` exchanges them at once instead of cell by cell.

## Findings

| source | as written | input that shows it | evidently intended | confidence | as-written member | corrected member |
|---|---|---|---|---|---|---|
| prna-omp/prna.cpp:973-997 | after unpairing a short helix, the outward walks test `pair[i-1]`/`pair[i-2]` again after `i` has reached 0 (or 1, for `pair[i-2]`), so they read `pair[-1]` | n = 9: pair = [8,7,6,3,4,5,2,1,0], min_helix_length 4, gives the i >= 2 loop at i = 0. n = 7: pair = [6,5,2,3,4,1,0], min_helix_length 3, gives the i == 1 loop at i = 0 | the walk stops at the start of the array | not executed | PrnaProbKnot.OutwardWalkAsWritten, PrnaProbKnot.OutwardWalkReadsBeforeStart, PrnaProbKnot.OutwardWalkFromOneReadsBeforeStart | PrnaProbKnot.OutwardWalk, PrnaProbKnot.OutwardWalkFromOne, PrnaProbKnot.RemoveHelicesShorterThan |
