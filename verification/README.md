# Aircraft landing scheduling: a verified model of the solver core

The solver schedules landings on several runways. A problem instance gives,
per flight:

- a release time;
- a runway occupancy time;
- a delay penalty;
- and, per ordered pair of flights, a separation time.

A schedule assigns each flight to one runway in some order. On its runway,
the first flight lands at its release time. Every later flight lands at the
later of two times:

- its own release time;
- the previous flight's start plus that flight's occupancy plus the
  separation time of the pair.

A flight costs its delay penalty times its delay. A runway's penalty is the
sum of its flights' costs, and the objective is the sum of the runway
penalties.

The solver keeps caches beside every solution:

- each runway holds its prefix penalties;
- each flight holds its start time, its runway and its position.

The model makes these caches explicit. The class `ASP` holds the flight
arena and three arrays (start time, runway, position). A `Solution` value
holds the runways and the objective. `Solutions.ScheduleInvariant` ties the
two together, and every operation that changes a solution is proved to keep
it. The modules follow the source:

- `instance.dfy`: the instance accessors and the flight arena.
- `schedule.dfy`: the chained start time and the penalty functions.
- `runway.dfy`: the `Runway` operations and their shared rescheduling loop.
- `solution.dfy`: the schedule invariant and `test_feasibility`.
- `evaluation.dfy`: the incremental, prefix-penalty based evaluation shared by the neighbourhoods.
- `moves.dfy`: the move definitions, `moves.hpp` and the older full-recomputation intra swap of `moves.cpp`.
- `intra_swap.dfy`, `inter_swap.dfy`, `intra_move.dfy`, `inter_move.dfy`: the four best-improvement neighbourhoods.
- `perturbation.dfy`: the random inter-runway block swap.
- `insertions.dfy`, `construction.dfy`: the two greedy constructions.
- `greedy_rules.dfy`: the placement rules of both constructions, stated on
  plain runway sequences.
- `local_search.dfy`: VND and RVND.
- `metaheuristics.dfy`: GILS (with VND and with RVND) and GRASP.

## Main results

- **The best-improvement searches.** Each of the four searches applies a
  move exactly when its neighbourhood holds an improving move. The move it
  applies is the first one in scan order with the largest saving. Applying it
  lowers the objective by exactly that saving and re-establishes every cache.
  The intra swap only considers pairs whose later flight does not land at its
  release time; `IntraSwapNeighborhood.ReleaseFilterSkipsImprovement` shows
  that this pruning can pass over an improving swap. "No improving move"
  therefore means none among the pairs the search considers.
- **The local searches.** VND and RVND end in a local optimum for all four
  neighbourhoods, and never raise the objective. The ghost trace follows the
  source's neighbourhood order (VND) or the random draw order (RVND).
- **GILS.** Every iterated local search returns the best of its construction
  and its rounds, ties keeping the earlier one. The search stops after
  `max_ils_iterations` rounds in a row that did not improve. The local best is
  recorded before the first descent, as the source does. Every round ends in
  a local optimum, so each local best is the lowest-release-time construction
  or a local optimum. GILS returns the best local best, or the `UINT32_MAX`
  sentinel when none goes below it.
- **GRASP.** Each result is a feasible local optimum, and the best of them is
  kept.
- **The constructions.** Both constructions produce a solution that meets the
  schedule invariant. `lowest_release_time_insertion` takes the candidates in
  release order. It appends each one to the first runway on which it can
  start earliest, at that start. The finished schedule is the one this rule
  builds from an order of the flights by release time
  (`GreedyRules.BuiltByLowestRelease`). Because candidates come in release
  order, every runway lands its flights in release order.
  `randomized_greedy` takes, in each round, the insertion whose penalty has
  the rank the round's draw names. It appends that candidate to that runway.
  The finished schedule is the one these rounds build
  (`GreedyRules.BuiltByRandomized`).

## Model

| member | source | states |
|---|---|---|
| Instances.FlatIndexInBounds | include/instance.hpp:26-28 | entry (a, b) of the flat row-major separation matrix lies inside the n*n vector |
| Instances.SeparationNeedNotBeSymmetric | include/instance.hpp:26-28 | the separation accessor is direction-sensitive: some instance has sep(0,1) != sep(1,0) |
| Instances.BuildFlights | src/ASP.cpp:3-8 | flight i of the arena has id i and the instance's release time, occupancy and delay penalty of i, for every id |
| Asp.ASP.constructor | src/ASP.cpp:3-8 | the solver holds the given instance and its arena, with one cache entry per flight |
| Asp.ASP.RunwayFacts | src/neighborhood.cpp:25-33 | a runway of a valid solution is non-empty, names valid flights, and its prefix penalties, start times and penalty match the chained ones |
| Asp.RunwaysAfterUpdate | src/neighborhood.cpp:310-370 | rescheduling the one or two runways a move rewrote keeps every runway consistent with the new start times |
| Asp.RenumberDown | src/neighborhood.cpp:531-534 | walking down the shifted target runway sets each flight's position cache to its index; no other entry changes |
| Asp.RenumberUp | src/neighborhood.cpp:540-543 | walking up the shifted origin runway sets each flight's position cache to its index; no other entry changes |
| Sequences.Remove | src/neighborhood.cpp:540-544 | the flight at i is taken out and the later flights move one place forward |
| Sequences.Insert | src/neighborhood.cpp:526-537 | the flight is put at j and the later flights move one place back |
| Sequences.InsertRemoveInverse | src/neighborhood.cpp:526-544 | taking a flight out and inserting it at the same place is the identity |
| Sequences.Relocate | src/neighborhood.cpp:852-861 | the std::rotate of either direction: the flight lands at j, the flights between shift by one, the rest stay |
| Sequences.RelocateInverse | src/neighborhood.cpp:852-861 | moving a flight and moving it back restores the sequence |
| Sequences.SwapInvolution | include/moves.hpp:16-18 | swapping the same two positions twice restores the sequence |
| Sequences.PartitionIff | src/solution.cpp:9-44 | the runways hold every flight exactly once exactly when no flight repeats, every id is valid and as many flights are placed as there are |
| Schedule.NextStart | src/runway.cpp:26-29 | a start is at least the release time and at least prev start + occupancy + separation, and equals one of the two |
| Schedule.StartTime | src/runway.cpp:21-29 | a start is never before the release time; the first flight of a runway lands at its release time |
| Schedule.StartsRespectSeparation | src/runway.cpp:26-29 | consecutive flights are separated by at least occupancy plus separation time |
| Schedule.PrefixAgreement | src/neighborhood.cpp:43-61 | starts and prefix penalties depend only on the flights before them, which is what lets a changed sequence reuse the stored prefix entry |
| Schedule.SegmentAgreement | src/neighborhood.cpp:75-79 | once a recomputed start equals the stored one, the rest of an unchanged segment costs the stored prefix difference |
| Schedule.PrefixMonotone | src/neighborhood.cpp:85-91 | prefix penalties never decrease, so a partial sum that reaches the original penalty proves the swap is no improvement |
| Schedule.ZeroPenaltyIff | src/neighborhood.cpp:18-20 | a runway costs nothing exactly when every flight costs nothing |
| Runways.EmptyRunway | src/runway.cpp:10-14 | a new runway has its id, no flights, prefix penalties [0] and penalty 0 |
| Runways.EmptyRunwayConsistent | src/runway.cpp:10-14 | a new runway's caches agree with its empty sequence |
| Runways.CalculateTotalPenalty | src/runway.cpp:16-36 | the recomputed penalty is the chained penalty of the sequence, 0 when empty |
| Runways.UpdateTotalPenalty | src/runway.cpp:38 | only the penalty changes, and it becomes the chained penalty |
| Runways.TestSequenceFeasibility | src/runway.cpp:40-54 | true exactly when every id names a flight and none repeats |
| Runways.TestPenalty | src/runway.cpp:56 | true exactly when the stored penalty is the chained penalty |
| Runways.TestFeasibility | src/runway.cpp:58-60 | true exactly when the ids are valid, distinct and the stored penalty is right |
| Runways.RefreshFrom | src/neighborhood.cpp:152-171 | after the loop every start time and prefix penalty of the runway is the chained one, the last prefix entry is the runway penalty, and no other flight's start changes |
| Runways.Reschedule | src/neighborhood.cpp:145-175 | the rescheduled runway is consistent with the new start times; other flights keep their starts |
| Runways.RescheduleTwo | src/neighborhood.cpp:321-369 | both rescheduled runways are consistent, each penalty is its last prefix entry, other flights keep their starts |
| Solutions.SequencesOf | include/solution.hpp:11-13 | the schedule's landing sequences, runway by runway |
| Solutions.NewSolution | include/solution.hpp:17 | one empty runway per instance runway, ids in order, objective 0 |
| Solutions.ObjectiveUpdate | src/neighborhood.cpp:173-174 | changing one runway changes the objective by exactly that runway's change |
| Solutions.ObjectiveAtLeast | src/neighborhood.cpp:173-174 | the objective is at least any runway's penalty, so lowering both by a runway saving stays non-negative |
| Solutions.ObjectiveZero | src/neighborhood.cpp:18-20 | a zero objective means every runway costs nothing |
| Solutions.PlacedNoDup | src/neighborhood.cpp:148-150 | caches that place every flight exclude a flight appearing twice on a runway |
| Solutions.PlacedAfterRewrite | src/neighborhood.cpp:311-318 | rewriting two runways and updating the caches of exactly their flights places every flight again |
| Solutions.ScanRunway | src/solution.cpp:18-42 | the per-runway scan sums the chained costs and fails exactly on a repeated flight (the first flight checked only when asked) |
| Solutions.TestFeasibilityAsWritten | src/solution.cpp:9-44 | true exactly when the as-written conditions hold: runway count, no repeat at a non-first position, objective and flight count |
| Solutions.AsWrittenAcceptsDuplicateFirstFlight | src/solution.cpp:19-20 | the as-written test accepts [[0],[0]] with two flights, which is not feasible |
| Solutions.FeasibleIff | src/solution.cpp:9-44 | the corrected test's conditions hold exactly when the schedule is feasible (every flight placed exactly once, objective right) |
| Solutions.TestFeasibility | src/solution.cpp:9-44 | the corrected test returns true exactly when the solution is feasible |
| Solutions.TestAcceptance | src/solution.cpp:9-44 | the corrected scan returns true exactly when its acceptance conditions hold |
| Evaluation.RestFromPrefixes | src/neighborhood.cpp:75-79 | an unchanged segment starting at the same time contributes the stored prefix difference |
| Evaluation.EvaluateHead | src/neighborhood.cpp:43-61 | the head of a changed sequence costs the stored prefix entry plus the changed flight, at the chained start |
| Evaluation.EvaluateFrom | src/neighborhood.cpp:408-441 | the evaluation from the changed position on gives the chained penalty of the new sequence |
| Evaluation.AdvanceSegment | src/neighborhood.cpp:64-86 | the segment loop stops on a matching start, a reached bound or the segment end, and its partial sum is the prefix penalty so far |
| Evaluation.AdvanceTail | src/neighborhood.cpp:108-129 | the tail loop stops on a reached bound, a matching start or the end, and its partial sum is the prefix penalty so far |
| Evaluation.EvaluateTail | src/neighborhood.cpp:107-129 | the tail evaluation never exceeds the true penalty and equals it whenever it stays below the bound |
| Evaluation.ChainFrom | src/neighborhood.cpp:667-680 | recomputing every later flight after its predecessor gives the chained penalty |
| Moves.IntraSwapKeepsFlights | src/neighborhood.cpp:150 | an intra-runway swap keeps every runway's length and the flights of the schedule |
| Moves.InterSwapKeepsFlights | src/neighborhood.cpp:317-318 | an inter-runway swap keeps every runway's length and the flights of the schedule |
| Moves.InterMoveKeepsFlights | src/neighborhood.cpp:526-544 | a relocation between runways shortens the origin by one, lengthens the target by one, keeps the other runways and all flights |
| Moves.IntraMoveKeepsFlights | src/neighborhood.cpp:852-861 | a relocation within a runway keeps its length and the flights |
| Moves.PlacedAfterIntraSwap | src/neighborhood.cpp:148-150 | exchanging the two flights' position caches places every flight of the swapped schedule |
| Moves.PlacedAfterInterSwap | src/neighborhood.cpp:311-318 | exchanging the two flights' runway and position caches places every flight of the exchanged schedule |
| Moves.IntraSwapInvolution | src/neighborhood.cpp:139 | swapping the same pair twice restores the schedule, the undo the scan relies on |
| Moves.InterSwapInvolution | src/neighborhood.cpp:302-303 | swapping the same two flights twice restores the schedule |
| Moves.IntraSwapObjective | src/neighborhood.cpp:173-174 | an intra swap lowers the objective by exactly its saving |
| Moves.InterSwapObjective | src/neighborhood.cpp:368-370 | an inter swap lowers the objective by exactly the two runways' saving |
| Moves.InterMoveObjective | src/neighborhood.cpp:591-593 | an inter move lowers the objective by exactly the two runways' saving |
| Moves.IntraMoveObjective | src/neighborhood.cpp:885-886 | an intra move lowers the objective by exactly its saving |
| Moves.ApplyInterSwap | include/moves.hpp:11-14 | the two flights trade places; nothing else of the solution changes |
| Moves.ApplyIntraSwap | include/moves.hpp:16-18 | the two flights of the runway trade places; nothing else changes |
| Moves.ApplyInterSwapInvolution | include/moves.hpp:11-14 | applying the same inter swap twice gives back the solution |
| Moves.ApplyIntraSwapInvolution | include/moves.hpp:16-18 | applying the same intra swap twice gives back the solution; a self-swap changes nothing |
| Moves.RecomputePenalty | src/moves.cpp:31-48 | the from-scratch recomputation of a swapped copy is its chained penalty |
| Moves.SwapScanStep | src/moves.cpp:51-55 | a strictly larger saving replaces the best pair, any other leaves it |
| Moves.SwapScanDone | src/moves.cpp:25-59 | a finished scan has found the first pair with the largest saving, or there is none |
| Moves.NothingBelowZero | src/moves.cpp:19 | a runway with penalty 0 has no improving swap |
| Moves.ScanSwapRow | src/moves.cpp:27-58 | one row of pairs (i, j) advances the scan state |
| Moves.ScanSwaps | src/moves.cpp:25-59 | the scan returns the best pair and its saving, or (0, 0) with saving 0 when no swap improves |
| Moves.BestImprovementIntraSwapReference | src/moves.cpp:11-65 | when some swap improves, the first best pair is applied and penalty and objective drop by its saving; otherwise nothing changes |
| IntraSwapNeighborhood.EvaluateBetween | src/neighborhood.cpp:63-86 | the middle segment's partial penalty never exceeds the true one and is exact below the bound |
| IntraSwapNeighborhood.EvaluateIntraSwap | src/neighborhood.cpp:41-129 | the incremental cost of a swap never exceeds the swapped runway's penalty and equals it below the original penalty |
| IntraSwapNeighborhood.ScanTry | src/neighborhood.cpp:132-137 | costing a pair and keeping it only on a strictly larger saving advances the search state |
| IntraSwapNeighborhood.ScanSkip | src/neighborhood.cpp:36-39 | a pair whose later flight lands at its release time is skipped without changing the state |
| IntraSwapNeighborhood.ScanDone | src/neighborhood.cpp:25-142 | a finished search with no saving proves that no candidate swap improves |
| IntraSwapNeighborhood.NothingBelowZeroObjective | src/neighborhood.cpp:18-20 | with objective 0 no swap improves, so returning false at once is right |
| IntraSwapNeighborhood.TrySwap | src/neighborhood.cpp:34-139 | one pair of the search advances the state by one place |
| IntraSwapNeighborhood.ScanSwapRow | src/neighborhood.cpp:34-140 | one row of pairs advances the state to the next row |
| IntraSwapNeighborhood.ScanRunwaySwaps | src/neighborhood.cpp:32-141 | all pairs of one runway advance the state to the next runway |
| IntraSwapNeighborhood.ScanIntraSwaps | src/neighborhood.cpp:25-142 | the search returns the first best swap when its saving is positive, and proves no candidate improves otherwise |
| IntraSwapNeighborhood.BeforeApply | src/neighborhood.cpp:145-150 | the swapped sequence is duplicate-free, the caches before the first swapped position still hold, and its penalty is the old one less the saving |
| IntraSwapNeighborhood.SwapEffect | src/neighborhood.cpp:145-174 | the swap keeps the flights, the caches with the two positions exchanged place every flight, and the objective drops by the saving |
| IntraSwapNeighborhood.AfterApply | src/neighborhood.cpp:145-175 | after rescheduling the swapped runway the schedule invariant holds again for the swapped schedule |
| IntraSwapNeighborhood.ApplySelectedIntraSwap | src/neighborhood.cpp:145-177 | the applied swap keeps the invariant, yields the swapped schedule and lowers the objective by the saving |
| IntraSwapNeighborhood.ReleaseFilterSkipsImprovement | src/neighborhood.cpp:36-39 | the release-time filter skips a pair whose swap saves 99 |
| IntraSwapNeighborhood.BestIsImproving | src/neighborhood.cpp:132-137 | a selected swap is an improving candidate, so the schedule was not a local optimum |
| IntraSwapNeighborhood.BestImprovementIntraSwap | src/neighborhood.cpp:11-180 | returns true exactly when some candidate swap improves; then the first best swap is applied and the objective drops by its saving; otherwise nothing changes |
| InterSwapSearch.InterScanKeep | src/neighborhood.cpp:292-299 | a candidate saving no more than the best leaves the state |
| InterSwapSearch.InterScanRecord | src/neighborhood.cpp:292-299 | a candidate saving strictly more becomes the best |
| InterSwapSearch.InterScanDone | src/neighborhood.cpp:194-307 | a finished search with no saving proves that no exchange improves |
| InterSwapSearch.BestInterIsImproving | src/neighborhood.cpp:292-299 | a selected exchange is an improving candidate |
| InterSwapNeighborhood.EvaluateInterSwap | src/neighborhood.cpp:207-290 | the two incremental penalties never exceed the true ones and are exact when their sum stays below the original sum |
| InterSwapNeighborhood.TryInterSwap | src/neighborhood.cpp:201-303 | one place of the search advances the state |
| InterSwapNeighborhood.ScanInterRow | src/neighborhood.cpp:199-304 | one flight against every flight of the other runway advances the state |
| InterSwapNeighborhood.ScanInterPair | src/neighborhood.cpp:198-305 | one pair of runways advances the state |
| InterSwapNeighborhood.ScanInterFrom | src/neighborhood.cpp:195-306 | one runway against every later runway advances the state |
| InterSwapNeighborhood.ScanInterSwaps | src/neighborhood.cpp:194-307 | the search returns the first best exchange when its saving is positive, and proves no exchange improves otherwise |
| InterSwapNeighborhood.InterSwapSequences | src/neighborhood.cpp:317-318 | the exchanged sequences name valid flights, none twice and none on both |
| InterSwapNeighborhood.BeforeInterApply | src/neighborhood.cpp:310-326 | the old caches still hold up to each exchanged position and the saving is at most the objective |
| InterSwapNeighborhood.InterSwapEffect | src/neighborhood.cpp:310-370 | the exchange keeps the flights and lowers the objective by the saving |
| InterSwapNeighborhood.AfterInterApply | src/neighborhood.cpp:310-370 | after rescheduling both runways the invariant holds for the exchanged schedule |
| InterSwapNeighborhood.ApplySelectedInterSwap | src/neighborhood.cpp:310-372 | the applied exchange keeps the invariant, yields the exchanged schedule and lowers the objective by the saving |
| InterSwapNeighborhood.BestImprovementInterSwap | src/neighborhood.cpp:182-375 | returns true exactly when some exchange improves; then the first best one is applied and the objective drops by its saving; otherwise nothing changes |
| InterMoveSearch.MoveScanKeep | src/neighborhood.cpp:505-512 | a candidate saving no more than the best leaves the state |
| InterMoveSearch.MoveScanRecord | src/neighborhood.cpp:505-512 | a candidate saving strictly more becomes the best |
| InterMoveSearch.MoveScanSkipSame | src/neighborhood.cpp:397 | a runway is never a target of its own flights |
| InterMoveSearch.MoveScanSkipShort | src/neighborhood.cpp:395 | a runway with one flight gives none away |
| InterMoveSearch.MoveScanDone | src/neighborhood.cpp:394-516 | a finished search with no saving proves that no relocation improves |
| InterMoveSearch.BestMoveIsImproving | src/neighborhood.cpp:505-512 | a selected relocation is an improving candidate |
| InterMoveNeighborhood.EvaluateRemoval | src/neighborhood.cpp:408-441 | the origin's incremental penalty is the chained penalty with the flight removed |
| InterMoveNeighborhood.EvaluateInsertion | src/neighborhood.cpp:444-503 | the target's incremental penalty is the chained penalty with the flight inserted |
| InterMoveNeighborhood.TryInterMove | src/neighborhood.cpp:404-512 | one place of the search advances the state |
| InterMoveNeighborhood.ScanMoveRow | src/neighborhood.cpp:401-513 | one flight at every target position, one past the end included, advances the state |
| InterMoveNeighborhood.ScanMovePair | src/neighborhood.cpp:400-514 | one origin and target pair advances the state |
| InterMoveNeighborhood.ScanMoveTarget | src/neighborhood.cpp:396-515 | one target runway, skipped when it is the origin, advances the state |
| InterMoveNeighborhood.ScanMoveFrom | src/neighborhood.cpp:396-515 | one origin against every other runway advances the state |
| InterMoveNeighborhood.ScanMoveOrigin | src/neighborhood.cpp:395-515 | one origin, skipped when it holds one flight, advances the state |
| InterMoveNeighborhood.ScanInterMoves | src/neighborhood.cpp:394-516 | the search returns the first best relocation when its saving is positive, and proves no relocation improves otherwise |
| InterMoveNeighborhood.InterMoveSequences | src/neighborhood.cpp:526-544 | the two new sequences name valid flights, none twice and none on both |
| InterMoveNeighborhood.BeforeInterMoveApply | src/neighborhood.cpp:519-523 | with one prefix entry dropped and one added, the old caches still hold up to the changed positions, and the saving is at most the objective |
| InterMoveNeighborhood.CachesAfterInterMove | src/neighborhood.cpp:520-543 | the moved flight's new runway and position and the renumbering place every flight of the new schedule |
| InterMoveNeighborhood.InterMoveEffect | src/neighborhood.cpp:519-593 | the relocation keeps the flights and lowers the objective by the saving |
| InterMoveNeighborhood.AfterInterMoveApply | src/neighborhood.cpp:519-593 | after rescheduling both runways the invariant holds for the relocated schedule |
| InterMoveNeighborhood.MoveCaches | src/neighborhood.cpp:520-543 | the moved flight takes the target runway in the cache, and the caches place every flight of the relocated schedule |
| InterMoveNeighborhood.ApplySelectedInterMove | src/neighborhood.cpp:519-595 | the applied relocation keeps the invariant, yields the relocated schedule and lowers the objective by the saving |
| InterMoveNeighborhood.BestImprovementInterMove | src/neighborhood.cpp:377-599 | returns true exactly when some relocation improves; then the first best one is applied and the objective drops by its saving; otherwise nothing changes |
| IntraMoveSearch.RelocateScanTry | src/neighborhood.cpp:722-729 | a strictly lower change of penalty replaces the best, any other leaves it |
| IntraMoveSearch.RelocateScanDone | src/neighborhood.cpp:608-848 | a finished search with no negative change proves that no relocation improves |
| IntraMoveSearch.BestRelocateIsImproving | src/neighborhood.cpp:722-729 | a selected relocation is an improving candidate |
| IntraMoveSearch.StalePositionsAfterRelocate | src/neighborhood.cpp:852-861 | leaving the position cache as written after a rotate breaks the cache invariant |
| IntraMoveSearch.StalePositionsExample | src/neighborhood.cpp:852-861 | in runway [0, 1] moving flight 1 to the front leaves flight 1 cached at position 1 |
| IntraMoveNeighborhood.EvaluateRelocation | src/neighborhood.cpp:616-838 | the incremental penalty of a relocation is the chained penalty of the relocated sequence |
| IntraMoveNeighborhood.TryRelocate | src/neighborhood.cpp:722-729 | one relocation of the search advances the state past its rank |
| IntraMoveNeighborhood.ScanEarlierTargets | src/neighborhood.cpp:616-730 | the targets before the flight, from i - 1 down to 0, advance the state |
| IntraMoveNeighborhood.ScanLaterTargets | src/neighborhood.cpp:735-846 | the targets after the flight, upwards, advance the state |
| IntraMoveNeighborhood.ScanRunwayRelocations | src/neighborhood.cpp:612-847 | every flight of one runway at every other position advances the state |
| IntraMoveNeighborhood.ScanIntraMoves | src/neighborhood.cpp:608-848 | the search returns the first relocation with the lowest negative change, and proves none improves otherwise |
| IntraMoveNeighborhood.BeforeIntraMoveApply | src/neighborhood.cpp:849-863 | the relocated sequence is duplicate-free, the caches before the first changed position still hold, and its penalty is the old one plus the change |
| IntraMoveNeighborhood.PositionsAfterRelocate | src/neighborhood.cpp:852-861 | renumbering the stretch between the two ends of the move places every flight again |
| IntraMoveNeighborhood.RenumberRelocated | src/neighborhood.cpp:852-861 | the corrected renumbering leaves a position cache that places every flight |
| IntraMoveNeighborhood.IntraMoveEffect | src/neighborhood.cpp:849-886 | the relocation keeps the flights and lowers the objective by its saving |
| IntraMoveNeighborhood.AfterIntraMoveApply | src/neighborhood.cpp:849-886 | after rescheduling the runway the invariant holds for the relocated schedule |
| IntraMoveNeighborhood.ApplySelectedIntraMove | src/neighborhood.cpp:849-890 | the applied relocation keeps the invariant, yields the relocated schedule and changes the objective by the (negative) delta |
| IntraMoveNeighborhood.BestImprovementIntraMove | src/neighborhood.cpp:601-893 | returns true exactly when some relocation improves; then the first best one is applied and the objective drops by its saving; otherwise nothing changes |
| BlockSwaps.SpliceBlock | src/perturbation.cpp:61-63 | the spliced sequence keeps the length and takes the other block's flights at the block's positions |
| BlockSwaps.OrderedBlocksFit | src/perturbation.cpp:43-53 | after ordering, both blocks of the smaller size lie inside their runways and the runways differ |
| BlockSwaps.BlockSwapShape | src/perturbation.cpp:61-63 | only the two runways change, their lengths are kept, aligned flights trade places, the rest stay |
| BlockSwaps.BlockSwapInvolution | src/perturbation.cpp:61-63 | exchanging the same blocks twice restores the schedule |
| BlockSwaps.BlockSwapKeepsFlights | src/perturbation.cpp:61-63 | the exchange keeps the flights of the schedule |
| BlockSwaps.BlockSwapValidIds | src/perturbation.cpp:61-63 | the exchanged runways name valid flights |
| BlockSwaps.BlockSwapObjective | src/perturbation.cpp:113-114 | the new objective is the old one with the two runways' penalties replaced |
| BlockSwaps.BlockSwapEffect | src/perturbation.cpp:61-114 | the exchange keeps the flights and moves the objective by the two runways' changes |
| BlockSwaps.StaleCachesAfterBlockSwap | src/perturbation.cpp:61-63 | leaving the runway and position caches as written breaks the cache invariant |
| BlockSwaps.StaleCachesExample | src/perturbation.cpp:61-63 | exchanging the single flights of runways [0] and [1] leaves flight 1 cached on runway 1 |
| Perturbation.SwapBlocks | src/perturbation.cpp:61-63 | the loop's result is the splice of the two blocks on each side |
| Perturbation.RelabelBlock | src/perturbation.cpp:61-63 | one block's flights are cached on the new runway at consecutive positions; others unchanged |
| Perturbation.RelabelBlocks | src/perturbation.cpp:61-63 | the corrected cache update places every flight of the exchanged schedule |
| Perturbation.PlacedAfterBlockSwap | src/perturbation.cpp:61-63 | giving each block flight its partner's runway and position places every flight again |
| Perturbation.AfterBlockSwap | src/perturbation.cpp:65-114 | after rescheduling both runways the invariant holds for the exchanged schedule |
| Perturbation.ApplyBlockSwap | src/perturbation.cpp:55-116 | the applied exchange keeps the invariant, yields the exchanged schedule and sets the objective to the sum of the runway penalties |
| Perturbation.RandomInterBlockSwap | src/perturbation.cpp:43-117 | with fewer than two runways nothing changes; otherwise the ordered blocks of the draws are exchanged and the invariant kept |
| Insertions.InsertByRelease | src/construction.cpp:114-116 | inserting keeps the flights with the new one added |
| Insertions.InsertByReleaseSorted | src/construction.cpp:114-116 | inserting into a list sorted by non-increasing release time keeps it sorted |
| Insertions.SortByRelease | src/construction.cpp:114-116 | the candidate order is a permutation of the flights sorted by non-increasing release time |
| Insertions.InsertByPenalty | src/construction.cpp:74-75 | inserting keeps the insertions and shifts each count by penalty by the new one |
| Insertions.InsertByPenaltySorted | src/construction.cpp:74-75 | inserting into a list sorted by penalty keeps it sorted |
| Insertions.SortByPenalty | src/construction.cpp:74-75 | the sorted list is a permutation in non-decreasing penalty order with every count by penalty kept |
| Insertions.SortedRank | src/construction.cpp:74-80 | in a sorted list entry c has the c-th smallest penalty |
| Insertions.SelectInsertion | src/construction.cpp:74-80 | the selected insertion is one of the list, with the choice-th smallest penalty whatever the tie order |
| Construction.AppendConsistent | src/construction.cpp:83-91 | appending at the chained start with its cost keeps the runway's caches consistent; the penalty is that of the longer sequence |
| Construction.EarliestStart | src/construction.cpp:60-65 | the earliest start of a candidate at the tail of a runway is never before its release time |
| Construction.AfterPlace | src/construction.cpp:83-93 | placing a candidate at its chained start with its cost keeps the construction state with the candidate off the list |
| Construction.SeedsAfterPlace | src/construction.cpp:83-93 | appending a remaining candidate keeps the seeds the earliest released flights |
| Construction.EarliestStartIsChained | src/construction.cpp:60-65 | the earliest start computed from the last flight's cached start is its chained start |
| Construction.Place | src/construction.cpp:83-93 | the flight's caches are set, the runway grows by it, the objective by its cost, the candidate leaves the list, and the construction state is kept |
| Construction.CandidateList | src/construction.cpp:108-110 | the initial candidates are the flights in id order |
| Construction.SeedRunways | src/construction.cpp:119-132 | runway r receives the r-th earliest released flight at its release time, at no cost; the state is kept |
| Construction.Completed | src/construction.cpp:138-184 | once no candidate is left and every runway is non-empty, the schedule invariant holds |
| Construction.OrderAfterPlace | src/construction.cpp:168-181 | appending the earliest remaining candidate keeps every runway in release order |
| Construction.SeededOrder | src/construction.cpp:119-132 | after seeding, the seeds are the earliest released flights |
| Construction.BestRunway | src/construction.cpp:141-159 | the first runway with the earliest possible start, and that start |
| Construction.InsertLowestRelease | src/construction.cpp:141-181 | one round appends the last candidate to the first runway with the earliest start, at that start and with its cost, and keeps the release order |
| Construction.InsertAllLowestRelease | src/construction.cpp:138-182 | the main loop empties the candidate list, keeping the state and the release order, and the runways it leaves are the earliest-start rule applied to every candidate from the back |
| Construction.LowestReleaseTimeInsertion | src/construction.cpp:101-187 | the result meets the schedule invariant, the seeds are the earliest released flights, every runway lands in release order, and the runways are those of the earliest-start rule run on a release-ordered candidate list |
| Construction.AsWrittenPrefixEntryRightIff | src/construction.cpp:164-167 | the as-written prefix entry is right exactly when the runway's last flight costs nothing |
| Construction.AsWrittenPrefixEntryExample | src/construction.cpp:164-167 | on runway [0, 1] appending flight 2 pushes 2 where the prefix penalty is 3 |
| Construction.InsertionsListed | src/construction.cpp:54-73 | the scan lists (candidates * runways) insertions, each a real (candidate, runway) insertion, and every pair is listed |
| Construction.CollectInsertions | src/construction.cpp:54-73 | the scan returns the insertions of every candidate from the back forwards on every runway |
| Construction.ChooseInsertion | src/construction.cpp:74-81 | the chosen insertion is one candidate on one runway at its earliest start, with the choice-th smallest penalty |
| Construction.InsertRandomized | src/construction.cpp:80-93 | one round appends the candidate and runway whose insertion has the choice-th smallest penalty, adds that penalty to the objective, removes the candidate and changes nothing else, keeping the state and the seeds first |
| Construction.InsertAllRandomized | src/construction.cpp:49-94 | the main loop empties the candidate list, keeping the state, and its runways are the rank rule applied once per draw |
| Construction.RandomizedGreedy | src/construction.cpp:21-99 | the result meets the schedule invariant, the seeds are the earliest released flights, and the runways are those of the rank rule run with the given draws from a release-ordered list |
| Construction.SortedCandidates | src/construction.cpp:104-116 | the candidates are every flight once, in release order |
| Construction.SeedInReleaseOrder | src/construction.cpp:104-132 | the candidate list is every flight in release order, runway q holds its q-th flight from the back, the front of the list remains, and the construction state and release order hold |
| Construction.SeedsAsSequences | src/construction.cpp:119-132 | the seeded runways, read as id sequences, are the seeds of the candidate list |
| Construction.PlaceInReleaseOrder | src/construction.cpp:138-184 | the remaining candidates are placed by the earliest-start rule and the result is valid |
| Construction.BuiltFromOrder | src/construction.cpp:101-187 | seeding then the earliest-start rule on a release-ordered list is a lowest-release schedule |
| Construction.InsertionMatches | src/construction.cpp:59-72 | the insertion the scan builds for a candidate and runway is the one the rank rule defines |
| Construction.InsertionsMatch | src/construction.cpp:54-73 | the scanned list of insertions is the one the rank rule ranks |
| Construction.NextRound | src/construction.cpp:49-94 | one more round extends the record of applied draws by the current draw |
| Construction.RandomizedFromOrder | src/construction.cpp:21-99 | seeding then the rank rule on a release-ordered list is a randomized schedule |
| Construction.PlaceRandomized | src/construction.cpp:49-96 | the remaining candidates are placed by the rank rule and the result is valid |
| GreedyRules.TailStart | src/construction.cpp:149-153 | a flight's start at the tail of a runway is its release time on an empty runway and never before it |
| GreedyRules.FirstEarliestAmong | src/construction.cpp:141-159 | the runway found has the least start among those scanned, and every earlier one is strictly later |
| GreedyRules.FirstEarliest | src/construction.cpp:141-159 | the runway the rule names is one of the schedule's runways (FirstEarliestAmong and FirstEarliestUnique say which) |
| GreedyRules.FirstEarliestUnique | src/construction.cpp:141-159 | only one runway has the least start with every earlier one strictly later |
| GreedyRules.AppendAtTail | src/construction.cpp:168 | appending a flight keeps every runway's old flights as a prefix and adds it to the multiset |
| GreedyRules.LowestReleaseFrom | src/construction.cpp:138-182 | the earliest-start rule keeps the runway count and valid ids |
| GreedyRules.LowestReleaseKeeps | src/construction.cpp:138-182 | the earliest-start rule only appends: every runway keeps its flights as a prefix and the multiset grows by exactly the candidates |
| GreedyRules.Seeds | src/construction.cpp:119-132 | there is one seed per runway, and runway q holds the q-th flight from the back of the list, alone |
| GreedyRules.InsertionOn | src/construction.cpp:59-72 | an insertion records the candidate, the runway, the start at its tail, and the delay penalty times the lateness at that start |
| GreedyRules.RoundsStep | src/construction.cpp:49-94 | a record of rounds extended by one applied round is the record of one more draw |
| LocalSearch.Explore | src/VND.cpp:17-30 | the selected neighbourhood returns true exactly when the objective drops; a false result changes nothing and proves that neighbourhood has no improving move |
| LocalSearch.VndStep | src/VND.cpp:31-35 | an improvement returns to the first neighbourhood, a failure moves to the next |
| LocalSearch.FailedNext | src/VND.cpp:34 | a failure at the current index extends the run of failed neighbourhoods |
| LocalSearch.AllFailed | src/VND.cpp:15 | when all four neighbourhoods have failed in a row the schedule is a local optimum |
| LocalSearch.VND | src/VND.cpp:8-38 | the result keeps the invariant, never raises the objective, is a local optimum of all four neighbourhoods, and its trace follows the source's order |
| LocalSearch.Erase | src/RVND.cpp:35 | erasing one entry leaves exactly the other neighbourhoods, still without repeats |
| LocalSearch.RvndStep | src/RVND.cpp:12-36 | a draw indexes the available list by rand() modulo its size; an improvement restores all five, a failure erases the drawn one |
| LocalSearch.ExhaustedErase | src/RVND.cpp:35 | erasing a failed neighbourhood keeps every missing one failed |
| LocalSearch.AllExhausted | src/RVND.cpp:11 | when no neighbourhood is left the schedule is a local optimum |
| LocalSearch.RVND | src/RVND.cpp:4-39 | the result keeps the invariant, never raises the objective, is a local optimum, and its draws follow the rand() stream |
| LocalSearch.MoveWorstFlight | src/RVND.cpp:26-28 | the fifth RVND neighbourhood keeps the invariant and reports an improvement exactly when the objective drops |
| Metaheuristics.Sentinel | src/GILS.cpp:10-11 | the best-so-far starts as a solution with no runways and objective UINT32_MAX |
| Metaheuristics.ValidSnapshot | src/GILS.cpp:16 | a copy of a valid solution is a feasible snapshot |
| Metaheuristics.BestOf | src/GILS.cpp:40-42 | the best is the start or a candidate and no larger than any of them |
| Metaheuristics.BestOfFirst | src/GILS.cpp:40-42 | ties keep the earlier: the first candidate strictly below all before it and not above any later one is returned |
| Metaheuristics.BestOfKeepsInit | src/GILS.cpp:33-36 | with no candidate strictly below the start, the start is kept |
| Metaheuristics.BestOfAppend | src/GILS.cpp:40-42 | offering one more candidate replaces the best only when it is strictly smaller |
| Metaheuristics.Gap | src/perturbation.cpp:28-35 | the gap is the distance between the two start times |
| Metaheuristics.NearestPartner | src/perturbation.cpp:27-41 | the partner starts nearest to the chosen flight, and it is the first such position |
| Metaheuristics.DrawnBlockSwap | src/perturbation.cpp:12-53 | with fewer than two runways nothing is drawn or changed; otherwise five draws are used and a fitting block swap is applied |
| Metaheuristics.RoundVnd | src/GILS.cpp:23-31 | after the block swaps and VND the state is valid and a local optimum |
| Metaheuristics.RoundRvnd | src/GILS.cpp:61-72 | after the free-space moves or a block swap and RVND the state is valid and a local optimum |
| Metaheuristics.BestImprovementFreeSpace | src/GILS.cpp:67 | the free-space move keeps the invariant and reports an improvement exactly when the objective drops |
| Metaheuristics.Round | src/GILS.cpp:22-31 | a round ends valid and in a local optimum, whichever descent is used |
| Metaheuristics.Descend | src/GILS.cpp:18 | the descent keeps the invariant, never raises the objective, and ends in a local optimum |
| Metaheuristics.IlsAdvance | src/GILS.cpp:33-37 | a round strictly below the local best replaces it and resets the counter; any other round adds one |
| Metaheuristics.IlsStart | src/GILS.cpp:14-18 | the construction is the local best before the descent, it is a lowest-release schedule, and the descent keeps the invariant |
| Metaheuristics.IlsRound | src/GILS.cpp:22-38 | one round keeps the search state, replacing the local best only on a strict improvement; every round so far is a local optimum |
| Metaheuristics.IlsOriginsAppend | src/GILS.cpp:22-31 | a local optimum appended to the rounds keeps every round a local optimum |
| Metaheuristics.IlsLocalBest | src/GILS.cpp:14-38 | the local best is the lowest-release construction or a local optimum |
| Metaheuristics.IteratedLocalSearch | src/GILS.cpp:14-38 | the local best is the best of the construction and the rounds, all feasible, every round a local optimum, the last max_ils_iterations rounds did not go below it, and the local best is the construction or a local optimum |
| Metaheuristics.Gils | src/GILS.cpp:13-43 | one feasible local best per iteration, each the lowest-release construction or a local optimum, and the result is the best of the sentinel and them |
| Metaheuristics.BestOfSnapshots | src/GILS.cpp:40-44 | the best of the sentinel and feasible snapshots is the sentinel or feasible |
| Metaheuristics.GilsVnd | src/GILS.cpp:9-45 | the result is the sentinel, or feasible and the lowest-release construction or a local optimum, and no larger than any local best |
| Metaheuristics.GilsRvnd | src/GILS.cpp:47-85 | the result is the sentinel, or feasible and the lowest-release construction or a local optimum, and no larger than any local best |
| Metaheuristics.GraspIteration | src/GRASP.cpp:12-14 | a randomized construction followed by VND is a feasible local optimum |
| Metaheuristics.GraspAdvance | src/GRASP.cpp:16-18 | a result strictly below the best replaces it |
| Metaheuristics.GraspVnd | src/GRASP.cpp:7-23 | every result is a feasible local optimum, the best is the best of the sentinel and them, and it is the sentinel or feasible |

## Left out

- Randomness is modelled as given streams and parameters. `std::mt19937` and `rand()` become the functions `gen` and `rand` read from a position. The GRASP draws become explicit choice lists.
- Metaheuristics.DrawnBlockSwap: the redraw loop for the second runway is modelled as one uniform draw among the other runways. Its contract states only that some fitting block swap is applied; the exact draws are in its body.
- LocalSearch.MoveWorstFlight: the body of `move_worst_flight` is not part of this model. The stand-in keeps the invariant and never applies a move, so RVND's local optimum is stated for the four modelled neighbourhoods only.
- Metaheuristics.BestImprovementFreeSpace: the body of `best_improvement_free_space` is not part of this model. The stand-in keeps the invariant and never applies a move.
- `ceil(alpha * (runways / 2))` in GILS is floating point. It is the parameter `spread`.
- Construction.RandomizedGreedy: the GRASP draw is taken from `[0, ceil(alpha * size)]`. When that upper bound equals the list size (a single possible insertion, for instance) the draw can read one past the list. The model requires every draw to index the list.
- `uint32_t` wrap-around and overflow are not modelled: all times and penalties are unbounded. Metaheuristics.Gap is the true distance, where the source's `std::abs` of an unsigned difference wraps.
- With zero runways, `num_runways - 1` in the inter swap wraps around in the source. The model scans nothing. The constructions require at least one runway when there are flights, and no more runways than flights, as the source reads `back()` of those lists.
- The order `std::sort` leaves equal keys in is unspecified. The model states the sorted lists and the selected insertion up to that order.
- `candidates_position` in the constructions is written but never read, and is not modelled.
- Metaheuristics.FeasibleSnapshot: copies of solutions (`local_best`, `best_found`) keep their runways and prefix penalties. The start times stay in the solver's arrays, which later moves overwrite, so a snapshot is stated without start times.
- The parallel GILS variant, instance file reading, printing and `main.cpp` are not part of this model.
- GRASP calls a `VND` that returns a solution, while `VND.cpp` updates its argument. Both are modelled as the in-place VND.
- The `assert(test_feasibility)` calls are modelled as proved postconditions, the schedule invariant of every operation.

## Findings

| source | as written | input that shows it | evidently intended | confidence | as-written member | corrected member |
|---|---|---|---|---|---|---|
| src/solution.cpp:19-20 | the first flight of each runway is added to the seen set without being looked up | two flights, two runways, schedule [[0],[0]], objective 0: accepted although flight 1 is never placed | every flight looked up, so that acceptance means feasibility | high, not executed | Solutions.AsWrittenAcceptsDuplicateFirstFlight | Solutions.TestFeasibility |
| src/neighborhood.cpp:852-861 | after `std::rotate` the position cache of the shifted flights is not updated; the runway and position caches are only assigned (src/construction.cpp:42-43, 84-85, 126-127, 173-174; src/neighborhood.cpp:148-149, 311-315, 520-521, 533, 542) and never read, so the stale values change no schedule, penalty or objective | runway [0, 1] with flight 1 moved to the front: flight 1 stays cached at position 1 | the flights between the two ends of the move renumbered | high, not executed | IntraMoveSearch.StalePositionsAfterRelocate | IntraMoveNeighborhood.ApplySelectedIntraMove |
| src/perturbation.cpp:61-63 | exchanged flights keep their old runway and position caches; the runway and position caches are only assigned (src/construction.cpp:42-43, 84-85, 126-127, 173-174; src/neighborhood.cpp:148-149, 311-315, 520-521, 533, 542) and never read, so the stale values change no schedule, penalty or objective | runways [0] and [1] exchanged: flight 1 stays cached on runway 1 | each exchanged flight cached at its new runway and position | high, not executed | BlockSwaps.StaleCachesAfterBlockSwap | Perturbation.ApplyBlockSwap |
| src/construction.cpp:164-167 | the pushed prefix entry is the entry of the first size - 1 flights plus the new cost | three flights released at 0, occupancy 1, delay penalty 1, no separation; runway [0, 1] gets flight 2: 2 is pushed where the prefix penalty is 3 | the entry of all size flights plus the new cost, which is the new runway penalty | high, not executed | Construction.AsWrittenPrefixEntryExample | Construction.LowestReleaseTimeInsertion |
