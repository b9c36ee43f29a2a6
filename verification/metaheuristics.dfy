/** The metaheuristics built on the constructions and local searches: GRASP
    keeps the best of several randomized constructions each followed by VND;
    GILS keeps the best of several iterated local searches, each starting
    from the lowest-release-time construction and alternating block-swap
    perturbations with a local search. */
module Metaheuristics {
  import opened Instances
  import opened Schedule
  import opened Runways
  import opened Solutions
  import opened Asp
  import opened BlockSwaps
  import opened Perturbation
  import opened Construction
  import opened GreedyRules
  import opened LocalSearch

  /** UINT32_MAX, the objective a best-so-far solution starts with. */
  const Unset: nat := 0xFFFF_FFFF

  /** A default-constructed Solution given the objective UINT32_MAX: no
      runways at all. */
  function Sentinel(): (sol: Solution)
    ensures sol.runways == [] && sol.objective == Unset
  {
    Solution([], Unset)
  }

  /** A copy of a solution that met the schedule invariant: one non-empty
      runway per instance runway, each with its prefix penalties and penalty
      right, every flight placed once, and the objective the sum of the
      runway penalties. The start times and the runway and position caches
      stay behind in the solver's arrays, which later moves overwrite. */
  ghost predicate FeasibleSnapshot(inst: Instance, sol: Solution) {
    && inst.WellFormed()
    && AllValidIds(inst, SequencesOf(sol.runways))
    && Feasible(inst, SequencesOf(sol.runways), sol.objective)
    && forall r :: 0 <= r < |sol.runways| ==>
         && |sol.runways[r].sequence| >= 1
         && PrefixesMatch(inst, sol.runways[r].sequence, sol.runways[r].prefixPenalty, |sol.runways[r].sequence|)
         && sol.runways[r].penalty == TotalPenalty(inst, sol.runways[r].sequence)
  }

  /** A solution that meets the invariant with the solver's caches is a
      feasible snapshot. */
  lemma ValidSnapshot(asp: ASP, sol: Solution)
    requires asp.Valid(sol)
    ensures FeasibleSnapshot(asp.instance, sol)
  {
    forall r | 0 <= r < |sol.runways|
      ensures |sol.runways[r].sequence| >= 1
      ensures PrefixesMatch(asp.instance, sol.runways[r].sequence, sol.runways[r].prefixPenalty, |sol.runways[r].sequence|)
      ensures sol.runways[r].penalty == TotalPenalty(asp.instance, sol.runways[r].sequence)
    {
      asp.RunwayFacts(sol, r);
    }
  }

  /** The best-so-far solution after offering init and then cands in order,
      replacing the best only by a strictly smaller objective. */
  function BestOf(init: Solution, cands: seq<Solution>): (best: Solution)
    ensures best == init || best in cands
    ensures best.objective <= init.objective
    ensures forall k :: 0 <= k < |cands| ==> best.objective <= cands[k].objective
  {
    if |cands| == 0 then init
    else
      var prior := BestOf(init, cands[..|cands| - 1]);
      assert forall k :: 0 <= k < |cands| - 1 ==> cands[..|cands| - 1][k] == cands[k];
      if cands[|cands| - 1].objective < prior.objective then cands[|cands| - 1] else prior
  }

  /** Ties keep the earlier solution: the best is init when no candidate is
      strictly below it, and otherwise the first candidate whose objective
      is below init and below every earlier candidate and not above any
      later one. */
  lemma {:induction false} BestOfFirst(init: Solution, cands: seq<Solution>, k: nat)
    requires k < |cands| && cands[k].objective < init.objective
    requires forall j :: 0 <= j < k ==> cands[j].objective > cands[k].objective
    requires forall j :: k < j < |cands| ==> cands[j].objective >= cands[k].objective
    ensures BestOf(init, cands) == cands[k]
  {
    var last := |cands| - 1;
    var front := cands[..last];
    if k < last {
      BestOfFirst(init, front, k);
    } else {
      forall j | 0 <= j < |front|
        ensures front[j].objective > cands[k].objective
      {
        assert front[j] == cands[j];
      }
      BestOfNone(init, front, cands[k].objective);
    }
  }

  /** When no candidate goes below init, the best is init; and when every
      candidate and init lie above v, so does the best. */
  lemma {:induction false} BestOfNone(init: Solution, cands: seq<Solution>, v: nat)
    requires init.objective > v && forall j :: 0 <= j < |cands| ==> cands[j].objective > v
    ensures BestOf(init, cands).objective > v
  {
    if |cands| > 0 {
      var front := cands[..|cands| - 1];
      forall j | 0 <= j < |front|
        ensures front[j].objective > v
      {
        assert front[j] == cands[j];
      }
      BestOfNone(init, front, v);
    }
  }

  /** When no candidate is strictly below init, the best is init. */
  lemma {:induction false} BestOfKeepsInit(init: Solution, cands: seq<Solution>)
    requires forall j :: 0 <= j < |cands| ==> cands[j].objective >= init.objective
    ensures BestOf(init, cands) == init
  {
    if |cands| > 0 {
      var front := cands[..|cands| - 1];
      forall j | 0 <= j < |front|
        ensures front[j].objective >= init.objective
      {
        assert front[j] == cands[j];
      }
      BestOfKeepsInit(init, front);
    }
  }

  /** Offering one more candidate. */
  lemma BestOfAppend(init: Solution, cands: seq<Solution>, c: Solution)
    ensures BestOf(init, cands + [c]) ==
            if c.objective < BestOf(init, cands).objective then c else BestOf(init, cands)
  {
    assert (cands + [c])[..|cands|] == cands;
  }

  /** |a - b| on start times, without wrap-around. */
  function Gap(a: nat, b: nat): (g: nat)
    ensures a + g == b || b + g == a
  {
    if a < b then b - a else a - b
  }

  /** The partner search of random_inter_block_swap: the first position of
      s whose flight starts nearest to t. */
  method NearestPartner(asp: ASP, s: seq<nat>, t: nat) returns (fj: nat)
    requires asp.Arena() && |s| >= 1 && ValidIds(asp.instance, s)
    ensures fj < |s|
    ensures forall p :: 0 <= p < |s| ==> Gap(asp.startTime[s[fj]], t) <= Gap(asp.startTime[s[p]], t)
    ensures forall p :: 0 <= p < fj ==> Gap(asp.startTime[s[p]], t) > Gap(asp.startTime[s[fj]], t)
  {
    fj := 0;
    var best := Gap(asp.startTime[s[0]], t);
    var p := 0;
    while p < |s|
      invariant p <= |s| && fj < |s| && fj <= p
      invariant best == Gap(asp.startTime[s[fj]], t)
      invariant forall q :: 0 <= q < p ==> best <= Gap(asp.startTime[s[q]], t)
      invariant forall q :: 0 <= q < fj ==> Gap(asp.startTime[s[q]], t) > best
    {
      var g := Gap(asp.startTime[s[p]], t);
      if g < best {
        fj := p;
        best := g;
      }
      p := p + 1;
    }
  }

  /** random_inter_block_swap with its draws taken from the generator stream
      gen at positions at, at + 1, ...: two different runways, a position
      on the first, the partner on the second whose start is nearest, and
      two block sizes, each draw brought into its range. With fewer than two
      runways nothing is drawn and nothing changes. */
  method DrawnBlockSwap(asp: ASP, sol: Solution, gen: nat -> nat, at: nat) returns (sol': Solution, next: nat)
    requires asp.Valid(sol)
    modifies asp.startTime, asp.runwayOf, asp.position
    ensures asp.Valid(sol')
    ensures |sol.runways| < 2 ==> sol' == sol && next == at
    ensures |sol.runways| >= 2 ==> next == at + 5
    ensures |sol.runways| >= 2 ==> exists m ::
      BlockFits(SequencesOf(sol.runways), m) && SequencesOf(sol'.runways) == BlockSwapped(SequencesOf(sol.runways), m)
  {
    var count := |sol.runways|;
    if count < 2 {
      sol' := RandomInterBlockSwap(asp, sol, 0, 0, 0, 0, 0, 0);
      return sol', at;
    }
    var ri := gen(at) % count;
    var other := gen(at + 1) % (count - 1);
    var rj := if other < ri then other else other + 1;
    asp.RunwayFacts(sol, ri);
    asp.RunwayFacts(sol, rj);
    var si, sj := sol.runways[ri].sequence, sol.runways[rj].sequence;
    var fi := gen(at + 2) % |si|;
    var fj := NearestPartner(asp, sj, asp.startTime[si[fi]]);
    var bi := 1 + gen(at + 3) % (|si| - fi);
    var bj := 1 + gen(at + 4) % (|sj| - fj);
    ghost var ss := SequencesOf(sol.runways);
    assert BlockChoice(ss, ri, rj, fi, fj, bi, bj);
    OrderedBlocksFit(ss, ri, rj, fi, fj, bi, bj);
    sol' := RandomInterBlockSwap(asp, sol, ri, rj, fi, fj, bi, bj);
    next := at + 5;
  }

  /** ASP::best_improvement_free_space, whose body is not part of this
      model. Callers may rely only on what it promises: it keeps the
      invariant and applies a move only when that lowers the objective. The
      stand-in never applies one. */
  method BestImprovementFreeSpace(asp: ASP, sol: Solution) returns (improved: bool, sol': Solution)
    requires asp.Valid(sol)
    modifies asp.startTime, asp.runwayOf, asp.position
    ensures asp.Valid(sol')
    ensures improved <==> sol'.objective < sol.objective
    ensures !improved ==> sol' == sol && unchanged(asp.startTime, asp.runwayOf, asp.position)
  {
    return false, sol;
  }

  /** Which local search an iterated local search uses. */
  datatype Descent = WithVnd | WithRvnd

  /** The random streams: the solver's generator and the C library's rand(),
      each with the position of its next draw. */
  datatype Streams = Streams(gen: nat -> nat, genAt: nat, rand: nat -> nat, randAt: nat)

  /** One round of GILS_VND: 1 + spread block swaps, then VND. */
  method RoundVnd(asp: ASP, sol: Solution, spread: nat, streams: Streams) returns (sol': Solution, streams': Streams)
    requires asp.Valid(sol)
    modifies asp.startTime, asp.runwayOf, asp.position
    ensures asp.Valid(sol') && LocalOptimum(asp.instance, SequencesOf(sol'.runways))
  {
    sol', streams' := sol, streams;
    for p := 0 to 1 + spread
      invariant asp.Valid(sol')
    {
      var at;
      sol', at := DrawnBlockSwap(asp, sol', streams'.gen, streams'.genAt);
      streams' := streams'.(genAt := at);
    }
    ghost var trace;
    sol', trace := VND(asp, sol');
  }

  /** One round of GILS_RVND: while rounds remain among the spread, the
      free-space move is tried and, at its first failure, one block swap is
      made and the perturbation ends; then RVND. */
  method RoundRvnd(asp: ASP, sol: Solution, spread: nat, streams: Streams) returns (sol': Solution, streams': Streams)
    requires asp.Valid(sol)
    modifies asp.startTime, asp.runwayOf, asp.position
    ensures asp.Valid(sol') && LocalOptimum(asp.instance, SequencesOf(sol'.runways))
  {
    sol', streams' := sol, streams;
    var p := 1;
    while p < 1 + spread
      invariant asp.Valid(sol')
    {
      var improved;
      improved, sol' := BestImprovementFreeSpace(asp, sol');
      if !improved {
        var at;
        sol', at := DrawnBlockSwap(asp, sol', streams'.gen, streams'.genAt);
        streams' := streams'.(genAt := at);
        break;
      }
      p := p + 1;
    }
    ghost var trace;
    var at;
    sol', at, trace := RVND(asp, sol', streams'.rand, streams'.randAt);
    streams' := streams'.(randAt := at);
  }

  /** The solution a round starts from is improved by the chosen descent. */
  method Round(asp: ASP, sol: Solution, spread: nat, streams: Streams, descent: Descent)
    returns (sol': Solution, streams': Streams)
    requires asp.Valid(sol)
    modifies asp.startTime, asp.runwayOf, asp.position
    ensures asp.Valid(sol') && LocalOptimum(asp.instance, SequencesOf(sol'.runways))
  {
    match descent
    case WithVnd => sol', streams' := RoundVnd(asp, sol, spread, streams);
    case WithRvnd => sol', streams' := RoundRvnd(asp, sol, spread, streams);
  }

  /** The last `count` rounds did not go below the best. */
  ghost predicate StalledFor(rounds: seq<Solution>, count: nat, best: Solution) {
    count <= |rounds| && forall k :: |rounds| - count <= k < |rounds| ==> rounds[k].objective >= best.objective
  }

  /** What an iterated local search knows between rounds: every round and
      the local best are feasible snapshots, the local best is the best of
      the start and the rounds, and the last `stalled` rounds did not go
      below it. */
  ghost predicate IlsState(inst: Instance, initial: Solution, rounds: seq<Solution>, localBest: Solution, stalled: nat) {
    && FeasibleSnapshot(inst, initial)
    && (forall k :: 0 <= k < |rounds| ==> FeasibleSnapshot(inst, rounds[k]))
    && localBest == BestOf(initial, rounds) && FeasibleSnapshot(inst, localBest)
    && StalledFor(rounds, stalled, localBest)
  }

  /** Where the solutions of an iterated local search come from: the start
      is the lowest-release-time construction and every round ends in a
      local optimum of all four neighbourhoods. */
  ghost predicate IlsOrigins(inst: Instance, initial: Solution, rounds: seq<Solution>) {
    && BuiltByLowestRelease(inst, SequencesOf(initial.runways))
    && forall k :: 0 <= k < |rounds| ==>
         && inst.WellFormed() && AllValidIds(inst, SequencesOf(rounds[k].runways))
         && LocalOptimum(inst, SequencesOf(rounds[k].runways))
  }

  /** A round that ends in a local optimum keeps the origins. */
  lemma IlsOriginsAppend(inst: Instance, initial: Solution, rounds: seq<Solution>, sol: Solution)
    requires IlsOrigins(inst, initial, rounds)
    requires inst.WellFormed() && AllValidIds(inst, SequencesOf(sol.runways))
    requires LocalOptimum(inst, SequencesOf(sol.runways))
    ensures IlsOrigins(inst, initial, rounds + [sol])
  {
    var rounds' := rounds + [sol];
    forall k | 0 <= k < |rounds'|
      ensures inst.WellFormed() && AllValidIds(inst, SequencesOf(rounds'[k].runways))
      ensures LocalOptimum(inst, SequencesOf(rounds'[k].runways))
    {
      if k < |rounds| {
        assert rounds'[k] == rounds[k];
      }
    }
  }

  /** A round below the local best replaces it and no round is stalled;
      any other round is one more stalled round. */
  lemma IlsAdvance(inst: Instance, initial: Solution, rounds: seq<Solution>, localBest: Solution, stalled: nat, sol: Solution)
    requires IlsState(inst, initial, rounds, localBest, stalled) && FeasibleSnapshot(inst, sol)
    ensures sol.objective < localBest.objective ==> IlsState(inst, initial, rounds + [sol], sol, 0)
    ensures sol.objective >= localBest.objective ==> IlsState(inst, initial, rounds + [sol], localBest, stalled + 1)
  {
    BestOfAppend(initial, rounds, sol);
    var rounds' := rounds + [sol];
    assert forall k :: 0 <= k < |rounds| ==> rounds'[k] == rounds[k];
  }

  /** The local best of an iterated local search is its construction or a
      round, so it is the construction or a local optimum of all four
      neighbourhoods. */
  lemma IlsLocalBest(inst: Instance, initial: Solution, rounds: seq<Solution>, localBest: Solution, stalled: nat)
    requires IlsState(inst, initial, rounds, localBest, stalled) && IlsOrigins(inst, initial, rounds)
    ensures localBest == initial || LocalOptimum(inst, SequencesOf(localBest.runways))
  {
    if localBest != initial {
      var k :| 0 <= k < |rounds| && rounds[k] == localBest;
    }
  }

  /** The local search that follows the construction. */
  method Descend(asp: ASP, sol: Solution, streams: Streams, descent: Descent) returns (sol': Solution, streams': Streams)
    requires asp.Valid(sol)
    modifies asp.startTime, asp.runwayOf, asp.position
    ensures asp.Valid(sol') && sol'.objective <= sol.objective
    ensures LocalOptimum(asp.instance, SequencesOf(sol'.runways))
  {
    match descent {
      case WithVnd =>
        ghost var trace;
        sol', trace := VND(asp, sol);
        streams' := streams;
      case WithRvnd =>
        var at;
        ghost var trace;
        sol', at, trace := RVND(asp, sol, streams.rand, streams.randAt);
        streams' := streams.(randAt := at);
    }
  }

  /** The start of an iteration of GILS: the lowest-release-time
      construction, which is the local best, then the descent from it. */
  method IlsStart(asp: ASP, streams: Streams, descent: Descent)
    returns (initial: Solution, solution: Solution, streams': Streams)
    requires asp.Arena() && asp.instance.numRunways <= asp.instance.numFlights
    requires asp.instance.numRunways == 0 ==> asp.instance.numFlights == 0
    modifies asp.startTime, asp.runwayOf, asp.position
    ensures IlsState(asp.instance, initial, [], initial, 0) && IlsOrigins(asp.instance, initial, [])
    ensures asp.Valid(solution)
  {
    initial := LowestReleaseTimeInsertion(asp);
    ValidSnapshot(asp, initial);
    solution, streams' := Descend(asp, initial, streams, descent);
  }

  /** One round of the iterated local search, with the bookkeeping of
      GILS: a result strictly below the local best replaces it and resets
      the counter of stalled rounds, any other result adds one to it. */
  method IlsRound(asp: ASP, solution: Solution, spread: nat, streams: Streams, descent: Descent,
                  localBest: Solution, stalled: nat, ghost initial: Solution, ghost rounds: seq<Solution>)
    returns (solution': Solution, streams': Streams, localBest': Solution, stalled': nat, ghost rounds': seq<Solution>)
    requires asp.Valid(solution) && IlsState(asp.instance, initial, rounds, localBest, stalled)
    requires IlsOrigins(asp.instance, initial, rounds)
    modifies asp.startTime, asp.runwayOf, asp.position
    ensures asp.Valid(solution') && IlsState(asp.instance, initial, rounds', localBest', stalled')
    ensures IlsOrigins(asp.instance, initial, rounds')
    ensures rounds' == rounds + [solution']
    ensures localBest'.objective < localBest.objective ==> stalled' == 0
    ensures localBest'.objective >= localBest.objective ==> localBest' == localBest && stalled' == stalled + 1
  {
    solution', streams' := Round(asp, solution, spread, streams, descent);
    ValidSnapshot(asp, solution');
    IlsAdvance(asp.instance, initial, rounds, localBest, stalled, solution');
    IlsOriginsAppend(asp.instance, initial, rounds, solution');
    rounds' := rounds + [solution'];
    if solution'.objective < localBest.objective {
      localBest', stalled' := solution', 0;
    } else {
      localBest', stalled' := localBest, stalled + 1;
    }
  }

  /** One iteration of GILS: the lowest-release-time construction, kept as
      the local best before the descent, then rounds of perturbation and
      descent; a round strictly below the local best replaces it and resets
      the counter, and the search ends after maxIls rounds in a row that did
      not. The local best is the best of the construction and the rounds,
      ties keeping the earlier. */
  method IteratedLocalSearch(asp: ASP, maxIls: nat, spread: nat, streams: Streams, descent: Descent)
    returns (localBest: Solution, streams': Streams, ghost initial: Solution, ghost rounds: seq<Solution>)
    requires asp.Arena() && asp.instance.numRunways <= asp.instance.numFlights
    requires asp.instance.numRunways == 0 ==> asp.instance.numFlights == 0
    modifies asp.startTime, asp.runwayOf, asp.position
    ensures IlsState(asp.instance, initial, rounds, localBest, maxIls) && IlsOrigins(asp.instance, initial, rounds)
    ensures localBest == initial || LocalOptimum(asp.instance, SequencesOf(localBest.runways))
  {
    var start, solution;
    start, solution, streams' := IlsStart(asp, streams, descent);
    initial := start;
    localBest := start;
    rounds := [];
    var stalled: nat := 0;
    while stalled < maxIls
      invariant stalled <= maxIls
      invariant asp.Valid(solution)
      invariant IlsState(asp.instance, initial, rounds, localBest, stalled)
      invariant IlsOrigins(asp.instance, initial, rounds)
      decreases localBest.objective, maxIls - stalled
    {
      solution, streams', localBest, stalled, rounds :=
        IlsRound(asp, solution, spread, streams', descent, localBest, stalled, initial, rounds);
    }
    IlsLocalBest(asp.instance, initial, rounds, localBest, maxIls);
  }

  /** A local best of GILS: a feasible snapshot that is the lowest-release-
      time construction or a local optimum of all four neighbourhoods. */
  ghost predicate LocalBestOrigin(inst: Instance, sol: Solution) {
    && FeasibleSnapshot(inst, sol)
    && (BuiltByLowestRelease(inst, SequencesOf(sol.runways)) || LocalOptimum(inst, SequencesOf(sol.runways)))
  }

  /** The outer loop shared by GILS_VND and GILS_RVND: maxIterations
      iterated local searches, the best local best kept with strict
      improvement from the sentinel on. */
  method Gils(asp: ASP, maxIterations: nat, maxIls: nat, spread: nat, streams: Streams, descent: Descent)
    returns (best: Solution, ghost localBests: seq<Solution>)
    requires asp.Arena() && asp.instance.numRunways <= asp.instance.numFlights
    requires asp.instance.numRunways == 0 ==> asp.instance.numFlights == 0
    modifies asp.startTime, asp.runwayOf, asp.position
    ensures |localBests| == maxIterations
    ensures forall k :: 0 <= k < |localBests| ==> LocalBestOrigin(asp.instance, localBests[k])
    ensures best == BestOf(Sentinel(), localBests)
  {
    best := Sentinel();
    localBests := [];
    var s := streams;
    for iteration := 0 to maxIterations
      invariant |localBests| == iteration
      invariant forall k :: 0 <= k < |localBests| ==> LocalBestOrigin(asp.instance, localBests[k])
      invariant best == BestOf(Sentinel(), localBests)
      invariant asp.Arena()
    {
      var localBest;
      ghost var initial, rounds;
      localBest, s, initial, rounds := IteratedLocalSearch(asp, maxIls, spread, s, descent);
      assert LocalBestOrigin(asp.instance, localBest);
      BestOfAppend(Sentinel(), localBests, localBest);
      localBests := localBests + [localBest];
      if localBest.objective < best.objective {
        best := localBest;
      }
    }
  }

  /** The best of the sentinel and some feasible snapshots is the sentinel
      or a feasible snapshot, and no snapshot goes below it. */
  lemma BestOfSnapshots(inst: Instance, cands: seq<Solution>)
    requires forall k :: 0 <= k < |cands| ==> FeasibleSnapshot(inst, cands[k])
    ensures BestOf(Sentinel(), cands) == Sentinel() || FeasibleSnapshot(inst, BestOf(Sentinel(), cands))
  {
  }

  /** ASP::GILS_VND, with spread the drawn ceil(alpha * (runways / 2)): the
      best local best of maxIterations iterated local searches with VND, or
      the sentinel when none goes below UINT32_MAX; a best that is not the
      sentinel is the construction or a local optimum of some iteration. */
  method GilsVnd(asp: ASP, maxIterations: nat, maxIls: nat, spread: nat, streams: Streams)
    returns (best: Solution, ghost localBests: seq<Solution>)
    requires asp.Arena() && asp.instance.numRunways <= asp.instance.numFlights
    requires asp.instance.numRunways == 0 ==> asp.instance.numFlights == 0
    modifies asp.startTime, asp.runwayOf, asp.position
    ensures |localBests| == maxIterations && best == BestOf(Sentinel(), localBests)
    ensures best == Sentinel() || LocalBestOrigin(asp.instance, best)
    ensures forall k :: 0 <= k < |localBests| ==> best.objective <= localBests[k].objective
  {
    best, localBests := Gils(asp, maxIterations, maxIls, spread, streams, WithVnd);
  }

  /** ASP::GILS_RVND: as GILS_VND with RVND as the descent and the
      free-space perturbation. */
  method GilsRvnd(asp: ASP, maxIterations: nat, maxIls: nat, spread: nat, streams: Streams)
    returns (best: Solution, ghost localBests: seq<Solution>)
    requires asp.Arena() && asp.instance.numRunways <= asp.instance.numFlights
    requires asp.instance.numRunways == 0 ==> asp.instance.numFlights == 0
    modifies asp.startTime, asp.runwayOf, asp.position
    ensures |localBests| == maxIterations && best == BestOf(Sentinel(), localBests)
    ensures best == Sentinel() || LocalBestOrigin(asp.instance, best)
    ensures forall k :: 0 <= k < |localBests| ==> best.objective <= localBests[k].objective
  {
    best, localBests := Gils(asp, maxIterations, maxIls, spread, streams, WithRvnd);
  }

  /** Draws for one randomized construction: one per flight left after
      seeding, each indexing the insertions of its round. */
  ghost predicate GreedyDraws(inst: Instance, choices: seq<nat>) {
    && |choices| == inst.numFlights - inst.numRunways
    && forall i :: 0 <= i < |choices| ==> choices[i] < ListedInsertions(|choices| - i, inst.numRunways)
  }

  /** One GRASP iteration: a randomized greedy construction with the given
      draws, then VND; the result is a feasible local optimum. */
  method GraspIteration(asp: ASP, choices: seq<nat>) returns (result: Solution)
    requires asp.Arena() && asp.instance.numRunways <= asp.instance.numFlights
    requires asp.instance.numRunways == 0 ==> asp.instance.numFlights == 0
    requires GreedyDraws(asp.instance, choices)
    modifies asp.startTime, asp.runwayOf, asp.position
    ensures FeasibleSnapshot(asp.instance, result) && LocalOptimum(asp.instance, SequencesOf(result.runways))
  {
    var initial := RandomizedGreedy(asp, choices);
    ghost var trace;
    result, trace := VND(asp, initial);
    ValidSnapshot(asp, result);
  }

  /** Every result so far is a feasible local optimum and best is the best
      of the sentinel and them. */
  ghost predicate GraspState(inst: Instance, results: seq<Solution>, best: Solution) {
    && (forall k :: 0 <= k < |results| ==>
          FeasibleSnapshot(inst, results[k]) && LocalOptimum(inst, SequencesOf(results[k].runways)))
    && best == BestOf(Sentinel(), results)
  }

  lemma GraspAdvance(inst: Instance, results: seq<Solution>, best: Solution, result: Solution)
    requires GraspState(inst, results, best)
    requires FeasibleSnapshot(inst, result) && LocalOptimum(inst, SequencesOf(result.runways))
    ensures GraspState(inst, results + [result], if result.objective < best.objective then result else best)
  {
    BestOfAppend(Sentinel(), results, result);
    var results' := results + [result];
    assert forall k :: 0 <= k < |results| ==> results'[k] == results[k];
  }

  /** ASP::GRASP_VND, with the draws of each randomized construction given:
      each iteration builds a fresh randomized greedy solution and runs VND
      on it; the best result is kept with strict improvement from the
      sentinel on. Every result is a feasible local optimum. */
  method GraspVnd(asp: ASP, maxIterations: nat, draws: seq<seq<nat>>) returns (best: Solution, ghost results: seq<Solution>)
    requires asp.Arena() && asp.instance.numRunways <= asp.instance.numFlights
    requires asp.instance.numRunways == 0 ==> asp.instance.numFlights == 0
    requires |draws| == maxIterations && forall k :: 0 <= k < |draws| ==> GreedyDraws(asp.instance, draws[k])
    modifies asp.startTime, asp.runwayOf, asp.position
    ensures |results| == maxIterations && GraspState(asp.instance, results, best)
    ensures best == Sentinel() || FeasibleSnapshot(asp.instance, best)
  {
    best := Sentinel();
    results := [];
    for iteration := 0 to maxIterations
      invariant |results| == iteration && GraspState(asp.instance, results, best)
      invariant asp.Arena()
    {
      var result := GraspIteration(asp, draws[iteration]);
      GraspAdvance(asp.instance, results, best, result);
      results := results + [result];
      if result.objective < best.objective {
        best := result;
      }
    }
    BestOfSnapshots(asp.instance, results);
  }
}
