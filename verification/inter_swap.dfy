/** What the inter-runway swap search computes: the places it tries, their
    order, the state of the search after a prefix of them and what it selects. */
module InterSwapSearch {
  import opened Instances
  import opened Schedule
  import opened Sequences
  import opened Runways
  import opened Solutions
  import opened Moves
  import opened Asp

  /** A place of the search: flight fi of runway ri with flight fj of runway rj. */
  datatype InterPlace = InterPlace(ri: nat, rj: nat, fi: nat, fj: nat)

  /** Place p comes before place q in the order of the four nested loops:
      first runway, second runway, flight of the first, flight of the second. */
  predicate InterBefore(p: InterPlace, q: InterPlace) {
    || p.ri < q.ri
    || (p.ri == q.ri && p.rj < q.rj)
    || (p.ri == q.ri && p.rj == q.rj && PairBefore(p.fi, p.fj, q.fi, q.fj))
  }

  /** Place p is one the search costs: two runways ri < rj of ss and a flight of each. */
  ghost predicate InterCandidate(ss: seq<seq<nat>>, p: InterPlace) {
    p.ri < p.rj < |ss| && p.fi < |ss[p.ri]| && p.fj < |ss[p.rj]|
  }

  /** The state of the search once every place before cur has been tried: no
      candidate saves more than delta, and when delta > 0 the recorded place
      best saves delta and every candidate before it saves less. (The scan
      methods compare it with true in their contracts so that the verifier
      passes it on as a single fact instead of unfolding it at every call.) */
  ghost predicate InterSwapScan(inst: Instance, ss: seq<seq<nat>>, cur: InterPlace, delta: nat, best: InterPlace)
    requires inst.WellFormed() && AllValidIds(inst, ss)
  {
    && (forall p {:trigger InterCandidate(ss, p)} :: InterCandidate(ss, p) && InterBefore(p, cur) ==>
          InterSwapGain(inst, ss, p.ri, p.fi, p.rj, p.fj) <= delta)
    && (delta > 0 ==>
          && InterCandidate(ss, best) && InterBefore(best, cur)
          && InterSwapGain(inst, ss, best.ri, best.fi, best.rj, best.fj) == delta
          && forall p {:trigger InterCandidate(ss, p)} :: InterCandidate(ss, p) && InterBefore(p, best) ==>
               InterSwapGain(inst, ss, p.ri, p.fi, p.rj, p.fj) < delta)
    && (delta == 0 ==> best == InterPlace(0, 0, 0, 0))
  }

  /** best is the swap the search selects in schedule ss: among all candidates
      it saves the most, delta > 0, and it is the first in scan order that does. */
  ghost predicate BestInterSwap(inst: Instance, ss: seq<seq<nat>>, best: InterPlace, delta: nat)
    requires inst.WellFormed() && AllValidIds(inst, ss)
  {
    delta > 0 && InterSwapScan(inst, ss, InterPlace(|ss|, 0, 0, 0), delta, best)
  }

  /** No exchange of flights between two runways of ss lowers the objective. */
  ghost predicate NoImprovingInterSwap(inst: Instance, ss: seq<seq<nat>>)
    requires inst.WellFormed() && AllValidIds(inst, ss)
  {
    forall p {:trigger InterCandidate(ss, p)} :: InterCandidate(ss, p) ==> InterSwapGain(inst, ss, p.ri, p.fi, p.rj, p.fj) <= 0
  }

  /** The places before cur with its second flight advanced are those before
      cur and cur itself. */
  lemma InterBeforeNext(p: InterPlace, cur: InterPlace)
    ensures InterBefore(p, cur.(fj := cur.fj + 1)) <==> InterBefore(p, cur) || p == cur
  {
  }

  /** A candidate that saves no more than the best so far leaves the state as it is. */
  lemma InterScanKeep(inst: Instance, ss: seq<seq<nat>>, cur: InterPlace, delta: nat, best: InterPlace)
    requires inst.WellFormed() && AllValidIds(inst, ss)
    requires InterSwapScan(inst, ss, cur, delta, best) && InterCandidate(ss, cur)
    requires InterSwapGain(inst, ss, cur.ri, cur.fi, cur.rj, cur.fj) <= delta
    ensures InterSwapScan(inst, ss, cur.(fj := cur.fj + 1), delta, best)
  {
    forall p {:trigger InterCandidate(ss, p)} | InterCandidate(ss, p) && InterBefore(p, cur.(fj := cur.fj + 1))
      ensures InterSwapGain(inst, ss, p.ri, p.fi, p.rj, p.fj) <= delta
    {
      InterBeforeNext(p, cur);
    }
    if delta > 0 {
      InterBeforeNext(best, cur);
    }
  }

  /** A candidate that saves strictly more than the best so far becomes the best. */
  lemma InterScanRecord(inst: Instance, ss: seq<seq<nat>>, cur: InterPlace, delta: nat, best: InterPlace)
    requires inst.WellFormed() && AllValidIds(inst, ss)
    requires InterSwapScan(inst, ss, cur, delta, best) && InterCandidate(ss, cur)
    requires InterSwapGain(inst, ss, cur.ri, cur.fi, cur.rj, cur.fj) > delta
    ensures InterSwapScan(inst, ss, cur.(fj := cur.fj + 1), InterSwapGain(inst, ss, cur.ri, cur.fi, cur.rj, cur.fj), cur)
  {
    forall p {:trigger InterCandidate(ss, p)} | InterCandidate(ss, p) && InterBefore(p, cur.(fj := cur.fj + 1))
      ensures InterSwapGain(inst, ss, p.ri, p.fi, p.rj, p.fj) <= InterSwapGain(inst, ss, cur.ri, cur.fi, cur.rj, cur.fj)
    {
      InterBeforeNext(p, cur);
    }
    InterBeforeNext(cur, cur);
  }

  /** Before the first place nothing has been tried. */
  lemma InterScanStart(inst: Instance, ss: seq<seq<nat>>)
    requires inst.WellFormed() && AllValidIds(inst, ss)
    ensures InterSwapScan(inst, ss, InterPlace(0, 1, 0, 0), 0, InterPlace(0, 0, 0, 0))
  {
  }

  /** Finishing the flights of runway rj against flight fi moves the search to flight fi + 1. */
  lemma InterScanNextFlight(inst: Instance, ss: seq<seq<nat>>, ri: nat, rj: nat, fi: nat,
                            delta: nat, best: InterPlace)
    requires inst.WellFormed() && AllValidIds(inst, ss) && rj < |ss|
    requires InterSwapScan(inst, ss, InterPlace(ri, rj, fi, |ss[rj]|), delta, best)
    ensures InterSwapScan(inst, ss, InterPlace(ri, rj, fi + 1, 0), delta, best)
  {
  }

  /** Finishing every flight of runway ri against runway rj moves the search to runway rj + 1. */
  lemma InterScanNextPair(inst: Instance, ss: seq<seq<nat>>, ri: nat, rj: nat,
                          delta: nat, best: InterPlace)
    requires inst.WellFormed() && AllValidIds(inst, ss) && ri < |ss|
    requires InterSwapScan(inst, ss, InterPlace(ri, rj, |ss[ri]|, 0), delta, best)
    ensures InterSwapScan(inst, ss, InterPlace(ri, rj + 1, 0, 0), delta, best)
  {
  }

  /** Finishing every later runway against runway ri moves the search to runway ri + 1. */
  lemma InterScanNextFirst(inst: Instance, ss: seq<seq<nat>>, ri: nat, delta: nat, best: InterPlace)
    requires inst.WellFormed() && AllValidIds(inst, ss)
    requires InterSwapScan(inst, ss, InterPlace(ri, |ss|, 0, 0), delta, best)
    ensures InterSwapScan(inst, ss, InterPlace(ri + 1, ri + 2, 0, 0), delta, best)
  {
  }

  /** Once no runway is left with a later one, every candidate has been tried;
      a search that found no saving shows that no candidate improves. */
  lemma InterScanDone(inst: Instance, ss: seq<seq<nat>>, ri: nat, delta: nat, best: InterPlace)
    requires inst.WellFormed() && AllValidIds(inst, ss) && |ss| <= ri + 1
    requires InterSwapScan(inst, ss, InterPlace(ri, ri + 1, 0, 0), delta, best)
    ensures InterSwapScan(inst, ss, InterPlace(|ss|, 0, 0, 0), delta, best)
    ensures delta == 0 ==> NoImprovingInterSwap(inst, ss)
  {
  }

  /** A selected swap is an improving candidate, so a schedule that has one
      is not a local optimum for this neighbourhood. */
  lemma BestInterIsImproving(inst: Instance, ss: seq<seq<nat>>, best: InterPlace, delta: nat)
    requires inst.WellFormed() && AllValidIds(inst, ss)
    requires BestInterSwap(inst, ss, best, delta)
    ensures InterCandidate(ss, best)
    ensures InterSwapGain(inst, ss, best.ri, best.fi, best.rj, best.fj) == delta > 0
    ensures !NoImprovingInterSwap(inst, ss)
  {
  }
}

/** The best-improvement inter-runway swap neighbourhood: every flight of a
    runway is tried against every flight of each later runway by exchanging
    them in place, costing both changed sequences incrementally against the
    two runway penalties together and exchanging them back; the first pair with
    the largest saving is applied, the runway and position caches of its two
    flights are updated and both runways are refreshed. */
module InterSwapNeighborhood {
  import opened Instances
  import opened Schedule
  import opened Sequences
  import opened Runways
  import opened Solutions
  import opened Moves
  import opened Evaluation
  import opened Asp
  import opened InterSwapSearch

  /** Penalties of the two runways rwI and rwJ after flight fi of the first
      and flight fj of the second are exchanged (sequences si and sj), computed
      from their stored prefix penalties and start times: each from the prefix
      entry at the changed position, then flight by flight until a recomputed
      start matches the stored one, giving up once the two partial penalties
      together reach `bound`. Neither result exceeds the true penalty, and both
      are exact whenever their sum stays below the bound. */
  method EvaluateInterSwap(inst: Instance, si: seq<nat>, sj: seq<nat>, rwI: Runway, rwJ: Runway,
                           start: array<nat>, fi: nat, fj: nat, bound: nat)
    returns (penaltyI: nat, penaltyJ: nat)
    requires Consistent(inst, rwI, start[..]) && Consistent(inst, rwJ, start[..])
    requires fi < |rwI.sequence| && fj < |rwJ.sequence|
    requires si == rwI.sequence[fi := rwJ.sequence[fj]] && sj == rwJ.sequence[fj := rwI.sequence[fi]]
    ensures ValidIds(inst, si) && ValidIds(inst, sj)
    ensures penaltyI <= TotalPenalty(inst, si) && penaltyJ <= TotalPenalty(inst, sj)
    ensures penaltyI + penaltyJ < bound ==>
      penaltyI == TotalPenalty(inst, si) && penaltyJ == TotalPenalty(inst, sj)
  {
    assert ValidIds(inst, si) && ValidIds(inst, sj);
    var prevI, prevJ;
    penaltyI, prevI := EvaluateHead(inst, si, rwI.sequence, rwI.prefixPenalty, start, fi);
    penaltyJ := rwJ.prefixPenalty[fj];
    penaltyI := EvaluateTail(inst, si, rwI.sequence, rwI.prefixPenalty, start, fi + 1,
                             penaltyI, prevI, penaltyJ, bound);
    ghost var headJ := penaltyJ;
    PrefixAgreement(inst, sj, rwJ.sequence, fj);
    PrefixMonotone(inst, sj, fj, fj + 1);
    penaltyJ, prevJ := EvaluateHead(inst, sj, rwJ.sequence, rwJ.prefixPenalty, start, fj);
    assert headJ <= penaltyJ;
    penaltyJ := EvaluateTail(inst, sj, rwJ.sequence, rwJ.prefixPenalty, start, fj + 1,
                             penaltyJ, prevJ, penaltyI, bound);
  }

  /** One place of the search: the exchange of flight fi of runway ri with
      flight fj of runway rj is costed against the two runway penalties and
      recorded when it saves strictly more than the best so far. */
  method TryInterSwap(inst: Instance, rwI: Runway, rwJ: Runway, start: array<nat>,
                      ghost ss: seq<seq<nat>>, ri: nat, rj: nat, fi: nat, fj: nat,
                      delta0: nat, best0: InterPlace)
    returns (delta: nat, best: InterPlace)
    requires inst.WellFormed() && AllValidIds(inst, ss) && ri < rj < |ss|
    requires ss[ri] == rwI.sequence && ss[rj] == rwJ.sequence
    requires fi < |rwI.sequence| && fj < |rwJ.sequence|
    requires Consistent(inst, rwI, start[..]) && Consistent(inst, rwJ, start[..])
    requires InterSwapScan(inst, ss, InterPlace(ri, rj, fi, fj), delta0, best0)
    ensures InterSwapScan(inst, ss, InterPlace(ri, rj, fi, fj + 1), delta, best)
  {
    var cur := InterPlace(ri, rj, fi, fj);
    var si := rwI.sequence[fi := rwJ.sequence[fj]];
    var sj := rwJ.sequence[fj := rwI.sequence[fi]];
    var bound := rwI.penalty + rwJ.penalty;
    var penaltyI, penaltyJ := EvaluateInterSwap(inst, si, sj, rwI, rwJ, start, fi, fj, bound);
    ghost var gain := InterSwapGain(inst, ss, ri, fi, rj, fj);
    assert gain == bound - TotalPenalty(inst, si) - TotalPenalty(inst, sj);
    delta, best := delta0, best0;
    if penaltyI + penaltyJ < bound && bound - (penaltyI + penaltyJ) > delta {
      InterScanRecord(inst, ss, cur, delta, best);
      delta := bound - (penaltyI + penaltyJ);
      best := cur;
    } else {
      InterScanKeep(inst, ss, cur, delta, best);
    }
  }

  /** Flight fi of runway ri against every flight of runway rj. */
  method ScanInterRow(inst: Instance, rwI: Runway, rwJ: Runway, start: array<nat>,
                      ghost ss: seq<seq<nat>>, ri: nat, rj: nat, fi: nat, delta0: nat, best0: InterPlace)
    returns (delta: nat, best: InterPlace)
    requires inst.WellFormed() && AllValidIds(inst, ss) && ri < rj < |ss|
    requires ss[ri] == rwI.sequence && ss[rj] == rwJ.sequence && fi < |rwI.sequence|
    requires Consistent(inst, rwI, start[..]) && Consistent(inst, rwJ, start[..])
    requires InterSwapScan(inst, ss, InterPlace(ri, rj, fi, 0), delta0, best0) == true
    ensures InterSwapScan(inst, ss, InterPlace(ri, rj, fi + 1, 0), delta, best) == true
  {
    delta, best := delta0, best0;
    var fj := 0;
    while fj < |rwJ.sequence|
      invariant fj <= |rwJ.sequence|
      invariant InterSwapScan(inst, ss, InterPlace(ri, rj, fi, fj), delta, best) == true
    {
      delta, best := TryInterSwap(inst, rwI, rwJ, start, ss, ri, rj, fi, fj, delta, best);
      fj := fj + 1;
    }
    InterScanNextFlight(inst, ss, ri, rj, fi, delta, best);
  }

  /** Every flight of runway ri against every flight of runway rj. */
  method ScanInterPair(inst: Instance, rwI: Runway, rwJ: Runway, start: array<nat>,
                       ghost ss: seq<seq<nat>>, ri: nat, rj: nat, delta0: nat, best0: InterPlace)
    returns (delta: nat, best: InterPlace)
    requires inst.WellFormed() && AllValidIds(inst, ss) && ri < rj < |ss|
    requires ss[ri] == rwI.sequence && ss[rj] == rwJ.sequence
    requires Consistent(inst, rwI, start[..]) && Consistent(inst, rwJ, start[..])
    requires InterSwapScan(inst, ss, InterPlace(ri, rj, 0, 0), delta0, best0) == true
    ensures InterSwapScan(inst, ss, InterPlace(ri, rj + 1, 0, 0), delta, best) == true
  {
    delta, best := delta0, best0;
    var fi := 0;
    while fi < |rwI.sequence|
      invariant fi <= |rwI.sequence|
      invariant InterSwapScan(inst, ss, InterPlace(ri, rj, fi, 0), delta, best) == true
    {
      delta, best := ScanInterRow(inst, rwI, rwJ, start, ss, ri, rj, fi, delta, best);
      fi := fi + 1;
    }
    InterScanNextPair(inst, ss, ri, rj, delta, best);
  }

  /** Runway ri against every later runway of rs. */
  method ScanInterFrom(inst: Instance, rs: seq<Runway>, start: array<nat>,
                       ghost ss: seq<seq<nat>>, ri: nat, delta0: nat, best0: InterPlace)
    returns (delta: nat, best: InterPlace)
    requires inst.WellFormed() && AllValidIds(inst, ss) && ri < |ss| == |rs|
    requires forall r :: ri <= r < |rs| ==> ss[r] == rs[r].sequence && Consistent(inst, rs[r], start[..])
    requires InterSwapScan(inst, ss, InterPlace(ri, ri + 1, 0, 0), delta0, best0) == true
    ensures InterSwapScan(inst, ss, InterPlace(ri + 1, ri + 2, 0, 0), delta, best) == true
  {
    delta, best := delta0, best0;
    var rj := ri + 1;
    while rj < |rs|
      invariant ri + 1 <= rj <= |ss|
      invariant InterSwapScan(inst, ss, InterPlace(ri, rj, 0, 0), delta, best) == true
    {
      delta, best := ScanInterPair(inst, rs[ri], rs[rj], start, ss, ri, rj, delta, best);
      rj := rj + 1;
    }
    InterScanNextFirst(inst, ss, ri, delta, best);
  }

  /** The search over every pair of runways ri < rj of rs: the best saving
      delta and its place. */
  method ScanInterSwaps(inst: Instance, rs: seq<Runway>, start: array<nat>)
    returns (delta: nat, best: InterPlace)
    requires RunwaysCached(inst, rs, start)
    ensures AllValidIds(inst, SequencesOf(rs))
    ensures delta > 0 ==> BestInterSwap(inst, SequencesOf(rs), best, delta)
    ensures delta == 0 ==> NoImprovingInterSwap(inst, SequencesOf(rs))
  {
    ghost var ss := SequencesOf(rs);
    ConsistentValidIds(inst, rs, start[..]);
    InterScanStart(inst, ss);
    delta, best := 0, InterPlace(0, 0, 0, 0);
    var ri := 0;
    while ri + 1 < |rs|
      invariant InterSwapScan(inst, ss, InterPlace(ri, ri + 1, 0, 0), delta, best) == true
    {
      delta, best := ScanInterFrom(inst, rs, start, ss, ri, delta, best);
      ri := ri + 1;
    }
    InterScanDone(inst, ss, ri, delta, best);
  }

  /** The two sequences an exchange produces name valid flights, none twice
      and none on both, when the caches place every flight of ss. */
  lemma InterSwapSequences(inst: Instance, ss: seq<seq<nat>>, runwayOf: seq<nat>, position: seq<nat>, p: InterPlace)
    requires inst.WellFormed() && AllValidIds(inst, ss) && InterCandidate(ss, p)
    requires Placed(ss, runwayOf, position)
    ensures var si, sj := ss[p.ri][p.fi := ss[p.rj][p.fj]], ss[p.rj][p.fj := ss[p.ri][p.fi]];
      && ValidIds(inst, si) && NoDup(si) && ValidIds(inst, sj) && NoDup(sj)
      && forall k :: 0 <= k < |sj| ==> sj[k] !in si
  {
    var ss' := InterSwapped(ss, p.ri, p.fi, p.rj, p.fj);
    var runwayOf' := runwayOf[ss[p.ri][p.fi] := p.rj][ss[p.rj][p.fj] := p.ri];
    var position' := position[ss[p.ri][p.fi] := p.fj][ss[p.rj][p.fj] := p.fi];
    InterSwapObjective(inst, ss, p.ri, p.fi, p.rj, p.fj);
    PlacedAfterInterSwap(ss, runwayOf, position, p.ri, p.fi, p.rj, p.fj);
    PlacedNoDup(ss', runwayOf', position', p.ri);
    PlacedNoDup(ss', runwayOf', position', p.rj);
    forall k | 0 <= k < |ss'[p.rj]|
      ensures ss'[p.rj][k] !in ss'[p.ri]
    {
      forall k' | 0 <= k' < |ss'[p.ri]|
        ensures ss'[p.ri][k'] != ss'[p.rj][k]
      {
        PlacedDistinct(ss', runwayOf', position', p.ri, k', p.rj, k);
      }
    }
  }

  /** What the exchange needs from a valid state with schedule ss: the two
      exchanged sequences name valid flights, none twice and none on both,
      the old caches are still right for each up to the exchanged position,
      and the saving is at most the objective. */
  lemma BeforeInterApply(inst: Instance, sol: Solution, start: seq<nat>, runwayOf: seq<nat>, position: seq<nat>,
                         ss: seq<seq<nat>>, p: InterPlace)
    requires ScheduleInvariant(inst, sol, start, runwayOf, position)
    requires ss == SequencesOf(sol.runways) && InterCandidate(ss, p)
    ensures var si, sj := ss[p.ri][p.fi := ss[p.rj][p.fj]], ss[p.rj][p.fj := ss[p.ri][p.fi]];
      && ValidIds(inst, si) && NoDup(si) && ValidIds(inst, sj) && NoDup(sj)
      && PrefixesMatch(inst, si, sol.runways[p.ri].prefixPenalty, p.fi) && StartsMatch(inst, si, start, p.fi)
      && PrefixesMatch(inst, sj, sol.runways[p.rj].prefixPenalty, p.fj) && StartsMatch(inst, sj, start, p.fj)
      && forall k :: 0 <= k < |sj| ==> sj[k] !in si
    ensures InterSwapGain(inst, ss, p.ri, p.fi, p.rj, p.fj) <= sol.objective
  {
    InterSwapSequences(inst, ss, runwayOf, position, p);
    InterSwapObjective(inst, ss, p.ri, p.fi, p.rj, p.fj);
    assert Consistent(inst, sol.runways[p.ri], start) && Consistent(inst, sol.runways[p.rj], start);
    MatchesBefore(inst, ss[p.ri], ss[p.ri][p.fi := ss[p.rj][p.fj]], sol.runways[p.ri].prefixPenalty,
                  sol.runways[p.ri].prefixPenalty, start, p.fi);
    MatchesBefore(inst, ss[p.rj], ss[p.rj][p.fj := ss[p.ri][p.fi]], sol.runways[p.rj].prefixPenalty,
                  sol.runways[p.rj].prefixPenalty, start, p.fj);
  }

  /** An exchange between runways keeps the flights of the schedule and
      their validity, and lowers the objective by its saving. */
  lemma InterSwapEffect(inst: Instance, ss: seq<seq<nat>>, p: InterPlace)
    requires inst.WellFormed() && AllValidIds(inst, ss) && InterCandidate(ss, p)
    ensures FlightBag(InterSwapped(ss, p.ri, p.fi, p.rj, p.fj)) == FlightBag(ss)
    ensures AllValidIds(inst, InterSwapped(ss, p.ri, p.fi, p.rj, p.fj))
    ensures Objective(inst, ss) - Objective(inst, InterSwapped(ss, p.ri, p.fi, p.rj, p.fj))
            == InterSwapGain(inst, ss, p.ri, p.fi, p.rj, p.fj)
  {
    InterSwapKeepsFlights(ss, p.ri, p.fi, p.rj, p.fj);
    InterSwapObjective(inst, ss, p.ri, p.fi, p.rj, p.fj);
  }

  /** After the selected exchange has been applied to a valid state with
      schedule ss: with runways ri and rj replaced by runways holding the
      exchanged sequences with caches consistent with the new start times, the
      runway and position caches of the two flights exchanged, start times
      changed only for flights of those two runways, and the objective lowered
      by the saving, the state is valid again and its schedule is the
      exchanged one. */
  lemma AfterInterApply(inst: Instance, sol: Solution, start: seq<nat>, runwayOf: seq<nat>, position: seq<nat>,
                        ss: seq<seq<nat>>, p: InterPlace, rs': seq<Runway>, objective': nat,
                        start': seq<nat>, runwayOf': seq<nat>, position': seq<nat>)
    requires ScheduleInvariant(inst, sol, start, runwayOf, position)
    requires ss == SequencesOf(sol.runways) && InterCandidate(ss, p)
    requires |rs'| == |ss| && forall q :: 0 <= q < |ss| && q != p.ri && q != p.rj ==> rs'[q] == sol.runways[q]
    requires rs'[p.ri].sequence == ss[p.ri][p.fi := ss[p.rj][p.fj]] && Consistent(inst, rs'[p.ri], start')
    requires rs'[p.rj].sequence == ss[p.rj][p.fj := ss[p.ri][p.fi]] && Consistent(inst, rs'[p.rj], start')
    requires |start'| == |start|
    requires forall f :: 0 <= f < |start| && f !in rs'[p.ri].sequence && f !in rs'[p.rj].sequence ==>
               start'[f] == start[f]
    requires runwayOf' == runwayOf[ss[p.ri][p.fi] := p.rj][ss[p.rj][p.fj] := p.ri]
    requires position' == position[ss[p.ri][p.fi] := p.fj][ss[p.rj][p.fj] := p.fi]
    requires objective' + InterSwapGain(inst, ss, p.ri, p.fi, p.rj, p.fj) == sol.objective
    ensures SequencesOf(rs') == InterSwapped(ss, p.ri, p.fi, p.rj, p.fj)
    ensures ScheduleInvariant(inst, Solution(rs', objective'), start', runwayOf', position')
  {
    var ss' := InterSwapped(ss, p.ri, p.fi, p.rj, p.fj);
    assert SequencesOf(rs') == ss';
    InterSwapEffect(inst, ss, p);
    PlacedAfterInterSwap(ss, runwayOf, position, p.ri, p.fi, p.rj, p.fj);
    RunwaysAfterUpdate(inst, sol.runways, start, p.ri, p.rj, rs', start', runwayOf', position');
  }

  /** Applies the selected exchange: the two flights take each other's runway
      and position (in the caches too), both runways are rescheduled from
      their changed positions on, and the objective drops by the saving. */
  method ApplySelectedInterSwap(asp: ASP, sol: Solution, p: InterPlace, delta: nat)
    returns (sol': Solution)
    requires asp.Valid(sol)
    requires InterCandidate(SequencesOf(sol.runways), p)
    requires delta == InterSwapGain(asp.instance, SequencesOf(sol.runways), p.ri, p.fi, p.rj, p.fj)
    modifies asp.startTime, asp.runwayOf, asp.position
    ensures asp.Valid(sol')
    ensures SequencesOf(sol'.runways) == InterSwapped(SequencesOf(sol.runways), p.ri, p.fi, p.rj, p.fj)
    ensures sol'.objective == sol.objective - delta
  {
    var inst := asp.instance;
    ghost var ss := SequencesOf(sol.runways);
    ghost var start0, runwayOf0, position0 := asp.startTime[..], asp.runwayOf[..], asp.position[..];
    BeforeInterApply(inst, sol, start0, runwayOf0, position0, ss, p);
    var rwI, rwJ := sol.runways[p.ri], sol.runways[p.rj];
    var a, b := rwI.sequence[p.fi], rwJ.sequence[p.fj];
    asp.position[a] := p.fj;
    asp.runwayOf[a] := p.rj;
    asp.position[b] := p.fi;
    asp.runwayOf[b] := p.ri;
    assert asp.startTime[..] == start0;
    var rwI', rwJ' := RescheduleTwo(inst, asp.startTime, rwI, rwJ,
                                    rwI.sequence[p.fi := b], rwJ.sequence[p.fj := a], p.fi, p.fj);
    var rs' := sol.runways[p.ri := rwI'][p.rj := rwJ'];
    AfterInterApply(inst, sol, start0, runwayOf0, position0, ss, p, rs', sol.objective - delta,
                    asp.startTime[..], asp.runwayOf[..], asp.position[..]);
    sol' := Solution(rs', sol.objective - delta);
  }

  /** ASP::best_improvement_inter_swap: every flight of every runway is
      costed against every flight of each later runway, and the first exchange
      with the largest positive saving, if any, is applied. The result says
      whether an exchange was applied, which happens exactly when some
      exchange improves. */
  method BestImprovementInterSwap(asp: ASP, sol: Solution) returns (improved: bool, sol': Solution)
    requires asp.Valid(sol)
    modifies asp.startTime, asp.runwayOf, asp.position
    ensures asp.Valid(sol')
    ensures AllValidIds(asp.instance, SequencesOf(sol.runways))
    ensures improved <==> !NoImprovingInterSwap(asp.instance, SequencesOf(sol.runways))
    ensures !improved ==> sol' == sol && unchanged(asp.startTime, asp.runwayOf, asp.position)
    ensures improved ==> exists best, delta ::
      && BestInterSwap(asp.instance, SequencesOf(sol.runways), best, delta)
      && SequencesOf(sol'.runways) == InterSwapped(SequencesOf(sol.runways), best.ri, best.fi, best.rj, best.fj)
      && sol'.objective == sol.objective - delta
    ensures improved <==> sol'.objective < sol.objective
  {
    var inst := asp.instance;
    ghost var ss := SequencesOf(sol.runways);
    var delta, best := ScanInterSwaps(inst, sol.runways, asp.startTime);
    if delta == 0 {
      return false, sol;
    }
    BestInterIsImproving(inst, ss, best, delta);
    sol' := ApplySelectedInterSwap(asp, sol, best, delta);
    improved := true;
  }
}
