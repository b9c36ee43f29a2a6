/** What the inter-runway move search computes: the relocations it tries,
    their order, the state of the search after a prefix of them and what it
    selects. Places reuse the inter-swap places: flight fi of runway ri goes to
    position fj of runway rj. */
module InterMoveSearch {
  import opened Instances
  import opened Schedule
  import opened Sequences
  import opened Runways
  import opened Solutions
  import opened Moves
  import opened InterSwapSearch

  /** Place p is a relocation the search costs: flight fi of runway ri, which
      holds at least two flights, to position fj (0 up to its length) of
      another runway rj. */
  ghost predicate MoveCandidate(ss: seq<seq<nat>>, p: InterPlace) {
    && p.ri < |ss| && p.rj < |ss| && p.ri != p.rj
    && 2 <= |ss[p.ri]| && p.fi < |ss[p.ri]| && p.fj <= |ss[p.rj]|
  }

  /** The state of the search once every place before cur has been tried: no
      candidate saves more than delta, and when delta > 0 the recorded place
      best saves delta and every candidate before it saves less. */
  ghost predicate InterMoveScan(inst: Instance, ss: seq<seq<nat>>, cur: InterPlace, delta: nat, best: InterPlace)
    requires inst.WellFormed() && AllValidIds(inst, ss)
  {
    && (forall p {:trigger MoveCandidate(ss, p)} :: MoveCandidate(ss, p) && InterBefore(p, cur) ==>
          InterMoveGain(inst, ss, p.ri, p.fi, p.rj, p.fj) <= delta)
    && (delta > 0 ==>
          && MoveCandidate(ss, best) && InterBefore(best, cur)
          && InterMoveGain(inst, ss, best.ri, best.fi, best.rj, best.fj) == delta
          && forall p {:trigger MoveCandidate(ss, p)} :: MoveCandidate(ss, p) && InterBefore(p, best) ==>
               InterMoveGain(inst, ss, p.ri, p.fi, p.rj, p.fj) < delta)
    && (delta == 0 ==> best == InterPlace(0, 0, 0, 0))
  }

  /** best is the relocation the search selects in schedule ss: among all
      candidates it saves the most, delta > 0, and it is the first in scan
      order that does. */
  ghost predicate BestInterMove(inst: Instance, ss: seq<seq<nat>>, best: InterPlace, delta: nat)
    requires inst.WellFormed() && AllValidIds(inst, ss)
  {
    delta > 0 && InterMoveScan(inst, ss, InterPlace(|ss|, 0, 0, 0), delta, best)
  }

  /** No relocation of a flight to another runway of ss lowers the objective. */
  ghost predicate NoImprovingInterMove(inst: Instance, ss: seq<seq<nat>>)
    requires inst.WellFormed() && AllValidIds(inst, ss)
  {
    forall p {:trigger MoveCandidate(ss, p)} :: MoveCandidate(ss, p) ==> InterMoveGain(inst, ss, p.ri, p.fi, p.rj, p.fj) <= 0
  }

  /** A candidate that saves no more than the best so far leaves the state as it is. */
  lemma MoveScanKeep(inst: Instance, ss: seq<seq<nat>>, cur: InterPlace, delta: nat, best: InterPlace)
    requires inst.WellFormed() && AllValidIds(inst, ss)
    requires InterMoveScan(inst, ss, cur, delta, best) && MoveCandidate(ss, cur)
    requires InterMoveGain(inst, ss, cur.ri, cur.fi, cur.rj, cur.fj) <= delta
    ensures InterMoveScan(inst, ss, cur.(fj := cur.fj + 1), delta, best)
  {
    forall p {:trigger MoveCandidate(ss, p)} | MoveCandidate(ss, p) && InterBefore(p, cur.(fj := cur.fj + 1))
      ensures InterMoveGain(inst, ss, p.ri, p.fi, p.rj, p.fj) <= delta
    {
      InterBeforeNext(p, cur);
    }
    if delta > 0 {
      InterBeforeNext(best, cur);
    }
  }

  /** A candidate that saves strictly more than the best so far becomes the best. */
  lemma MoveScanRecord(inst: Instance, ss: seq<seq<nat>>, cur: InterPlace, delta: nat, best: InterPlace)
    requires inst.WellFormed() && AllValidIds(inst, ss)
    requires InterMoveScan(inst, ss, cur, delta, best) && MoveCandidate(ss, cur)
    requires InterMoveGain(inst, ss, cur.ri, cur.fi, cur.rj, cur.fj) > delta
    ensures InterMoveScan(inst, ss, cur.(fj := cur.fj + 1), InterMoveGain(inst, ss, cur.ri, cur.fi, cur.rj, cur.fj), cur)
  {
    forall p {:trigger MoveCandidate(ss, p)} | MoveCandidate(ss, p) && InterBefore(p, cur.(fj := cur.fj + 1))
      ensures InterMoveGain(inst, ss, p.ri, p.fi, p.rj, p.fj) <= InterMoveGain(inst, ss, cur.ri, cur.fi, cur.rj, cur.fj)
    {
      InterBeforeNext(p, cur);
    }
    InterBeforeNext(cur, cur);
  }

  /** Before the first place nothing has been tried. */
  lemma MoveScanStart(inst: Instance, ss: seq<seq<nat>>)
    requires inst.WellFormed() && AllValidIds(inst, ss)
    ensures InterMoveScan(inst, ss, InterPlace(0, 0, 0, 0), 0, InterPlace(0, 0, 0, 0))
  {
  }

  /** Finishing the positions of runway rj (one past its last flight included)
      for flight fi moves the search to flight fi + 1. */
  lemma MoveScanNextFlight(inst: Instance, ss: seq<seq<nat>>, ri: nat, rj: nat, fi: nat, fj: nat,
                           delta: nat, best: InterPlace)
    requires inst.WellFormed() && AllValidIds(inst, ss) && rj < |ss| && fj == |ss[rj]| + 1
    requires InterMoveScan(inst, ss, InterPlace(ri, rj, fi, fj), delta, best)
    ensures InterMoveScan(inst, ss, InterPlace(ri, rj, fi + 1, 0), delta, best)
  {
  }

  /** Finishing every flight of runway ri against runway rj moves the search to runway rj + 1. */
  lemma MoveScanNextPair(inst: Instance, ss: seq<seq<nat>>, ri: nat, rj: nat,
                         delta: nat, best: InterPlace)
    requires inst.WellFormed() && AllValidIds(inst, ss) && ri < |ss|
    requires InterMoveScan(inst, ss, InterPlace(ri, rj, |ss[ri]|, 0), delta, best)
    ensures InterMoveScan(inst, ss, InterPlace(ri, rj + 1, 0, 0), delta, best)
  {
  }

  /** A runway is never a target for its own flights: the search passes over it. */
  lemma MoveScanSkipSame(inst: Instance, ss: seq<seq<nat>>, ri: nat, rj: nat, delta: nat, best: InterPlace)
    requires inst.WellFormed() && AllValidIds(inst, ss) && rj == ri
    requires InterMoveScan(inst, ss, InterPlace(ri, rj, 0, 0), delta, best)
    ensures InterMoveScan(inst, ss, InterPlace(ri, rj + 1, 0, 0), delta, best)
  {
  }

  /** A runway holding fewer than two flights gives none away: the search
      passes over it as an origin. */
  lemma MoveScanSkipShort(inst: Instance, ss: seq<seq<nat>>, ri: nat, delta: nat, best: InterPlace)
    requires inst.WellFormed() && AllValidIds(inst, ss) && ri < |ss| && |ss[ri]| < 2
    requires InterMoveScan(inst, ss, InterPlace(ri, 0, 0, 0), delta, best)
    ensures InterMoveScan(inst, ss, InterPlace(ri + 1, 0, 0, 0), delta, best)
  {
  }

  /** Finishing every target runway for origin ri moves the search to origin ri + 1. */
  lemma MoveScanNextOrigin(inst: Instance, ss: seq<seq<nat>>, ri: nat, delta: nat, best: InterPlace)
    requires inst.WellFormed() && AllValidIds(inst, ss)
    requires InterMoveScan(inst, ss, InterPlace(ri, |ss|, 0, 0), delta, best) == true
    ensures InterMoveScan(inst, ss, InterPlace(ri + 1, 0, 0, 0), delta, best)
  {
  }

  /** A search that went through every origin and found no saving shows that
      no relocation improves. */
  lemma MoveScanDone(inst: Instance, ss: seq<seq<nat>>, best: InterPlace)
    requires inst.WellFormed() && AllValidIds(inst, ss)
    requires InterMoveScan(inst, ss, InterPlace(|ss|, 0, 0, 0), 0, best)
    ensures NoImprovingInterMove(inst, ss)
  {
  }

  /** A selected relocation is an improving candidate, so a schedule that has
      one is not a local optimum for this neighbourhood. */
  lemma BestMoveIsImproving(inst: Instance, ss: seq<seq<nat>>, best: InterPlace, delta: nat)
    requires inst.WellFormed() && AllValidIds(inst, ss)
    requires BestInterMove(inst, ss, best, delta)
    ensures MoveCandidate(ss, best)
    ensures InterMoveGain(inst, ss, best.ri, best.fi, best.rj, best.fj) == delta > 0
    ensures !NoImprovingInterMove(inst, ss)
  {
  }
}

/** The best-improvement inter-runway move neighbourhood: every flight of a
    runway holding at least two is tried at every position of every other
    runway (after its last flight included), costing the shortened and the
    lengthened sequence from their stored prefix penalties and start times
    against the two runway penalties together; the first relocation with the
    largest saving is applied, the runway and position caches of the moved
    flight and of the shifted flights are updated, and both runways are
    refreshed. */
module InterMoveNeighborhood {
  import opened Instances
  import opened Schedule
  import opened Sequences
  import opened Runways
  import opened Solutions
  import opened Moves
  import opened Evaluation
  import opened Asp
  import opened InterSwapSearch
  import opened InterMoveSearch

  /** Penalty of runway rw once its flight fi is taken off (the later flights
      move one place forward): the prefix entry at fi, then every later flight
      recomputed after its new predecessor, the new first flight at its
      release time. */
  method EvaluateRemoval(inst: Instance, rw: Runway, start: array<nat>, fi: nat) returns (penalty: nat)
    requires Consistent(inst, rw, start[..]) && 2 <= |rw.sequence| && fi < |rw.sequence|
    ensures ValidIds(inst, Remove(rw.sequence, fi))
    ensures penalty == TotalPenalty(inst, Remove(rw.sequence, fi))
  {
    var s := Remove(rw.sequence, fi);
    assert ValidIds(inst, s);
    if fi == |s| {
      PrefixAgreement(inst, s, rw.sequence, fi);
      penalty := rw.prefixPenalty[fi];
      return;
    }
    var prev;
    penalty, prev := EvaluateHead(inst, s, rw.sequence, rw.prefixPenalty, start, fi);
    penalty := ChainFrom(inst, s, fi + 1, penalty, prev);
  }

  /** Penalty of runway rw once flight f is inserted at position fj (the
      flights from fj on move one place back): the prefix entry at fj, the
      inserted flight after its predecessor (at its release time at the
      front), then every later flight recomputed. */
  method EvaluateInsertion(inst: Instance, rw: Runway, start: array<nat>, f: nat, fj: nat) returns (penalty: nat)
    requires Consistent(inst, rw, start[..]) && 1 <= |rw.sequence| && fj <= |rw.sequence|
    requires f < inst.numFlights
    ensures ValidIds(inst, Insert(rw.sequence, fj, f))
    ensures penalty == TotalPenalty(inst, Insert(rw.sequence, fj, f))
  {
    var s := Insert(rw.sequence, fj, f);
    var prev;
    penalty, prev := EvaluateHead(inst, s, rw.sequence, rw.prefixPenalty, start, fj);
    penalty := ChainFrom(inst, s, fj + 1, penalty, prev);
  }

  /** What the search reads for origin runway ri and target runway rj of ss:
      rwI and rwJ are those runways, the origin holds at least two flights and
      the target at least one, and both agree with the stored start times. */
  ghost predicate MovePair(inst: Instance, ss: seq<seq<nat>>, ri: nat, rj: nat,
                           rwI: Runway, rwJ: Runway, start: seq<nat>)
  {
    && inst.WellFormed() && AllValidIds(inst, ss) && ri < |ss| && rj < |ss| && ri != rj
    && ss[ri] == rwI.sequence && ss[rj] == rwJ.sequence
    && 2 <= |rwI.sequence| && 1 <= |rwJ.sequence|
    && Consistent(inst, rwI, start) && Consistent(inst, rwJ, start)
  }

  /** One place of the search: flight fi of runway ri costed at position fj of
      runway rj against the two runway penalties, and recorded when it saves
      strictly more than the best so far. */
  method TryInterMove(inst: Instance, rwI: Runway, rwJ: Runway, start: array<nat>,
                      ghost ss: seq<seq<nat>>, ri: nat, rj: nat, fi: nat, fj: nat,
                      delta0: nat, best0: InterPlace)
    returns (delta: nat, best: InterPlace)
    requires MovePair(inst, ss, ri, rj, rwI, rwJ, start[..])
    requires fi < |rwI.sequence| && fj <= |rwJ.sequence|
    requires InterMoveScan(inst, ss, InterPlace(ri, rj, fi, fj), delta0, best0)
    ensures InterMoveScan(inst, ss, InterPlace(ri, rj, fi, fj + 1), delta, best)
  {
    var cur := InterPlace(ri, rj, fi, fj);
    var original := rwI.penalty + rwJ.penalty;
    var penaltyI := EvaluateRemoval(inst, rwI, start, fi);
    var penaltyJ := EvaluateInsertion(inst, rwJ, start, rwI.sequence[fi], fj);
    assert InterMoveGain(inst, ss, ri, fi, rj, fj) == original - (penaltyI + penaltyJ);
    delta, best := delta0, best0;
    if penaltyI + penaltyJ < original && original - (penaltyI + penaltyJ) > delta {
      MoveScanRecord(inst, ss, cur, delta, best);
      delta := original - (penaltyI + penaltyJ);
      best := cur;
    } else {
      MoveScanKeep(inst, ss, cur, delta, best);
    }
  }

  /** Flight fi of runway ri at every position of runway rj. */
  method ScanMoveRow(inst: Instance, rwI: Runway, rwJ: Runway, start: array<nat>,
                     ghost ss: seq<seq<nat>>, ri: nat, rj: nat, fi: nat, delta0: nat, best0: InterPlace)
    returns (delta: nat, best: InterPlace)
    requires MovePair(inst, ss, ri, rj, rwI, rwJ, start[..]) && fi < |rwI.sequence|
    requires InterMoveScan(inst, ss, InterPlace(ri, rj, fi, 0), delta0, best0) == true
    ensures InterMoveScan(inst, ss, InterPlace(ri, rj, fi + 1, 0), delta, best) == true
  {
    delta, best := delta0, best0;
    var fj := 0;
    while fj < |rwJ.sequence| + 1
      invariant fj <= |rwJ.sequence| + 1
      invariant InterMoveScan(inst, ss, InterPlace(ri, rj, fi, fj), delta, best) == true
    {
      delta, best := TryInterMove(inst, rwI, rwJ, start, ss, ri, rj, fi, fj, delta, best);
      fj := fj + 1;
    }
    MoveScanNextFlight(inst, ss, ri, rj, fi, fj, delta, best);
  }

  /** Every flight of runway ri at every position of runway rj. */
  method ScanMovePair(inst: Instance, rwI: Runway, rwJ: Runway, start: array<nat>,
                      ghost ss: seq<seq<nat>>, ri: nat, rj: nat, delta0: nat, best0: InterPlace)
    returns (delta: nat, best: InterPlace)
    requires MovePair(inst, ss, ri, rj, rwI, rwJ, start[..])
    requires InterMoveScan(inst, ss, InterPlace(ri, rj, 0, 0), delta0, best0) == true
    ensures InterMoveScan(inst, ss, InterPlace(ri, rj + 1, 0, 0), delta, best) == true
  {
    delta, best := delta0, best0;
    var fi := 0;
    while fi < |rwI.sequence|
      invariant fi <= |rwI.sequence|
      invariant InterMoveScan(inst, ss, InterPlace(ri, rj, fi, 0), delta, best) == true
    {
      delta, best := ScanMoveRow(inst, rwI, rwJ, start, ss, ri, rj, fi, delta, best);
      fi := fi + 1;
    }
    MoveScanNextPair(inst, ss, ri, rj, delta, best);
  }

  /** What the search reads from runways rs with schedule ss: their caches
      are consistent with the start times and their flights are valid. */
  ghost predicate MoveScanReady(inst: Instance, rs: seq<Runway>, start: seq<nat>, ss: seq<seq<nat>>) {
    inst.WellFormed() && RunwaysConsistent(inst, rs, start) && ss == SequencesOf(rs) && AllValidIds(inst, ss)
  }

  /** The flights of runway ri (holding at least two) against runway rj of
      rs, which is passed over when it is ri itself. */
  method ScanMoveTarget(inst: Instance, rs: seq<Runway>, start: array<nat>,
                        ghost ss: seq<seq<nat>>, ri: nat, rj: nat, delta0: nat, best0: InterPlace)
    returns (delta: nat, best: InterPlace)
    requires MoveScanReady(inst, rs, start[..], ss) == true
    requires ri < |rs| && rj < |rs| && 2 <= |rs[ri].sequence|
    requires InterMoveScan(inst, ss, InterPlace(ri, rj, 0, 0), delta0, best0) == true
    ensures InterMoveScan(inst, ss, InterPlace(ri, rj + 1, 0, 0), delta, best) == true
  {
    if rj == ri {
      MoveScanSkipSame(inst, ss, ri, rj, delta0, best0);
      delta, best := delta0, best0;
    } else {
      assert Consistent(inst, rs[ri], start[..]) && Consistent(inst, rs[rj], start[..]);
      assert MovePair(inst, ss, ri, rj, rs[ri], rs[rj], start[..]);
      delta, best := ScanMovePair(inst, rs[ri], rs[rj], start, ss, ri, rj, delta0, best0);
    }
  }

  /** The flights of runway ri (holding at least two) against every other runway of rs. */
  method ScanMoveFrom(inst: Instance, rs: seq<Runway>, start: array<nat>,
                      ghost ss: seq<seq<nat>>, ri: nat, delta0: nat, best0: InterPlace)
    returns (delta: nat, best: InterPlace)
    requires MoveScanReady(inst, rs, start[..], ss) == true
    requires ri < |rs| && 2 <= |rs[ri].sequence|
    requires InterMoveScan(inst, ss, InterPlace(ri, 0, 0, 0), delta0, best0) == true
    ensures InterMoveScan(inst, ss, InterPlace(ri + 1, 0, 0, 0), delta, best) == true
  {
    delta, best := delta0, best0;
    var rj := 0;
    while rj < |rs|
      invariant rj <= |ss|
      invariant InterMoveScan(inst, ss, InterPlace(ri, rj, 0, 0), delta, best) == true
    {
      delta, best := ScanMoveTarget(inst, rs, start, ss, ri, rj, delta, best);
      rj := rj + 1;
    }
    assert rj == |ss|;
    MoveScanNextOrigin(inst, ss, ri, delta, best);
  }

  /** The flights of runway ri of rs against every other runway, unless it
      holds a single flight, which it may not give away. */
  method ScanMoveOrigin(inst: Instance, rs: seq<Runway>, start: array<nat>,
                        ghost ss: seq<seq<nat>>, ri: nat, delta0: nat, best0: InterPlace)
    returns (delta: nat, best: InterPlace)
    requires MoveScanReady(inst, rs, start[..], ss) == true && ri < |rs|
    requires InterMoveScan(inst, ss, InterPlace(ri, 0, 0, 0), delta0, best0) == true
    ensures InterMoveScan(inst, ss, InterPlace(ri + 1, 0, 0, 0), delta, best) == true
  {
    assert Consistent(inst, rs[ri], start[..]) && 1 <= |rs[ri].sequence|;
    if |rs[ri].sequence| == 1 {
      MoveScanSkipShort(inst, ss, ri, delta0, best0);
      delta, best := delta0, best0;
    } else {
      delta, best := ScanMoveFrom(inst, rs, start, ss, ri, delta0, best0);
    }
  }

  /** The search over every origin runway of rs holding more than one flight:
      the best saving delta and its place. */
  method ScanInterMoves(inst: Instance, rs: seq<Runway>, start: array<nat>)
    returns (delta: nat, best: InterPlace)
    requires RunwaysCached(inst, rs, start)
    ensures AllValidIds(inst, SequencesOf(rs))
    ensures delta > 0 ==> BestInterMove(inst, SequencesOf(rs), best, delta)
    ensures delta == 0 ==> NoImprovingInterMove(inst, SequencesOf(rs))
  {
    ghost var ss := SequencesOf(rs);
    ConsistentValidIds(inst, rs, start[..]);
    MoveScanStart(inst, ss);
    assert MoveScanReady(inst, rs, start[..], ss);
    delta, best := 0, InterPlace(0, 0, 0, 0);
    var ri := 0;
    while ri < |rs|
      invariant ri <= |rs|
      invariant InterMoveScan(inst, ss, InterPlace(ri, 0, 0, 0), delta, best) == true
    {
      delta, best := ScanMoveOrigin(inst, rs, start, ss, ri, delta, best);
      ri := ri + 1;
    }
    if delta == 0 {
      MoveScanDone(inst, ss, best);
    }
  }

  /** The two sequences a relocation produces name valid flights, none twice
      and none on both, when the caches place every flight of ss. */
  lemma InterMoveSequences(inst: Instance, ss: seq<seq<nat>>, runwayOf: seq<nat>, position: seq<nat>, p: InterPlace)
    requires inst.WellFormed() && AllValidIds(inst, ss) && MoveCandidate(ss, p)
    requires Placed(ss, runwayOf, position)
    ensures var si, sj := Remove(ss[p.ri], p.fi), Insert(ss[p.rj], p.fj, ss[p.ri][p.fi]);
      && ValidIds(inst, si) && NoDup(si) && ValidIds(inst, sj) && NoDup(sj)
      && forall k :: 0 <= k < |sj| ==> sj[k] !in si
  {
    var si, sj := Remove(ss[p.ri], p.fi), Insert(ss[p.rj], p.fj, ss[p.ri][p.fi]);
    forall a, b | 0 <= a < b < |si|
      ensures si[a] != si[b]
    {
      PlacedDistinct(ss, runwayOf, position, p.ri, if a < p.fi then a else a + 1,
                     p.ri, if b < p.fi then b else b + 1);
    }
    forall a, b | 0 <= a < b < |sj|
      ensures sj[a] != sj[b]
    {
      var ra, ka := if a == p.fj then p.ri else p.rj, if a == p.fj then p.fi else if a < p.fj then a else a - 1;
      var rb, kb := if b == p.fj then p.ri else p.rj, if b == p.fj then p.fi else if b < p.fj then b else b - 1;
      PlacedDistinct(ss, runwayOf, position, ra, ka, rb, kb);
    }
    forall k | 0 <= k < |sj|
      ensures sj[k] !in si
    {
      var rk, kk := if k == p.fj then p.ri else p.rj, if k == p.fj then p.fi else if k < p.fj then k else k - 1;
      forall m | 0 <= m < |si|
        ensures si[m] != sj[k]
      {
        PlacedDistinct(ss, runwayOf, position, p.ri, if m < p.fi then m else m + 1, rk, kk);
      }
    }
  }

  /** What the relocation needs from a valid state with schedule ss: the two
      new sequences name valid flights, none twice and none on both; the old
      caches, with the origin's prefix penalties shortened by one entry and
      the target's lengthened by one, are still right for each up to the
      changed position; and the saving is at most the objective. */
  lemma BeforeInterMoveApply(inst: Instance, sol: Solution, start: seq<nat>, runwayOf: seq<nat>, position: seq<nat>,
                             ss: seq<seq<nat>>, p: InterPlace, si: seq<nat>, sj: seq<nat>,
                             prefixI: seq<nat>, prefixJ: seq<nat>)
    requires ScheduleInvariant(inst, sol, start, runwayOf, position)
    requires ss == SequencesOf(sol.runways) && MoveCandidate(ss, p)
    requires si == Remove(ss[p.ri], p.fi) && sj == Insert(ss[p.rj], p.fj, ss[p.ri][p.fi])
    requires 1 <= |sol.runways[p.ri].prefixPenalty|
    requires prefixI == sol.runways[p.ri].prefixPenalty[..|sol.runways[p.ri].prefixPenalty| - 1]
    requires prefixJ == sol.runways[p.rj].prefixPenalty + [0]
    ensures ValidIds(inst, si) && NoDup(si) && ValidIds(inst, sj) && NoDup(sj)
    ensures PrefixesMatch(inst, si, prefixI, p.fi) && StartsMatch(inst, si, start, p.fi)
    ensures PrefixesMatch(inst, sj, prefixJ, p.fj) && StartsMatch(inst, sj, start, p.fj)
    ensures forall k :: 0 <= k < |sj| ==> sj[k] !in si
    ensures InterMoveGain(inst, ss, p.ri, p.fi, p.rj, p.fj) <= sol.objective
  {
    var prefix0I, prefix0J := sol.runways[p.ri].prefixPenalty, sol.runways[p.rj].prefixPenalty;
    InterMoveSequences(inst, ss, runwayOf, position, p);
    InterMoveObjective(inst, ss, p.ri, p.fi, p.rj, p.fj);
    assert Consistent(inst, sol.runways[p.ri], start) && Consistent(inst, sol.runways[p.rj], start);
    MatchesBefore(inst, ss[p.ri], si, prefix0I, prefixI, start, p.fi);
    MatchesBefore(inst, ss[p.rj], sj, prefix0J, prefixJ, start, p.fj);
  }

  /** The position cache after the relocation's cache updates, with x the
      moved flight, si and sj the new origin and target sequences: x's entry
      becomes fj, then the flights after fj on the target are renumbered
      (giving position2), then the flights from fi on on the origin (giving
      position'); every other entry keeps its value. */
  ghost predicate MovePositions(ss: seq<seq<nat>>, p: InterPlace, position: seq<nat>,
                                position2: seq<nat>, position': seq<nat>)
    requires MoveCandidate(ss, p)
  {
    var x, si, sj := ss[p.ri][p.fi], Remove(ss[p.ri], p.fi), Insert(ss[p.rj], p.fj, ss[p.ri][p.fi]);
    && |position2| == |position| && |position'| == |position|
    && (forall k :: p.fj < k < |sj| ==> sj[k] < |position| && position2[sj[k]] == k)
    && (forall y :: 0 <= y < |position| && y !in sj[p.fj + 1..] ==>
          position2[y] == if y == x then p.fj else position[y])
    && (forall k :: p.fi <= k < |si| ==> si[k] < |position| && position'[si[k]] == k)
    && (forall y :: 0 <= y < |position| && y !in si[p.fi..] ==> position'[y] == position2[y])
  }

  /** After the relocation's cache updates, every flight left on the origin
      runway is cached at its new place there. */
  lemma OriginCachedAfterMove(ss: seq<seq<nat>>, runwayOf: seq<nat>, position: seq<nat>, p: InterPlace,
                              runwayOf': seq<nat>, position2: seq<nat>, position': seq<nat>)
    requires Placed(ss, runwayOf, position) && MoveCandidate(ss, p) && |runwayOf| == |position|
    requires runwayOf' == runwayOf[ss[p.ri][p.fi] := p.rj]
    requires MovePositions(ss, p, position, position2, position')
    ensures var si := Remove(ss[p.ri], p.fi);
      forall k :: 0 <= k < |si| ==> si[k] < |runwayOf| && runwayOf'[si[k]] == p.ri && position'[si[k]] == k
  {
    var si, sj := Remove(ss[p.ri], p.fi), Insert(ss[p.rj], p.fj, ss[p.ri][p.fi]);
    forall k | 0 <= k < |si|
      ensures si[k] < |runwayOf| && runwayOf'[si[k]] == p.ri && position'[si[k]] == k
    {
      var k' := if k < p.fi then k else k + 1;
      assert si[k] == ss[p.ri][k'];
      PlacedDistinct(ss, runwayOf, position, p.ri, k', p.ri, p.fi);
      if k < p.fi {
        forall m | p.fi <= m < |si|
          ensures si[m] != si[k]
        {
          PlacedDistinct(ss, runwayOf, position, p.ri, k, p.ri, m + 1);
        }
        assert si[k] !in si[p.fi..];
        forall m | p.fj < m < |sj|
          ensures sj[m] != si[k]
        {
          PlacedDistinct(ss, runwayOf, position, p.ri, k, p.rj, m - 1);
        }
        assert si[k] !in sj[p.fj + 1..];
      }
    }
  }

  /** After the relocation's cache updates, every flight of the target
      runway, the moved one included, is cached at its new place there. */
  lemma TargetCachedAfterMove(ss: seq<seq<nat>>, runwayOf: seq<nat>, position: seq<nat>, p: InterPlace,
                              runwayOf': seq<nat>, position2: seq<nat>, position': seq<nat>)
    requires Placed(ss, runwayOf, position) && MoveCandidate(ss, p) && |runwayOf| == |position|
    requires runwayOf' == runwayOf[ss[p.ri][p.fi] := p.rj]
    requires MovePositions(ss, p, position, position2, position')
    ensures var sj := Insert(ss[p.rj], p.fj, ss[p.ri][p.fi]);
      forall k :: 0 <= k < |sj| ==> sj[k] < |runwayOf| && runwayOf'[sj[k]] == p.rj && position'[sj[k]] == k
  {
    var si, sj := Remove(ss[p.ri], p.fi), Insert(ss[p.rj], p.fj, ss[p.ri][p.fi]);
    forall k | 0 <= k < |sj|
      ensures sj[k] < |runwayOf| && runwayOf'[sj[k]] == p.rj && position'[sj[k]] == k
    {
      var r', k' := if k == p.fj then p.ri else p.rj, if k == p.fj then p.fi else if k < p.fj then k else k - 1;
      assert sj[k] == ss[r'][k'];
      forall m | p.fi <= m < |si|
        ensures si[m] != sj[k]
      {
        PlacedDistinct(ss, runwayOf, position, p.ri, m + 1, r', k');
      }
      assert sj[k] !in si[p.fi..];
      if k <= p.fj {
        forall m | p.fj < m < |sj|
          ensures sj[m] != sj[k]
        {
          PlacedDistinct(ss, runwayOf, position, p.rj, m - 1, r', k');
        }
        assert sj[k] !in sj[p.fj + 1..];
      }
      if k != p.fj {
        PlacedDistinct(ss, runwayOf, position, p.ri, p.fi, r', k');
      }
    }
  }

  /** The runway and position caches after the relocation's updates place every
      flight of the relocated schedule. */
  lemma CachesAfterInterMove(ss: seq<seq<nat>>, runwayOf: seq<nat>, position: seq<nat>, p: InterPlace,
                             runwayOf': seq<nat>, position2: seq<nat>, position': seq<nat>)
    requires Placed(ss, runwayOf, position) && MoveCandidate(ss, p) && |runwayOf| == |position|
    requires runwayOf' == runwayOf[ss[p.ri][p.fi] := p.rj]
    requires MovePositions(ss, p, position, position2, position')
    ensures Placed(InterMoved(ss, p.ri, p.fi, p.rj, p.fj), runwayOf', position')
  {
    var x, si, sj := ss[p.ri][p.fi], Remove(ss[p.ri], p.fi), Insert(ss[p.rj], p.fj, ss[p.ri][p.fi]);
    var ss' := InterMoved(ss, p.ri, p.fi, p.rj, p.fj);
    assert ss'[p.ri] == si && ss'[p.rj] == sj;
    OriginCachedAfterMove(ss, runwayOf, position, p, runwayOf', position2, position');
    TargetCachedAfterMove(ss, runwayOf, position, p, runwayOf', position2, position');
    forall y | 0 <= y < |runwayOf| && y !in si && y !in sj
      ensures runwayOf'[y] == runwayOf[y] && position'[y] == position[y]
    {
      assert sj[p.fj] == x;
      assert y !in si[p.fi..] && y !in sj[p.fj + 1..];
    }
    PlacedAfterRewrite(ss, runwayOf, position, p.ri, p.rj, ss', runwayOf', position');
  }

  /** Runways rs' that differ from rs only in holding the relocation's two
      new sequences on ri and rj have the relocated schedule. */
  lemma MovedRunways(ss: seq<seq<nat>>, rs: seq<Runway>, p: InterPlace, rs': seq<Runway>)
    requires ss == SequencesOf(rs) && MoveCandidate(ss, p)
    requires |rs'| == |ss| && forall q :: 0 <= q < |ss| && q != p.ri && q != p.rj ==> rs'[q] == rs[q]
    requires rs'[p.ri].sequence == Remove(ss[p.ri], p.fi)
    requires rs'[p.rj].sequence == Insert(ss[p.rj], p.fj, ss[p.ri][p.fi])
    ensures SequencesOf(rs') == InterMoved(ss, p.ri, p.fi, p.rj, p.fj)
  {
    var ss' := InterMoved(ss, p.ri, p.fi, p.rj, p.fj);
    assert forall q :: 0 <= q < |ss| ==> SequencesOf(rs')[q] == ss'[q];
  }

  /** The runways after the relocation hold the relocated schedule and have
      caches consistent with the new start times, when the two rescheduled
      runways do and no other flight's start time changed. */
  lemma MovedRunwaysConsistent(inst: Instance, ss: seq<seq<nat>>, rs: seq<Runway>, start: seq<nat>, p: InterPlace,
                               rs': seq<Runway>, start': seq<nat>, runwayOf': seq<nat>, position': seq<nat>)
    requires inst.WellFormed() && RunwaysConsistent(inst, rs, start)
    requires ss == SequencesOf(rs) && MoveCandidate(ss, p)
    requires |rs'| == |ss| && forall q :: 0 <= q < |ss| && q != p.ri && q != p.rj ==> rs'[q] == rs[q]
    requires rs'[p.ri].sequence == Remove(ss[p.ri], p.fi) && Consistent(inst, rs'[p.ri], start')
    requires rs'[p.rj].sequence == Insert(ss[p.rj], p.fj, ss[p.ri][p.fi]) && Consistent(inst, rs'[p.rj], start')
    requires |start'| == |start|
    requires forall f :: 0 <= f < |start| && f !in rs'[p.ri].sequence && f !in rs'[p.rj].sequence ==>
               start'[f] == start[f]
    requires Placed(InterMoved(ss, p.ri, p.fi, p.rj, p.fj), runwayOf', position')
    ensures SequencesOf(rs') == InterMoved(ss, p.ri, p.fi, p.rj, p.fj)
    ensures RunwaysConsistent(inst, rs', start')
  {
    MovedRunways(ss, rs, p, rs');
    RunwaysAfterUpdate(inst, rs, start, p.ri, p.rj, rs', start', runwayOf', position');
  }

  /** A relocation keeps the flights of the schedule and their validity,
      and lowers the objective by its saving. */
  lemma InterMoveEffect(inst: Instance, ss: seq<seq<nat>>, p: InterPlace)
    requires inst.WellFormed() && AllValidIds(inst, ss) && MoveCandidate(ss, p)
    ensures FlightBag(InterMoved(ss, p.ri, p.fi, p.rj, p.fj)) == FlightBag(ss)
    ensures AllValidIds(inst, InterMoved(ss, p.ri, p.fi, p.rj, p.fj))
    ensures Objective(inst, ss) - Objective(inst, InterMoved(ss, p.ri, p.fi, p.rj, p.fj))
            == InterMoveGain(inst, ss, p.ri, p.fi, p.rj, p.fj)
  {
    InterMoveKeepsFlights(ss, p.ri, p.fi, p.rj, p.fj);
    InterMoveObjective(inst, ss, p.ri, p.fi, p.rj, p.fj);
  }

  /** After the selected relocation has been applied to a valid state with
      schedule ss: with runways rs' holding the relocated schedule, their
      caches consistent with the new start times, runway and position caches
      that place every flight of the new schedule, and the objective lowered
      by the saving, the state is valid again. */
  lemma AfterInterMoveApply(inst: Instance, sol: Solution, start: seq<nat>, runwayOf: seq<nat>, position: seq<nat>,
                            ss: seq<seq<nat>>, p: InterPlace, rs': seq<Runway>, objective': nat,
                            start': seq<nat>, runwayOf': seq<nat>, position': seq<nat>)
    requires ScheduleInvariant(inst, sol, start, runwayOf, position)
    requires ss == SequencesOf(sol.runways) && MoveCandidate(ss, p)
    requires |rs'| == |ss| && SequencesOf(rs') == InterMoved(ss, p.ri, p.fi, p.rj, p.fj)
    requires RunwaysConsistent(inst, rs', start')
    requires |start'| == |start| && |runwayOf'| == |runwayOf| && |position'| == |position|
    requires Placed(InterMoved(ss, p.ri, p.fi, p.rj, p.fj), runwayOf', position')
    requires objective' + InterMoveGain(inst, ss, p.ri, p.fi, p.rj, p.fj) == sol.objective
    ensures ScheduleInvariant(inst, Solution(rs', objective'), start', runwayOf', position')
  {
    InterMoveEffect(inst, ss, p);
  }

  /** The cache updates of the relocation: the moved flight takes its new
      runway and position, then the target's flights after it and the
      origin's flights from the vacated position on are renumbered. Afterwards
      the caches place every flight of the relocated schedule. */
  method MoveCaches(asp: ASP, sol: Solution, p: InterPlace)
    requires asp.Valid(sol) && MoveCandidate(SequencesOf(sol.runways), p)
    modifies asp.runwayOf, asp.position
    ensures asp.runwayOf[..] == old(asp.runwayOf[..])[SequencesOf(sol.runways)[p.ri][p.fi] := p.rj]
    ensures Placed(InterMoved(SequencesOf(sol.runways), p.ri, p.fi, p.rj, p.fj), asp.runwayOf[..], asp.position[..])
  {
    ghost var ss := SequencesOf(sol.runways);
    ghost var runwayOf0, position0 := asp.runwayOf[..], asp.position[..];
    InterMoveSequences(asp.instance, ss, runwayOf0, position0, p);
    var rwI, rwJ := sol.runways[p.ri], sol.runways[p.rj];
    var f := rwI.sequence[p.fi];
    asp.position[f] := p.fj;
    asp.runwayOf[f] := p.rj;
    var sj := Insert(rwJ.sequence, p.fj, f);
    var si := Remove(rwI.sequence, p.fi);
    RenumberDown(asp.position, sj, p.fj + 1, |sj|);
    ghost var position2 := asp.position[..];
    RenumberUp(asp.position, si, p.fi, |si|);
    assert MovePositions(ss, p, position0, position2, asp.position[..]);
    CachesAfterInterMove(ss, runwayOf0, position0, p, asp.runwayOf[..], position2, asp.position[..]);
  }

  /** Applies the selected relocation: the moved flight takes its new runway
      and position in the caches, the target's later flights and the origin's
      later flights are renumbered, the origin loses its last prefix entry and
      the target gains one, both runways are rescheduled from the changed
      positions on, and the objective drops by the saving. */
  method ApplySelectedInterMove(asp: ASP, sol: Solution, p: InterPlace, delta: nat)
    returns (sol': Solution)
    requires asp.Valid(sol)
    requires MoveCandidate(SequencesOf(sol.runways), p)
    requires delta == InterMoveGain(asp.instance, SequencesOf(sol.runways), p.ri, p.fi, p.rj, p.fj)
    modifies asp.startTime, asp.runwayOf, asp.position
    ensures asp.Valid(sol')
    ensures SequencesOf(sol'.runways) == InterMoved(SequencesOf(sol.runways), p.ri, p.fi, p.rj, p.fj)
    ensures sol'.objective == sol.objective - delta
  {
    var inst := asp.instance;
    ghost var ss := SequencesOf(sol.runways);
    ghost var start0, runwayOf0, position0 := asp.startTime[..], asp.runwayOf[..], asp.position[..];
    var rwI, rwJ := sol.runways[p.ri], sol.runways[p.rj];
    assert ss[p.ri] == rwI.sequence && ss[p.rj] == rwJ.sequence;
    assert Consistent(inst, rwI, start0);
    var f := rwI.sequence[p.fi];
    var prefixI := rwI.prefixPenalty[..|rwI.prefixPenalty| - 1];
    var prefixJ := rwJ.prefixPenalty + [0];
    var sj := Insert(rwJ.sequence, p.fj, f);
    var si := Remove(rwI.sequence, p.fi);
    BeforeInterMoveApply(inst, sol, start0, runwayOf0, position0, ss, p, si, sj, prefixI, prefixJ);
    MoveCaches(asp, sol, p);
    assert asp.startTime[..] == start0;
    var rwI', rwJ' := RescheduleTwo(inst, asp.startTime, rwI.(prefixPenalty := prefixI),
                                    rwJ.(prefixPenalty := prefixJ), si, sj, p.fi, p.fj);
    var rs' := sol.runways[p.ri := rwI'][p.rj := rwJ'];
    MovedRunwaysConsistent(inst, ss, sol.runways, start0, p, rs', asp.startTime[..], asp.runwayOf[..], asp.position[..]);
    AfterInterMoveApply(inst, sol, start0, runwayOf0, position0, ss, p, rs', sol.objective - delta,
                        asp.startTime[..], asp.runwayOf[..], asp.position[..]);
    sol' := Solution(rs', sol.objective - delta);
  }

  /** ASP::best_improvement_inter_move: every flight of every runway holding
      more than one is costed at every position of every other runway, and
      the first relocation with the largest positive saving, if any, is
      applied. The result says whether a relocation was applied, which
      happens exactly when some relocation improves. */
  method BestImprovementInterMove(asp: ASP, sol: Solution) returns (improved: bool, sol': Solution)
    requires asp.Valid(sol)
    modifies asp.startTime, asp.runwayOf, asp.position
    ensures asp.Valid(sol')
    ensures AllValidIds(asp.instance, SequencesOf(sol.runways))
    ensures improved <==> !NoImprovingInterMove(asp.instance, SequencesOf(sol.runways))
    ensures !improved ==> sol' == sol && unchanged(asp.startTime, asp.runwayOf, asp.position)
    ensures improved ==> exists best, delta ::
      && BestInterMove(asp.instance, SequencesOf(sol.runways), best, delta)
      && SequencesOf(sol'.runways) == InterMoved(SequencesOf(sol.runways), best.ri, best.fi, best.rj, best.fj)
      && sol'.objective == sol.objective - delta
    ensures improved <==> sol'.objective < sol.objective
  {
    var inst := asp.instance;
    ghost var ss := SequencesOf(sol.runways);
    var delta, best := ScanInterMoves(inst, sol.runways, asp.startTime);
    if delta == 0 {
      return false, sol;
    }
    BestMoveIsImproving(inst, ss, best, delta);
    sol' := ApplySelectedInterMove(asp, sol, best, delta);
    improved := true;
  }
}
