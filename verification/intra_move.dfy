/** What the intra-runway move search computes: the relocations it tries,
    their order, the state of the search after a prefix of them and what it
    selects. */
module IntraMoveSearch {
  import opened Instances
  import opened Schedule
  import opened Sequences
  import opened Solutions
  import opened Moves

  /** The place of target position j among the targets of flight i in scan
      order: first the positions before i, from i - 1 down to 0, then those
      after i, upwards. */
  function TargetRank(i: nat, j: nat): nat {
    if j < i then i - 1 - j else j
  }

  /** Relocation (r', i', j') comes before the search cursor (r, i, c): an
      earlier runway, an earlier flight of the runway, or a target of the same
      flight with a smaller rank than c. */
  predicate RelocateBefore(r': nat, i': nat, j': nat, r: nat, i: nat, c: nat) {
    r' < r || (r' == r && (i' < i || (i' == i && TargetRank(i', j') < c)))
  }

  /** Flight i of runway r to another position j of the same runway: a relocation the search costs. */
  ghost predicate RelocateCandidate(ss: seq<seq<nat>>, r: nat, i: nat, j: nat) {
    r < |ss| && i < |ss[r]| && j < |ss[r]| && i != j
  }

  /** The state of the search once every relocation before cursor (r, i, c)
      has been tried. delta is the best change of penalty so far (never
      positive): no candidate tried changes the penalty by less, and when
      delta < 0 the recorded relocation (br, bi, bj) changes it by exactly
      delta and every candidate before it by more. */
  ghost predicate IntraMoveScan(inst: Instance, ss: seq<seq<nat>>, r: nat, i: nat, c: nat,
                                delta: int, br: nat, bi: nat, bj: nat)
    requires inst.WellFormed() && AllValidIds(inst, ss)
  {
    && delta <= 0
    && (forall r': nat, i': nat, j': nat {:trigger RelocateCandidate(ss, r', i', j')} :: RelocateCandidate(ss, r', i', j') && RelocateBefore(r', i', j', r, i, c) ==>
          RelocateGain(inst, ss[r'], i', j') <= -delta)
    && (delta < 0 ==>
          && RelocateCandidate(ss, br, bi, bj) && RelocateBefore(br, bi, bj, r, i, c)
          && RelocateGain(inst, ss[br], bi, bj) == -delta
          && forall r': nat, i': nat, j': nat {:trigger RelocateCandidate(ss, r', i', j')} ::
               RelocateCandidate(ss, r', i', j') && RelocateBefore(r', i', j', br, bi, TargetRank(bi, bj)) ==>
               RelocateGain(inst, ss[r'], i', j') < -delta)
    && (delta == 0 ==> br == 0 && bi == 0 && bj == 0)
  }

  /** (br, bi, bj) is the relocation the search selects in schedule ss: it
      changes the penalty by delta < 0, no relocation lowers it more, and it is
      the first in scan order that lowers it that much. */
  ghost predicate BestIntraMove(inst: Instance, ss: seq<seq<nat>>, br: nat, bi: nat, bj: nat, delta: int)
    requires inst.WellFormed() && AllValidIds(inst, ss)
  {
    delta < 0 && IntraMoveScan(inst, ss, |ss|, 0, 0, delta, br, bi, bj)
  }

  /** No relocation of a flight within its runway lowers the objective. */
  ghost predicate NoImprovingIntraMove(inst: Instance, ss: seq<seq<nat>>)
    requires inst.WellFormed() && AllValidIds(inst, ss)
  {
    forall r: nat, i: nat, j: nat {:trigger RelocateCandidate(ss, r, i, j)} :: RelocateCandidate(ss, r, i, j) ==> RelocateGain(inst, ss[r], i, j) <= 0
  }

  /** A relocation keeps the flight ids of a sequence valid. */
  lemma RelocateValidIds(inst: Instance, s: seq<nat>, i: nat, j: nat)
    requires ValidIds(inst, s) && i < |s| && j < |s|
    ensures ValidIds(inst, Relocate(s, i, j))
  {
    forall k | 0 <= k < |s|
      ensures Relocate(s, i, j)[k] < inst.numFlights
    {
      RelocateFrom(s, i, j, k);
    }
  }

  /** Two different targets of one flight have different ranks. */
  lemma RankInjective(i: nat, j: nat, j': nat)
    requires j != i && j' != i && TargetRank(i, j) == TargetRank(i, j')
    ensures j == j'
  {
  }

  /** Costing candidate (r, i, j), whose penalty change is d, and keeping it
      only when d is strictly below the best so far, advances the search past
      its rank. */
  lemma RelocateScanTry(inst: Instance, ss: seq<seq<nat>>, r: nat, i: nat, j: nat,
                        delta: int, br: nat, bi: nat, bj: nat, d: int)
    requires inst.WellFormed() && AllValidIds(inst, ss)
    requires IntraMoveScan(inst, ss, r, i, TargetRank(i, j), delta, br, bi, bj)
    requires RelocateCandidate(ss, r, i, j) && d == -RelocateGain(inst, ss[r], i, j)
    ensures if d < delta then IntraMoveScan(inst, ss, r, i, TargetRank(i, j) + 1, d, r, i, j)
            else IntraMoveScan(inst, ss, r, i, TargetRank(i, j) + 1, delta, br, bi, bj)
  {
    var c := TargetRank(i, j);
    forall r': nat, i': nat, j': nat {:trigger RelocateCandidate(ss, r', i', j')} | RelocateCandidate(ss, r', i', j') && RelocateBefore(r', i', j', r, i, c + 1)
      ensures RelocateBefore(r', i', j', r, i, c) || (r' == r && i' == i && j' == j)
    {
      if r' == r && i' == i && TargetRank(i', j') == c {
        RankInjective(i, j, j');
      }
    }
  }

  /** Position i itself is no target: having tried the ranks below i, the
      search has tried those up to i. */
  lemma RelocateScanTurn(inst: Instance, ss: seq<seq<nat>>, r: nat, i: nat,
                         delta: int, br: nat, bi: nat, bj: nat)
    requires inst.WellFormed() && AllValidIds(inst, ss)
    requires IntraMoveScan(inst, ss, r, i, i, delta, br, bi, bj)
    ensures IntraMoveScan(inst, ss, r, i, i + 1, delta, br, bi, bj)
  {
  }

  /** Having tried every target of flight i of runway r moves the search to flight i + 1. */
  lemma RelocateScanNextFlight(inst: Instance, ss: seq<seq<nat>>, r: nat, i: nat,
                               delta: int, br: nat, bi: nat, bj: nat)
    requires inst.WellFormed() && AllValidIds(inst, ss) && r < |ss|
    requires IntraMoveScan(inst, ss, r, i, |ss[r]|, delta, br, bi, bj)
    ensures IntraMoveScan(inst, ss, r, i + 1, 0, delta, br, bi, bj)
  {
  }

  /** Having tried every flight of runway r moves the search to runway r + 1. */
  lemma RelocateScanNextRunway(inst: Instance, ss: seq<seq<nat>>, r: nat,
                               delta: int, br: nat, bi: nat, bj: nat)
    requires inst.WellFormed() && AllValidIds(inst, ss) && r < |ss|
    requires IntraMoveScan(inst, ss, r, |ss[r]|, 0, delta, br, bi, bj)
    ensures IntraMoveScan(inst, ss, r + 1, 0, 0, delta, br, bi, bj)
  {
  }

  /** A finished search that found no lower penalty shows that no relocation improves. */
  lemma RelocateScanDone(inst: Instance, ss: seq<seq<nat>>, br: nat, bi: nat, bj: nat)
    requires inst.WellFormed() && AllValidIds(inst, ss)
    requires IntraMoveScan(inst, ss, |ss|, 0, 0, 0, br, bi, bj)
    ensures NoImprovingIntraMove(inst, ss)
  {
  }

  /** A selected relocation is an improving candidate, so a schedule that has
      one is not a local optimum for this neighbourhood. */
  lemma BestRelocateIsImproving(inst: Instance, ss: seq<seq<nat>>, br: nat, bi: nat, bj: nat, delta: int)
    requires inst.WellFormed() && AllValidIds(inst, ss)
    requires BestIntraMove(inst, ss, br, bi, bj, delta)
    ensures RelocateCandidate(ss, br, bi, bj) && RelocateGain(inst, ss[br], bi, bj) == -delta > 0
    ensures !NoImprovingIntraMove(inst, ss)
  {
  }

  /** Leaving the position cache as it was after a relocation, as the apply
      step of the search is written, breaks the cache invariant: the moved
      flight is still cached at its old position. */
  lemma StalePositionsAfterRelocate(ss: seq<seq<nat>>, runwayOf: seq<nat>, position: seq<nat>,
                                    r: nat, i: nat, j: nat)
    requires Placed(ss, runwayOf, position) && RelocateCandidate(ss, r, i, j)
    ensures !Placed(IntraMoved(ss, r, i, j), runwayOf, position)
  {
    var ss' := IntraMoved(ss, r, i, j);
    assert ss'[r][j] == ss[r][i] && position[ss[r][i]] == i;
  }

  /** The smallest example: runway [0, 1] with its caches right, flight 1
      moved to the front. */
  lemma StalePositionsExample()
    ensures Placed([[0, 1]], [0, 0], [0, 1])
    ensures IntraMoved([[0, 1]], 0, 1, 0) == [[1, 0]]
    ensures !Placed(IntraMoved([[0, 1]], 0, 1, 0), [0, 0], [0, 1])
  {
    var ss: seq<seq<nat>> := [[0, 1]];
    assert Relocate(ss[0], 1, 0) == [1, 0];
    StalePositionsAfterRelocate(ss, [0, 0], [0, 1], 0, 1, 0);
  }
}

/** The best-improvement intra-runway move neighbourhood: every flight of every
    runway is tried at every other position of its runway (first the earlier
    positions, nearest first, then the later ones), costing the rearranged
    sequence from the stored prefix penalty before the first changed position;
    the first relocation with the lowest change of penalty below zero is
    applied and the runway is refreshed from the first changed position. */
module IntraMoveNeighborhood {
  import opened Instances
  import opened Schedule
  import opened Sequences
  import opened Runways
  import opened Solutions
  import opened Moves
  import opened Evaluation
  import opened Asp
  import opened IntraMoveSearch

  /** Penalty of runway rw once its flight i moves to position j: the prefix
      entry at the first changed position, the flight there after its
      unchanged predecessor (at its release time at the front), then every
      later flight recomputed after its new predecessor. */
  method EvaluateRelocation(inst: Instance, rw: Runway, start: array<nat>, i: nat, j: nat)
    returns (penalty: nat)
    requires Consistent(inst, rw, start[..]) && i < |rw.sequence| && j < |rw.sequence|
    ensures ValidIds(inst, Relocate(rw.sequence, i, j))
    ensures penalty == TotalPenalty(inst, Relocate(rw.sequence, i, j))
  {
    var s := Relocate(rw.sequence, i, j);
    var lo := if i < j then i else j;
    RelocateValidIds(inst, rw.sequence, i, j);
    penalty := EvaluateFrom(inst, s, rw.sequence, rw.prefixPenalty, start, lo);
  }

  /** What the search reads for runway r of schedule ss: rw is that runway and
      agrees with the stored start times. */
  ghost predicate RelocateRunway(inst: Instance, ss: seq<seq<nat>>, r: nat, rw: Runway, start: seq<nat>) {
    && inst.WellFormed() && AllValidIds(inst, ss) && r < |ss| && ss[r] == rw.sequence
    && Consistent(inst, rw, start)
  }

  /** One relocation of the search: flight i of runway r costed at position j,
      whose rank among the targets of i is c, and recorded when its change of
      penalty is strictly below the best so far. */
  method TryRelocate(inst: Instance, rw: Runway, start: array<nat>, ghost ss: seq<seq<nat>>,
                     r: nat, i: nat, j: nat, ghost c: nat, delta0: int, br0: nat, bi0: nat, bj0: nat)
    returns (delta: int, br: nat, bi: nat, bj: nat)
    requires RelocateRunway(inst, ss, r, rw, start[..])
    requires i < |rw.sequence| && j < |rw.sequence| && i != j && c == TargetRank(i, j)
    requires IntraMoveScan(inst, ss, r, i, c, delta0, br0, bi0, bj0)
    ensures IntraMoveScan(inst, ss, r, i, c + 1, delta, br, bi, bj)
  {
    var penalty := EvaluateRelocation(inst, rw, start, i, j);
    var d: int := penalty - rw.penalty;
    RelocateScanTry(inst, ss, r, i, j, delta0, br0, bi0, bj0, d);
    delta, br, bi, bj := delta0, br0, bi0, bj0;
    if d < delta {
      delta := d;
      br, bi, bj := r, i, j;
    }
  }

  /** Flight i of runway r at the positions before it, from i - 1 down to 0. */
  method ScanEarlierTargets(inst: Instance, rw: Runway, start: array<nat>, ghost ss: seq<seq<nat>>,
                            r: nat, i: nat, delta0: int, br0: nat, bi0: nat, bj0: nat)
    returns (delta: int, br: nat, bi: nat, bj: nat)
    requires RelocateRunway(inst, ss, r, rw, start[..]) && i < |rw.sequence|
    requires IntraMoveScan(inst, ss, r, i, 0, delta0, br0, bi0, bj0)
    ensures IntraMoveScan(inst, ss, r, i, i, delta, br, bi, bj)
  {
    delta, br, bi, bj := delta0, br0, bi0, bj0;
    for c := 0 to i
      invariant IntraMoveScan(inst, ss, r, i, c, delta, br, bi, bj)
    {
      delta, br, bi, bj := TryRelocate(inst, rw, start, ss, r, i, i - 1 - c, c, delta, br, bi, bj);
    }
  }

  /** Flight i of runway r at the positions after it, upwards. */
  method ScanLaterTargets(inst: Instance, rw: Runway, start: array<nat>, ghost ss: seq<seq<nat>>,
                          r: nat, i: nat, delta0: int, br0: nat, bi0: nat, bj0: nat)
    returns (delta: int, br: nat, bi: nat, bj: nat)
    requires RelocateRunway(inst, ss, r, rw, start[..]) && i < |rw.sequence|
    requires IntraMoveScan(inst, ss, r, i, i, delta0, br0, bi0, bj0)
    ensures IntraMoveScan(inst, ss, r, i + 1, 0, delta, br, bi, bj)
  {
    RelocateScanTurn(inst, ss, r, i, delta0, br0, bi0, bj0);
    delta, br, bi, bj := delta0, br0, bi0, bj0;
    for j := i + 1 to |rw.sequence|
      invariant IntraMoveScan(inst, ss, r, i, j, delta, br, bi, bj)
    {
      delta, br, bi, bj := TryRelocate(inst, rw, start, ss, r, i, j, j, delta, br, bi, bj);
    }
    RelocateScanNextFlight(inst, ss, r, i, delta, br, bi, bj);
  }

  /** Every flight of runway r at every other position of it. */
  method ScanRunwayRelocations(inst: Instance, rw: Runway, start: array<nat>, ghost ss: seq<seq<nat>>,
                               r: nat, delta0: int, br0: nat, bi0: nat, bj0: nat)
    returns (delta: int, br: nat, bi: nat, bj: nat)
    requires RelocateRunway(inst, ss, r, rw, start[..])
    requires IntraMoveScan(inst, ss, r, 0, 0, delta0, br0, bi0, bj0)
    ensures IntraMoveScan(inst, ss, r + 1, 0, 0, delta, br, bi, bj)
  {
    delta, br, bi, bj := delta0, br0, bi0, bj0;
    var i := 0;
    while i < |rw.sequence|
      invariant i <= |rw.sequence|
      invariant IntraMoveScan(inst, ss, r, i, 0, delta, br, bi, bj)
    {
      delta, br, bi, bj := ScanEarlierTargets(inst, rw, start, ss, r, i, delta, br, bi, bj);
      delta, br, bi, bj := ScanLaterTargets(inst, rw, start, ss, r, i, delta, br, bi, bj);
      i := i + 1;
    }
    assert i == |ss[r]|;
    RelocateScanNextRunway(inst, ss, r, delta, br, bi, bj);
  }

  /** The search over every runway of rs: the lowest change of penalty delta
      (0 when nothing improves) and its relocation. */
  method ScanIntraMoves(inst: Instance, rs: seq<Runway>, start: array<nat>)
    returns (delta: int, br: nat, bi: nat, bj: nat)
    requires RunwaysCached(inst, rs, start)
    ensures AllValidIds(inst, SequencesOf(rs))
    ensures delta <= 0
    ensures delta < 0 ==> BestIntraMove(inst, SequencesOf(rs), br, bi, bj, delta)
    ensures delta == 0 ==> NoImprovingIntraMove(inst, SequencesOf(rs))
  {
    ghost var ss := SequencesOf(rs);
    ConsistentValidIds(inst, rs, start[..]);
    delta, br, bi, bj := 0, 0, 0, 0;
    var r := 0;
    while r < |rs|
      invariant r <= |rs|
      invariant IntraMoveScan(inst, ss, r, 0, 0, delta, br, bi, bj)
    {
      assert Consistent(inst, rs[r], start[..]);
      delta, br, bi, bj := ScanRunwayRelocations(inst, rs[r], start, ss, r, delta, br, bi, bj);
      r := r + 1;
    }
    assert r == |ss|;
    if delta == 0 {
      RelocateScanDone(inst, ss, br, bi, bj);
    }
  }

  /** What the relocation needs from a valid state with schedule ss: the new
      sequence s' names valid flights, none twice; the old caches are still
      right for it up to the first changed position lo; its penalty is the
      runway penalty less the saving; and the saving is at most the objective. */
  lemma BeforeIntraMoveApply(inst: Instance, sol: Solution, start: seq<nat>, runwayOf: seq<nat>, position: seq<nat>,
                             ss: seq<seq<nat>>, r: nat, i: nat, j: nat, s': seq<nat>, lo: nat)
    requires ScheduleInvariant(inst, sol, start, runwayOf, position)
    requires ss == SequencesOf(sol.runways) && RelocateCandidate(ss, r, i, j)
    requires s' == Relocate(ss[r], i, j) && lo == if i < j then i else j
    ensures ValidIds(inst, ss[r]) && ValidIds(inst, s') && NoDup(s') && 1 <= |s'|
    ensures forall k :: 0 <= k < |s'| ==> s'[k] < |position|
    ensures PrefixesMatch(inst, s', sol.runways[r].prefixPenalty, lo) && StartsMatch(inst, s', start, lo)
    ensures sol.runways[r].penalty - RelocateGain(inst, ss[r], i, j) == TotalPenalty(inst, s')
    ensures RelocateGain(inst, ss[r], i, j) <= sol.objective
  {
    var rw := sol.runways[r];
    assert ss[r] == rw.sequence;
    assert Consistent(inst, rw, start);
    PlacedNoDup(ss, runwayOf, position, r);
    RelocateNoDup(ss[r], i, j);
    IntraMoveObjective(inst, ss, r, i, j);
    assert IntraMoved(ss, r, i, j)[r] == s';
    MatchesBefore(inst, ss[r], s', rw.prefixPenalty, rw.prefixPenalty, start, lo);
    ObjectiveAtLeast(inst, ss, r);
  }

  /** The flights of the relocated runway sequence s' = Relocate(s, i, j)
      all come from s, belong to runway r, and sit in position' where s' puts
      them, once the positions lo .. hi between the two ends of the move are
      renumbered and every other flight keeps its old position. */
  lemma RelocatedEntries(s: seq<nat>, runwayOf: seq<nat>, position: seq<nat>, r: nat, i: nat, j: nat,
                         s': seq<nat>, lo: nat, hi: nat, position': seq<nat>)
    requires i < |s| && j < |s| && s' == Relocate(s, i, j) && NoDup(s')
    requires forall k :: 0 <= k < |s| ==> s[k] < |runwayOf| && runwayOf[s[k]] == r && s[k] < |position| && position[s[k]] == k
    requires |position'| == |position| && forall k :: 0 <= k < |s'| ==> s'[k] < |position|
    requires lo == (if i < j then i else j) && hi == (if i < j then j else i) && hi < |s'|
    requires forall k :: lo <= k < hi + 1 ==> position'[s'[k]] == k
    requires forall y :: 0 <= y < |position| && y !in s'[lo..hi + 1] ==> position'[y] == position[y]
    ensures forall k :: 0 <= k < |s'| ==> s'[k] in s && s'[k] < |runwayOf| && runwayOf[s'[k]] == r && position'[s'[k]] == k
  {
    forall k | 0 <= k < |s'|
      ensures s'[k] in s && s'[k] < |runwayOf| && runwayOf[s'[k]] == r && position'[s'[k]] == k
    {
      RelocateFrom(s, i, j, k);
      if k < lo || hi < k {
        OutsideSlice(s', lo, hi + 1, k);
      }
    }
  }

  /** The position cache after the corrected apply step, which renumbers the
      flights at positions lo .. hi of the relocated sequence s' (the
      positions between the two ends of the move) and leaves every other
      entry alone, places every flight of the relocated schedule. */
  lemma PositionsAfterRelocate(ss: seq<seq<nat>>, runwayOf: seq<nat>, position: seq<nat>, r: nat, i: nat, j: nat,
                               s': seq<nat>, lo: nat, hi: nat, position': seq<nat>)
    requires Placed(ss, runwayOf, position) && RelocateCandidate(ss, r, i, j)
    requires |runwayOf| == |position| == |position'|
    requires s' == Relocate(ss[r], i, j) && NoDup(s') && forall k :: 0 <= k < |s'| ==> s'[k] < |position|
    requires lo == (if i < j then i else j) && hi == (if i < j then j else i) && hi < |s'|
    requires forall k :: lo <= k < hi + 1 ==> position'[s'[k]] == k
    requires forall y :: 0 <= y < |position| && y !in s'[lo..hi + 1] ==> position'[y] == position[y]
    ensures Placed(IntraMoved(ss, r, i, j), runwayOf, position')
  {
    var ss' := IntraMoved(ss, r, i, j);
    assert ss'[r] == s';
    RelocatedEntries(ss[r], runwayOf, position, r, i, j, s', lo, hi, position');
    forall y | 0 <= y < |runwayOf| && y !in s'
      ensures position'[y] == position[y]
    {
      NotInSlice(s', lo, hi + 1, y);
    }
    PlacedAfterRewrite(ss, runwayOf, position, r, r, ss', runwayOf, position');
  }

  /** The corrected position update of the apply step: the flights at
      positions lo .. hi of the relocated sequence, the stretch between the two
      ends of the move, are renumbered, after which the position cache places
      every flight of the relocated schedule. */
  method RenumberRelocated(position: array<nat>, ghost ss: seq<seq<nat>>, ghost runwayOf: seq<nat>,
                           ghost r: nat, ghost i: nat, ghost j: nat, s': seq<nat>, lo: nat, hi: nat)
    requires Placed(ss, runwayOf, position[..]) && RelocateCandidate(ss, r, i, j)
    requires |runwayOf| == position.Length
    requires s' == Relocate(ss[r], i, j) && NoDup(s')
    requires forall k :: 0 <= k < |s'| ==> s'[k] < position.Length
    requires lo == (if i < j then i else j) && hi == (if i < j then j else i)
    modifies position
    ensures Placed(IntraMoved(ss, r, i, j), runwayOf, position[..])
  {
    ghost var position0 := position[..];
    RenumberUp(position, s', lo, hi + 1);
    PositionsAfterRelocate(ss, runwayOf, position0, r, i, j, s', lo, hi, position[..]);
  }

  /** A relocation keeps the flights and their ids and lowers the objective by its saving. */
  lemma IntraMoveEffect(inst: Instance, ss: seq<seq<nat>>, r: nat, i: nat, j: nat)
    requires inst.WellFormed() && AllValidIds(inst, ss) && RelocateCandidate(ss, r, i, j)
    ensures FlightBag(IntraMoved(ss, r, i, j)) == FlightBag(ss)
    ensures AllValidIds(inst, IntraMoved(ss, r, i, j))
    ensures Objective(inst, ss) - Objective(inst, IntraMoved(ss, r, i, j)) == RelocateGain(inst, ss[r], i, j)
  {
    IntraMoveKeepsFlights(ss, r, i, j);
    IntraMoveObjective(inst, ss, r, i, j);
  }

  /** After the selected relocation has been applied to a valid state: with
      runway r replaced by rw', which holds the relocated sequence with caches
      consistent with the new start times, start times changed only for flights
      of that runway, position caches that place every flight of the new
      schedule, and the objective lowered by the saving, the state is valid
      again and its schedule is the relocated one. */
  lemma AfterIntraMoveApply(inst: Instance, sol: Solution, start: seq<nat>, runwayOf: seq<nat>, position: seq<nat>,
                            ss: seq<seq<nat>>, r: nat, i: nat, j: nat, rw': Runway, objective': nat,
                            start': seq<nat>, position': seq<nat>)
    requires ScheduleInvariant(inst, sol, start, runwayOf, position)
    requires ss == SequencesOf(sol.runways) && RelocateCandidate(ss, r, i, j)
    requires rw'.sequence == Relocate(ss[r], i, j) && Consistent(inst, rw', start')
    requires |start'| == |start| && |position'| == |position|
    requires forall f :: 0 <= f < |start| && f !in rw'.sequence ==> start'[f] == start[f]
    requires Placed(IntraMoved(ss, r, i, j), runwayOf, position')
    requires objective' + RelocateGain(inst, ss[r], i, j) == sol.objective
    ensures SequencesOf(sol.runways[r := rw']) == IntraMoved(ss, r, i, j)
    ensures ScheduleInvariant(inst, Solution(sol.runways[r := rw'], objective'), start', runwayOf, position')
  {
    var rs' := sol.runways[r := rw'];
    assert SequencesOf(rs') == IntraMoved(ss, r, i, j);
    IntraMoveEffect(inst, ss, r, i, j);
    RunwaysAfterUpdate(inst, sol.runways, start, r, r, rs', start', runwayOf, position');
  }

  /** Applies the selected relocation: the flight moves to its new position
      (std::rotate), the position cache of the flights between the two ends of
      the move is renumbered, start times and prefix penalties are recomputed
      from the first changed position on, and the runway penalty and the
      objective move by delta. */
  method ApplySelectedIntraMove(asp: ASP, sol: Solution, br: nat, bi: nat, bj: nat, delta: int)
    returns (sol': Solution)
    requires asp.Valid(sol)
    requires RelocateCandidate(SequencesOf(sol.runways), br, bi, bj)
    requires delta == -RelocateGain(asp.instance, sol.runways[br].sequence, bi, bj)
    modifies asp.startTime, asp.position
    ensures asp.Valid(sol')
    ensures SequencesOf(sol'.runways) == IntraMoved(SequencesOf(sol.runways), br, bi, bj)
    ensures sol'.objective == sol.objective + delta
  {
    var inst := asp.instance;
    ghost var ss := SequencesOf(sol.runways);
    ghost var start0, position0 := asp.startTime[..], asp.position[..];
    var rw := sol.runways[br];
    assert ss[br] == rw.sequence;
    var s' := Relocate(rw.sequence, bi, bj);
    var lo, hi := if bi < bj then bi else bj, if bi < bj then bj else bi;
    BeforeIntraMoveApply(inst, sol, start0, asp.runwayOf[..], position0, ss, br, bi, bj, s', lo);
    RenumberRelocated(asp.position, ss, asp.runwayOf[..], br, bi, bj, s', lo, hi);
    assert asp.startTime[..] == start0;
    var rw' := Reschedule(inst, asp.startTime, rw, s', lo, rw.penalty + delta);
    AfterIntraMoveApply(inst, sol, start0, asp.runwayOf[..], position0, ss, br, bi, bj, rw',
                        sol.objective + delta, asp.startTime[..], asp.position[..]);
    sol' := Solution(sol.runways[br := rw'], sol.objective + delta);
  }

  /** ASP::best_improvement_intra_move: every flight of every runway is costed
      at every other position of its runway, and the first relocation with the
      lowest negative change of penalty, if any, is applied. The result says
      whether a relocation was applied, which happens exactly when some
      relocation improves. */
  method BestImprovementIntraMove(asp: ASP, sol: Solution) returns (improved: bool, sol': Solution)
    requires asp.Valid(sol)
    modifies asp.startTime, asp.position
    ensures asp.Valid(sol')
    ensures AllValidIds(asp.instance, SequencesOf(sol.runways))
    ensures improved <==> !NoImprovingIntraMove(asp.instance, SequencesOf(sol.runways))
    ensures !improved ==> sol' == sol && unchanged(asp.startTime, asp.position)
    ensures improved ==> exists br, bi, bj, delta ::
      && BestIntraMove(asp.instance, SequencesOf(sol.runways), br, bi, bj, delta)
      && SequencesOf(sol'.runways) == IntraMoved(SequencesOf(sol.runways), br, bi, bj)
      && sol'.objective == sol.objective + delta
    ensures improved <==> sol'.objective < sol.objective
  {
    var inst := asp.instance;
    ghost var ss := SequencesOf(sol.runways);
    var delta, br, bi, bj := ScanIntraMoves(inst, sol.runways, asp.startTime);
    if delta == 0 {
      return false, sol;
    }
    BestRelocateIsImproving(inst, ss, br, bi, bj, delta);
    sol' := ApplySelectedIntraMove(asp, sol, br, bi, bj, delta);
    improved := true;
  }
}
