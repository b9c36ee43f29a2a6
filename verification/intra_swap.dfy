/** The best-improvement intra-runway swap neighbourhood: every pair of flights
    of every runway is tried by exchanging them in place, costing the changed
    sequence incrementally and exchanging them back; pairs whose later flight
    already lands at its release time are skipped; the first pair with the
    largest saving is applied and the caches of its runway are refreshed. */
module IntraSwapNeighborhood {
  import opened Instances
  import opened Schedule
  import opened Sequences
  import opened Runways
  import opened Solutions
  import opened Moves
  import opened Evaluation
  import opened Asp

  /** The flights strictly between i and j of a swapped sequence s, which
      agree with the original: recomputed one by one until a recomputed start
      equals the stored one, from where the prefix entries give the rest up to
      j. Below P the result is the penalty of the first j flights of s. */
  method EvaluateBetween(inst: Instance, s: seq<nat>, ghost orig: seq<nat>, prefix: seq<nat>,
                         start: array<nat>, P: nat, i: nat, j: nat, penalty0: nat, prev0: nat)
    returns (penalty: nat, prev: nat)
    requires inst.WellFormed() && ValidIds(inst, s) && ValidIds(inst, orig)
    requires i < j <= |s| == |orig|
    requires forall k :: i < k < j ==> s[k] == orig[k]
    requires PrefixesMatch(inst, orig, prefix, |orig|)
    requires StartsMatch(inst, orig, start[..], |orig|)
    requires penalty0 == PrefixPenalty(inst, s, i + 1) && prev0 == StartTime(inst, s, i)
    ensures penalty <= PrefixPenalty(inst, s, j)
    ensures penalty < P ==> penalty == PrefixPenalty(inst, s, j) && prev == StartTime(inst, s, j - 1)
  {
    var k, hit;
    penalty, prev, k, hit := AdvanceSegment(inst, s, start, i + 1, j, penalty0, prev0, P);
    if hit {
      assert start[s[k]] == StartTime(inst, orig, k);
      RestFromPrefixes(inst, s, orig, prefix, k, j);
      penalty := penalty + (prefix[j] - prefix[k]);
      assert start[s[j - 1]] == StartTime(inst, orig, j - 1);
      prev := start[s[j - 1]];
      assert prev == StartTime(inst, s, j - 1);
    } else {
      PrefixMonotone(inst, s, k, j);
      assert penalty < P ==> k == j;
    }
  }

  /** Penalty of s, the landing sequence orig with flights i and j exchanged,
      computed from orig's stored prefix penalties and start times: the head up
      to i from the prefix entry, the flights strictly between i and j until a
      recomputed start matches (then up to j from the prefix entries), flight j,
      and the tail. It gives up, with a result of at least P, once the partial
      penalty reaches P, the penalty of orig. Below P the result is exact. */
  method EvaluateIntraSwap(inst: Instance, s: seq<nat>, ghost orig: seq<nat>, prefix: seq<nat>,
                           start: array<nat>, P: nat, i: nat, j: nat)
    returns (penalty: nat)
    requires inst.WellFormed() && ValidIds(inst, orig) && i < j < |orig|
    requires s == Swap(orig, i, j)
    requires PrefixesMatch(inst, orig, prefix, |orig|)
    requires StartsMatch(inst, orig, start[..], |orig|)
    ensures ValidIds(inst, s)
    ensures penalty <= TotalPenalty(inst, s)
    ensures penalty < P ==> penalty == TotalPenalty(inst, s)
  {
    assert ValidIds(inst, s) by {
      forall k | 0 <= k < |s|
        ensures s[k] < inst.numFlights
      {
        assert k == i || k == j || s[k] == orig[k];
      }
    }
    var prev;
    penalty, prev := EvaluateHead(inst, s, orig, prefix, start, i);
    penalty, prev := EvaluateBetween(inst, s, orig, prefix, start, P, i, j, penalty, prev);
    if penalty >= P {
      PrefixMonotone(inst, s, j, |s|);
      return;
    }
    prev := NextStart(inst, s[j - 1], prev, s[j]);
    penalty := penalty + Cost(inst, s[j], prev);
    penalty := EvaluateTail(inst, s, orig, prefix, start, j + 1, penalty, prev, 0, P);
  }

  /** Place (r', i', j') comes before place (r, i, j) in the order of the three
      nested loops: runway, then first flight, then second flight. */
  predicate Before(r': nat, i': nat, j': nat, r: nat, i: nat, j: nat) {
    r' < r || (r' == r && PairBefore(i', j', i, j))
  }

  /** Pair (i, j) of runway r is one the search costs: i before j, and flight j
      does not land at its release time. */
  ghost predicate Candidate(inst: Instance, ss: seq<seq<nat>>, r: nat, i: nat, j: nat)
    requires inst.WellFormed() && AllValidIds(inst, ss)
  {
    r < |ss| && i < j < |ss[r]| && StartTime(inst, ss[r], j) != inst.ReleaseTime(ss[r][j])
  }

  /** The state of the search once every place before (r, i, j) has been tried:
      no candidate saves more than delta, and when delta > 0 the recorded
      candidate (br, bi, bj) saves delta and every candidate before it saves less. */
  ghost predicate IntraSwapScan(inst: Instance, ss: seq<seq<nat>>, r: nat, i: nat, j: nat,
                                delta: nat, br: nat, bi: nat, bj: nat)
    requires inst.WellFormed() && AllValidIds(inst, ss)
  {
    && (forall r': nat, i': nat, j': nat :: Candidate(inst, ss, r', i', j') && Before(r', i', j', r, i, j) ==>
          SwapGain(inst, ss[r'], i', j') <= delta)
    && (delta > 0 ==>
          && Candidate(inst, ss, br, bi, bj) && Before(br, bi, bj, r, i, j)
          && SwapGain(inst, ss[br], bi, bj) == delta
          && forall r': nat, i': nat, j': nat :: Candidate(inst, ss, r', i', j') && Before(r', i', j', br, bi, bj) ==>
               SwapGain(inst, ss[r'], i', j') < delta)
    && (delta == 0 ==> br == 0 && bi == 0 && bj == 0)
  }

  /** (br, bi, bj) is the swap the search selects in schedule ss: among the
      candidates it saves the most, delta > 0, and it is the first in scan
      order that does. */
  ghost predicate BestIntraSwap(inst: Instance, ss: seq<seq<nat>>, br: nat, bi: nat, bj: nat, delta: nat)
    requires inst.WellFormed() && AllValidIds(inst, ss)
  {
    delta > 0 && IntraSwapScan(inst, ss, |ss|, 0, 1, delta, br, bi, bj)
  }

  /** No candidate swap of schedule ss lowers the objective. */
  ghost predicate NoImprovingIntraSwap(inst: Instance, ss: seq<seq<nat>>)
    requires inst.WellFormed() && AllValidIds(inst, ss)
  {
    forall r: nat, i: nat, j: nat :: Candidate(inst, ss, r, i, j) ==> SwapGain(inst, ss[r], i, j) <= 0
  }

  /** Costing candidate (r, i, j) with an evaluation p that is exact below the
      runway penalty and never above the true penalty, and keeping it only on a
      strictly larger saving, advances the search by one place. */
  lemma ScanTry(inst: Instance, ss: seq<seq<nat>>, r: nat, i: nat, j: nat,
                delta: nat, br: nat, bi: nat, bj: nat, p: nat)
    requires inst.WellFormed() && AllValidIds(inst, ss)
    requires IntraSwapScan(inst, ss, r, i, j, delta, br, bi, bj)
    requires Candidate(inst, ss, r, i, j)
    requires p <= TotalPenalty(inst, Swap(ss[r], i, j))
    requires p < TotalPenalty(inst, ss[r]) ==> p == TotalPenalty(inst, Swap(ss[r], i, j))
    ensures var P := TotalPenalty(inst, ss[r]);
      if p < P && P - p > delta then IntraSwapScan(inst, ss, r, i, j + 1, P - p, r, i, j)
      else IntraSwapScan(inst, ss, r, i, j + 1, delta, br, bi, bj)
  {
  }

  /** A pair the search skips leaves its state as it is. */
  lemma ScanSkip(inst: Instance, ss: seq<seq<nat>>, r: nat, i: nat, j: nat,
                 delta: nat, br: nat, bi: nat, bj: nat)
    requires inst.WellFormed() && AllValidIds(inst, ss)
    requires IntraSwapScan(inst, ss, r, i, j, delta, br, bi, bj)
    requires !Candidate(inst, ss, r, i, j)
    ensures IntraSwapScan(inst, ss, r, i, j + 1, delta, br, bi, bj)
  {
  }

  /** Finishing the pairs that start at i moves the search to those that start at i + 1. */
  lemma ScanNextRow(inst: Instance, ss: seq<seq<nat>>, r: nat, i: nat,
                    delta: nat, br: nat, bi: nat, bj: nat)
    requires inst.WellFormed() && AllValidIds(inst, ss) && r < |ss|
    requires IntraSwapScan(inst, ss, r, i, |ss[r]|, delta, br, bi, bj)
    ensures IntraSwapScan(inst, ss, r, i + 1, i + 2, delta, br, bi, bj)
  {
  }

  /** Finishing the pairs of runway r moves the search to runway r + 1. */
  lemma ScanNextRunway(inst: Instance, ss: seq<seq<nat>>, r: nat, i: nat,
                       delta: nat, br: nat, bi: nat, bj: nat)
    requires inst.WellFormed() && AllValidIds(inst, ss) && r < |ss| && |ss[r]| <= i + 1
    requires IntraSwapScan(inst, ss, r, i, i + 1, delta, br, bi, bj)
    ensures IntraSwapScan(inst, ss, r + 1, 0, 1, delta, br, bi, bj)
  {
  }

  /** A finished search that found no saving shows that no candidate improves. */
  lemma ScanDone(inst: Instance, ss: seq<seq<nat>>, br: nat, bi: nat, bj: nat)
    requires inst.WellFormed() && AllValidIds(inst, ss)
    requires IntraSwapScan(inst, ss, |ss|, 0, 1, 0, br, bi, bj)
    ensures NoImprovingIntraSwap(inst, ss)
  {
  }

  /** With objective 0 no swap can improve. */
  lemma NothingBelowZeroObjective(inst: Instance, ss: seq<seq<nat>>)
    requires inst.WellFormed() && AllValidIds(inst, ss) && Objective(inst, ss) == 0
    ensures NoImprovingIntraSwap(inst, ss)
  {
    forall r: nat, i: nat, j: nat | Candidate(inst, ss, r, i, j)
      ensures SwapGain(inst, ss[r], i, j) <= 0
    {
      ObjectiveZero(inst, ss, r);
    }
  }

  /** One pair of the search on runway r, whose landing sequence is `sequence`
      with prefix penalties `prefix` and penalty P: unless flight j already
      lands at its release time, the sequence with flights i and j exchanged is
      costed, and a strictly larger saving than the best so far replaces it. */
  method TrySwap(inst: Instance, sequence: seq<nat>, prefix: seq<nat>, start: array<nat>, P: nat,
                 ghost ss: seq<seq<nat>>, r: nat, i: nat, j: nat,
                 delta0: nat, br0: nat, bi0: nat, bj0: nat)
    returns (delta: nat, br: nat, bi: nat, bj: nat)
    requires inst.WellFormed() && AllValidIds(inst, ss) && r < |ss| && ss[r] == sequence
    requires i < j < |sequence|
    requires PrefixesMatch(inst, sequence, prefix, |sequence|)
    requires StartsMatch(inst, sequence, start[..], |sequence|)
    requires P == TotalPenalty(inst, sequence)
    requires IntraSwapScan(inst, ss, r, i, j, delta0, br0, bi0, bj0)
    ensures IntraSwapScan(inst, ss, r, i, j + 1, delta, br, bi, bj)
  {
    delta, br, bi, bj := delta0, br0, bi0, bj0;
    assert start[sequence[j]] == StartTime(inst, sequence, j);
    if start[sequence[j]] == inst.ReleaseTime(sequence[j]) {
      ScanSkip(inst, ss, r, i, j, delta, br, bi, bj);
      return;
    }
    var swapped := Swap(sequence, i, j);
    var penalty := EvaluateIntraSwap(inst, swapped, sequence, prefix, start, P, i, j);
    ScanTry(inst, ss, r, i, j, delta, br, bi, bj, penalty);
    if penalty < P && P - penalty > delta {
      delta := P - penalty;
      br, bi, bj := r, i, j;
    }
  }

  /** One row of the search on runway r: the pairs (i, j) with j > i in turn. */
  method ScanSwapRow(inst: Instance, sequence: seq<nat>, prefix: seq<nat>, start: array<nat>, P: nat,
                     ghost ss: seq<seq<nat>>, r: nat, i: nat,
                     delta0: nat, br0: nat, bi0: nat, bj0: nat)
    returns (delta: nat, br: nat, bi: nat, bj: nat)
    requires inst.WellFormed() && AllValidIds(inst, ss) && r < |ss| && ss[r] == sequence
    requires i + 1 < |sequence|
    requires PrefixesMatch(inst, sequence, prefix, |sequence|)
    requires StartsMatch(inst, sequence, start[..], |sequence|)
    requires P == TotalPenalty(inst, sequence)
    requires IntraSwapScan(inst, ss, r, i, i + 1, delta0, br0, bi0, bj0)
    ensures IntraSwapScan(inst, ss, r, i + 1, i + 2, delta, br, bi, bj)
  {
    delta, br, bi, bj := delta0, br0, bi0, bj0;
    var j := i + 1;
    while j < |sequence|
      invariant i + 1 <= j <= |sequence|
      invariant IntraSwapScan(inst, ss, r, i, j, delta, br, bi, bj)
    {
      delta, br, bi, bj := TrySwap(inst, sequence, prefix, start, P, ss, r, i, j, delta, br, bi, bj);
      j := j + 1;
    }
    ScanNextRow(inst, ss, r, i, delta, br, bi, bj);
  }

  /** The search over the pairs of runway r, row by row. */
  method ScanRunwaySwaps(inst: Instance, rw: Runway, start: array<nat>, ghost ss: seq<seq<nat>>,
                         r: nat, delta0: nat, br0: nat, bi0: nat, bj0: nat)
    returns (delta: nat, br: nat, bi: nat, bj: nat)
    requires inst.WellFormed() && AllValidIds(inst, ss) && r < |ss| && ss[r] == rw.sequence
    requires |rw.sequence| >= 1 && Consistent(inst, rw, start[..])
    requires IntraSwapScan(inst, ss, r, 0, 1, delta0, br0, bi0, bj0)
    ensures IntraSwapScan(inst, ss, r + 1, 0, 1, delta, br, bi, bj)
  {
    delta, br, bi, bj := delta0, br0, bi0, bj0;
    var sequence := rw.sequence;
    var i := 0;
    while i < |sequence| - 1
      invariant i <= |sequence| - 1
      invariant IntraSwapScan(inst, ss, r, i, i + 1, delta, br, bi, bj)
    {
      delta, br, bi, bj := ScanSwapRow(inst, sequence, rw.prefixPenalty, start, rw.penalty, ss, r, i,
                                       delta, br, bi, bj);
      i := i + 1;
    }
    ScanNextRunway(inst, ss, r, i, delta, br, bi, bj);
  }

  /** The search over every runway: the best saving delta and its place in
      the schedule of runways rs. */
  method ScanIntraSwaps(inst: Instance, rs: seq<Runway>, start: array<nat>)
    returns (delta: nat, br: nat, bi: nat, bj: nat)
    requires RunwaysCached(inst, rs, start)
    ensures AllValidIds(inst, SequencesOf(rs))
    ensures delta > 0 ==> BestIntraSwap(inst, SequencesOf(rs), br, bi, bj, delta)
    ensures delta == 0 ==> NoImprovingIntraSwap(inst, SequencesOf(rs))
  {
    ghost var ss := SequencesOf(rs);
    ConsistentValidIds(inst, rs, start[..]);
    delta, br, bi, bj := 0, 0, 0, 0;
    var r := 0;
    while r < |rs|
      invariant r <= |rs|
      invariant IntraSwapScan(inst, ss, r, 0, 1, delta, br, bi, bj)
    {
      delta, br, bi, bj := ScanRunwaySwaps(inst, rs[r], start, ss, r, delta, br, bi, bj);
      r := r + 1;
    }
    if delta == 0 {
      ScanDone(inst, ss, br, bi, bj);
    }
  }

  /** Before the selected swap is applied to a valid state: the swapped
      sequence is valid and duplicate-free, the caches still hold for its
      flights before bi, its penalty is the runway penalty less the saving, and
      the saving is at most the objective. */
  lemma BeforeApply(inst: Instance, sol: Solution, start: seq<nat>, runwayOf: seq<nat>, position: seq<nat>,
                    br: nat, bi: nat, bj: nat)
    requires ScheduleInvariant(inst, sol, start, runwayOf, position)
    requires br < |sol.runways| && bi < bj < |sol.runways[br].sequence|
    ensures ValidIds(inst, sol.runways[br].sequence)
    ensures var rw := sol.runways[br]; var s' := Swap(rw.sequence, bi, bj);
      && ValidIds(inst, s') && NoDup(s')
      && PrefixesMatch(inst, s', rw.prefixPenalty, bi)
      && StartsMatch(inst, s', start, bi)
      && SwapGain(inst, rw.sequence, bi, bj) <= rw.penalty
      && rw.penalty - SwapGain(inst, rw.sequence, bi, bj) == TotalPenalty(inst, s')
      && SwapGain(inst, rw.sequence, bi, bj) <= sol.objective
  {
    var ss := SequencesOf(sol.runways);
    var rw := sol.runways[br];
    var s := rw.sequence;
    assert ss[br] == s;
    assert Consistent(inst, rw, start);
    PlacedAfterIntraSwap(ss, runwayOf, position, br, bi, bj);
    PlacedNoDup(IntraSwapped(ss, br, bi, bj), runwayOf, position[s[bi] := bj][s[bj] := bi], br);
    MatchesBefore(inst, s, Swap(s, bi, bj), rw.prefixPenalty, rw.prefixPenalty, start, bi);
    ObjectiveAtLeast(inst, ss, br);
  }

  /** The schedule-level effect of the selected swap: the runways together
      keep the same flights, the caches with the two positions exchanged place
      every flight, and the objective drops by the saving. */
  lemma SwapEffect(inst: Instance, ss: seq<seq<nat>>, runwayOf: seq<nat>, position: seq<nat>,
                   br: nat, bi: nat, bj: nat)
    requires inst.WellFormed() && AllValidIds(inst, ss)
    requires br < |ss| && bi < bj < |ss[br]|
    requires Placed(ss, runwayOf, position)
    ensures FlightBag(IntraSwapped(ss, br, bi, bj)) == FlightBag(ss)
    ensures Placed(IntraSwapped(ss, br, bi, bj), runwayOf, position[ss[br][bi] := bj][ss[br][bj] := bi])
    ensures AllValidIds(inst, IntraSwapped(ss, br, bi, bj))
    ensures SwapGain(inst, ss[br], bi, bj) <= Objective(inst, ss)
    ensures Objective(inst, IntraSwapped(ss, br, bi, bj)) == Objective(inst, ss) - SwapGain(inst, ss[br], bi, bj)
  {
    ObjectiveAtLeast(inst, ss, br);
    IntraSwapKeepsFlights(ss, br, bi, bj);
    IntraSwapObjective(inst, ss, br, bi, bj);
    PlacedAfterIntraSwap(ss, runwayOf, position, br, bi, bj);
  }

  /** After the selected swap has been applied to a valid state: with runway
      br replaced by rw', which holds the swapped sequence with caches
      consistent with the new start times, the positions of the two flights
      exchanged, start times changed only for flights of that runway, and the
      objective lowered by the saving, the state is valid again and its
      schedule is the swapped one. */
  lemma AfterApply(inst: Instance, sol: Solution, start: seq<nat>, runwayOf: seq<nat>, position: seq<nat>,
                   br: nat, bi: nat, bj: nat, rw': Runway, objective': nat, start': seq<nat>, position': seq<nat>)
    requires ScheduleInvariant(inst, sol, start, runwayOf, position)
    requires br < |sol.runways| && bi < bj < |sol.runways[br].sequence|
    requires rw'.sequence == Swap(sol.runways[br].sequence, bi, bj)
    requires Consistent(inst, rw', start')
    requires |start'| == |start|
    requires forall f :: 0 <= f < |start| && f !in rw'.sequence ==> start'[f] == start[f]
    requires position' == position[sol.runways[br].sequence[bi] := bj][sol.runways[br].sequence[bj] := bi]
    requires objective' + SwapGain(inst, sol.runways[br].sequence, bi, bj) == sol.objective
    ensures ScheduleInvariant(inst, Solution(sol.runways[br := rw'], objective'), start', runwayOf, position')
    ensures SequencesOf(sol.runways[br := rw']) == IntraSwapped(SequencesOf(sol.runways), br, bi, bj)
  {
    var ss := SequencesOf(sol.runways);
    var ss' := SequencesOf(sol.runways[br := rw']);
    assert ss' == IntraSwapped(ss, br, bi, bj);
    SwapEffect(inst, ss, runwayOf, position, br, bi, bj);
    RunwaysAfterUpdate(inst, sol.runways, start, br, br, sol.runways[br := rw'], start', runwayOf, position');
  }

  /** Applies the selected swap: the two flights take each other's position
      (in the position cache too), start times and prefix penalties are
      recomputed from the first of them on, and the runway penalty and the
      objective drop by the saving. */
  method ApplySelectedIntraSwap(asp: ASP, sol: Solution, br: nat, bi: nat, bj: nat, delta: nat)
    returns (sol': Solution)
    requires asp.Valid(sol)
    requires br < |sol.runways| && bi < bj < |sol.runways[br].sequence|
    requires delta == SwapGain(asp.instance, sol.runways[br].sequence, bi, bj)
    modifies asp.startTime, asp.position
    ensures asp.Valid(sol')
    ensures SequencesOf(sol'.runways) == IntraSwapped(SequencesOf(sol.runways), br, bi, bj)
    ensures sol'.objective == sol.objective - delta
  {
    var inst := asp.instance;
    ghost var start0, position0 := asp.startTime[..], asp.position[..];
    BeforeApply(inst, sol, start0, asp.runwayOf[..], position0, br, bi, bj);
    var rw := sol.runways[br];
    var first, second := rw.sequence[bi], rw.sequence[bj];
    asp.position[first] := bj;
    asp.position[second] := bi;
    assert asp.startTime[..] == start0;
    var rw' := Reschedule(inst, asp.startTime, rw, Swap(rw.sequence, bi, bj), bi, rw.penalty - delta);
    AfterApply(inst, sol, start0, asp.runwayOf[..], position0, br, bi, bj,
               rw', sol.objective - delta, asp.startTime[..], asp.position[..]);
    sol' := Solution(sol.runways[br := rw'], sol.objective - delta);
  }

  /** Three flights on one runway: flight 1 is released at 10, the others at
      0; every occupancy is 1; flight 0 costs nothing to delay, the others 1
      per unit; flight 2 must wait 100 after flight 1, every other separation
      is 0. */
  const FilterExample := Instance(3, 1, [0, 10, 0], [1, 1, 1], [0, 1, 1], [0, 0, 0, 0, 0, 100, 0, 0, 0])

  /** Landing 0, 1, 2: flight 1 lands at its release time 10, flight 2 at 111. */
  lemma FilterExampleBefore()
    ensures FilterExample.WellFormed() && ValidIds(FilterExample, [0, 1, 2])
    ensures StartTime(FilterExample, [0, 1, 2], 1) == 10
    ensures TotalPenalty(FilterExample, [0, 1, 2]) == 111
  {
    var inst := FilterExample;
    var s: seq<nat> := [0, 1, 2];
    assert inst.SeparationTime(0, 1) == 0 && inst.SeparationTime(1, 2) == 100;
    assert StartTime(inst, s, 1) == 10;
    assert StartTime(inst, s, 2) == 111;
  }

  /** Landing 1, 0, 2: flight 2 lands at 12. */
  lemma FilterExampleAfter()
    ensures FilterExample.WellFormed() && ValidIds(FilterExample, [1, 0, 2])
    ensures TotalPenalty(FilterExample, [1, 0, 2]) == 12
  {
    var inst := FilterExample;
    var t: seq<nat> := [1, 0, 2];
    assert inst.SeparationTime(1, 0) == 0 && inst.SeparationTime(0, 2) == 0;
    assert StartTime(inst, t, 1) == 11;
    assert StartTime(inst, t, 2) == 12;
  }

  /** Skipping pairs whose later flight lands at its release time can pass
      over an improving swap: in the example, flight 1 lands at its release
      time, yet exchanging flights 0 and 1 lowers the penalty from 111 to 12,
      because flight 2 no longer waits out the long separation after flight 1. */
  lemma ReleaseFilterSkipsImprovement()
    ensures FilterExample.WellFormed() && AllValidIds(FilterExample, [[0, 1, 2]])
    ensures !Candidate(FilterExample, [[0, 1, 2]], 0, 0, 1)
    ensures SwapGain(FilterExample, [0, 1, 2], 0, 1) == 99
  {
    FilterExampleBefore();
    FilterExampleAfter();
    var ss: seq<seq<nat>> := [[0, 1, 2]];
    assert ss[0] == [0, 1, 2];
    assert Swap([0, 1, 2], 0, 1) == [1, 0, 2];
  }

  /** A selected swap is an improving candidate, so a schedule that has one
      is not a local optimum for this neighbourhood. */
  lemma BestIsImproving(inst: Instance, ss: seq<seq<nat>>, br: nat, bi: nat, bj: nat, delta: nat)
    requires inst.WellFormed() && AllValidIds(inst, ss)
    requires BestIntraSwap(inst, ss, br, bi, bj, delta)
    ensures Candidate(inst, ss, br, bi, bj) && SwapGain(inst, ss[br], bi, bj) == delta > 0
    ensures !NoImprovingIntraSwap(inst, ss)
  {
  }

  /** ASP::best_improvement_intra_swap: with objective 0 nothing is tried;
      otherwise every candidate pair of every runway is costed incrementally
      and the first one with the largest positive saving, if any, is applied.
      The result says whether a swap was applied, which happens exactly when
      some candidate improves. */
  method BestImprovementIntraSwap(asp: ASP, sol: Solution) returns (improved: bool, sol': Solution)
    requires asp.Valid(sol)
    modifies asp.startTime, asp.position
    ensures asp.Valid(sol')
    ensures AllValidIds(asp.instance, SequencesOf(sol.runways))
    ensures improved <==> !NoImprovingIntraSwap(asp.instance, SequencesOf(sol.runways))
    ensures !improved ==> sol' == sol && unchanged(asp.startTime, asp.position)
    ensures improved ==> exists br, bi, bj, delta ::
      && BestIntraSwap(asp.instance, SequencesOf(sol.runways), br, bi, bj, delta)
      && SequencesOf(sol'.runways) == IntraSwapped(SequencesOf(sol.runways), br, bi, bj)
      && sol'.objective == sol.objective - delta
    ensures improved <==> sol'.objective < sol.objective
  {
    var inst := asp.instance;
    ghost var ss := SequencesOf(sol.runways);
    if sol.objective == 0 {
      NothingBelowZeroObjective(inst, ss);
      return false, sol;
    }
    var delta, br, bi, bj := ScanIntraSwaps(inst, sol.runways, asp.startTime);
    if delta == 0 {
      return false, sol;
    }
    BestIsImproving(inst, ss, br, bi, bj, delta);
    sol' := ApplySelectedIntraSwap(asp, sol, br, bi, bj, delta);
    improved := true;
  }
}
