/** A solution: one runway per instance runway and the objective, the sum of
    the runway penalties. The state invariant every operation of the search
    keeps is stated here on plain values. */
module Solutions {
  import opened Instances
  import opened Schedule
  import opened Sequences
  import opened Runways

  /** A solution: one runway per instance runway and the objective. */
  datatype Solution = Solution(runways: seq<Runway>, objective: nat)

  /** The landing sequences of runways rs, runway by runway. */
  function SequencesOf(rs: seq<Runway>): (ss: seq<seq<nat>>)
    ensures |ss| == |rs| && forall r :: 0 <= r < |rs| ==> ss[r] == rs[r].sequence
  {
    seq(|rs|, r requires 0 <= r < |rs| => rs[r].sequence)
  }

  /** Solution::Solution: runway r is an empty runway with id r, for every
      runway of the instance, and the objective is 0. */
  function NewSolution(inst: Instance): (sol: Solution)
    ensures |sol.runways| == inst.numRunways && sol.objective == 0
    ensures forall r :: 0 <= r < |sol.runways| ==> sol.runways[r] == EmptyRunway(r)
  {
    Solution(seq(inst.numRunways, r requires 0 <= r => EmptyRunway(r)), 0)
  }

  ghost predicate AllValidIds(inst: Instance, ss: seq<seq<nat>>) {
    forall r :: 0 <= r < |ss| ==> ValidIds(inst, ss[r])
  }

  /** Sum of the penalties of the runways of schedule ss. */
  function Objective(inst: Instance, ss: seq<seq<nat>>): nat
    requires inst.WellFormed() && AllValidIds(inst, ss)
  {
    if |ss| == 0 then 0 else Objective(inst, ss[..|ss| - 1]) + TotalPenalty(inst, ss[|ss| - 1])
  }

  /** Changing one runway changes the objective by exactly that runway's change. */
  lemma {:induction false} ObjectiveUpdate(inst: Instance, ss: seq<seq<nat>>, r: nat, t: seq<nat>)
    requires inst.WellFormed() && AllValidIds(inst, ss) && ValidIds(inst, t) && r < |ss|
    ensures AllValidIds(inst, ss[r := t])
    ensures Objective(inst, ss[r := t]) + TotalPenalty(inst, ss[r]) == Objective(inst, ss) + TotalPenalty(inst, t)
  {
    var last := |ss| - 1;
    if r == last {
      assert ss[r := t][..last] == ss[..last];
    } else {
      assert ss[r := t][..last] == ss[..last][r := t];
      ObjectiveUpdate(inst, ss[..last], r, t);
    }
  }

  /** The objective is at least the penalty of any one runway. */
  lemma ObjectiveAtLeast(inst: Instance, ss: seq<seq<nat>>, r: nat)
    requires inst.WellFormed() && AllValidIds(inst, ss) && r < |ss|
    ensures Objective(inst, ss) >= TotalPenalty(inst, ss[r])
  {
    ObjectiveUpdate(inst, ss, r, []);
  }

  /** A zero objective means every runway has zero penalty. */
  lemma {:induction false} ObjectiveZero(inst: Instance, ss: seq<seq<nat>>, r: nat)
    requires inst.WellFormed() && AllValidIds(inst, ss) && r < |ss|
    requires Objective(inst, ss) == 0
    ensures TotalPenalty(inst, ss[r]) == 0
  {
    var last := |ss| - 1;
    if r < last {
      ObjectiveZero(inst, ss[..last], r);
    }
  }

  /** The per-flight runway/position caches name the place of every placed flight. */
  ghost predicate Placed(ss: seq<seq<nat>>, runwayOf: seq<nat>, position: seq<nat>) {
    forall r, k :: 0 <= r < |ss| && 0 <= k < |ss[r]| ==>
      ss[r][k] < |runwayOf| && ss[r][k] < |position| &&
      runwayOf[ss[r][k]] == r && position[ss[r][k]] == k
  }

  /** Through the caches, two different places never hold the same flight. */
  lemma PlacedDistinct(ss: seq<seq<nat>>, runwayOf: seq<nat>, position: seq<nat>,
                       r: nat, k: nat, r': nat, k': nat)
    requires Placed(ss, runwayOf, position)
    requires r < |ss| && k < |ss[r]| && r' < |ss| && k' < |ss[r']|
    requires r != r' || k != k'
    ensures ss[r][k] != ss[r'][k']
  {
  }

  /** Through the caches, no runway holds a flight twice. */
  lemma PlacedNoDup(ss: seq<seq<nat>>, runwayOf: seq<nat>, position: seq<nat>, r: nat)
    requires Placed(ss, runwayOf, position) && r < |ss|
    ensures NoDup(ss[r])
  {
    forall p, q | 0 <= p < q < |ss[r]|
      ensures ss[r][p] != ss[r][q]
    {
      PlacedDistinct(ss, runwayOf, position, r, p, r, q);
    }
  }

  /** Through the caches, two different runways share no flight. */
  lemma PlacedDisjoint(ss: seq<seq<nat>>, runwayOf: seq<nat>, position: seq<nat>, ri: nat, rj: nat)
    requires Placed(ss, runwayOf, position) && ri < |ss| && rj < |ss| && ri != rj
    ensures forall k :: 0 <= k < |ss[rj]| ==> ss[rj][k] !in ss[ri]
  {
    forall k | 0 <= k < |ss[rj]|
      ensures ss[rj][k] !in ss[ri]
    {
      forall k' | 0 <= k' < |ss[ri]|
        ensures ss[ri][k'] != ss[rj][k]
      {
        PlacedDistinct(ss, runwayOf, position, ri, k', rj, k);
      }
    }
  }

  /** When runways ri and rj (possibly the same) are rewritten with flights
      taken from those two runways only, caches that name the new place of
      every flight of the rewritten runways, and are unchanged for every other
      flight, place every flight again. */
  lemma PlacedAfterRewrite(ss: seq<seq<nat>>, runwayOf: seq<nat>, position: seq<nat>, ri: nat, rj: nat,
                           ss': seq<seq<nat>>, runwayOf': seq<nat>, position': seq<nat>)
    requires Placed(ss, runwayOf, position)
    requires ri < |ss| && rj < |ss| && |ss'| == |ss|
    requires forall q :: 0 <= q < |ss| && q != ri && q != rj ==> ss'[q] == ss[q]
    requires forall k :: 0 <= k < |ss'[ri]| ==> ss'[ri][k] in ss[ri] || ss'[ri][k] in ss[rj]
    requires forall k :: 0 <= k < |ss'[rj]| ==> ss'[rj][k] in ss[ri] || ss'[rj][k] in ss[rj]
    requires |runwayOf'| == |runwayOf| == |position| == |position'|
    requires forall k :: 0 <= k < |ss'[ri]| ==>
               ss'[ri][k] < |runwayOf| && runwayOf'[ss'[ri][k]] == ri && position'[ss'[ri][k]] == k
    requires forall k :: 0 <= k < |ss'[rj]| ==>
               ss'[rj][k] < |runwayOf| && runwayOf'[ss'[rj][k]] == rj && position'[ss'[rj][k]] == k
    requires forall x :: 0 <= x < |runwayOf| && x !in ss'[ri] && x !in ss'[rj] ==>
               runwayOf'[x] == runwayOf[x] && position'[x] == position[x]
    ensures Placed(ss', runwayOf', position')
  {
    forall q, k | 0 <= q < |ss'| && 0 <= k < |ss'[q]|
      ensures ss'[q][k] < |runwayOf'| && ss'[q][k] < |position'|
      ensures runwayOf'[ss'[q][k]] == q && position'[ss'[q][k]] == k
    {
      var x := ss'[q][k];
      if q != ri && q != rj {
        assert x == ss[q][k];
        forall k' | 0 <= k' < |ss[ri]|
          ensures ss[ri][k'] != x
        {
          PlacedDistinct(ss, runwayOf, position, q, k, ri, k');
        }
        forall k' | 0 <= k' < |ss[rj]|
          ensures ss[rj][k'] != x
        {
          PlacedDistinct(ss, runwayOf, position, q, k, rj, k');
        }
      }
    }
  }

  /** Every runway of rs is non-empty and its caches agree with its sequence
      and the start times. */
  ghost predicate RunwaysConsistent(inst: Instance, rs: seq<Runway>, start: seq<nat>) {
    forall r :: 0 <= r < |rs| ==> |rs[r].sequence| >= 1 && Consistent(inst, rs[r], start)
  }

  /** A consistent runway list holds only valid flight ids. */
  lemma ConsistentValidIds(inst: Instance, rs: seq<Runway>, start: seq<nat>)
    requires RunwaysConsistent(inst, rs, start)
    ensures AllValidIds(inst, SequencesOf(rs))
  {
    forall r | 0 <= r < |rs|
      ensures ValidIds(inst, SequencesOf(rs)[r])
    {
      assert Consistent(inst, rs[r], start);
    }
  }

  /** What a search state must satisfy between operations: one non-empty runway
      per instance runway, each with caches consistent with its sequence and
      the start times, the runways together hold every flight exactly once,
      the runway/position caches are right, and the objective is the sum of
      the runway penalties. */
  ghost predicate ScheduleInvariant(inst: Instance, sol: Solution,
                                    start: seq<nat>, runwayOf: seq<nat>, position: seq<nat>)
  {
    && inst.WellFormed()
    && |sol.runways| == inst.numRunways
    && |start| == inst.numFlights && |runwayOf| == inst.numFlights && |position| == inst.numFlights
    && RunwaysConsistent(inst, sol.runways, start)
    && FlightBag(SequencesOf(sol.runways)) == AllFlights(inst.numFlights)
    && Placed(SequencesOf(sol.runways), runwayOf, position)
    && AllValidIds(inst, SequencesOf(sol.runways))
    && sol.objective == Objective(inst, SequencesOf(sol.runways))
  }

  /** The flights before place (r, j) in runway-then-position order. */
  ghost function SeenBefore(ss: seq<seq<nat>>, r: nat, j: nat): set<nat> {
    set r', k | 0 <= r' < |ss| && 0 <= k < |ss[r']| && (r' < r || (r' == r && k < j)) :: ss[r'][k]
  }

  /** No flight at a non-first position before place (r, j) repeats an earlier flight. */
  ghost predicate LaterDistinctBefore(ss: seq<seq<nat>>, r: nat, j: nat) {
    forall r1, j1, r', k ::
      && 0 <= r1 < |ss| && 1 <= j1 < |ss[r1]| && (r1 < r || (r1 == r && j1 < j))
      && 0 <= r' < |ss| && 0 <= k < |ss[r']| && (r' < r1 || (r' == r1 && k < j1))
      ==> ss[r'][k] != ss[r1][j1]
  }

  /** No flight at any position before place (r, j) repeats an earlier flight. */
  ghost predicate DistinctBefore(ss: seq<seq<nat>>, r: nat, j: nat) {
    forall r1, j1, r', k ::
      && 0 <= r1 < |ss| && 0 <= j1 < |ss[r1]| && (r1 < r || (r1 == r && j1 < j))
      && 0 <= r' < |ss| && 0 <= k < |ss[r']| && (r' < r1 || (r' == r1 && k < j1))
      ==> ss[r'][k] != ss[r1][j1]
  }

  lemma SeenStep(ss: seq<seq<nat>>, r: nat, j: nat)
    requires r < |ss| && j < |ss[r]|
    ensures SeenBefore(ss, r, j + 1) == SeenBefore(ss, r, j) + {ss[r][j]}
  {
    assert ss[r][j] in SeenBefore(ss, r, j + 1);
  }

  lemma SeenNextRunway(ss: seq<seq<nat>>, r: nat)
    requires r < |ss|
    ensures SeenBefore(ss, r + 1, 0) == SeenBefore(ss, r, |ss[r]|)
  {
  }

  lemma LaterStep(ss: seq<seq<nat>>, r: nat, j: nat)
    requires r < |ss| && j < |ss[r]| && LaterDistinctBefore(ss, r, j)
    requires j == 0 || ss[r][j] !in SeenBefore(ss, r, j)
    ensures LaterDistinctBefore(ss, r, j + 1)
  {
    if j > 0 {
      forall r', k | 0 <= r' < |ss| && 0 <= k < |ss[r']| && (r' < r || (r' == r && k < j))
        ensures ss[r'][k] != ss[r][j]
      {
        assert ss[r'][k] in SeenBefore(ss, r, j);
      }
    }
  }

  lemma LaterNextRunway(ss: seq<seq<nat>>, r: nat)
    requires r < |ss| && LaterDistinctBefore(ss, r, |ss[r]|)
    ensures LaterDistinctBefore(ss, r + 1, 0)
  {
  }

  lemma LaterRepeat(ss: seq<seq<nat>>, r: nat, j: nat)
    requires r < |ss| && 1 <= j < |ss[r]| && ss[r][j] in SeenBefore(ss, r, j)
    ensures !LaterDistinctBefore(ss, |ss|, 0)
  {
    var r', k :| 0 <= r' < |ss| && 0 <= k < |ss[r']| && (r' < r || (r' == r && k < j)) && ss[r'][k] == ss[r][j];
  }

  lemma DistinctStep(ss: seq<seq<nat>>, r: nat, j: nat)
    requires r < |ss| && j < |ss[r]| && DistinctBefore(ss, r, j)
    requires ss[r][j] !in SeenBefore(ss, r, j)
    ensures DistinctBefore(ss, r, j + 1)
  {
    forall r', k | 0 <= r' < |ss| && 0 <= k < |ss[r']| && (r' < r || (r' == r && k < j))
      ensures ss[r'][k] != ss[r][j]
    {
      assert ss[r'][k] in SeenBefore(ss, r, j);
    }
  }

  lemma DistinctNextRunway(ss: seq<seq<nat>>, r: nat)
    requires r < |ss| && DistinctBefore(ss, r, |ss[r]|)
    ensures DistinctBefore(ss, r + 1, 0)
  {
  }

  lemma DistinctRepeat(ss: seq<seq<nat>>, r: nat, j: nat)
    requires r < |ss| && j < |ss[r]| && ss[r][j] in SeenBefore(ss, r, j)
    ensures !DistinctBefore(ss, |ss|, 0)
  {
    var r', k :| 0 <= r' < |ss| && 0 <= k < |ss[r']| && (r' < r || (r' == r && k < j)) && ss[r'][k] == ss[r][j];
  }

  /** Objective and flight count of the first r + 1 runways. */
  lemma TakeOneMore(inst: Instance, ss: seq<seq<nat>>, r: nat)
    requires inst.WellFormed() && AllValidIds(inst, ss) && r < |ss|
    ensures Objective(inst, ss[..r + 1]) == Objective(inst, ss[..r]) + TotalPenalty(inst, ss[r])
    ensures TotalLength(ss[..r + 1]) == TotalLength(ss[..r]) + |ss[r]|
  {
    assert ss[..r + 1][..r] == ss[..r];
  }

  /** What Solution::test_feasibility accepts as written: the runway count
      matches, no flight at a non-first position repeats an earlier one, the
      recomputed objective matches and the flight count is the instance's. */
  ghost predicate AcceptedAsWritten(inst: Instance, ss: seq<seq<nat>>, objective: nat)
    requires inst.WellFormed()
  {
    && |ss| == inst.numRunways
    && AllValidIds(inst, ss)
    && LaterDistinctBefore(ss, |ss|, 0)
    && Objective(inst, ss) == objective
    && TotalLength(ss) == inst.numFlights
  }

  /** A feasible solution: one runway per instance runway, every flight on exactly
      one runway exactly once, and the stored objective is the recomputed one. */
  ghost predicate Feasible(inst: Instance, ss: seq<seq<nat>>, objective: nat)
    requires inst.WellFormed()
  {
    && |ss| == inst.numRunways
    && AllValidIds(inst, ss)
    && FlightBag(ss) == AllFlights(inst.numFlights)
    && Objective(inst, ss) == objective
  }

  /** What the corrected test accepts: the as-written conditions with the
      first flight of every runway looked up too. */
  ghost predicate Accepted(inst: Instance, ss: seq<seq<nat>>, objective: nat)
    requires inst.WellFormed()
  {
    && |ss| == inst.numRunways
    && AllValidIds(inst, ss)
    && DistinctBefore(ss, |ss|, 0)
    && Objective(inst, ss) == objective
    && TotalLength(ss) == inst.numFlights
  }

  /** The test as written accepts a schedule that places flight 0 twice and
      never places flight 1: the first flight of a runway is never looked up. */
  lemma AsWrittenAcceptsDuplicateFirstFlight()
    ensures var inst := Instance(2, 2, [0, 0], [1, 1], [1, 1], [0, 0, 0, 0]);
            AcceptedAsWritten(inst, [[0], [0]], 0) && !Feasible(inst, [[0], [0]], 0)
  {
    var inst := Instance(2, 2, [0, 0], [1, 1], [1, 1], [0, 0, 0, 0]);
    var ss: seq<seq<nat>> := [[0], [0]];
    assert ss[..1] == [[0]];
    assert [[0]][..0] == [];
    assert TotalLength(ss) == 2;
    assert Objective(inst, ss) == 0;
    AllFlightsCount(2, 1);
    assert FlightBag(ss)[1] == 0 by {
      assert FlightBag(ss) == FlightBag([[0]]) + multiset{0};
      assert FlightBag([[0]]) == FlightBag([]) + multiset{0};
    }
  }

  /** Accepting a schedule is the same as it being feasible, for the corrected test. */
  lemma FeasibleIff(inst: Instance, ss: seq<seq<nat>>, objective: nat)
    requires inst.WellFormed()
    ensures Feasible(inst, ss, objective) <==> Accepted(inst, ss, objective)
  {
    if !AllValidIds(inst, ss) {
      return;
    }
    PartitionIff(ss, inst.numFlights);
    assert DistinctBefore(ss, |ss|, 0) <==> DistinctPlacements(ss);
  }

  /** The distinctness the scan has established up to place (r, j): of all
      flights when the first flight of a runway is looked up, else of the
      flights at non-first positions. */
  ghost predicate NoRepeatBefore(ss: seq<seq<nat>>, r: nat, j: nat, checkFirst: bool) {
    if checkFirst then DistinctBefore(ss, r, j) else LaterDistinctBefore(ss, r, j)
  }

  lemma NoRepeatStep(ss: seq<seq<nat>>, r: nat, j: nat, checkFirst: bool)
    requires r < |ss| && j < |ss[r]| && NoRepeatBefore(ss, r, j, checkFirst)
    requires (j == 0 && !checkFirst) || ss[r][j] !in SeenBefore(ss, r, j)
    ensures NoRepeatBefore(ss, r, j + 1, checkFirst)
    ensures SeenBefore(ss, r, j + 1) == SeenBefore(ss, r, j) + {ss[r][j]}
  {
    SeenStep(ss, r, j);
    if checkFirst {
      DistinctStep(ss, r, j);
    } else {
      LaterStep(ss, r, j);
    }
  }

  lemma NoRepeatFails(ss: seq<seq<nat>>, r: nat, j: nat, checkFirst: bool)
    requires r < |ss| && j < |ss[r]| && (checkFirst || j >= 1)
    requires ss[r][j] in SeenBefore(ss, r, j)
    ensures !NoRepeatBefore(ss, |ss|, 0, checkFirst)
  {
    if checkFirst {
      DistinctRepeat(ss, r, j);
    } else {
      LaterRepeat(ss, r, j);
    }
  }

  lemma NoRepeatNextRunway(ss: seq<seq<nat>>, r: nat, checkFirst: bool)
    requires r < |ss| && NoRepeatBefore(ss, r, |ss[r]|, checkFirst)
    ensures NoRepeatBefore(ss, r + 1, 0, checkFirst)
    ensures SeenBefore(ss, r + 1, 0) == SeenBefore(ss, r, |ss[r]|)
  {
    SeenNextRunway(ss, r);
    if checkFirst {
      DistinctNextRunway(ss, r);
    } else {
      LaterNextRunway(ss, r);
    }
  }

  /** The scan test_feasibility runs over runway r (landing sequence s): walks the
      chained starts summing the costs and stops at the first flight already seen;
      the first flight is looked up only when `checkFirst` holds. */
  method ScanRunway(inst: Instance, ghost ss: seq<seq<nat>>, r: nat, s: seq<nat>,
                    seen: set<nat>, checkFirst: bool)
    returns (ok: bool, seen': set<nat>, penalty: nat)
    requires inst.WellFormed() && r < |ss| && s == ss[r] && |s| >= 1 && ValidIds(inst, s)
    requires seen == SeenBefore(ss, r, 0) && NoRepeatBefore(ss, r, 0, checkFirst)
    ensures ok ==> seen' == SeenBefore(ss, r + 1, 0) && NoRepeatBefore(ss, r + 1, 0, checkFirst)
    ensures ok ==> penalty == TotalPenalty(inst, s)
    ensures !ok ==> !NoRepeatBefore(ss, |ss|, 0, checkFirst)
  {
    seen' := seen;
    penalty := 0;
    if checkFirst && s[0] in seen' {
      NoRepeatFails(ss, r, 0, checkFirst);
      return false, seen', penalty;
    }
    var currentTime := inst.ReleaseTime(s[0]);
    NoRepeatStep(ss, r, 0, checkFirst);
    seen' := seen' + {s[0]};
    var j := 1;
    while j < |s|
      invariant 1 <= j <= |s|
      invariant seen' == SeenBefore(ss, r, j) && NoRepeatBefore(ss, r, j, checkFirst)
      invariant currentTime == StartTime(inst, s, j - 1)
      invariant penalty == PrefixPenalty(inst, s, j)
    {
      var flight := s[j - 1];
      var next := s[j];
      if next in seen' {
        NoRepeatFails(ss, r, j, checkFirst);
        return false, seen', penalty;
      }
      NoRepeatStep(ss, r, j, checkFirst);
      seen' := seen' + {next};
      currentTime := NextStart(inst, flight, currentTime, next);
      penalty := penalty + Cost(inst, next, currentTime);
      j := j + 1;
    }
    NoRepeatNextRunway(ss, r, checkFirst);
    ok := true;
  }

  /** Solution::test_feasibility as written: the first flight of each runway
      is added to the seen set without being looked up. */
  method TestFeasibilityAsWritten(inst: Instance, sol: Solution) returns (ok: bool)
    requires inst.WellFormed()
    requires |sol.runways| == inst.numRunways ==>
      forall r :: 0 <= r < |sol.runways| ==> |sol.runways[r].sequence| >= 1 && ValidIds(inst, sol.runways[r].sequence)
    ensures ok <==> AcceptedAsWritten(inst, SequencesOf(sol.runways), sol.objective)
  {
    ghost var ss := SequencesOf(sol.runways);
    if |sol.runways| != inst.numRunways {
      return false;
    }
    assert AllValidIds(inst, ss);
    var seen: set<nat> := {};
    var realObjective := 0;
    var totalFlights := 0;
    var r := 0;
    while r < |sol.runways|
      invariant 0 <= r <= |sol.runways|
      invariant seen == SeenBefore(ss, r, 0) && NoRepeatBefore(ss, r, 0, false)
      invariant realObjective == Objective(inst, ss[..r])
      invariant totalFlights == TotalLength(ss[..r])
    {
      var s := sol.runways[r].sequence;
      TakeOneMore(inst, ss, r);
      var runwayOk, penalty;
      runwayOk, seen, penalty := ScanRunway(inst, ss, r, s, seen, false);
      if !runwayOk {
        return false;
      }
      realObjective := realObjective + penalty;
      totalFlights := totalFlights + |s|;
      r := r + 1;
    }
    assert ss[..r] == ss;
    return realObjective == sol.objective && totalFlights == inst.numFlights;
  }

  /** The corrected test: the first flight of each runway is looked up like
      every other, so acceptance is exactly feasibility. */
  method TestFeasibility(inst: Instance, sol: Solution) returns (ok: bool)
    requires inst.WellFormed()
    requires |sol.runways| == inst.numRunways ==>
      forall r :: 0 <= r < |sol.runways| ==> |sol.runways[r].sequence| >= 1 && ValidIds(inst, sol.runways[r].sequence)
    ensures ok <==> Feasible(inst, SequencesOf(sol.runways), sol.objective)
  {
    ghost var ss := SequencesOf(sol.runways);
    ok := TestAcceptance(inst, sol);
    FeasibleIff(inst, ss, sol.objective);
  }

  method TestAcceptance(inst: Instance, sol: Solution) returns (ok: bool)
    requires inst.WellFormed()
    requires |sol.runways| == inst.numRunways ==>
      forall r :: 0 <= r < |sol.runways| ==> |sol.runways[r].sequence| >= 1 && ValidIds(inst, sol.runways[r].sequence)
    ensures ok <==> Accepted(inst, SequencesOf(sol.runways), sol.objective)
  {
    ghost var ss := SequencesOf(sol.runways);
    if |sol.runways| != inst.numRunways {
      return false;
    }
    assert AllValidIds(inst, ss);
    var seen: set<nat> := {};
    var realObjective := 0;
    var totalFlights := 0;
    var r := 0;
    while r < |sol.runways|
      invariant 0 <= r <= |sol.runways|
      invariant seen == SeenBefore(ss, r, 0) && NoRepeatBefore(ss, r, 0, true)
      invariant realObjective == Objective(inst, ss[..r])
      invariant totalFlights == TotalLength(ss[..r])
    {
      var s := sol.runways[r].sequence;
      TakeOneMore(inst, ss, r);
      var runwayOk, penalty;
      runwayOk, seen, penalty := ScanRunway(inst, ss, r, s, seen, true);
      if !runwayOk {
        return false;
      }
      realObjective := realObjective + penalty;
      totalFlights := totalFlights + |s|;
      r := r + 1;
    }
    assert ss[..r] == ss;
    return realObjective == sol.objective && totalFlights == inst.numFlights;
  }
}
