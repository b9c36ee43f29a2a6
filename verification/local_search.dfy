/** The two local searches of the solver: VND cycles through the four
    best-improvement neighbourhoods in a fixed order, RVND draws them at
    random from a shrinking set. Both stop at a solution none of the four
    neighbourhoods can improve. */
module LocalSearch {
  import opened Instances
  import opened Schedule
  import opened Solutions
  import opened Asp
  import opened IntraSwapNeighborhood
  import opened IntraMoveSearch
  import opened IntraMoveNeighborhood
  import opened InterSwapSearch
  import opened InterSwapNeighborhood
  import opened InterMoveSearch
  import opened InterMoveNeighborhood

  datatype Neighborhood = IntraSwap | InterSwap | IntraMove | InterMove | WorstFlight

  /** Neighbourhood nb has no improving move on schedule ss. The worst-flight
      move is not part of this model and never claims anything. */
  ghost predicate NotImprovable(inst: Instance, ss: seq<seq<nat>>, nb: Neighborhood)
    requires inst.WellFormed() && AllValidIds(inst, ss)
  {
    match nb
    case IntraSwap => NoImprovingIntraSwap(inst, ss)
    case IntraMove => NoImprovingIntraMove(inst, ss)
    case InterSwap => NoImprovingInterSwap(inst, ss)
    case InterMove => NoImprovingInterMove(inst, ss)
    case WorstFlight => true
  }

  /** No swap or relocation, within a runway or between two, improves ss. */
  ghost predicate LocalOptimum(inst: Instance, ss: seq<seq<nat>>)
    requires inst.WellFormed() && AllValidIds(inst, ss)
  {
    && NoImprovingIntraSwap(inst, ss) && NoImprovingIntraMove(inst, ss)
    && NoImprovingInterSwap(inst, ss) && NoImprovingInterMove(inst, ss)
  }

  /** ASP::move_worst_flight, whose body is not part of this model.
      Callers may rely only on what it promises: it keeps the invariant and
      applies a move only when that lowers the objective. The stand-in never
      applies one. */
  method MoveWorstFlight(asp: ASP, sol: Solution) returns (improved: bool, sol': Solution)
    requires asp.Valid(sol)
    modifies asp.startTime, asp.runwayOf, asp.position
    ensures asp.Valid(sol')
    ensures improved <==> sol'.objective < sol.objective
    ensures !improved ==> sol' == sol && unchanged(asp.startTime, asp.runwayOf, asp.position)
  {
    return false, sol;
  }

  /** One case of the neighbourhood switch: the neighbourhood is searched and
      its best move applied. The result says whether the objective dropped;
      when it did not, nothing changed and the neighbourhood has no
      improving move. */
  method Explore(asp: ASP, sol: Solution, nb: Neighborhood) returns (improved: bool, sol': Solution)
    requires asp.Valid(sol)
    modifies asp.startTime, asp.runwayOf, asp.position
    ensures asp.Valid(sol')
    ensures improved <==> sol'.objective < sol.objective
    ensures !improved ==> sol' == sol && unchanged(asp.startTime, asp.runwayOf, asp.position)
    ensures !improved ==> NotImprovable(asp.instance, SequencesOf(sol.runways), nb)
    ensures nb != WorstFlight ==> (improved <==> !NotImprovable(asp.instance, SequencesOf(sol.runways), nb))
  {
    match nb
    case IntraSwap => improved, sol' := BestImprovementIntraSwap(asp, sol);
    case InterSwap => improved, sol' := BestImprovementInterSwap(asp, sol);
    case IntraMove => improved, sol' := BestImprovementIntraMove(asp, sol);
    case InterMove => improved, sol' := BestImprovementInterMove(asp, sol);
    case WorstFlight => improved, sol' := MoveWorstFlight(asp, sol);
  }

  /** The order VND tries the neighbourhoods in. */
  const VndOrder: seq<Neighborhood> := [IntraSwap, IntraMove, InterSwap, InterMove]

  /** One call of VND's loop: the index of the neighbourhood searched, and
      whether it improved. */
  datatype Visit = Visit(index: nat, improved: bool)

  /** The index VND searches after visit v: back to the first neighbourhood
      after an improvement, on to the next one otherwise. */
  function NextIndex(v: Visit): nat {
    if v.improved then 0 else v.index + 1
  }

  /** A whole run of VND: it starts with the first neighbourhood, each visit
      follows from the previous one, and the last visit is a failure of the
      last neighbourhood. */
  ghost predicate VndRun(trace: seq<Visit>) {
    && |trace| >= 1 && trace[0].index == 0
    && (forall k :: 0 <= k < |trace| ==> trace[k].index < |VndOrder|)
    && (forall j, k :: 0 <= j && k == j + 1 && k < |trace| ==> trace[k].index == NextIndex(trace[j]))
    && NextIndex(trace[|trace| - 1]) == |VndOrder|
  }

  /** VND's visits so far, with current the index it searches next. */
  ghost predicate VndSoFar(trace: seq<Visit>, current: nat) {
    && (|trace| == 0 ==> current == 0)
    && (|trace| >= 1 ==> trace[0].index == 0 && current == NextIndex(trace[|trace| - 1]))
    && (forall k :: 0 <= k < |trace| ==> trace[k].index < |VndOrder|)
    && (forall j, k :: 0 <= j && k == j + 1 && k < |trace| ==> trace[k].index == NextIndex(trace[j]))
  }

  lemma VndStep(trace: seq<Visit>, current: nat, improved: bool)
    requires VndSoFar(trace, current) && current < |VndOrder|
    ensures VndSoFar(trace + [Visit(current, improved)], NextIndex(Visit(current, improved)))
  {
    var trace' := trace + [Visit(current, improved)];
    forall j, k | 0 <= j && k == j + 1 && k < |trace'|
      ensures trace'[k].index == NextIndex(trace'[j])
    {
      if k < |trace| {
        assert trace'[j] == trace[j] && trace'[k] == trace[k];
      }
    }
  }

  /** The neighbourhoods before index current all fail on ss. */
  ghost predicate FailedBefore(inst: Instance, ss: seq<seq<nat>>, current: nat)
    requires inst.WellFormed() && AllValidIds(inst, ss)
  {
    forall k :: 0 <= k < current && k < |VndOrder| ==> NotImprovable(inst, ss, VndOrder[k])
  }

  lemma FailedNext(inst: Instance, ss: seq<seq<nat>>, current: nat)
    requires inst.WellFormed() && AllValidIds(inst, ss) && current < |VndOrder|
    requires FailedBefore(inst, ss, current) && NotImprovable(inst, ss, VndOrder[current])
    ensures FailedBefore(inst, ss, current + 1)
  {
  }

  lemma NoneFailed(inst: Instance, ss: seq<seq<nat>>)
    requires inst.WellFormed() && AllValidIds(inst, ss)
    ensures FailedBefore(inst, ss, 0)
  {
  }

  lemma VndDone(trace: seq<Visit>)
    requires VndSoFar(trace, |VndOrder|)
    ensures VndRun(trace)
  {
  }

  /** When all four have failed, ss is a local optimum. */
  lemma AllFailed(inst: Instance, ss: seq<seq<nat>>)
    requires inst.WellFormed() && AllValidIds(inst, ss)
    requires FailedBefore(inst, ss, |VndOrder|)
    ensures LocalOptimum(inst, ss)
  {
    assert NotImprovable(inst, ss, VndOrder[0]) && NotImprovable(inst, ss, VndOrder[1]);
    assert NotImprovable(inst, ss, VndOrder[2]) && NotImprovable(inst, ss, VndOrder[3]);
  }

  /** ASP::VND: the neighbourhoods are searched in the order intra swap,
      intra move, inter swap, inter move; an improvement sends the search
      back to the first, a failure on to the next, and the search ends after
      the last fails. The objective never grows, and the result is a local
      optimum of all four neighbourhoods. */
  method VND(asp: ASP, sol: Solution) returns (sol': Solution, ghost trace: seq<Visit>)
    requires asp.Valid(sol)
    modifies asp.startTime, asp.runwayOf, asp.position
    ensures asp.Valid(sol')
    ensures sol'.objective <= sol.objective
    ensures LocalOptimum(asp.instance, SequencesOf(sol'.runways))
    ensures VndRun(trace)
  {
    var current := 0;
    sol' := sol;
    trace := [];
    while current < |VndOrder|
      invariant current <= |VndOrder|
      invariant asp.Valid(sol') && sol'.objective <= sol.objective
      invariant FailedBefore(asp.instance, SequencesOf(sol'.runways), current)
      invariant VndSoFar(trace, current)
      decreases sol'.objective, |VndOrder| - current
    {
      var improved;
      improved, sol' := Explore(asp, sol', VndOrder[current]);
      VndStep(trace, current, improved);
      trace := trace + [Visit(current, improved)];
      if improved {
        NoneFailed(asp.instance, SequencesOf(sol'.runways));
        current := 0;
      } else {
        FailedNext(asp.instance, SequencesOf(sol'.runways), current);
        current := current + 1;
      }
    }
    AllFailed(asp.instance, SequencesOf(sol'.runways));
    VndDone(trace);
  }

  /** The neighbourhoods RVND starts with and returns to after an improvement. */
  const AllNeighborhoods: seq<Neighborhood> := [IntraSwap, InterSwap, IntraMove, InterMove, WorstFlight]

  /** One call of RVND's loop: the neighbourhoods still available, the index
      drawn among them, and whether the one drawn improved. */
  datatype Draw = Draw(available: seq<Neighborhood>, index: nat, improved: bool)

  /** The neighbourhoods available after draw d: all five again after an
      improvement, all but the one drawn otherwise. */
  function Remaining(d: Draw): seq<Neighborhood>
    requires d.index < |d.available|
  {
    if d.improved then AllNeighborhoods else d.available[..d.index] + d.available[d.index + 1..]
  }

  /** A whole run of RVND with random numbers rand(from), rand(from + 1), ...:
      it starts with all five neighbourhoods, draw k picks index
      rand(from + k) modulo the number available, each draw leaves what the
      previous one left, and the last leaves nothing. */
  ghost predicate RvndRun(trace: seq<Draw>, rand: nat -> nat, from: nat) {
    && |trace| >= 1 && trace[0].available == AllNeighborhoods
    && (forall k :: 0 <= k < |trace| ==>
          |trace[k].available| >= 1 && trace[k].index == rand(from + k) % |trace[k].available|)
    && (forall j, k :: 0 <= j && k == j + 1 && k < |trace| ==> trace[k].available == Remaining(trace[j]))
    && Remaining(trace[|trace| - 1]) == []
  }

  /** No neighbourhood is listed twice. */
  ghost predicate Distinct(s: seq<Neighborhood>) {
    forall i, j :: 0 <= i < j < |s| ==> s[i] != s[j]
  }

  /** Erasing entry c of a list without repeats leaves exactly the other
      entries, still without repeats. */
  lemma Erase(s: seq<Neighborhood>, c: nat)
    requires Distinct(s) && c < |s|
    ensures Distinct(s[..c] + s[c + 1..])
    ensures forall x :: x in s[..c] + s[c + 1..] <==> x in s && x != s[c]
  {
    var t := s[..c] + s[c + 1..];
    forall i, j | 0 <= i < j < |t|
      ensures t[i] != t[j]
    {
      var i' := if i < c then i else i + 1;
      var j' := if j < c then j else j + 1;
      assert t[i] == s[i'] && t[j] == s[j'];
    }
    forall x | x in s && x != s[c]
      ensures x in t
    {
      var i :| 0 <= i < |s| && s[i] == x;
      if i < c {
        assert t[i] == x;
      } else {
        assert t[i - 1] == x;
      }
    }
  }

  /** RVND's draws so far, with neighborhoods the ones still available. */
  ghost predicate RvndSoFar(trace: seq<Draw>, rand: nat -> nat, from: nat, neighborhoods: seq<Neighborhood>) {
    && (|trace| == 0 ==> neighborhoods == AllNeighborhoods)
    && (|trace| >= 1 ==> trace[0].available == AllNeighborhoods)
    && (forall k :: 0 <= k < |trace| ==>
          |trace[k].available| >= 1 && trace[k].index == rand(from + k) % |trace[k].available|)
    && (forall j, k :: 0 <= j && k == j + 1 && k < |trace| ==> trace[k].available == Remaining(trace[j]))
    && (|trace| >= 1 ==> neighborhoods == Remaining(trace[|trace| - 1]))
  }

  lemma RvndStep(trace: seq<Draw>, rand: nat -> nat, from: nat, neighborhoods: seq<Neighborhood>, improved: bool)
    requires RvndSoFar(trace, rand, from, neighborhoods) && |neighborhoods| >= 1
    ensures var d := Draw(neighborhoods, rand(from + |trace|) % |neighborhoods|, improved);
      RvndSoFar(trace + [d], rand, from, Remaining(d))
  {
    var d := Draw(neighborhoods, rand(from + |trace|) % |neighborhoods|, improved);
    var trace' := trace + [d];
    forall j, k | 0 <= j && k == j + 1 && k < |trace'|
      ensures trace'[k].available == Remaining(trace'[j])
    {
      if k < |trace| {
        assert trace'[j] == trace[j] && trace'[k] == trace[k];
      }
    }
  }

  lemma RvndDone(trace: seq<Draw>, rand: nat -> nat, from: nat)
    requires RvndSoFar(trace, rand, from, [])
    ensures RvndRun(trace, rand, from)
  {
  }

  /** Every neighbourhood missing from the available ones fails on ss. */
  ghost predicate Exhausted(inst: Instance, ss: seq<seq<nat>>, neighborhoods: seq<Neighborhood>)
    requires inst.WellFormed() && AllValidIds(inst, ss)
  {
    forall nb :: nb !in neighborhoods ==> NotImprovable(inst, ss, nb)
  }

  lemma NoneExhausted(inst: Instance, ss: seq<seq<nat>>)
    requires inst.WellFormed() && AllValidIds(inst, ss)
    ensures Exhausted(inst, ss, AllNeighborhoods) && Distinct(AllNeighborhoods)
  {
    forall nb
      ensures nb in AllNeighborhoods
    {
      match nb
      case IntraSwap => assert AllNeighborhoods[0] == nb;
      case InterSwap => assert AllNeighborhoods[1] == nb;
      case IntraMove => assert AllNeighborhoods[2] == nb;
      case InterMove => assert AllNeighborhoods[3] == nb;
      case WorstFlight => assert AllNeighborhoods[4] == nb;
    }
  }

  lemma ExhaustedErase(inst: Instance, ss: seq<seq<nat>>, neighborhoods: seq<Neighborhood>, c: nat)
    requires inst.WellFormed() && AllValidIds(inst, ss)
    requires Distinct(neighborhoods) && c < |neighborhoods|
    requires Exhausted(inst, ss, neighborhoods) && NotImprovable(inst, ss, neighborhoods[c])
    ensures Distinct(neighborhoods[..c] + neighborhoods[c + 1..])
    ensures Exhausted(inst, ss, neighborhoods[..c] + neighborhoods[c + 1..])
  {
    Erase(neighborhoods, c);
  }

  /** When every neighbourhood has failed, ss is a local optimum. */
  lemma AllExhausted(inst: Instance, ss: seq<seq<nat>>)
    requires inst.WellFormed() && AllValidIds(inst, ss)
    requires Exhausted(inst, ss, [])
    ensures LocalOptimum(inst, ss)
  {
    assert NotImprovable(inst, ss, IntraSwap) && NotImprovable(inst, ss, IntraMove);
    assert NotImprovable(inst, ss, InterSwap) && NotImprovable(inst, ss, InterMove);
  }

  /** ASP::RVND, with rand() given as the stream rand(from), rand(from + 1),
      ...: each round searches the neighbourhood at index rand() modulo the
      number still available; an improvement makes all five available again,
      a failure removes the one drawn, and the search ends when none is
      left. The objective never grows and the result is a local optimum of
      the four neighbourhoods of this model. next is the position in the
      stream after the last draw. */
  method RVND(asp: ASP, sol: Solution, rand: nat -> nat, from: nat)
    returns (sol': Solution, next: nat, ghost trace: seq<Draw>)
    requires asp.Valid(sol)
    modifies asp.startTime, asp.runwayOf, asp.position
    ensures asp.Valid(sol')
    ensures sol'.objective <= sol.objective
    ensures LocalOptimum(asp.instance, SequencesOf(sol'.runways))
    ensures RvndRun(trace, rand, from) && next == from + |trace|
  {
    var neighborhoods := AllNeighborhoods;
    sol' := sol;
    trace := [];
    next := from;
    NoneExhausted(asp.instance, SequencesOf(sol.runways));
    while |neighborhoods| > 0
      invariant asp.Valid(sol') && sol'.objective <= sol.objective
      invariant Distinct(neighborhoods) && Exhausted(asp.instance, SequencesOf(sol'.runways), neighborhoods)
      invariant next == from + |trace| && RvndSoFar(trace, rand, from, neighborhoods)
      decreases sol'.objective, |neighborhoods|
    {
      var current := rand(next) % |neighborhoods|;
      var improved;
      improved, sol' := Explore(asp, sol', neighborhoods[current]);
      RvndStep(trace, rand, from, neighborhoods, improved);
      trace := trace + [Draw(neighborhoods, current, improved)];
      next := next + 1;
      if improved {
        NoneExhausted(asp.instance, SequencesOf(sol'.runways));
        neighborhoods := AllNeighborhoods;
      } else {
        ExhaustedErase(asp.instance, SequencesOf(sol'.runways), neighborhoods, current);
        neighborhoods := neighborhoods[..current] + neighborhoods[current + 1..];
      }
    }
    AllExhausted(asp.instance, SequencesOf(sol'.runways));
    RvndDone(trace, rand, from);
  }
}
