/** The four moves of the local search as operations on schedule values, the
    penalty change each one causes, the in-place swaps of the `moves`
    namespace, and its older full-recomputation intra-runway swap search. */
module Moves {
  import opened Instances
  import opened Schedule
  import opened Sequences
  import opened Runways
  import opened Solutions

  /** Flights i and j of runway r exchanged. */
  function IntraSwapped(ss: seq<seq<nat>>, r: nat, i: nat, j: nat): seq<seq<nat>>
    requires r < |ss| && i < |ss[r]| && j < |ss[r]|
  {
    ss[r := Swap(ss[r], i, j)]
  }

  /** Flight fi of runway ri exchanged with flight fj of runway rj (on one runway
      when ri == rj, where it is the intra-runway swap). */
  function InterSwapped(ss: seq<seq<nat>>, ri: nat, fi: nat, rj: nat, fj: nat): seq<seq<nat>>
    requires ri < |ss| && rj < |ss| && fi < |ss[ri]| && fj < |ss[rj]|
  {
    var a := ss[ri][fi];
    var b := ss[rj][fj];
    var t := ss[ri := ss[ri][fi := b]];
    t[rj := t[rj][fj := a]]
  }

  /** Flight fi of runway ri taken off and inserted at position fj of runway rj. */
  function InterMoved(ss: seq<seq<nat>>, ri: nat, fi: nat, rj: nat, fj: nat): seq<seq<nat>>
    requires ri < |ss| && rj < |ss| && ri != rj && fi < |ss[ri]| && fj <= |ss[rj]|
  {
    ss[ri := Remove(ss[ri], fi)][rj := Insert(ss[rj], fj, ss[ri][fi])]
  }

  /** Flight i of runway r moved to position j of the same runway. */
  function IntraMoved(ss: seq<seq<nat>>, r: nat, i: nat, j: nat): seq<seq<nat>>
    requires r < |ss| && i < |ss[r]| && j < |ss[r]|
  {
    ss[r := Relocate(ss[r], i, j)]
  }

  /** An intra-runway swap keeps every runway's length and the set of placed flights. */
  lemma IntraSwapKeepsFlights(ss: seq<seq<nat>>, r: nat, i: nat, j: nat)
    requires r < |ss| && i < |ss[r]| && j < |ss[r]|
    ensures |IntraSwapped(ss, r, i, j)| == |ss|
    ensures forall q :: 0 <= q < |ss| ==> |IntraSwapped(ss, r, i, j)[q]| == |ss[q]|
    ensures FlightBag(IntraSwapped(ss, r, i, j)) == FlightBag(ss)
  {
    var ss' := IntraSwapped(ss, r, i, j);
    BagUpdate(ss, r, Swap(ss[r], i, j));
    forall x
      ensures FlightBag(ss')[x] == FlightBag(ss)[x]
    {
      assert (FlightBag(ss') + multiset(ss[r]))[x] == (FlightBag(ss) + multiset(Swap(ss[r], i, j)))[x];
    }
    assert FlightBag(ss') == FlightBag(ss);
  }

  /** After an intra-runway swap the caches place both flights at their new
      positions once each takes the other's position. */
  lemma PlacedAfterIntraSwap(ss: seq<seq<nat>>, runwayOf: seq<nat>, position: seq<nat>, r: nat, i: nat, j: nat)
    requires Placed(ss, runwayOf, position)
    requires r < |ss| && i < |ss[r]| && j < |ss[r]|
    ensures Placed(IntraSwapped(ss, r, i, j), runwayOf, position[ss[r][i] := j][ss[r][j] := i])
  {
    var ss' := IntraSwapped(ss, r, i, j);
    var position' := position[ss[r][i] := j][ss[r][j] := i];
    forall q, k | 0 <= q < |ss'| && 0 <= k < |ss'[q]|
      ensures ss'[q][k] < |runwayOf| && ss'[q][k] < |position'|
      ensures runwayOf[ss'[q][k]] == q && position'[ss'[q][k]] == k
    {
      if q == r && (k == i || k == j) {
        if i != j {
          PlacedDistinct(ss, runwayOf, position, r, i, r, j);
        }
      } else {
        PlacedDistinct(ss, runwayOf, position, q, k, r, i);
        PlacedDistinct(ss, runwayOf, position, q, k, r, j);
      }
    }
  }

  /** After an inter-runway swap the caches place both flights at their new
      places once each takes the other's runway and position. */
  lemma PlacedAfterInterSwap(ss: seq<seq<nat>>, runwayOf: seq<nat>, position: seq<nat>,
                             ri: nat, fi: nat, rj: nat, fj: nat)
    requires Placed(ss, runwayOf, position)
    requires ri < |ss| && rj < |ss| && ri != rj && fi < |ss[ri]| && fj < |ss[rj]|
    ensures Placed(InterSwapped(ss, ri, fi, rj, fj),
                   runwayOf[ss[ri][fi] := rj][ss[rj][fj] := ri],
                   position[ss[ri][fi] := fj][ss[rj][fj] := fi])
  {
    var a, b := ss[ri][fi], ss[rj][fj];
    var ss' := InterSwapped(ss, ri, fi, rj, fj);
    var runwayOf' := runwayOf[a := rj][b := ri];
    var position' := position[a := fj][b := fi];
    PlacedDistinct(ss, runwayOf, position, ri, fi, rj, fj);
    forall q, k | 0 <= q < |ss'| && 0 <= k < |ss'[q]|
      ensures ss'[q][k] < |runwayOf'| && ss'[q][k] < |position'|
      ensures runwayOf'[ss'[q][k]] == q && position'[ss'[q][k]] == k
    {
      if !((q == ri && k == fi) || (q == rj && k == fj)) {
        assert ss'[q][k] == ss[q][k];
        PlacedDistinct(ss, runwayOf, position, q, k, ri, fi);
        PlacedDistinct(ss, runwayOf, position, q, k, rj, fj);
      }
    }
  }

  /** Swapping the same pair twice restores the schedule; i == j changes nothing. */
  lemma IntraSwapInvolution(ss: seq<seq<nat>>, r: nat, i: nat, j: nat)
    requires r < |ss| && i < |ss[r]| && j < |ss[r]|
    ensures IntraSwapped(IntraSwapped(ss, r, i, j), r, i, j) == ss
    ensures IntraSwapped(ss, r, i, i) == ss
  {
    SwapInvolution(ss[r], i, j);
    assert Swap(ss[r], i, i) == ss[r];
  }

  /** Exchanging two flights on different runways trades one for the other on each. */
  lemma CrossSwapKeepsFlights(ss: seq<seq<nat>>, ri: nat, fi: nat, rj: nat, fj: nat)
    requires ri < |ss| && rj < |ss| && ri != rj && fi < |ss[ri]| && fj < |ss[rj]|
    ensures FlightBag(ss[ri := ss[ri][fi := ss[rj][fj]]][rj := ss[rj][fj := ss[ri][fi]]]) == FlightBag(ss)
  {
    var a := ss[ri][fi];
    var b := ss[rj][fj];
    var t := ss[ri := ss[ri][fi := b]];
    var ss' := t[rj := ss[rj][fj := a]];
    BagUpdate(ss, ri, ss[ri][fi := b]);
    BagUpdate(t, rj, ss[rj][fj := a]);
    UpdateBag(ss[ri], fi, b);
    UpdateBag(ss[rj], fj, a);
    forall x
      ensures FlightBag(ss')[x] == FlightBag(ss)[x]
    {
      assert (FlightBag(ss') + multiset(ss[rj]))[x] == (FlightBag(t) + multiset(ss[rj][fj := a]))[x];
      assert (FlightBag(t) + multiset(ss[ri]))[x] == (FlightBag(ss) + multiset(ss[ri][fi := b]))[x];
    }
    assert FlightBag(ss') == FlightBag(ss);
  }

  /** An inter-runway swap keeps every runway's length and the set of placed flights. */
  lemma InterSwapKeepsFlights(ss: seq<seq<nat>>, ri: nat, fi: nat, rj: nat, fj: nat)
    requires ri < |ss| && rj < |ss| && fi < |ss[ri]| && fj < |ss[rj]|
    ensures |InterSwapped(ss, ri, fi, rj, fj)| == |ss|
    ensures forall q :: 0 <= q < |ss| ==> |InterSwapped(ss, ri, fi, rj, fj)[q]| == |ss[q]|
    ensures FlightBag(InterSwapped(ss, ri, fi, rj, fj)) == FlightBag(ss)
  {
    var ss' := InterSwapped(ss, ri, fi, rj, fj);
    if ri == rj {
      assert ss'[ri] == Swap(ss[ri], fi, fj);
      assert ss' == IntraSwapped(ss, ri, fi, fj);
      IntraSwapKeepsFlights(ss, ri, fi, fj);
    } else {
      assert ss' == ss[ri := ss[ri][fi := ss[rj][fj]]][rj := ss[rj][fj := ss[ri][fi]]];
      CrossSwapKeepsFlights(ss, ri, fi, rj, fj);
    }
  }

  /** Swapping the same two flights twice restores the schedule. */
  lemma InterSwapInvolution(ss: seq<seq<nat>>, ri: nat, fi: nat, rj: nat, fj: nat)
    requires ri < |ss| && rj < |ss| && fi < |ss[ri]| && fj < |ss[rj]|
    ensures |InterSwapped(ss, ri, fi, rj, fj)| == |ss|
    ensures |InterSwapped(ss, ri, fi, rj, fj)[ri]| == |ss[ri]|
    ensures |InterSwapped(ss, ri, fi, rj, fj)[rj]| == |ss[rj]|
    ensures InterSwapped(InterSwapped(ss, ri, fi, rj, fj), ri, fi, rj, fj) == ss
  {
    var ss' := InterSwapped(ss, ri, fi, rj, fj);
    var ss'' := InterSwapped(ss', ri, fi, rj, fj);
    if ri == rj {
      assert ss''[ri] == ss[ri];
    } else {
      assert ss''[ri] == ss[ri];
      assert ss''[rj] == ss[rj];
    }
    assert forall q :: 0 <= q < |ss| ==> ss''[q] == ss[q];
  }

  /** A relocation between runways keeps the set of placed flights: one runway
      loses the flight, the other gains it. */
  lemma InterMoveKeepsFlights(ss: seq<seq<nat>>, ri: nat, fi: nat, rj: nat, fj: nat)
    requires ri < |ss| && rj < |ss| && ri != rj && fi < |ss[ri]| && fj <= |ss[rj]|
    ensures |InterMoved(ss, ri, fi, rj, fj)| == |ss|
    ensures |InterMoved(ss, ri, fi, rj, fj)[ri]| == |ss[ri]| - 1
    ensures |InterMoved(ss, ri, fi, rj, fj)[rj]| == |ss[rj]| + 1
    ensures forall q :: 0 <= q < |ss| && q != ri && q != rj ==> InterMoved(ss, ri, fi, rj, fj)[q] == ss[q]
    ensures FlightBag(InterMoved(ss, ri, fi, rj, fj)) == FlightBag(ss)
  {
    var x := ss[ri][fi];
    var t := ss[ri := Remove(ss[ri], fi)];
    var ss' := InterMoved(ss, ri, fi, rj, fj);
    BagUpdate(ss, ri, Remove(ss[ri], fi));
    BagUpdate(t, rj, Insert(ss[rj], fj, x));
    RemoveBag(ss[ri], fi);
    InsertBag(ss[rj], fj, x);
    forall y
      ensures FlightBag(ss')[y] == FlightBag(ss)[y]
    {
      assert (FlightBag(ss') + multiset(ss[rj]))[y] == (FlightBag(t) + multiset(Insert(ss[rj], fj, x)))[y];
      assert (FlightBag(t) + multiset(ss[ri]))[y] == (FlightBag(ss) + multiset(Remove(ss[ri], fi)))[y];
    }
    assert FlightBag(ss') == FlightBag(ss);
  }

  /** A relocation within a runway keeps its length and the set of placed flights. */
  lemma IntraMoveKeepsFlights(ss: seq<seq<nat>>, r: nat, i: nat, j: nat)
    requires r < |ss| && i < |ss[r]| && j < |ss[r]|
    ensures |IntraMoved(ss, r, i, j)| == |ss|
    ensures forall q :: 0 <= q < |ss| ==> |IntraMoved(ss, r, i, j)[q]| == |ss[q]|
    ensures FlightBag(IntraMoved(ss, r, i, j)) == FlightBag(ss)
  {
    var ss' := IntraMoved(ss, r, i, j);
    BagUpdate(ss, r, Relocate(ss[r], i, j));
    RelocateBag(ss[r], i, j);
    forall x
      ensures FlightBag(ss')[x] == FlightBag(ss)[x]
    {
      assert (FlightBag(ss') + multiset(ss[r]))[x] == (FlightBag(ss) + multiset(Relocate(ss[r], i, j)))[x];
    }
    assert FlightBag(ss') == FlightBag(ss);
  }

  /** The penalty a runway with landing sequence s saves when flights i and j
      are exchanged (negative when the swap makes it worse). */
  function SwapGain(inst: Instance, s: seq<nat>, i: nat, j: nat): int
    requires inst.WellFormed() && ValidIds(inst, s) && i < |s| && j < |s|
  {
    TotalPenalty(inst, s) - TotalPenalty(inst, Swap(s, i, j))
  }

  /** The penalty two different runways save together when flight fi of ri and
      flight fj of rj are exchanged. */
  function InterSwapGain(inst: Instance, ss: seq<seq<nat>>, ri: nat, fi: nat, rj: nat, fj: nat): int
    requires inst.WellFormed() && AllValidIds(inst, ss)
    requires ri < |ss| && rj < |ss| && ri != rj && fi < |ss[ri]| && fj < |ss[rj]|
  {
    TotalPenalty(inst, ss[ri]) + TotalPenalty(inst, ss[rj])
      - TotalPenalty(inst, ss[ri][fi := ss[rj][fj]]) - TotalPenalty(inst, ss[rj][fj := ss[ri][fi]])
  }

  /** The penalty two runways save together when flight fi of ri moves to position fj of rj. */
  function InterMoveGain(inst: Instance, ss: seq<seq<nat>>, ri: nat, fi: nat, rj: nat, fj: nat): int
    requires inst.WellFormed() && AllValidIds(inst, ss)
    requires ri < |ss| && rj < |ss| && ri != rj && fi < |ss[ri]| && fj <= |ss[rj]|
  {
    TotalPenalty(inst, ss[ri]) + TotalPenalty(inst, ss[rj])
      - TotalPenalty(inst, Remove(ss[ri], fi)) - TotalPenalty(inst, Insert(ss[rj], fj, ss[ri][fi]))
  }

  /** The penalty a runway saves when its flight i moves to position j. */
  function RelocateGain(inst: Instance, s: seq<nat>, i: nat, j: nat): int
    requires inst.WellFormed() && ValidIds(inst, s) && i < |s| && j < |s|
  {
    TotalPenalty(inst, s) - TotalPenalty(inst, Relocate(s, i, j))
  }

  /** An intra-runway swap lowers the objective by exactly its gain. */
  lemma IntraSwapObjective(inst: Instance, ss: seq<seq<nat>>, r: nat, i: nat, j: nat)
    requires inst.WellFormed() && AllValidIds(inst, ss) && r < |ss| && i < |ss[r]| && j < |ss[r]|
    ensures AllValidIds(inst, IntraSwapped(ss, r, i, j))
    ensures Objective(inst, ss) - Objective(inst, IntraSwapped(ss, r, i, j)) == SwapGain(inst, ss[r], i, j)
  {
    ObjectiveUpdate(inst, ss, r, Swap(ss[r], i, j));
  }

  /** An inter-runway swap lowers the objective by exactly its gain. */
  lemma InterSwapObjective(inst: Instance, ss: seq<seq<nat>>, ri: nat, fi: nat, rj: nat, fj: nat)
    requires inst.WellFormed() && AllValidIds(inst, ss)
    requires ri < |ss| && rj < |ss| && ri != rj && fi < |ss[ri]| && fj < |ss[rj]|
    ensures AllValidIds(inst, InterSwapped(ss, ri, fi, rj, fj))
    ensures Objective(inst, ss) - Objective(inst, InterSwapped(ss, ri, fi, rj, fj))
            == InterSwapGain(inst, ss, ri, fi, rj, fj)
  {
    var t := ss[ri := ss[ri][fi := ss[rj][fj]]];
    ObjectiveUpdate(inst, ss, ri, ss[ri][fi := ss[rj][fj]]);
    ObjectiveUpdate(inst, t, rj, ss[rj][fj := ss[ri][fi]]);
  }

  /** An inter-runway relocation lowers the objective by exactly its gain. */
  lemma InterMoveObjective(inst: Instance, ss: seq<seq<nat>>, ri: nat, fi: nat, rj: nat, fj: nat)
    requires inst.WellFormed() && AllValidIds(inst, ss)
    requires ri < |ss| && rj < |ss| && ri != rj && fi < |ss[ri]| && fj <= |ss[rj]|
    ensures AllValidIds(inst, InterMoved(ss, ri, fi, rj, fj))
    ensures Objective(inst, ss) - Objective(inst, InterMoved(ss, ri, fi, rj, fj))
            == InterMoveGain(inst, ss, ri, fi, rj, fj)
  {
    var t := ss[ri := Remove(ss[ri], fi)];
    ObjectiveUpdate(inst, ss, ri, Remove(ss[ri], fi));
    ObjectiveUpdate(inst, t, rj, Insert(ss[rj], fj, ss[ri][fi]));
  }

  /** An intra-runway relocation lowers the objective by exactly its gain. */
  lemma IntraMoveObjective(inst: Instance, ss: seq<seq<nat>>, r: nat, i: nat, j: nat)
    requires inst.WellFormed() && AllValidIds(inst, ss) && r < |ss| && i < |ss[r]| && j < |ss[r]|
    ensures AllValidIds(inst, IntraMoved(ss, r, i, j))
    ensures Objective(inst, ss) - Objective(inst, IntraMoved(ss, r, i, j)) == RelocateGain(inst, ss[r], i, j)
  {
    ObjectiveUpdate(inst, ss, r, Relocate(ss[r], i, j));
  }

  /** moves::apply_inter_swap: flight fi of runway ri and flight fj of runway
      rj trade places; nothing else of the solution changes. */
  function ApplyInterSwap(sol: Solution, fi: nat, ri: nat, fj: nat, rj: nat): (sol': Solution)
    requires ri < |sol.runways| && rj < |sol.runways|
    requires fi < |sol.runways[ri].sequence| && fj < |sol.runways[rj].sequence|
    ensures |sol'.runways| == |sol.runways| && sol'.objective == sol.objective
    ensures forall q :: 0 <= q < |sol.runways| ==>
      sol'.runways[q] == sol.runways[q].(sequence := sol'.runways[q].sequence)
    ensures SequencesOf(sol'.runways) == InterSwapped(SequencesOf(sol.runways), ri, fi, rj, fj)
  {
    var a := sol.runways[ri].sequence[fi];
    var b := sol.runways[rj].sequence[fj];
    var rs := sol.runways[ri := sol.runways[ri].(sequence := sol.runways[ri].sequence[fi := b])];
    var rs' := rs[rj := rs[rj].(sequence := rs[rj].sequence[fj := a])];
    assert forall q :: 0 <= q < |rs'| ==>
      SequencesOf(rs')[q] == InterSwapped(SequencesOf(sol.runways), ri, fi, rj, fj)[q];
    sol.(runways := rs')
  }

  /** moves::apply_intra_swap: flights fi and fj of runway ri trade places;
      nothing else of the solution changes. */
  function ApplyIntraSwap(sol: Solution, fi: nat, fj: nat, ri: nat): (sol': Solution)
    requires ri < |sol.runways|
    requires fi < |sol.runways[ri].sequence| && fj < |sol.runways[ri].sequence|
    ensures |sol'.runways| == |sol.runways| && sol'.objective == sol.objective
    ensures forall q :: 0 <= q < |sol.runways| ==>
      sol'.runways[q] == sol.runways[q].(sequence := sol'.runways[q].sequence)
    ensures SequencesOf(sol'.runways) == IntraSwapped(SequencesOf(sol.runways), ri, fi, fj)
  {
    var rs' := sol.runways[ri := sol.runways[ri].(sequence := Swap(sol.runways[ri].sequence, fi, fj))];
    assert forall q :: 0 <= q < |rs'| ==>
      SequencesOf(rs')[q] == IntraSwapped(SequencesOf(sol.runways), ri, fi, fj)[q];
    sol.(runways := rs')
  }

  /** Two runway lists that differ at most in their landing sequences are
      equal when their sequences are. */
  lemma SameSequencesSameRunways(rs: seq<Runway>, rs': seq<Runway>)
    requires |rs'| == |rs|
    requires forall q :: 0 <= q < |rs| ==> rs'[q] == rs[q].(sequence := rs'[q].sequence)
    requires SequencesOf(rs') == SequencesOf(rs)
    ensures rs' == rs
  {
    forall q | 0 <= q < |rs|
      ensures rs'[q] == rs[q]
    {
      assert SequencesOf(rs')[q] == SequencesOf(rs)[q];
    }
  }

  /** Applying the same inter-runway swap twice gives back the solution. */
  lemma ApplyInterSwapInvolution(sol: Solution, fi: nat, ri: nat, fj: nat, rj: nat)
    requires ri < |sol.runways| && rj < |sol.runways|
    requires fi < |sol.runways[ri].sequence| && fj < |sol.runways[rj].sequence|
    ensures ApplyInterSwap(ApplyInterSwap(sol, fi, ri, fj, rj), fi, ri, fj, rj) == sol
  {
    var once := ApplyInterSwap(sol, fi, ri, fj, rj);
    InterSwapInvolution(SequencesOf(sol.runways), ri, fi, rj, fj);
    SameSequencesSameRunways(sol.runways, ApplyInterSwap(once, fi, ri, fj, rj).runways);
  }

  /** Applying the same intra-runway swap twice gives back the solution, and
      swapping a flight with itself changes nothing. */
  lemma ApplyIntraSwapInvolution(sol: Solution, fi: nat, fj: nat, ri: nat)
    requires ri < |sol.runways|
    requires fi < |sol.runways[ri].sequence| && fj < |sol.runways[ri].sequence|
    ensures ApplyIntraSwap(ApplyIntraSwap(sol, fi, fj, ri), fi, fj, ri) == sol
    ensures ApplyIntraSwap(sol, fi, fi, ri) == sol
  {
    var once := ApplyIntraSwap(sol, fi, fj, ri);
    IntraSwapInvolution(SequencesOf(sol.runways), ri, fi, fj);
    SameSequencesSameRunways(sol.runways, ApplyIntraSwap(once, fi, fj, ri).runways);
    SameSequencesSameRunways(sol.runways, ApplyIntraSwap(sol, fi, fi, ri).runways);
  }

  /** Pair (i', j') comes before pair (i, j) in the scan order of the nested loops. */
  predicate PairBefore(i': nat, j': nat, i: nat, j: nat) {
    i' < i || (i' == i && j' < j)
  }

  /** The state of a best-improvement swap scan over landing sequence s once
      every pair before (i, j) has been tried: none saves more than delta, and
      when delta > 0 the recorded pair saves delta and every pair tried before
      it saves less. */
  ghost predicate SwapScan(inst: Instance, s: seq<nat>, i: nat, j: nat, delta: nat, bi: nat, bj: nat)
    requires inst.WellFormed() && ValidIds(inst, s)
  {
    && (forall i': nat, j': nat :: i' < j' < |s| && PairBefore(i', j', i, j) ==> SwapGain(inst, s, i', j') <= delta)
    && (delta > 0 ==>
          && bi < bj < |s| && PairBefore(bi, bj, i, j) && SwapGain(inst, s, bi, bj) == delta
          && forall i': nat, j': nat :: i' < j' < |s| && PairBefore(i', j', bi, bj) ==> SwapGain(inst, s, i', j') < delta)
    && (delta == 0 ==> bi == 0 && bj == 0)
  }

  /** (bi, bj) is the swap a best-improvement scan of s selects: it saves the
      most, delta > 0, and it is the first pair in scan order that does. */
  ghost predicate BestSwap(inst: Instance, s: seq<nat>, bi: nat, bj: nat, delta: nat)
    requires inst.WellFormed() && ValidIds(inst, s)
  {
    delta > 0 && SwapScan(inst, s, |s|, 0, delta, bi, bj)
  }

  /** No swap of two flights of s lowers its penalty. */
  ghost predicate NoImprovingSwap(inst: Instance, s: seq<nat>)
    requires inst.WellFormed() && ValidIds(inst, s)
  {
    forall i: nat, j: nat :: i < j < |s| ==> SwapGain(inst, s, i, j) <= 0
  }

  /** Trying pair (i, j) with candidate penalty p (the exact penalty of the
      swapped sequence) and keeping it only on a strictly larger saving advances
      the scan by one pair. */
  lemma SwapScanStep(inst: Instance, s: seq<nat>, i: nat, j: nat, delta: nat, bi: nat, bj: nat, p: nat)
    requires inst.WellFormed() && ValidIds(inst, s) && i < j < |s|
    requires SwapScan(inst, s, i, j, delta, bi, bj)
    requires p == TotalPenalty(inst, Swap(s, i, j))
    ensures var better := p < TotalPenalty(inst, s) && TotalPenalty(inst, s) - p > delta;
      if better then SwapScan(inst, s, i, j + 1, TotalPenalty(inst, s) - p, i, j)
      else SwapScan(inst, s, i, j + 1, delta, bi, bj)
  {
  }

  /** Finishing the pairs that start at i moves the scan to the pairs that start at i + 1. */
  lemma SwapScanNextRow(inst: Instance, s: seq<nat>, i: nat, delta: nat, bi: nat, bj: nat)
    requires inst.WellFormed() && ValidIds(inst, s)
    requires SwapScan(inst, s, i, |s|, delta, bi, bj)
    ensures SwapScan(inst, s, i + 1, i + 2, delta, bi, bj)
  {
  }

  /** A scan that went through every pair has found the best swap, or there is none. */
  lemma SwapScanDone(inst: Instance, s: seq<nat>, i: nat, delta: nat, bi: nat, bj: nat)
    requires inst.WellFormed() && ValidIds(inst, s) && |s| <= i + 1
    requires SwapScan(inst, s, i, i + 1, delta, bi, bj)
    ensures delta > 0 ==> BestSwap(inst, s, bi, bj, delta)
    ensures delta == 0 ==> NoImprovingSwap(inst, s)
  {
  }

  /** With penalty 0 no swap can improve a runway. */
  lemma NothingBelowZero(inst: Instance, s: seq<nat>)
    requires inst.WellFormed() && ValidIds(inst, s) && TotalPenalty(inst, s) == 0
    ensures NoImprovingSwap(inst, s)
  {
  }

  /** The from-scratch chained penalty of a non-empty sequence, as the older
      intra-swap search recomputes it for every swapped copy: the first flight
      lands at its release time, each next one after its predecessor. */
  method RecomputePenalty(inst: Instance, sequence: seq<nat>) returns (penalty: nat)
    requires inst.WellFormed() && ValidIds(inst, sequence) && |sequence| >= 1
    ensures penalty == TotalPenalty(inst, sequence)
  {
    penalty := 0;
    var currentTime := inst.ReleaseTime(sequence[0]);
    var k := 0;
    while k < |sequence| - 1
      invariant 0 <= k <= |sequence| - 1
      invariant currentTime == StartTime(inst, sequence, k)
      invariant penalty == PrefixPenalty(inst, sequence, k + 1)
    {
      currentTime := NextStart(inst, sequence[k], currentTime, sequence[k + 1]);
      penalty := penalty + Cost(inst, sequence[k + 1], currentTime);
      k := k + 1;
    }
  }

  /** One row of the full-recomputation scan: every pair (i, j) with j > i is
      swapped on the local copy, costed from scratch, compared, and swapped back. */
  method ScanSwapRow(inst: Instance, s: seq<nat>, originalPenalty: nat, i: nat,
                     delta0: nat, bestI0: nat, bestJ0: nat)
    returns (delta: nat, bestI: nat, bestJ: nat)
    requires inst.WellFormed() && ValidIds(inst, s) && i + 1 < |s|
    requires originalPenalty == TotalPenalty(inst, s)
    requires SwapScan(inst, s, i, i + 1, delta0, bestI0, bestJ0)
    ensures SwapScan(inst, s, i + 1, i + 2, delta, bestI, bestJ)
  {
    delta, bestI, bestJ := delta0, bestI0, bestJ0;
    var sequence := s;
    var j := i + 1;
    while j < |sequence|
      invariant i + 1 <= j <= |sequence|
      invariant sequence == s
      invariant SwapScan(inst, s, i, j, delta, bestI, bestJ)
    {
      sequence := Swap(sequence, i, j);
      var penalty := RecomputePenalty(inst, sequence);
      SwapScanStep(inst, s, i, j, delta, bestI, bestJ, penalty);
      if penalty < originalPenalty && originalPenalty - penalty > delta {
        delta := originalPenalty - penalty;
        bestI := i;
        bestJ := j;
      }
      SwapInvolution(s, i, j);
      sequence := Swap(sequence, i, j);
      j := j + 1;
    }
    SwapScanNextRow(inst, s, i, delta, bestI, bestJ);
  }

  /** The nested scan of the full-recomputation intra swap over a local copy
      of landing sequence s with penalty P, row by row. */
  method ScanSwaps(inst: Instance, s: seq<nat>, originalPenalty: nat)
    returns (delta: nat, bestI: nat, bestJ: nat)
    requires inst.WellFormed() && ValidIds(inst, s) && |s| >= 2
    requires originalPenalty == TotalPenalty(inst, s)
    ensures delta > 0 ==> BestSwap(inst, s, bestI, bestJ, delta)
    ensures delta == 0 ==> NoImprovingSwap(inst, s) && bestI == 0 && bestJ == 0
  {
    delta, bestI, bestJ := 0, 0, 0;
    var i := 0;
    while i < |s| - 1
      invariant 0 <= i <= |s| - 1
      invariant SwapScan(inst, s, i, i + 1, delta, bestI, bestJ)
    {
      delta, bestI, bestJ := ScanSwapRow(inst, s, originalPenalty, i, delta, bestI, bestJ);
      i := i + 1;
    }
    SwapScanDone(inst, s, i, delta, bestI, bestJ);
  }

  /** moves::best_improvement_intra_swap, the full-recomputation version: scans
      every pair of runway r on a local copy, then applies the first pair with
      the largest saving (the no-op swap (0, 0) when none saves anything) and
      lowers the runway penalty and the objective by the saving. The prefix
      penalties and start times are not touched. */
  method BestImprovementIntraSwapReference(inst: Instance, sol: Solution, r: nat) returns (sol': Solution)
    requires inst.WellFormed() && r < |sol.runways|
    requires ValidIds(inst, sol.runways[r].sequence)
    requires sol.runways[r].penalty == TotalPenalty(inst, sol.runways[r].sequence)
    requires sol.objective >= sol.runways[r].penalty
    ensures |sol'.runways| == |sol.runways|
    ensures forall q :: 0 <= q < |sol.runways| && q != r ==> sol'.runways[q] == sol.runways[q]
    ensures sol'.runways[r].id == sol.runways[r].id
    ensures sol'.runways[r].prefixPenalty == sol.runways[r].prefixPenalty
    ensures ValidIds(inst, sol'.runways[r].sequence)
    ensures sol'.runways[r].penalty == TotalPenalty(inst, sol'.runways[r].sequence)
    ensures NoImprovingSwap(inst, sol.runways[r].sequence) ==> sol' == sol
    ensures !NoImprovingSwap(inst, sol.runways[r].sequence) ==>
      exists bi, bj, delta ::
        && BestSwap(inst, sol.runways[r].sequence, bi, bj, delta)
        && sol'.runways[r].sequence == Swap(sol.runways[r].sequence, bi, bj)
        && sol'.runways[r].penalty == sol.runways[r].penalty - delta
        && sol'.objective == sol.objective - delta
  {
    sol' := sol;
    var rw := sol.runways[r];
    var originalPenalty := rw.penalty;
    var sequence := rw.sequence;
    if originalPenalty == 0 || |sequence| < 2 {
      if originalPenalty == 0 {
        NothingBelowZero(inst, sequence);
      }
      return;
    }
    var delta, bestI, bestJ := ScanSwaps(inst, sequence, originalPenalty);
    assert Swap(sequence, 0, 0) == sequence;
    rw := rw.(sequence := Swap(sequence, bestI, bestJ), penalty := rw.penalty - delta);
    sol' := Solution(sol.runways[r := rw], sol.objective - delta);
    if delta > 0 {
      assert BestSwap(inst, sequence, bestI, bestJ, delta);
    } else {
      assert sol'.runways == sol.runways;
    }
  }
}
