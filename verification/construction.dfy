/** ASP::lowest_release_time_insertion and ASP::randomized_greedy. Both sort the
    flights by non-increasing release time, seed every runway with one of the
    earliest-released flights, and then append the remaining flights one at a
    time at the tail of a runway, setting the flight's caches and growing the
    runway's prefix penalties, its penalty and the objective by the flight's
    cost. */
module Construction {
  import opened Instances
  import opened Schedule
  import opened Sequences
  import opened Runways
  import opened Solutions
  import opened Asp
  import opened Insertions
  import opened GreedyRules

  /** Runway rw after flight x has been appended at its tail with cost `cost`:
      the new prefix penalty is the old total plus the cost. */
  function AppendFlight(rw: Runway, x: nat, cost: nat): Runway {
    Runway(rw.id, rw.sequence + [x], rw.prefixPenalty + [rw.penalty + cost], rw.penalty + cost)
  }

  /** Appending a flight that is not on the runway, at the start the chained
      rule gives it and with the cost of landing then, keeps the runway's
      caches consistent once the flight's start time is recorded, and the new
      penalty is the chained penalty of the longer sequence. */
  lemma AppendConsistent(inst: Instance, rw: Runway, start: seq<nat>, x: nat, t: nat, cost: nat)
    requires Consistent(inst, rw, start) && x < inst.numFlights && x !in rw.sequence
    requires ValidIds(inst, rw.sequence + [x])
    requires t == StartTime(inst, rw.sequence + [x], |rw.sequence|) && cost == Cost(inst, x, t)
    ensures Consistent(inst, AppendFlight(rw, x, cost), start[x := t])
    ensures AppendFlight(rw, x, cost).penalty == TotalPenalty(inst, rw.sequence + [x])
  {
    var s, s' := rw.sequence, rw.sequence + [x];
    var rw' := AppendFlight(rw, x, cost);
    PrefixAgreement(inst, s, s', |s|);
    assert PrefixPenalty(inst, s', |s'|) == PrefixPenalty(inst, s', |s|) + FlightCost(inst, s', |s|);
    forall k | 0 <= k <= |s'|
      ensures rw'.prefixPenalty[k] == PrefixPenalty(inst, s', k)
    {
      if k <= |s| {
        assert rw'.prefixPenalty[k] == rw.prefixPenalty[k];
      }
    }
    forall k | 0 <= k < |s'|
      ensures start[x := t][s'[k]] == StartTime(inst, s', k)
    {
      if k < |s| {
        assert s'[k] == s[k] && s[k] != x;
      }
    }
  }

  /** The earliest start of x at the tail of a non-empty runway, as the
      constructions compute it: the chained start after the runway's last
      flight, taken from that flight's cached start time. */
  function EarliestStart(inst: Instance, rw: Runway, start: seq<nat>, x: nat): (t: nat)
    requires inst.WellFormed() && |rw.sequence| >= 1 && ValidIds(inst, rw.sequence)
    requires |start| == inst.numFlights && x < inst.numFlights
    ensures t >= inst.ReleaseTime(x)
  {
    var prev := rw.sequence[|rw.sequence| - 1];
    NextStart(inst, prev, start[prev], x)
  }

  /** On a consistent runway the earliest start computed from the cached start
      of the last flight is the chained start of x appended at the tail. */
  lemma EarliestStartIsChained(inst: Instance, rw: Runway, start: seq<nat>, x: nat)
    requires Consistent(inst, rw, start) && |rw.sequence| >= 1 && x < inst.numFlights
    ensures ValidIds(inst, rw.sequence + [x])
    ensures EarliestStart(inst, rw, start, x) == StartTime(inst, rw.sequence + [x], |rw.sequence|)
  {
    var s, s' := rw.sequence, rw.sequence + [x];
    assert ValidIds(inst, s');
    PrefixAgreement(inst, s, s', |s|);
    assert start[s[|s| - 1]] == StartTime(inst, s, |s| - 1);
  }

  /** The state while a construction runs: every runway is consistent with the
      start times, the runways and the remaining candidates together hold every
      flight exactly once, the caches place every placed flight, and the
      objective is the sum of the runway penalties. */
  ghost predicate Building(inst: Instance, sol: Solution, cand: seq<nat>,
                           start: seq<nat>, runwayOf: seq<nat>, position: seq<nat>)
  {
    && inst.WellFormed()
    && |sol.runways| == inst.numRunways
    && |start| == inst.numFlights && |runwayOf| == inst.numFlights && |position| == inst.numFlights
    && (forall r :: 0 <= r < |sol.runways| ==> Consistent(inst, sol.runways[r], start))
    && ValidIds(inst, cand)
    && FlightBag(SequencesOf(sol.runways)) + multiset(cand) == AllFlights(inst.numFlights)
    && Placed(SequencesOf(sol.runways), runwayOf, position)
    && AllValidIds(inst, SequencesOf(sol.runways))
    && sol.objective == Objective(inst, SequencesOf(sol.runways))
  }

  /** A candidate is on no runway yet. */
  lemma CandidateUnplaced(ss: seq<seq<nat>>, cand: seq<nat>, n: nat, c: nat)
    requires FlightBag(ss) + multiset(cand) == AllFlights(n) && c < |cand|
    ensures forall r :: 0 <= r < |ss| ==> cand[c] !in ss[r]
  {
    var x := cand[c];
    assert x in multiset(cand);
    AllFlightsCount(n, x);
    forall r | 0 <= r < |ss|
      ensures x !in ss[r]
    {
      BagContains(ss, r);
    }
  }

  /** Taking candidate c off the list takes exactly that flight out of the
      list's bag and keeps every id valid. */
  lemma RemoveCandidate(inst: Instance, cand: seq<nat>, c: nat)
    requires inst.WellFormed() && ValidIds(inst, cand) && c < |cand|
    ensures multiset(cand[..c] + cand[c + 1..]) + multiset{cand[c]} == multiset(cand)
    ensures ValidIds(inst, cand[..c] + cand[c + 1..])
  {
    assert cand == cand[..c] + [cand[c]] + cand[c + 1..];
    var rest := cand[..c] + cand[c + 1..];
    forall k | 0 <= k < |rest|
      ensures rest[k] < inst.numFlights
    {
      if k < c {
        assert rest[k] == cand[k];
      } else {
        assert rest[k] == cand[k + 1];
      }
    }
  }

  /** The bag and objective bookkeeping of one placement. */
  lemma PlaceBookkeeping(inst: Instance, ss: seq<seq<nat>>, cand: seq<nat>, c: nat, r: nat, cost: nat)
    requires inst.WellFormed() && AllValidIds(inst, ss) && ValidIds(inst, cand)
    requires c < |cand| && r < |ss| && ValidIds(inst, ss[r] + [cand[c]])
    requires TotalPenalty(inst, ss[r] + [cand[c]]) == TotalPenalty(inst, ss[r]) + cost
    ensures var ss' := ss[r := ss[r] + [cand[c]]];
      && AllValidIds(inst, ss')
      && FlightBag(ss') + multiset(cand[..c] + cand[c + 1..]) == FlightBag(ss) + multiset(cand)
      && Objective(inst, ss') == Objective(inst, ss) + cost
  {
    var x := cand[c];
    var ss', rest := ss[r := ss[r] + [x]], cand[..c] + cand[c + 1..];
    BagUpdate(ss, r, ss[r] + [x]);
    assert multiset(ss[r] + [x]) == multiset(ss[r]) + multiset{x};
    RemoveCandidate(inst, cand, c);
    ghost var after, before, prior := FlightBag(ss'), FlightBag(ss), multiset(ss[r]);
    assert after + prior == before + (prior + multiset{x});
    forall y
      ensures (after + multiset(rest))[y] == (before + multiset(cand))[y]
    {
      assert (after + prior)[y] == (before + (prior + multiset{x}))[y];
      assert (multiset(rest) + multiset{x})[y] == multiset(cand)[y];
    }
    ObjectiveUpdate(inst, ss, r, ss[r] + [x]);
  }

  /** The caches after a placement place every flight again. */
  lemma PlacedAfterAppend(ss: seq<seq<nat>>, ss': seq<seq<nat>>, runwayOf: seq<nat>, position: seq<nat>,
                          x: nat, r: nat, p: nat)
    requires Placed(ss, runwayOf, position) && r < |ss| && x < |runwayOf| == |position|
    requires forall q :: 0 <= q < |ss| ==> x !in ss[q]
    requires ss' == ss[r := ss[r] + [x]] && p == |ss[r]|
    ensures Placed(ss', runwayOf[x := r], position[x := p])
  {
    forall q, k | 0 <= q < |ss'| && 0 <= k < |ss'[q]|
      ensures ss'[q][k] < |runwayOf| && ss'[q][k] < |position|
      ensures runwayOf[x := r][ss'[q][k]] == q && position[x := p][ss'[q][k]] == k
    {
      if q != r || k < |ss[r]| {
        assert ss'[q][k] == ss[q][k];
      }
    }
  }

  /** Appending a flight to runway r appends it to the r-th sequence. */
  lemma SequencesAfterAppend(rs: seq<Runway>, r: nat, x: nat, cost: nat)
    requires r < |rs|
    ensures SequencesOf(rs[r := AppendFlight(rs[r], x, cost)]) == SequencesOf(rs)[r := SequencesOf(rs)[r] + [x]]
  {
  }

  /** Appending the candidate keeps every runway consistent once its start
      time is recorded: the runway it joins by AppendConsistent, the others
      because the flight is on none of them. */
  lemma RunwaysAfterPlace(inst: Instance, rs: seq<Runway>, start: seq<nat>, x: nat, r: nat, t: nat, cost: nat)
    requires inst.WellFormed() && |start| == inst.numFlights && x < inst.numFlights && r < |rs|
    requires forall q :: 0 <= q < |rs| ==> Consistent(inst, rs[q], start) && x !in rs[q].sequence
    requires ValidIds(inst, rs[r].sequence) && ValidIds(inst, rs[r].sequence + [x])
    requires t == StartTime(inst, rs[r].sequence + [x], |rs[r].sequence|) && cost == Cost(inst, x, t)
    ensures var rs' := rs[r := AppendFlight(rs[r], x, cost)];
      forall q :: 0 <= q < |rs'| ==> Consistent(inst, rs'[q], start[x := t])
    ensures TotalPenalty(inst, rs[r].sequence + [x]) == TotalPenalty(inst, rs[r].sequence) + cost
  {
    var rs' := rs[r := AppendFlight(rs[r], x, cost)];
    AppendConsistent(inst, rs[r], start, x, t, cost);
    forall q | 0 <= q < |rs'|
      ensures Consistent(inst, rs'[q], start[x := t])
    {
      if q != r {
        ConsistentFrame(inst, rs[q], start, start[x := t]);
      }
    }
  }

  /** Building from its parts, so that callers need not unfold it. */
  lemma BuildingIntro(inst: Instance, sol: Solution, cand: seq<nat>,
                      start: seq<nat>, runwayOf: seq<nat>, position: seq<nat>)
    requires inst.WellFormed() && |sol.runways| == inst.numRunways
    requires |start| == inst.numFlights && |runwayOf| == inst.numFlights && |position| == inst.numFlights
    requires forall r :: 0 <= r < |sol.runways| ==> Consistent(inst, sol.runways[r], start)
    requires ValidIds(inst, cand) && AllValidIds(inst, SequencesOf(sol.runways))
    requires FlightBag(SequencesOf(sol.runways)) + multiset(cand) == AllFlights(inst.numFlights)
    requires Placed(SequencesOf(sol.runways), runwayOf, position)
    requires sol.objective == Objective(inst, SequencesOf(sol.runways))
    ensures Building(inst, sol, cand, start, runwayOf, position)
  {
  }

  /** Placing candidate c on runway r at its chained start with its cost
      keeps the construction state, with the candidate off the list. */
  lemma AfterPlace(inst: Instance, sol: Solution, cand: seq<nat>, start: seq<nat>, runwayOf: seq<nat>,
                   position: seq<nat>, c: nat, r: nat, t: nat, cost: nat)
    requires Building(inst, sol, cand, start, runwayOf, position)
    requires c < |cand| && r < |sol.runways|
    requires ValidIds(inst, sol.runways[r].sequence + [cand[c]])
    requires t == StartTime(inst, sol.runways[r].sequence + [cand[c]], |sol.runways[r].sequence|)
    requires cost == Cost(inst, cand[c], t)
    ensures var x := cand[c];
      Building(inst, Solution(sol.runways[r := AppendFlight(sol.runways[r], x, cost)], sol.objective + cost),
               cand[..c] + cand[c + 1..], start[x := t], runwayOf[x := r],
               position[x := |sol.runways[r].sequence|])
  {
    var x := cand[c];
    var ss := SequencesOf(sol.runways);
    var rs' := sol.runways[r := AppendFlight(sol.runways[r], x, cost)];
    SequencesAfterAppend(sol.runways, r, x, cost);
    CandidateUnplaced(ss, cand, inst.numFlights, c);
    RunwaysAfterPlace(inst, sol.runways, start, x, r, t, cost);
    PlaceBookkeeping(inst, ss, cand, c, r, cost);
    PlacedAfterAppend(ss, SequencesOf(rs'), runwayOf, position, x, r, |sol.runways[r].sequence|);
    BuildingIntro(inst, Solution(rs', sol.objective + cost), cand[..c] + cand[c + 1..],
                  start[x := t], runwayOf[x := r], position[x := |sol.runways[r].sequence|]);
  }

  /** Puts candidate c of the list at the tail of runway r with start time t
      and cost `cost`, as both constructions do: the flight's start, runway
      and position caches are set, the runway's sequence, prefix penalties and
      penalty grow, the objective grows by the cost, and the candidate leaves
      the list. */
  method Place(asp: ASP, sol: Solution, cand: seq<nat>, c: nat, r: nat, t: nat, cost: nat)
    returns (sol': Solution, cand': seq<nat>)
    requires asp.Arena()
    requires Building(asp.instance, sol, cand, asp.startTime[..], asp.runwayOf[..], asp.position[..])
    requires c < |cand| && r < |sol.runways|
    requires ValidIds(asp.instance, sol.runways[r].sequence + [cand[c]])
    requires t == StartTime(asp.instance, sol.runways[r].sequence + [cand[c]], |sol.runways[r].sequence|)
    requires cost == Cost(asp.instance, cand[c], t)
    modifies asp.startTime, asp.runwayOf, asp.position
    ensures sol'.runways == sol.runways[r := AppendFlight(sol.runways[r], cand[c], cost)]
    ensures sol'.objective == sol.objective + cost
    ensures cand' == cand[..c] + cand[c + 1..]
    ensures asp.startTime[..] == old(asp.startTime[..])[cand[c] := t]
    ensures asp.runwayOf[..] == old(asp.runwayOf[..])[cand[c] := r]
    ensures asp.position[..] == old(asp.position[..])[cand[c] := |sol.runways[r].sequence|]
    ensures Building(asp.instance, sol', cand', asp.startTime[..], asp.runwayOf[..], asp.position[..])
  {
    ghost var start0, runwayOf0, position0 := asp.startTime[..], asp.runwayOf[..], asp.position[..];
    AfterPlace(asp.instance, sol, cand, start0, runwayOf0, position0, c, r, t, cost);
    var x := cand[c];
    var rw := sol.runways[r];
    asp.startTime[x] := t;
    asp.runwayOf[x] := r;
    asp.position[x] := |rw.sequence|;
    sol' := Solution(sol.runways[r := AppendFlight(rw, x, cost)], sol.objective + cost);
    cand' := cand[..c] + cand[c + 1..];
  }

  /** The candidate list as first built: the flights in id order. */
  method CandidateList(n: nat) returns (cand: seq<nat>)
    ensures |cand| == n && forall k :: 0 <= k < n ==> cand[k] == k
    ensures multiset(cand) == AllFlights(n)
  {
    cand := [];
    for i := 0 to n
      invariant |cand| == i && forall k :: 0 <= k < i ==> cand[k] == k
      invariant multiset(cand) == AllFlights(i)
    {
      cand := cand + [i];
    }
  }

  /** The candidate list both constructions start from: the flights sorted
      by non-increasing release time, so that the earliest released is at the
      back. */
  method SortedCandidates(asp: ASP) returns (cand: seq<nat>)
    requires asp.Arena() && asp.instance.numRunways <= asp.instance.numFlights
    requires asp.instance.numRunways == 0 ==> asp.instance.numFlights == 0
    ensures ReleaseOrder(asp.instance, cand) && |cand| == asp.instance.numFlights
  {
    var inst := asp.instance;
    cand := CandidateList(inst.numFlights);
    cand := SortByRelease(inst, cand);
  }

  /** With every runway empty nothing is placed and the objective is 0. */
  lemma {:induction false} NothingPlaced(inst: Instance, ss: seq<seq<nat>>)
    requires inst.WellFormed() && forall r :: 0 <= r < |ss| ==> ss[r] == []
    ensures FlightBag(ss) == multiset{} && AllValidIds(inst, ss) && Objective(inst, ss) == 0
  {
    if |ss| > 0 {
      NothingPlaced(inst, ss[..|ss| - 1]);
    }
  }

  /** The runways after the first `seeded` of them have been seeded: runway q
      holds the q-th flight from the back of the candidate list, alone, with
      no penalty; the rest are still empty. */
  function SeedsUpTo(cand: seq<nat>, seeded: nat, count: nat): seq<Runway>
    requires seeded <= count <= |cand|
  {
    seq(count, q requires 0 <= q < count =>
      if q < seeded then Runway(q, [cand[|cand| - 1 - q]], [0, 0], 0) else EmptyRunway(q))
  }

  /** Seeding runway r appends its flight to the empty runway at no cost. */
  lemma SeedStep(cand: seq<nat>, r: nat, count: nat)
    requires r < count <= |cand|
    ensures SeedsUpTo(cand, r, count)[r] == EmptyRunway(r)
    ensures SeedsUpTo(cand, r, count)[r := AppendFlight(EmptyRunway(r), cand[|cand| - 1 - r], 0)]
            == SeedsUpTo(cand, r + 1, count)
  {
    var x := cand[|cand| - 1 - r];
    assert EmptyRunway(r).sequence + [x] == [x] && EmptyRunway(r).prefixPenalty + [0] == [0, 0];
  }

  /** A seed starts at its release time at no cost. */
  lemma SeedStart(inst: Instance, s: seq<nat>, x: nat)
    requires inst.WellFormed() && s == [] && x < inst.numFlights
    ensures ValidIds(inst, s + [x])
    ensures StartTime(inst, s + [x], |s|) == inst.ReleaseTime(x) && Cost(inst, x, inst.ReleaseTime(x)) == 0
  {
    assert s + [x] == [x];
  }

  /** Construction starts from the empty solution with every flight a
      candidate. */
  lemma NothingBuilt(inst: Instance, cand: seq<nat>, start: seq<nat>, runwayOf: seq<nat>, position: seq<nat>)
    requires inst.WellFormed() && ValidIds(inst, cand) && multiset(cand) == AllFlights(inst.numFlights)
    requires |start| == inst.numFlights && |runwayOf| == inst.numFlights && |position| == inst.numFlights
    ensures Building(inst, NewSolution(inst), cand, start, runwayOf, position)
    ensures inst.numRunways <= |cand| ==> NewSolution(inst).runways == SeedsUpTo(cand, 0, inst.numRunways)
  {
    var sol := NewSolution(inst);
    NothingPlaced(inst, SequencesOf(sol.runways));
    forall r | 0 <= r < |sol.runways|
      ensures Consistent(inst, sol.runways[r], start)
    {
      EmptyRunwayConsistent(inst, r, start);
    }
  }

  /** One round of the seeding loop: runway r receives the flight at the
      back of the candidate list, at its release time and no cost. */
  method SeedNext(asp: ASP, cand: seq<nat>, sol: Solution, rest: seq<nat>, r: nat) returns (sol': Solution, rest': seq<nat>)
    requires asp.Arena() && r < asp.instance.numRunways <= |cand|
    requires rest == cand[..|cand| - r]
    requires sol.runways == SeedsUpTo(cand, r, asp.instance.numRunways) && sol.objective == 0
    requires Building(asp.instance, sol, rest, asp.startTime[..], asp.runwayOf[..], asp.position[..])
    modifies asp.startTime, asp.runwayOf, asp.position
    ensures rest' == cand[..|cand| - (r + 1)]
    ensures sol'.runways == SeedsUpTo(cand, r + 1, asp.instance.numRunways) && sol'.objective == 0
    ensures Building(asp.instance, sol', rest', asp.startTime[..], asp.runwayOf[..], asp.position[..])
  {
    var inst := asp.instance;
    var x := rest[|rest| - 1];
    SeedStep(cand, r, inst.numRunways);
    SeedStart(inst, sol.runways[r].sequence, x);
    assert rest[..|rest| - 1] + rest[|rest|..] == cand[..|cand| - (r + 1)];
    sol', rest' := Place(asp, sol, rest, |rest| - 1, r, inst.ReleaseTime(x), 0);
  }

  /** The seeding loop both constructions share: runway r receives the
      flight at the back of the candidate list (the r-th earliest released),
      starting at its release time at position 0 with no penalty. */
  method SeedRunways(asp: ASP, cand: seq<nat>) returns (sol: Solution, rest: seq<nat>)
    requires asp.Arena() && asp.instance.numRunways <= |cand|
    requires ValidIds(asp.instance, cand) && multiset(cand) == AllFlights(asp.instance.numFlights)
    modifies asp.startTime, asp.runwayOf, asp.position
    ensures rest == cand[..|cand| - asp.instance.numRunways] && sol.objective == 0
    ensures sol.runways == SeedsUpTo(cand, asp.instance.numRunways, asp.instance.numRunways)
    ensures Building(asp.instance, sol, rest, asp.startTime[..], asp.runwayOf[..], asp.position[..])
  {
    var inst := asp.instance;
    sol := NewSolution(inst);
    rest := cand;
    NothingBuilt(inst, cand, asp.startTime[..], asp.runwayOf[..], asp.position[..]);
    for r := 0 to inst.numRunways
      invariant rest == cand[..|cand| - r]
      invariant sol.runways == SeedsUpTo(cand, r, inst.numRunways) && sol.objective == 0
      invariant Building(inst, sol, rest, asp.startTime[..], asp.runwayOf[..], asp.position[..])
    {
      sol, rest := SeedNext(asp, cand, sol, rest, r);
    }
  }

  /** The seeded runways hold the seeds of the candidate order. */
  lemma SeedsAsSequences(cand: seq<nat>, count: nat)
    requires count <= |cand|
    ensures SequencesOf(SeedsUpTo(cand, count, count)) == Seeds(cand, count)
  {
    var rs := SeedsUpTo(cand, count, count);
    forall q | 0 <= q < count
      ensures SequencesOf(rs)[q] == Seeds(cand, count)[q]
    {
      assert rs[q] == Runway(q, [cand[|cand| - 1 - q]], [0, 0], 0);
    }
  }

  /** A finished construction: no candidate is left and every runway has a
      flight, so the solution meets the schedule invariant. */
  lemma Completed(inst: Instance, sol: Solution, start: seq<nat>, runwayOf: seq<nat>, position: seq<nat>)
    requires Building(inst, sol, [], start, runwayOf, position)
    requires forall r :: 0 <= r < |sol.runways| ==> |sol.runways[r].sequence| >= 1
    ensures ScheduleInvariant(inst, sol, start, runwayOf, position)
  {
    var none: seq<nat> := [];
    assert multiset(none) == multiset{};
  }

  /** Every runway's first flight is released no later than any flight at a
      later position of any runway. */
  ghost predicate SeedsReleasedFirst(inst: Instance, ss: seq<seq<nat>>)
    requires inst.WellFormed() && AllValidIds(inst, ss)
  {
    forall r, q, k :: 0 <= r < |ss| && 0 <= q < |ss| && 0 < |ss[r]| && 0 < k < |ss[q]| ==>
      inst.ReleaseTime(ss[r][0]) <= inst.ReleaseTime(ss[q][k])
  }

  /** Every runway's first flight is released no later than any candidate
      still to be placed. */
  ghost predicate SeedsBefore(inst: Instance, ss: seq<seq<nat>>, cand: seq<nat>)
    requires inst.WellFormed() && AllValidIds(inst, ss) && ValidIds(inst, cand)
  {
    forall r, j :: 0 <= r < |ss| && 0 < |ss[r]| && 0 <= j < |cand| ==>
      inst.ReleaseTime(ss[r][0]) <= inst.ReleaseTime(cand[j])
  }

  /** The flights of a runway are in non-decreasing release order. */
  ghost predicate ReleaseAscending(inst: Instance, s: seq<nat>)
    requires inst.WellFormed() && ValidIds(inst, s)
  {
    forall p, q :: 0 <= p < q < |s| ==> inst.ReleaseTime(s[p]) <= inst.ReleaseTime(s[q])
  }

  /** Every runway's last flight is released no later than any candidate
      still to be placed. */
  ghost predicate TailsBefore(inst: Instance, ss: seq<seq<nat>>, cand: seq<nat>)
    requires inst.WellFormed() && AllValidIds(inst, ss) && ValidIds(inst, cand)
  {
    forall r, j :: 0 <= r < |ss| && 0 < |ss[r]| && 0 <= j < |cand| ==>
      inst.ReleaseTime(ss[r][|ss[r]| - 1]) <= inst.ReleaseTime(cand[j])
  }

  /** Appending a remaining candidate at the tail of a non-empty runway
      keeps the seeds the earliest released flights. */
  lemma SeedsAfterPlace(inst: Instance, ss: seq<seq<nat>>, cand: seq<nat>, c: nat, b: nat)
    requires inst.WellFormed() && AllValidIds(inst, ss) && ValidIds(inst, cand)
    requires c < |cand| && b < |ss| && |ss[b]| >= 1
    requires SeedsReleasedFirst(inst, ss) && SeedsBefore(inst, ss, cand)
    ensures var ss', cand' := ss[b := ss[b] + [cand[c]]], cand[..c] + cand[c + 1..];
      && AllValidIds(inst, ss') && ValidIds(inst, cand')
      && SeedsReleasedFirst(inst, ss') && SeedsBefore(inst, ss', cand')
  {
    var x := cand[c];
    var ss', cand' := ss[b := ss[b] + [x]], cand[..c] + cand[c + 1..];
    assert ValidIds(inst, ss[b] + [x]);
    RemoveCandidate(inst, cand, c);
    forall r | 0 <= r < |ss'| && 0 < |ss'[r]|
      ensures ss'[r][0] == ss[r][0] && |ss[r]| > 0
    {
    }
    forall r, q, k | 0 <= r < |ss'| && 0 <= q < |ss'| && 0 < |ss'[r]| && 0 < k < |ss'[q]|
      ensures inst.ReleaseTime(ss'[r][0]) <= inst.ReleaseTime(ss'[q][k])
    {
      if q != b || k < |ss[b]| {
        assert ss'[q][k] == ss[q][k];
      }
    }
    forall r, j | 0 <= r < |ss'| && 0 < |ss'[r]| && 0 <= j < |cand'|
      ensures inst.ReleaseTime(ss'[r][0]) <= inst.ReleaseTime(cand'[j])
    {
      if j < c {
        assert cand'[j] == cand[j];
      } else {
        assert cand'[j] == cand[j + 1];
      }
    }
  }

  /** Appending the last candidate of a list sorted by non-increasing
      release time at the tail of a runway keeps every runway in release
      order and every tail released no later than the remaining candidates. */
  lemma OrderAfterPlace(inst: Instance, ss: seq<seq<nat>>, cand: seq<nat>, b: nat)
    requires inst.WellFormed() && AllValidIds(inst, ss) && ValidIds(inst, cand)
    requires |cand| >= 1 && b < |ss| && ReleaseDescending(inst, cand)
    requires (forall r :: 0 <= r < |ss| ==> ReleaseAscending(inst, ss[r])) && TailsBefore(inst, ss, cand)
    ensures var ss', cand' := ss[b := ss[b] + [cand[|cand| - 1]]], cand[..|cand| - 1];
      && AllValidIds(inst, ss') && ValidIds(inst, cand') && ReleaseDescending(inst, cand')
      && (forall r :: 0 <= r < |ss'| ==> ReleaseAscending(inst, ss'[r]))
      && TailsBefore(inst, ss', cand')
  {
    var x := cand[|cand| - 1];
    var ss', cand' := ss[b := ss[b] + [x]], cand[..|cand| - 1];
    assert ValidIds(inst, ss[b] + [x]);
    var s := ss[b] + [x];
    forall p, q | 0 <= p < q < |s|
      ensures inst.ReleaseTime(s[p]) <= inst.ReleaseTime(s[q])
    {
      if q == |ss[b]| {
        assert inst.ReleaseTime(ss[b][|ss[b]| - 1]) <= inst.ReleaseTime(x);
        assert p == |ss[b]| - 1 || inst.ReleaseTime(ss[b][p]) <= inst.ReleaseTime(ss[b][|ss[b]| - 1]);
      }
    }
    forall r, j | 0 <= r < |ss'| && 0 < |ss'[r]| && 0 <= j < |cand'|
      ensures inst.ReleaseTime(ss'[r][|ss'[r]| - 1]) <= inst.ReleaseTime(cand'[j])
    {
      if r == b {
        assert ss'[r][|ss'[r]| - 1] == x && cand'[j] == cand[j];
      } else {
        assert cand'[j] == cand[j];
      }
    }
  }

  /** What lowest_release_time_insertion keeps while it places flights:
      the candidates stay sorted by non-increasing release time, every runway
      is non-empty and lands in release order, its first flight is released
      no later than anything placed after it or still to be placed, and its
      last flight no later than anything still to be placed. */
  ghost predicate ReleaseOrdered(inst: Instance, ss: seq<seq<nat>>, cand: seq<nat>)
    requires inst.WellFormed() && AllValidIds(inst, ss) && ValidIds(inst, cand)
  {
    && ReleaseDescending(inst, cand)
    && (forall r :: 0 <= r < |ss| ==> |ss[r]| >= 1 && ReleaseAscending(inst, ss[r]))
    && SeedsReleasedFirst(inst, ss) && SeedsBefore(inst, ss, cand)
    && TailsBefore(inst, ss, cand)
  }

  /** Right after seeding from a list sorted by non-increasing release time,
      the seeds are the earliest released flights and each runway is
      trivially in release order. */
  lemma SeededOrder(inst: Instance, cand: seq<nat>, count: nat, rs: seq<Runway>, rest: seq<nat>)
    requires inst.WellFormed() && ValidIds(inst, cand) && ReleaseDescending(inst, cand) && count <= |cand|
    requires rs == SeedsUpTo(cand, count, count) && rest == cand[..|cand| - count]
    ensures AllValidIds(inst, SequencesOf(rs)) && ValidIds(inst, rest)
    ensures ReleaseOrdered(inst, SequencesOf(rs), rest)
  {
    var ss := SequencesOf(rs);
    assert forall r :: 0 <= r < |ss| ==> ss[r] == [cand[|cand| - 1 - r]];
    forall r, j | 0 <= r < |ss| && 0 <= j < |rest|
      ensures inst.ReleaseTime(ss[r][0]) <= inst.ReleaseTime(rest[j])
    {
      assert rest[j] == cand[j];
    }
  }

  /** Placing the last candidate at the tail of any runway keeps the
      release order. */
  lemma ReleaseOrderedStep(inst: Instance, ss: seq<seq<nat>>, cand: seq<nat>, b: nat)
    requires inst.WellFormed() && AllValidIds(inst, ss) && ValidIds(inst, cand)
    requires |cand| >= 1 && b < |ss| && ReleaseOrdered(inst, ss, cand)
    ensures var ss', cand' := ss[b := ss[b] + [cand[|cand| - 1]]], cand[..|cand| - 1];
      && AllValidIds(inst, ss') && ValidIds(inst, cand') && ReleaseOrdered(inst, ss', cand')
  {
    var c := |cand| - 1;
    assert cand[..c] + cand[c + 1..] == cand[..c];
    SeedsAfterPlace(inst, ss, cand, c, b);
    OrderAfterPlace(inst, ss, cand, b);
  }

  /** The runway choice of lowest_release_time_insertion: scanning the
      runways in order, the first one on which x can start earliest, and that
      start. The "none seen yet" state stands for the SIZE_MAX sentinel. */
  method BestRunway(asp: ASP, rs: seq<Runway>, x: nat) returns (best: nat, lowest: nat)
    requires asp.Arena() && |rs| >= 1 && x < asp.instance.numFlights
    requires forall r :: 0 <= r < |rs| ==> |rs[r].sequence| >= 1 && ValidIds(asp.instance, rs[r].sequence)
    ensures best < |rs| && lowest == EarliestStart(asp.instance, rs[best], asp.startTime[..], x)
    ensures lowest >= asp.instance.ReleaseTime(x)
    ensures forall r :: 0 <= r < |rs| ==> lowest <= EarliestStart(asp.instance, rs[r], asp.startTime[..], x)
    ensures forall r :: 0 <= r < best ==> lowest < EarliestStart(asp.instance, rs[r], asp.startTime[..], x)
  {
    var inst := asp.instance;
    best, lowest := 0, 0;
    for r := 0 to |rs|
      invariant best < |rs| && (0 < r ==> best < r)
      invariant 0 < r ==> lowest == EarliestStart(inst, rs[best], asp.startTime[..], x)
      invariant forall q :: 0 <= q < r ==> lowest <= EarliestStart(inst, rs[q], asp.startTime[..], x)
      invariant forall q :: 0 <= q < best ==> lowest < EarliestStart(inst, rs[q], asp.startTime[..], x)
    {
      var prev := rs[r].sequence[|rs[r].sequence| - 1];
      var earliest := asp.startTime[prev] + inst.OccupancyTime(prev) + inst.SeparationTime(prev, x);
      var t := if earliest < inst.ReleaseTime(x) then inst.ReleaseTime(x) else earliest;
      assert t == EarliestStart(inst, rs[r], asp.startTime[..], x);
      if r == 0 || t < lowest {
        best, lowest := r, t;
      }
    }
  }

  /** What a round of the constructions reads from the state: the candidate
      at index c is a flight and every runway is non-empty and consistent. */
  lemma BeforeInsertion(inst: Instance, sol: Solution, cand: seq<nat>, start: seq<nat>,
                        runwayOf: seq<nat>, position: seq<nat>, c: nat)
    requires Building(inst, sol, cand, start, runwayOf, position)
    requires forall r :: 0 <= r < |sol.runways| ==> |sol.runways[r].sequence| >= 1
    requires c < |cand|
    ensures cand[c] < inst.numFlights && |start| == inst.numFlights
    ensures forall r :: 0 <= r < |sol.runways| ==>
      |sol.runways[r].sequence| >= 1 && ValidIds(inst, sol.runways[r].sequence) && Consistent(inst, sol.runways[r], start)
  {
  }

  /** One round of lowest_release_time_insertion: the candidate at the back
      of the list goes at the tail of the first runway on which it can start
      earliest, at that start and with the cost of landing then, and the
      release order is kept. */
  method InsertLowestRelease(asp: ASP, sol: Solution, rest: seq<nat>) returns (sol': Solution, rest': seq<nat>)
    requires asp.Arena() && |rest| >= 1
    requires Building(asp.instance, sol, rest, asp.startTime[..], asp.runwayOf[..], asp.position[..])
    requires ReleaseOrdered(asp.instance, SequencesOf(sol.runways), rest) && |sol.runways| >= 1
    modifies asp.startTime, asp.runwayOf, asp.position
    ensures rest' == rest[..|rest| - 1]
    ensures var ss, x := SequencesOf(sol.runways), rest[|rest| - 1];
      var b := FirstEarliest(asp.instance, ss, x);
      var cost := Cost(asp.instance, x, TailStart(asp.instance, ss[b], x));
      && sol'.runways == sol.runways[b := AppendFlight(sol.runways[b], x, cost)]
      && sol'.objective == sol.objective + cost
      && SequencesOf(sol'.runways) == ss[b := ss[b] + [x]]
    ensures Building(asp.instance, sol', rest', asp.startTime[..], asp.runwayOf[..], asp.position[..])
    ensures ReleaseOrdered(asp.instance, SequencesOf(sol'.runways), rest')
  {
    var inst := asp.instance;
    var x := rest[|rest| - 1];
    ghost var ss := SequencesOf(sol.runways);
    BeforeInsertion(inst, sol, rest, asp.startTime[..], asp.runwayOf[..], asp.position[..], |rest| - 1);
    var best, lowest := BestRunway(asp, sol.runways, x);
    forall r | 0 <= r < |sol.runways|
      ensures EarliestStart(inst, sol.runways[r], asp.startTime[..], x) == TailStart(inst, ss[r], x)
    {
      EarliestStartIsChained(inst, sol.runways[r], asp.startTime[..], x);
    }
    FirstEarliestUnique(inst, ss, x, best);
    EarliestStartIsChained(inst, sol.runways[best], asp.startTime[..], x);
    var cost := Cost(inst, x, lowest);
    ReleaseOrderedStep(inst, ss, rest, best);
    SequencesAfterAppend(sol.runways, best, x, cost);
    assert rest[..|rest| - 1] + rest[|rest|..] == rest[..|rest| - 1];
    sol', rest' := Place(asp, sol, rest, |rest| - 1, best, lowest, cost);
  }

  /** The main loop of lowest_release_time_insertion: one round per
      candidate, until none is left; the schedule is the one the earliest
      start rule builds. */
  method InsertAllLowestRelease(asp: ASP, sol: Solution, rest: seq<nat>) returns (sol': Solution)
    requires asp.Arena() && (asp.instance.numRunways == 0 ==> rest == [])
    requires Building(asp.instance, sol, rest, asp.startTime[..], asp.runwayOf[..], asp.position[..])
    requires ReleaseOrdered(asp.instance, SequencesOf(sol.runways), rest)
    modifies asp.startTime, asp.runwayOf, asp.position
    ensures SequencesOf(sol'.runways) == LowestReleaseFrom(asp.instance, SequencesOf(sol.runways), rest)
    ensures Building(asp.instance, sol', [], asp.startTime[..], asp.runwayOf[..], asp.position[..])
    ensures ReleaseOrdered(asp.instance, SequencesOf(sol'.runways), [])
  {
    var inst := asp.instance;
    sol' := sol;
    var left := rest;
    while |left| > 0
      invariant Building(inst, sol', left, asp.startTime[..], asp.runwayOf[..], asp.position[..])
      invariant inst.numRunways == 0 ==> left == []
      invariant ReleaseOrdered(inst, SequencesOf(sol'.runways), left)
      invariant LowestReleaseFrom(inst, SequencesOf(sol'.runways), left)
                == LowestReleaseFrom(inst, SequencesOf(sol.runways), rest)
      decreases |left|
    {
      sol', left := InsertLowestRelease(asp, sol', left);
    }
  }

  /** The seeding phase of lowest_release_time_insertion: the flights sorted
      by release time, and runway r seeded with the r-th earliest released. */
  method SeedInReleaseOrder(asp: ASP) returns (sol: Solution, rest: seq<nat>, cand: seq<nat>)
    requires asp.Arena() && asp.instance.numRunways <= asp.instance.numFlights
    requires asp.instance.numRunways == 0 ==> asp.instance.numFlights == 0
    modifies asp.startTime, asp.runwayOf, asp.position
    ensures ReleaseOrder(asp.instance, cand) && |cand| == asp.instance.numFlights
    ensures sol.runways == SeedsUpTo(cand, asp.instance.numRunways, asp.instance.numRunways)
    ensures rest == cand[..|cand| - asp.instance.numRunways]
    ensures Building(asp.instance, sol, rest, asp.startTime[..], asp.runwayOf[..], asp.position[..])
    ensures ReleaseOrdered(asp.instance, SequencesOf(sol.runways), rest)
  {
    cand := SortedCandidates(asp);
    sol, rest := SeedRunways(asp, cand);
    SeededOrder(asp.instance, cand, asp.instance.numRunways, sol.runways, rest);
  }

  /** The seeds of a release order followed by the earliest start rule on
      the remaining candidates is the schedule that rule builds. */
  lemma BuiltFromOrder(inst: Instance, cand: seq<nat>, rs: seq<Runway>, rest: seq<nat>, ss: seq<seq<nat>>)
    requires ReleaseOrder(inst, cand)
    requires rs == SeedsUpTo(cand, inst.numRunways, inst.numRunways)
    requires rest == cand[..|cand| - inst.numRunways]
    requires AllValidIds(inst, SequencesOf(rs)) && ValidIds(inst, rest)
    requires ss == LowestReleaseFrom(inst, SequencesOf(rs), rest)
    ensures BuiltByLowestRelease(inst, ss)
  {
    SeedsAsSequences(cand, inst.numRunways);
    assert LowestReleaseSchedule(inst, cand, ss);
  }

  /** The placing phase of lowest_release_time_insertion: every remaining
      candidate is placed by the earliest-start rule, and the finished
      schedule meets the schedule invariant. */
  method PlaceInReleaseOrder(asp: ASP, sol: Solution, rest: seq<nat>) returns (sol': Solution)
    requires asp.Arena() && (asp.instance.numRunways == 0 ==> rest == [])
    requires Building(asp.instance, sol, rest, asp.startTime[..], asp.runwayOf[..], asp.position[..])
    requires ReleaseOrdered(asp.instance, SequencesOf(sol.runways), rest)
    modifies asp.startTime, asp.runwayOf, asp.position
    ensures asp.Valid(sol')
    ensures SequencesOf(sol'.runways) == LowestReleaseFrom(asp.instance, SequencesOf(sol.runways), rest)
    ensures ReleaseOrdered(asp.instance, SequencesOf(sol'.runways), [])
  {
    sol' := InsertAllLowestRelease(asp, sol, rest);
    Completed(asp.instance, sol', asp.startTime[..], asp.runwayOf[..], asp.position[..]);
  }

  /** lowest_release_time_insertion: after seeding, the candidate released
      earliest goes to the first runway on which it can start earliest, at
      that start. The schedule is the one that rule builds from the flights
      in release order; it meets the schedule invariant, the seeds are the
      earliest released flights, and every runway lands its flights in
      release order. */
  method LowestReleaseTimeInsertion(asp: ASP) returns (sol: Solution)
    requires asp.Arena() && asp.instance.numRunways <= asp.instance.numFlights
    requires asp.instance.numRunways == 0 ==> asp.instance.numFlights == 0
    modifies asp.startTime, asp.runwayOf, asp.position
    ensures asp.Valid(sol)
    ensures BuiltByLowestRelease(asp.instance, SequencesOf(sol.runways))
    ensures SeedsReleasedFirst(asp.instance, SequencesOf(sol.runways))
    ensures forall r :: 0 <= r < |sol.runways| ==> ReleaseAscending(asp.instance, sol.runways[r].sequence)
  {
    var seeded, rest, cand := SeedInReleaseOrder(asp);
    sol := PlaceInReleaseOrder(asp, seeded, rest);
    BuiltFromOrder(asp.instance, cand, seeded.runways, rest, SequencesOf(sol.runways));
  }

  /** The prefix penalty lowest_release_time_insertion pushes for an
      appended flight, as written: the entry of the runway's first |s| - 1
      flights plus the new flight's cost. */
  function AsWrittenPrefixEntry(rw: Runway, cost: nat): nat
    requires 1 <= |rw.sequence| < |rw.prefixPenalty|
  {
    rw.prefixPenalty[|rw.sequence| - 1] + cost
  }

  /** The as-written entry is the prefix penalty of the longer sequence
      exactly when the runway's last flight costs nothing, i.e. lands at its
      release time or has no delay penalty; AppendFlight's entry is always
      right (AppendConsistent). */
  lemma AsWrittenPrefixEntryRightIff(inst: Instance, rw: Runway, start: seq<nat>, x: nat, t: nat, cost: nat)
    requires Consistent(inst, rw, start) && |rw.sequence| >= 1 && x < inst.numFlights
    requires ValidIds(inst, rw.sequence + [x])
    requires t == StartTime(inst, rw.sequence + [x], |rw.sequence|) && cost == Cost(inst, x, t)
    ensures AsWrittenPrefixEntry(rw, cost) == PrefixPenalty(inst, rw.sequence + [x], |rw.sequence| + 1)
            <==> FlightCost(inst, rw.sequence, |rw.sequence| - 1) == 0
  {
    var s, s' := rw.sequence, rw.sequence + [x];
    PrefixAgreement(inst, s, s', |s|);
    assert rw.prefixPenalty[|s| - 1] == PrefixPenalty(inst, s, |s| - 1);
    assert PrefixPenalty(inst, s', |s| + 1) == PrefixPenalty(inst, s, |s| - 1) + FlightCost(inst, s, |s| - 1) + cost;
  }

  /** One runway, three flights released at 0 with occupancy 1, delay
      penalty 1 and no separation. The runway [0, 1] has start times 0 and 1
      and prefix penalties [0, 0, 1]; flight 2 appended starts at 2 with cost
      2. The as-written entry is 0 + 2 = 2, but the first three flights cost
      0 + 1 + 2 = 3. */
  lemma AsWrittenPrefixEntryExample()
    ensures var inst := Instance(3, 1, seq(3, _ => 0), seq(3, _ => 1), seq(3, _ => 1), seq(9, _ => 0));
      && inst.WellFormed()
      && Consistent(inst, Runway(0, [0, 1], [0, 0, 1], 1), [0, 1, 0])
      && StartTime(inst, [0, 1, 2], 2) == 2 && Cost(inst, 2, 2) == 2
      && AsWrittenPrefixEntry(Runway(0, [0, 1], [0, 0, 1], 1), 2) == 2
      && PrefixPenalty(inst, [0, 1, 2], 3) == 3
  {
    var inst := Instance(3, 1, seq(3, _ => 0), seq(3, _ => 1), seq(3, _ => 1), seq(9, _ => 0));
    assert inst.WellFormed();
    assert inst.SeparationTime(0, 1) == 0 && inst.SeparationTime(1, 2) == 0;
    assert inst.OccupancyTime(0) == 1 && inst.OccupancyTime(1) == 1;
    assert NextStart(inst, 0, 0, 1) == 1 && NextStart(inst, 1, 1, 2) == 2;
    var s, s' := [0, 1], [0, 1, 2];
    assert ValidIds(inst, s) && ValidIds(inst, s');
    assert StartTime(inst, s, 1) == 1 && FlightCost(inst, s, 1) == 1;
    assert StartTime(inst, s', 1) == 1 && StartTime(inst, s', 2) == 2;
    assert FlightCost(inst, s', 1) == 1 && FlightCost(inst, s', 2) == 2;
    assert FlightCost(inst, s, 0) == 0 && FlightCost(inst, s', 0) == 0;
    assert PrefixPenalty(inst, s, 1) == PrefixPenalty(inst, s, 0) + FlightCost(inst, s, 0) == 0;
    assert PrefixPenalty(inst, s', 1) == PrefixPenalty(inst, s', 0) + FlightCost(inst, s', 0) == 0;
    assert PrefixPenalty(inst, s, 2) == PrefixPenalty(inst, s, 1) + FlightCost(inst, s, 1);
    assert PrefixPenalty(inst, s', 2) == PrefixPenalty(inst, s', 1) + FlightCost(inst, s', 1);
    assert PrefixPenalty(inst, s', 3) == 3;
    var rw := Runway(0, s, [0, 0, 1], 1);
    var start: seq<nat> := [0, 1, 0];
    assert PrefixesMatch(inst, s, rw.prefixPenalty, 2) by {
      forall k | 0 <= k <= 2
        ensures rw.prefixPenalty[k] == PrefixPenalty(inst, s, k)
      {
      }
    }
    assert StartsMatch(inst, s, start, 2) by {
      forall k | 0 <= k < 2
        ensures start[s[k]] == StartTime(inst, s, k)
      {
      }
    }
  }

  /** What the insertion scan reads: every runway has a last flight with a
      valid id, the start times cover every flight and the candidates are
      flights. */
  ghost predicate Scannable(inst: Instance, rs: seq<Runway>, start: seq<nat>, cand: seq<nat>) {
    && inst.WellFormed() && |start| == inst.numFlights && ValidIds(inst, cand)
    && forall r :: 0 <= r < |rs| ==> |rs[r].sequence| >= 1 && ValidIds(inst, rs[r].sequence)
  }

  /** The possible insertion of candidate c at the tail of runway r: its
      earliest start there and the cost of landing then. */
  function MakeInsertion(inst: Instance, rs: seq<Runway>, start: seq<nat>, cand: seq<nat>, c: nat, r: nat): Insertion
    requires Scannable(inst, rs, start, cand) && c < |cand| && r < |rs|
  {
    var t := EarliestStart(inst, rs[r], start, cand[c]);
    Insertion(c, t, Cost(inst, cand[c], t), r)
  }

  /** The insertions of candidate c on every runway, in runway order. */
  function InsertionRow(inst: Instance, rs: seq<Runway>, start: seq<nat>, cand: seq<nat>, c: nat): seq<Insertion>
    requires Scannable(inst, rs, start, cand) && c < |cand|
  {
    seq(|rs|, r requires 0 <= r < |rs| => MakeInsertion(inst, rs, start, cand, c, r))
  }

  /** The insertions of candidates c .. |cand| - 1 in the order the scan
      lists them: from the back of the candidate list forwards, one row of
      runways per candidate. */
  function InsertionsFrom(inst: Instance, rs: seq<Runway>, start: seq<nat>, cand: seq<nat>, c: nat): seq<Insertion>
    requires Scannable(inst, rs, start, cand) && c <= |cand|
    decreases |cand| - c
  {
    if c == |cand| then [] else InsertionsFrom(inst, rs, start, cand, c + 1) + InsertionRow(inst, rs, start, cand, c)
  }

  /** The scan lists (|cand| - c) * |rs| insertions: each is the insertion of
      one of the candidates c .. |cand| - 1 on one runway, and every such pair
      is listed. */
  lemma {:induction false} InsertionsListed(inst: Instance, rs: seq<Runway>, start: seq<nat>, cand: seq<nat>, c: nat)
    requires Scannable(inst, rs, start, cand) && c <= |cand|
    ensures |InsertionsFrom(inst, rs, start, cand, c)| == (|cand| - c) * |rs|
    ensures forall e :: e in InsertionsFrom(inst, rs, start, cand, c) ==>
      c <= e.candidate < |cand| && e.runway < |rs| && e == MakeInsertion(inst, rs, start, cand, e.candidate, e.runway)
    ensures forall d, r :: c <= d < |cand| && 0 <= r < |rs| ==>
      MakeInsertion(inst, rs, start, cand, d, r) in InsertionsFrom(inst, rs, start, cand, c)
    decreases |cand| - c
  {
    if c < |cand| {
      InsertionsListed(inst, rs, start, cand, c + 1);
      var row := InsertionRow(inst, rs, start, cand, c);
      assert (|cand| - c) * |rs| == (|cand| - (c + 1)) * |rs| + |rs|;
      forall d, r | c <= d < |cand| && 0 <= r < |rs|
        ensures MakeInsertion(inst, rs, start, cand, d, r) in InsertionsFrom(inst, rs, start, cand, c)
      {
        if d == c {
          assert row[r] == MakeInsertion(inst, rs, start, cand, d, r);
        }
      }
    }
  }

  /** On consistent runways the insertion the scan computes from the cached
      start times is the insertion at the tail of the runway's sequence. */
  lemma InsertionMatches(inst: Instance, rs: seq<Runway>, start: seq<nat>, cand: seq<nat>, c: nat, r: nat)
    requires Scannable(inst, rs, start, cand) && c < |cand| && r < |rs|
    requires forall q :: 0 <= q < |rs| ==> Consistent(inst, rs[q], start)
    ensures AllValidIds(inst, SequencesOf(rs))
    ensures MakeInsertion(inst, rs, start, cand, c, r) == InsertionOn(inst, SequencesOf(rs), cand, c, r)
  {
    EarliestStartIsChained(inst, rs[r], start, cand[c]);
  }

  /** On consistent runways the scan lists exactly the insertions at the
      tails of the runways' sequences, in the same order. */
  lemma {:induction false} InsertionsMatch(inst: Instance, rs: seq<Runway>, start: seq<nat>, cand: seq<nat>, c: nat)
    requires Scannable(inst, rs, start, cand) && c <= |cand|
    requires forall q :: 0 <= q < |rs| ==> Consistent(inst, rs[q], start)
    ensures AllValidIds(inst, SequencesOf(rs))
    ensures InsertionsFrom(inst, rs, start, cand, c) == InsertionsOn(inst, SequencesOf(rs), cand, c)
    decreases |cand| - c
  {
    if c < |cand| {
      InsertionsMatch(inst, rs, start, cand, c + 1);
      var row := InsertionRow(inst, rs, start, cand, c);
      var row' := seq(|rs|, r requires 0 <= r < |rs| => InsertionOn(inst, SequencesOf(rs), cand, c, r));
      forall r | 0 <= r < |rs|
        ensures row[r] == row'[r]
      {
        InsertionMatches(inst, rs, start, cand, c, r);
      }
      assert row == row';
    }
  }

  /** The scan of randomized_greedy: for every candidate from the back of
      the list forwards and every runway in order, the earliest start of the
      candidate at the tail of the runway and the cost of landing then. */
  method CollectInsertions(asp: ASP, rs: seq<Runway>, cand: seq<nat>) returns (ins: seq<Insertion>)
    requires asp.Arena() && Scannable(asp.instance, rs, asp.startTime[..], cand)
    ensures ins == InsertionsFrom(asp.instance, rs, asp.startTime[..], cand, 0)
  {
    var inst := asp.instance;
    ins := [];
    var c := |cand|;
    while c > 0
      invariant 0 <= c <= |cand| && ins == InsertionsFrom(inst, rs, asp.startTime[..], cand, c)
    {
      c := c - 1;
      var x := cand[c];
      ghost var row := InsertionRow(inst, rs, asp.startTime[..], cand, c);
      ghost var before := ins;
      for r := 0 to |rs|
        invariant ins == before + row[..r]
      {
        var prev := rs[r].sequence[|rs[r].sequence| - 1];
        var earliest := asp.startTime[prev] + inst.OccupancyTime(prev) + inst.SeparationTime(prev, x);
        var t := if earliest < inst.ReleaseTime(x) then inst.ReleaseTime(x) else earliest;
        var delay := t - inst.ReleaseTime(x);
        var penalty := inst.DelayPenalty(x) * delay;
        assert Insertion(c, t, penalty, r) == row[r];
        assert row[..r + 1] == row[..r] + [row[r]];
        ins := ins + [Insertion(c, t, penalty, r)];
      }
      assert row[..|rs|] == row;
    }
  }

  /** What randomized_greedy keeps while it places flights: every runway is
      non-empty and its first flight is released no later than anything
      placed after it or still to be placed. */
  ghost predicate SeedsOrdered(inst: Instance, ss: seq<seq<nat>>, cand: seq<nat>)
    requires inst.WellFormed() && AllValidIds(inst, ss) && ValidIds(inst, cand)
  {
    && (forall r :: 0 <= r < |ss| ==> |ss[r]| >= 1)
    && SeedsReleasedFirst(inst, ss) && SeedsBefore(inst, ss, cand)
  }

  /** How many insertions a round lists with `count` candidates and
      `runways` runways. */
  function ListedInsertions(count: nat, runways: nat): nat {
    count * runways
  }

  /** The choice of randomized_greedy: the possible insertions are listed
      and sorted by penalty and draw `choice` picks one. It is the insertion
      of one candidate at the tail of one runway, and its penalty is the
      choice-th smallest of all (candidate, runway) pairs. */
  method ChooseInsertion(asp: ASP, rs: seq<Runway>, cand: seq<nat>, choice: nat) returns (sel: Insertion)
    requires asp.Arena() && Scannable(asp.instance, rs, asp.startTime[..], cand)
    requires choice < |cand| * |rs|
    ensures sel.candidate < |cand| && sel.runway < |rs|
    ensures sel == MakeInsertion(asp.instance, rs, asp.startTime[..], cand, sel.candidate, sel.runway)
    ensures var all := InsertionsFrom(asp.instance, rs, asp.startTime[..], cand, 0);
      CountBelow(all, sel.penalty) <= choice < CountAtMost(all, sel.penalty)
  {
    var ins := CollectInsertions(asp, rs, cand);
    InsertionsListed(asp.instance, rs, asp.startTime[..], cand, 0);
    sel := SelectInsertion(ins, choice);
  }

  /** Draw `choice` took sol and rest to sol' and rest': some candidate c,
      on some runway r, whose insertion has the rank the draw names, is
      appended to that runway with the cost of its insertion, the objective
      grows by that cost and the candidate leaves the list. */
  ghost predicate RoundApplied(inst: Instance, sol: Solution, rest: seq<nat>, choice: nat, sol': Solution, rest': seq<nat>)
    requires inst.WellFormed() && AllValidIds(inst, SequencesOf(sol.runways)) && ValidIds(inst, rest)
  {
    var ss := SequencesOf(sol.runways);
    exists c: nat, r: nat :: c < |rest| && r < |ss| && Picked(inst, ss, rest, choice, c, r)
      && var cost := InsertionOn(inst, ss, rest, c, r).penalty;
      && sol'.runways == sol.runways[r := AppendFlight(sol.runways[r], rest[c], cost)]
      && sol'.objective == sol.objective + cost
      && rest' == rest[..c] + rest[c + 1..]
  }

  /** One round of randomized_greedy: the chosen insertion's candidate goes
      at the tail of its runway at its start time, with its penalty. */
  method InsertRandomized(asp: ASP, sol: Solution, rest: seq<nat>, choice: nat)
    returns (sol': Solution, rest': seq<nat>)
    requires asp.Arena() && |rest| >= 1 && asp.instance.numRunways >= 1
    requires Building(asp.instance, sol, rest, asp.startTime[..], asp.runwayOf[..], asp.position[..])
    requires SeedsOrdered(asp.instance, SequencesOf(sol.runways), rest)
    requires choice < ListedInsertions(|rest|, asp.instance.numRunways)
    modifies asp.startTime, asp.runwayOf, asp.position
    ensures |rest'| == |rest| - 1
    ensures Building(asp.instance, sol', rest', asp.startTime[..], asp.runwayOf[..], asp.position[..])
    ensures SeedsOrdered(asp.instance, SequencesOf(sol'.runways), rest')
    ensures RoundApplied(asp.instance, sol, rest, choice, sol', rest')
    ensures RandomizedRound(asp.instance, SequencesOf(sol.runways), rest, choice, SequencesOf(sol'.runways), rest')
  {
    var inst := asp.instance;
    ghost var ss := SequencesOf(sol.runways);
    BeforeInsertion(inst, sol, rest, asp.startTime[..], asp.runwayOf[..], asp.position[..], 0);
    assert |sol.runways| == inst.numRunways;
    var sel := ChooseInsertion(asp, sol.runways, rest, choice);
    var x := rest[sel.candidate];
    EarliestStartIsChained(inst, sol.runways[sel.runway], asp.startTime[..], x);
    SeedsAfterPlace(inst, ss, rest, sel.candidate, sel.runway);
    SequencesAfterAppend(sol.runways, sel.runway, x, sel.penalty);
    InsertionsMatch(inst, sol.runways, asp.startTime[..], rest, 0);
    InsertionMatches(inst, sol.runways, asp.startTime[..], rest, sel.candidate, sel.runway);
    assert Picked(inst, ss, rest, choice, sel.candidate, sel.runway);
    sol', rest' := Place(asp, sol, rest, sel.candidate, sel.runway, sel.startTime, sel.penalty);
  }

  /** Round i of the main loop of randomized_greedy, as the i + 1-th round
      of the rounds that began at ss0 and cand0. */
  method NextRound(asp: ASP, sol: Solution, rest: seq<nat>, choices: seq<nat>, i: nat,
                   ghost ss0: seq<seq<nat>>, ghost cand0: seq<nat>)
    returns (sol': Solution, rest': seq<nat>)
    requires asp.Arena() && i < |choices| && |rest| == |choices| - i
    requires asp.instance.numRunways == 0 ==> cand0 == []
    requires |cand0| == |choices| && choices[i] < ListedInsertions(|choices| - i, asp.instance.numRunways)
    requires Building(asp.instance, sol, rest, asp.startTime[..], asp.runwayOf[..], asp.position[..])
    requires SeedsOrdered(asp.instance, SequencesOf(sol.runways), rest)
    requires AllValidIds(asp.instance, ss0) && ValidIds(asp.instance, cand0)
    requires RandomizedRounds(asp.instance, ss0, cand0, choices[..i], SequencesOf(sol.runways), rest)
    modifies asp.startTime, asp.runwayOf, asp.position
    ensures |rest'| == |rest| - 1
    ensures Building(asp.instance, sol', rest', asp.startTime[..], asp.runwayOf[..], asp.position[..])
    ensures SeedsOrdered(asp.instance, SequencesOf(sol'.runways), rest')
    ensures RandomizedRounds(asp.instance, ss0, cand0, choices[..i + 1], SequencesOf(sol'.runways), rest')
  {
    ghost var ss := SequencesOf(sol.runways);
    sol', rest' := InsertRandomized(asp, sol, rest, choices[i]);
    RoundsStep(asp.instance, ss0, cand0, choices, i, ss, rest, SequencesOf(sol'.runways), rest');
  }

  /** The main loop of randomized_greedy: one round per draw, until no
      candidate is left. */
  method InsertAllRandomized(asp: ASP, sol: Solution, rest: seq<nat>, choices: seq<nat>) returns (sol': Solution)
    requires asp.Arena() && |rest| == |choices|
    requires asp.instance.numRunways == 0 ==> rest == []
    requires forall i :: 0 <= i < |choices| ==> choices[i] < ListedInsertions(|choices| - i, asp.instance.numRunways)
    requires Building(asp.instance, sol, rest, asp.startTime[..], asp.runwayOf[..], asp.position[..])
    requires SeedsOrdered(asp.instance, SequencesOf(sol.runways), rest)
    modifies asp.startTime, asp.runwayOf, asp.position
    ensures Building(asp.instance, sol', [], asp.startTime[..], asp.runwayOf[..], asp.position[..])
    ensures SeedsOrdered(asp.instance, SequencesOf(sol'.runways), [])
    ensures RandomizedRounds(asp.instance, SequencesOf(sol.runways), rest, choices, SequencesOf(sol'.runways), [])
  {
    var inst := asp.instance;
    ghost var ss0 := SequencesOf(sol.runways);
    assert AllValidIds(inst, ss0) && ValidIds(inst, rest);
    sol' := sol;
    var left := rest;
    for i := 0 to |choices|
      invariant Building(inst, sol', left, asp.startTime[..], asp.runwayOf[..], asp.position[..])
      invariant |left| == |choices| - i
      invariant SeedsOrdered(inst, SequencesOf(sol'.runways), left)
      invariant RandomizedRounds(inst, ss0, rest, choices[..i], SequencesOf(sol'.runways), left)
    {
      sol', left := NextRound(asp, sol', left, choices, i, ss0, rest);
    }
    assert choices[..|choices|] == choices;
  }

  /** The seeds of a release order followed by the rounds of the draws on
      the remaining candidates is a schedule randomized_greedy builds. */
  lemma RandomizedFromOrder(inst: Instance, cand: seq<nat>, rs: seq<Runway>, rest: seq<nat>,
                            choices: seq<nat>, ss: seq<seq<nat>>)
    requires ReleaseOrder(inst, cand)
    requires rs == SeedsUpTo(cand, inst.numRunways, inst.numRunways)
    requires rest == cand[..|cand| - inst.numRunways]
    requires AllValidIds(inst, SequencesOf(rs)) && ValidIds(inst, rest)
    requires RandomizedRounds(inst, SequencesOf(rs), rest, choices, ss, [])
    ensures BuiltByRandomized(inst, choices, ss)
  {
    SeedsAsSequences(cand, inst.numRunways);
    assert RandomizedSchedule(inst, cand, choices, ss);
  }

  /** The placing phase of randomized_greedy from the seeds of the release
      order cand: one round per draw, and the finished schedule meets the
      schedule invariant and is one the rounds build from that order. */
  method PlaceRandomized(asp: ASP, sol: Solution, rest: seq<nat>, choices: seq<nat>, ghost cand: seq<nat>)
    returns (sol': Solution)
    requires asp.Arena() && |rest| == |choices| && ReleaseOrder(asp.instance, cand)
    requires sol.runways == SeedsUpTo(cand, asp.instance.numRunways, asp.instance.numRunways)
    requires rest == cand[..|cand| - asp.instance.numRunways]
    requires forall i :: 0 <= i < |choices| ==> choices[i] < ListedInsertions(|choices| - i, asp.instance.numRunways)
    requires Building(asp.instance, sol, rest, asp.startTime[..], asp.runwayOf[..], asp.position[..])
    requires SeedsOrdered(asp.instance, SequencesOf(sol.runways), rest)
    modifies asp.startTime, asp.runwayOf, asp.position
    ensures asp.Valid(sol')
    ensures SeedsReleasedFirst(asp.instance, SequencesOf(sol'.runways))
    ensures BuiltByRandomized(asp.instance, choices, SequencesOf(sol'.runways))
  {
    sol' := InsertAllRandomized(asp, sol, rest, choices);
    RandomizedFromOrder(asp.instance, cand, sol.runways, rest, choices, SequencesOf(sol'.runways));
    Completed(asp.instance, sol', asp.startTime[..], asp.runwayOf[..], asp.position[..]);
  }

  /** randomized_greedy: after seeding, each round takes the insertion the
      next draw picks from the possible insertions sorted by penalty. Draw i
      is taken as given and must index the list of that round, which holds
      (|choices| - i) * |runways| insertions. The result meets the schedule
      invariant and the seeds are the earliest released flights. */
  method RandomizedGreedy(asp: ASP, choices: seq<nat>) returns (sol: Solution)
    requires asp.Arena() && asp.instance.numRunways <= asp.instance.numFlights
    requires asp.instance.numRunways == 0 ==> asp.instance.numFlights == 0
    requires |choices| == asp.instance.numFlights - asp.instance.numRunways
    requires forall i :: 0 <= i < |choices| ==> choices[i] < ListedInsertions(|choices| - i, asp.instance.numRunways)
    modifies asp.startTime, asp.runwayOf, asp.position
    ensures asp.Valid(sol)
    ensures BuiltByRandomized(asp.instance, choices, SequencesOf(sol.runways))
    ensures SeedsReleasedFirst(asp.instance, SequencesOf(sol.runways))
  {
    var seeded, rest, cand := SeedInReleaseOrder(asp);
    sol := PlaceRandomized(asp, seeded, rest, choices, cand);
  }
}
