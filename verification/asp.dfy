/** The solver object: the instance, the flight arena indexed by id, and the
    per-flight caches the search keeps (start time, runway and position). */
module Asp {
  import opened Instances
  import opened Schedule
  import opened Sequences
  import opened Runways
  import opened Solutions

  /** Replacing runways ri and rj (possibly the same) of rs by runways
      consistent with new start times keeps every runway consistent, provided
      start times change only for flights of the new runways and the caches
      place each flight on one runway only. */
  lemma RunwaysAfterUpdate(inst: Instance, rs: seq<Runway>, start: seq<nat>, ri: nat, rj: nat,
                           rs': seq<Runway>, start': seq<nat>, runwayOf: seq<nat>, position: seq<nat>)
    requires inst.WellFormed() && RunwaysConsistent(inst, rs, start)
    requires ri < |rs| && rj < |rs| && |rs'| == |rs|
    requires forall q :: 0 <= q < |rs| && q != ri && q != rj ==> rs'[q] == rs[q]
    requires |rs'[ri].sequence| >= 1 && Consistent(inst, rs'[ri], start')
    requires |rs'[rj].sequence| >= 1 && Consistent(inst, rs'[rj], start')
    requires |start'| == |start|
    requires forall f :: 0 <= f < |start| && f !in rs'[ri].sequence && f !in rs'[rj].sequence ==> start'[f] == start[f]
    requires Placed(SequencesOf(rs'), runwayOf, position)
    ensures RunwaysConsistent(inst, rs', start')
  {
    var ss' := SequencesOf(rs');
    forall q | 0 <= q < |rs'| && q != ri && q != rj
      ensures |rs'[q].sequence| >= 1 && Consistent(inst, rs'[q], start')
    {
      var rw := rs[q];
      assert |rw.sequence| >= 1 && Consistent(inst, rw, start);
      forall k | 0 <= k < |rw.sequence|
        ensures start'[rw.sequence[k]] == start[rw.sequence[k]]
      {
        assert ss'[q][k] == rw.sequence[k];
        forall k' | 0 <= k' < |rs'[ri].sequence|
          ensures rs'[ri].sequence[k'] != rw.sequence[k]
        {
          PlacedDistinct(ss', runwayOf, position, q, k, ri, k');
        }
        forall k' | 0 <= k' < |rs'[rj].sequence|
          ensures rs'[rj].sequence[k'] != rw.sequence[k]
        {
          PlacedDistinct(ss', runwayOf, position, q, k, rj, k');
        }
      }
      ConsistentFrame(inst, rw, start, start');
    }
  }

  /** Runways rs are consistent with the start times held in array start (a
      predicate over the heap, so that it is passed on as one fact). */
  ghost predicate RunwaysCached(inst: Instance, rs: seq<Runway>, start: array<nat>)
    reads start
  {
    inst.WellFormed() && RunwaysConsistent(inst, rs, start[..])
  }

  /** The renumbering loop that follows a shift towards the front: walking up
      from lo to hi - 1, the position cache of the flight at each position k
      of s becomes k. No other entry changes. */
  method RenumberUp(position: array<nat>, s: seq<nat>, lo: nat, hi: nat)
    requires lo <= hi <= |s| && NoDup(s)
    requires forall k :: 0 <= k < |s| ==> s[k] < position.Length
    modifies position
    ensures forall k :: lo <= k < hi ==> position[s[k]] == k
    ensures forall y :: 0 <= y < position.Length && y !in s[lo..hi] ==> position[y] == old(position[y])
  {
    var k := lo;
    while k < hi
      invariant lo <= k <= hi
      invariant forall m :: lo <= m < k ==> position[s[m]] == m
      invariant forall y :: 0 <= y < position.Length && y !in s[lo..k] ==> position[y] == old(position[y])
    {
      assert s[lo..k + 1] == s[lo..k] + [s[k]];
      position[s[k]] := k;
      k := k + 1;
    }
  }

  /** The renumbering loop that follows a shift towards the back: walking down
      from hi - 1 to lo, the position cache of the flight at each position k
      of s becomes k. No other entry changes. */
  method RenumberDown(position: array<nat>, s: seq<nat>, lo: nat, hi: nat)
    requires lo <= hi <= |s| && NoDup(s)
    requires forall k :: 0 <= k < |s| ==> s[k] < position.Length
    modifies position
    ensures forall k :: lo <= k < hi ==> position[s[k]] == k
    ensures forall y :: 0 <= y < position.Length && y !in s[lo..hi] ==> position[y] == old(position[y])
  {
    var k := hi;
    while k > lo
      invariant lo <= k <= hi
      invariant forall m :: k <= m < hi ==> position[s[m]] == m
      invariant forall y :: 0 <= y < position.Length && y !in s[k..hi] ==> position[y] == old(position[y])
    {
      k := k - 1;
      assert s[k..hi] == [s[k]] + s[k + 1..hi];
      position[s[k]] := k;
    }
  }

  class ASP {
    const instance: Instance
    const flights: seq<Flight>
    const startTime: array<nat>
    const runwayOf: array<nat>
    const position: array<nat>

    /** The arena: one flight per id in id order with the instance's data, and
        one cache entry per flight in three separate arrays. */
    ghost predicate Arena()
      reads this
    {
      && instance.WellFormed()
      && |flights| == instance.numFlights
      && (forall i :: 0 <= i < |flights| ==>
            flights[i] == Flight(i, instance.ReleaseTime(i), instance.OccupancyTime(i), instance.DelayPenalty(i)))
      && startTime.Length == instance.numFlights
      && runwayOf.Length == instance.numFlights
      && position.Length == instance.numFlights
      && startTime != runwayOf && startTime != position && runwayOf != position
    }

    /** Solution sol, together with the caches, satisfies the schedule invariant. */
    ghost predicate Valid(sol: Solution)
      reads this, startTime, runwayOf, position
    {
      && Arena()
      && ScheduleInvariant(instance, sol, startTime[..], runwayOf[..], position[..])
    }

    /** What the search reads from runway r of a valid solution: it is non-empty
        with valid ids and its caches match. */
    lemma RunwayFacts(sol: Solution, r: nat)
      requires Valid(sol) && r < |sol.runways|
      ensures |sol.runways[r].sequence| >= 1 && ValidIds(instance, sol.runways[r].sequence)
      ensures PrefixesMatch(instance, sol.runways[r].sequence, sol.runways[r].prefixPenalty, |sol.runways[r].sequence|)
      ensures StartsMatch(instance, sol.runways[r].sequence, startTime[..], |sol.runways[r].sequence|)
      ensures sol.runways[r].penalty == TotalPenalty(instance, sol.runways[r].sequence)
    {
      assert Consistent(instance, sol.runways[r], startTime[..]);
    }

    /** ASP::ASP: builds flight i from the instance data of id i, for every id. */
    constructor (inst: Instance)
      requires inst.WellFormed()
      ensures instance == inst && Arena()
      ensures fresh(startTime) && fresh(runwayOf) && fresh(position)
    {
      var arena := BuildFlights(inst);
      instance := inst;
      flights := arena;
      startTime := new nat[inst.numFlights](_ => 0);
      runwayOf := new nat[inst.numFlights](_ => 0);
      position := new nat[inst.numFlights](_ => 0);
    }
  }
}
