/** The chained landing-time rule every part of the scheduler shares: the first
    flight of a runway lands at its release time, each later one at the larger of
    its release time and the previous flight's start plus occupancy plus the
    pairwise separation; a flight costs its delay penalty times its delay, and a
    runway's prefix penalty k is the sum of the first k costs. */
module Schedule {
  import opened Instances

  /** Every id in s names a flight of the instance. */
  ghost predicate ValidIds(inst: Instance, s: seq<nat>) {
    forall k :: 0 <= k < |s| ==> s[k] < inst.numFlights
  }

  /** Start of `next` when it lands right after `prev`, which started at `prevStart`. */
  function NextStart(inst: Instance, prev: nat, prevStart: nat, next: nat): (t: nat)
    requires inst.WellFormed() && prev < inst.numFlights && next < inst.numFlights
    ensures t >= inst.ReleaseTime(next)
    ensures t >= prevStart + inst.OccupancyTime(prev) + inst.SeparationTime(prev, next)
    ensures t == inst.ReleaseTime(next) ||
            t == prevStart + inst.OccupancyTime(prev) + inst.SeparationTime(prev, next)
  {
    var earliest := prevStart + inst.OccupancyTime(prev) + inst.SeparationTime(prev, next);
    if inst.ReleaseTime(next) < earliest then earliest else inst.ReleaseTime(next)
  }

  /** Weighted delay of flight f landing at time t (t is never before its release). */
  function Cost(inst: Instance, f: nat, t: nat): nat
    requires inst.WellFormed() && f < inst.numFlights && t >= inst.ReleaseTime(f)
  {
    inst.DelayPenalty(f) * (t - inst.ReleaseTime(f))
  }

  /** Start time of the flight at position k of the landing sequence s. */
  function StartTime(inst: Instance, s: seq<nat>, k: nat): (t: nat)
    requires inst.WellFormed() && ValidIds(inst, s) && k < |s|
    ensures t >= inst.ReleaseTime(s[k])
    ensures k == 0 ==> t == inst.ReleaseTime(s[0])
  {
    if k == 0 then inst.ReleaseTime(s[0])
    else NextStart(inst, s[k - 1], StartTime(inst, s, k - 1), s[k])
  }

  function FlightCost(inst: Instance, s: seq<nat>, k: nat): nat
    requires inst.WellFormed() && ValidIds(inst, s) && k < |s|
  {
    Cost(inst, s[k], StartTime(inst, s, k))
  }

  /** Sum of the costs of the first k flights of s. */
  function PrefixPenalty(inst: Instance, s: seq<nat>, k: nat): nat
    requires inst.WellFormed() && ValidIds(inst, s) && k <= |s|
  {
    if k == 0 then 0 else PrefixPenalty(inst, s, k - 1) + FlightCost(inst, s, k - 1)
  }

  /** The penalty of a runway whose landing sequence is s. */
  function TotalPenalty(inst: Instance, s: seq<nat>): nat
    requires inst.WellFormed() && ValidIds(inst, s)
  {
    PrefixPenalty(inst, s, |s|)
  }

  /** Start times and prefix penalties depend only on the flights before them. */
  lemma {:induction false} PrefixAgreement(inst: Instance, s: seq<nat>, t: seq<nat>, m: nat)
    requires inst.WellFormed() && ValidIds(inst, s) && ValidIds(inst, t)
    requires m <= |s| && m <= |t|
    requires forall k :: 0 <= k < m ==> s[k] == t[k]
    ensures forall k :: 0 <= k < m ==> StartTime(inst, s, k) == StartTime(inst, t, k)
    ensures forall k :: 0 <= k <= m ==> PrefixPenalty(inst, s, k) == PrefixPenalty(inst, t, k)
  {
    if m > 0 {
      PrefixAgreement(inst, s, t, m - 1);
      if m >= 2 {
        assert s[m - 2] == t[m - 2];
      }
      assert StartTime(inst, s, m - 1) == StartTime(inst, t, m - 1);
      assert PrefixPenalty(inst, s, m) == PrefixPenalty(inst, t, m);
    }
  }

  /** Once two sequences hold the same flights on positions a..b-1 and the flight
      at a starts at the same time in both, the starts agree on the whole segment
      and the segment contributes the same penalty. This is what lets an
      evaluation stop recomputing and reuse the stored prefix penalties. */
  lemma {:induction false} SegmentAgreement(inst: Instance, s: seq<nat>, t: seq<nat>, a: nat, b: nat)
    requires inst.WellFormed() && ValidIds(inst, s) && ValidIds(inst, t)
    requires a < b <= |s| && b <= |t|
    requires forall k :: a <= k < b ==> s[k] == t[k]
    requires StartTime(inst, s, a) == StartTime(inst, t, a)
    ensures forall k :: a <= k < b ==> StartTime(inst, s, k) == StartTime(inst, t, k)
    ensures PrefixPenalty(inst, t, b) + PrefixPenalty(inst, s, a) ==
            PrefixPenalty(inst, s, b) + PrefixPenalty(inst, t, a)
  {
    if b == a + 1 {
    } else {
      SegmentAgreement(inst, s, t, a, b - 1);
      assert StartTime(inst, s, b - 2) == StartTime(inst, t, b - 2);
      assert StartTime(inst, s, b - 1) == StartTime(inst, t, b - 1);
    }
  }

  /** Prefix penalties never decrease along a sequence: a partial sum that already
      reaches a bound proves the whole runway reaches it. */
  lemma {:induction false} PrefixMonotone(inst: Instance, s: seq<nat>, a: nat, b: nat)
    requires inst.WellFormed() && ValidIds(inst, s)
    requires a <= b <= |s|
    ensures PrefixPenalty(inst, s, a) <= PrefixPenalty(inst, s, b)
  {
    if a < b {
      PrefixMonotone(inst, s, a, b - 1);
    }
  }

  /** Starts never decrease along a runway, and consecutive flights are separated
      by at least the occupancy plus the separation time. */
  lemma StartsRespectSeparation(inst: Instance, s: seq<nat>, k: nat)
    requires inst.WellFormed() && ValidIds(inst, s)
    requires 0 < k < |s|
    ensures StartTime(inst, s, k) >= StartTime(inst, s, k - 1)
              + inst.OccupancyTime(s[k - 1]) + inst.SeparationTime(s[k - 1], s[k])
  {
  }

  /** A runway costs nothing exactly when every flight lands on time or carries no weight. */
  lemma {:induction false} ZeroPenaltyIff(inst: Instance, s: seq<nat>, m: nat)
    requires inst.WellFormed() && ValidIds(inst, s) && m <= |s|
    ensures PrefixPenalty(inst, s, m) == 0 <==>
      forall k :: 0 <= k < m ==> FlightCost(inst, s, k) == 0
  {
    if m > 0 {
      ZeroPenaltyIff(inst, s, m - 1);
    }
  }
}
