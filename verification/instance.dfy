/** The read-only problem data: per-flight release, occupancy and delay-penalty
    values and the row-major separation-time matrix. */
module Instances {

  /** Position of entry (a, b) in a row-major n x n matrix stays inside the matrix. */
  lemma FlatIndexInBounds(n: nat, a: nat, b: nat)
    requires a < n && b < n
    ensures a * n + b < n * n
  {
    assert a * n + b < a * n + n;
    assert a * n + n == (a + 1) * n;
    assert (a + 1) * n <= n * n by {
      assert a + 1 <= n;
    }
  }

  datatype Instance = Instance(
    numFlights: nat,
    numRunways: nat,
    releaseTimes: seq<nat>,
    occupancyTimes: seq<nat>,
    delayPenalties: seq<nat>,
    separationTimes: seq<nat>)
  {
    /** The vectors have the lengths the accessors index into: one entry per
        flight, and n * n entries for the flat separation matrix. */
    ghost predicate WellFormed() {
      && |releaseTimes| == numFlights
      && |occupancyTimes| == numFlights
      && |delayPenalties| == numFlights
      && |separationTimes| == numFlights * numFlights
    }

    function ReleaseTime(f: nat): nat
      requires WellFormed() && f < numFlights
    {
      releaseTimes[f]
    }

    function OccupancyTime(f: nat): nat
      requires WellFormed() && f < numFlights
    {
      occupancyTimes[f]
    }

    function DelayPenalty(f: nat): nat
      requires WellFormed() && f < numFlights
    {
      delayPenalties[f]
    }

    /** Minimum gap when flight b lands right after flight a (entry a*n + b). */
    function SeparationTime(a: nat, b: nat): nat
      requires WellFormed() && a < numFlights && b < numFlights
    {
      FlatIndexInBounds(numFlights, a, b);
      separationTimes[a * numFlights + b]
    }
  }

  /** Separation is direction-sensitive: an instance where sep(0, 1) != sep(1, 0). */
  lemma SeparationNeedNotBeSymmetric()
    ensures exists inst: Instance ::
              && inst.WellFormed() && inst.numFlights == 2
              && inst.SeparationTime(0, 1) != inst.SeparationTime(1, 0)
  {
    var inst := Instance(2, 1, [0, 0], [1, 1], [1, 1], [0, 5, 7, 0]);
    assert inst.SeparationTime(0, 1) == 5;
    assert inst.SeparationTime(1, 0) == 7;
  }

  /** The immutable part of a flight: its id and the attributes copied from the instance. */
  datatype Flight = Flight(id: nat, releaseTime: nat, occupancyTime: nat, delayPenalty: nat)

  /** The flight arena built by the ASP constructor: one flight per id, in id order. */
  method BuildFlights(inst: Instance) returns (flights: seq<Flight>)
    requires inst.WellFormed()
    ensures |flights| == inst.numFlights
    ensures forall i :: 0 <= i < |flights| ==>
      flights[i] == Flight(i, inst.ReleaseTime(i), inst.OccupancyTime(i), inst.DelayPenalty(i))
  {
    flights := [];
    var i := 0;
    while i < inst.numFlights
      invariant 0 <= i <= inst.numFlights
      invariant |flights| == i
      invariant forall k :: 0 <= k < i ==>
        flights[k] == Flight(k, inst.ReleaseTime(k), inst.OccupancyTime(k), inst.DelayPenalty(k))
    {
      flights := flights + [Flight(i, inst.ReleaseTime(i), inst.OccupancyTime(i), inst.DelayPenalty(i))];
      i := i + 1;
    }
  }
}
