/** The incremental penalty evaluation the neighbourhoods share: a changed
    landing sequence is costed from the first changed position using the stored
    prefix penalties and start times of the original sequence, stopping early
    once the partial penalty reaches a bound or once a recomputed start time
    equals the stored one (from there on nothing changes). */
module Evaluation {
  import opened Instances
  import opened Schedule
  import opened Runways

  /** Once s agrees with the original on positions k .. b-1 and flight k
      starts at the same time in both, the costs of those positions are the
      stored prefix difference. */
  lemma RestFromPrefixes(inst: Instance, s: seq<nat>, orig: seq<nat>, prefix: seq<nat>, k: nat, b: nat)
    requires inst.WellFormed() && ValidIds(inst, s) && ValidIds(inst, orig)
    requires k < b <= |s| && b <= |orig|
    requires forall p :: k <= p < b ==> s[p] == orig[p]
    requires PrefixesMatch(inst, orig, prefix, |orig|)
    requires StartTime(inst, s, k) == StartTime(inst, orig, k)
    ensures prefix[k] <= prefix[b]
    ensures PrefixPenalty(inst, s, k) + (prefix[b] - prefix[k]) == PrefixPenalty(inst, s, b)
    ensures StartTime(inst, s, b - 1) == StartTime(inst, orig, b - 1)
  {
    SegmentAgreement(inst, orig, s, k, b);
    PrefixMonotone(inst, orig, k, b);
  }

  /** Penalty of the first f + 1 flights of s and start of flight f, where s
      agrees with the original sequence before f: prefix entry f plus the cost
      of flight f after its unchanged predecessor (or at its release time). */
  method EvaluateHead(inst: Instance, s: seq<nat>, ghost orig: seq<nat>,
                      prefix: seq<nat>, start: array<nat>, f: nat)
    returns (penalty: nat, prev: nat)
    requires inst.WellFormed() && ValidIds(inst, s) && ValidIds(inst, orig)
    requires f < |s| && f <= |orig|
    requires forall k :: 0 <= k < f ==> s[k] == orig[k]
    requires PrefixesMatch(inst, orig, prefix, |orig|)
    requires StartsMatch(inst, orig, start[..], |orig|)
    ensures penalty == PrefixPenalty(inst, s, f + 1)
    ensures prev == StartTime(inst, s, f)
  {
    PrefixAgreement(inst, s, orig, f);
    penalty := prefix[f];
    if f == 0 {
      prev := inst.ReleaseTime(s[0]);
    } else {
      assert start[s[f - 1]] == StartTime(inst, orig, f - 1);
      prev := start[s[f - 1]];
      prev := NextStart(inst, s[f - 1], prev, s[f]);
      penalty := penalty + Cost(inst, s[f], prev);
    }
  }

  /** Penalty of s, which agrees with the original sequence before position f:
      the head up to f from the stored entries, then every later flight
      recomputed after its predecessor, to the end of s. */
  method EvaluateFrom(inst: Instance, s: seq<nat>, ghost orig: seq<nat>,
                      prefix: seq<nat>, start: array<nat>, f: nat)
    returns (penalty: nat)
    requires inst.WellFormed() && ValidIds(inst, s) && ValidIds(inst, orig)
    requires f < |s| && f <= |orig|
    requires forall k :: 0 <= k < f ==> s[k] == orig[k]
    requires PrefixesMatch(inst, orig, prefix, |orig|)
    requires StartsMatch(inst, orig, start[..], |orig|)
    ensures penalty == TotalPenalty(inst, s)
  {
    var prev;
    penalty, prev := EvaluateHead(inst, s, orig, prefix, start, f);
    penalty := ChainFrom(inst, s, f + 1, penalty, prev);
  }

  /** The recomputing part of a segment evaluation that must end before
      position e: from k0 on, adds the cost of each flight after its
      predecessor, stopping when a recomputed start equals the stored start of
      that flight (`hit`), when the partial penalty reaches `bound` (checked
      after each flight), or at e. */
  method AdvanceSegment(inst: Instance, s: seq<nat>, start: array<nat>, k0: nat, e: nat,
                        penalty0: nat, prev0: nat, bound: nat)
    returns (penalty: nat, prev: nat, k: nat, hit: bool)
    requires inst.WellFormed() && ValidIds(inst, s) && start.Length == inst.numFlights
    requires 1 <= k0 <= e <= |s|
    requires penalty0 == PrefixPenalty(inst, s, k0) && prev0 == StartTime(inst, s, k0 - 1)
    ensures k0 <= k <= e && penalty == PrefixPenalty(inst, s, k)
    ensures hit ==> k < e && prev == StartTime(inst, s, k) && start[s[k]] == prev
    ensures !hit ==> prev == StartTime(inst, s, k - 1) && (k == e || penalty >= bound)
  {
    penalty, prev, k, hit := penalty0, prev0, k0, false;
    while k < e
      invariant k0 <= k <= e
      invariant penalty == PrefixPenalty(inst, s, k)
      invariant prev == StartTime(inst, s, k - 1)
    {
      prev := NextStart(inst, s[k - 1], prev, s[k]);
      if start[s[k]] == prev {
        hit := true;
        return;
      }
      penalty := penalty + Cost(inst, s[k], prev);
      k := k + 1;
      if penalty >= bound {
        return;
      }
    }
  }

  /** The recomputing part of a tail evaluation: from position k0 on, adds the
      cost of each flight after its predecessor until the partial penalty plus
      `other` reaches `bound` (checked before each flight), or a recomputed
      start equals the stored start of that flight (`hit`), or the sequence
      ends. */
  method AdvanceTail(inst: Instance, s: seq<nat>, start: array<nat>, k0: nat,
                     penalty0: nat, prev0: nat, other: nat, bound: nat)
    returns (penalty: nat, prev: nat, k: nat, hit: bool)
    requires inst.WellFormed() && ValidIds(inst, s) && start.Length == inst.numFlights
    requires 1 <= k0 <= |s|
    requires penalty0 == PrefixPenalty(inst, s, k0) && prev0 == StartTime(inst, s, k0 - 1)
    ensures k0 <= k <= |s| && penalty0 <= penalty == PrefixPenalty(inst, s, k)
    ensures hit ==> k < |s| && prev == StartTime(inst, s, k) && start[s[k]] == prev
    ensures !hit ==> k == |s| || penalty + other >= bound
  {
    penalty, prev, k, hit := penalty0, prev0, k0, false;
    while k < |s|
      invariant k0 <= k <= |s|
      invariant penalty0 <= penalty == PrefixPenalty(inst, s, k)
      invariant prev == StartTime(inst, s, k - 1)
    {
      if penalty + other >= bound {
        return;
      }
      prev := NextStart(inst, s[k - 1], prev, s[k]);
      if start[s[k]] == prev {
        hit := true;
        return;
      }
      penalty := penalty + Cost(inst, s[k], prev);
      k := k + 1;
    }
  }

  /** Penalty of s from position k0 on, added to the penalty of its first k0
      flights: stops once the partial penalty plus `other` reaches `bound`, and
      takes the rest from the stored prefix penalties as soon as a recomputed
      start time equals the stored start of that (unchanged) flight. The result
      never exceeds the true penalty, and is the true penalty whenever it stays
      below the bound. */
  method EvaluateTail(inst: Instance, s: seq<nat>, ghost orig: seq<nat>,
                      prefix: seq<nat>, start: array<nat>, k0: nat,
                      penalty0: nat, prev0: nat, other: nat, bound: nat)
    returns (penalty: nat)
    requires inst.WellFormed() && ValidIds(inst, s) && ValidIds(inst, orig)
    requires |s| == |orig| && 1 <= k0 <= |s|
    requires forall k :: k0 <= k < |s| ==> s[k] == orig[k]
    requires PrefixesMatch(inst, orig, prefix, |orig|)
    requires StartsMatch(inst, orig, start[..], |orig|)
    requires penalty0 == PrefixPenalty(inst, s, k0) && prev0 == StartTime(inst, s, k0 - 1)
    ensures penalty0 <= penalty <= TotalPenalty(inst, s)
    ensures penalty + other < bound ==> penalty == TotalPenalty(inst, s)
  {
    var prev, k, hit;
    penalty, prev, k, hit := AdvanceTail(inst, s, start, k0, penalty0, prev0, other, bound);
    if hit {
      assert start[s[k]] == StartTime(inst, orig, k);
      RestFromPrefixes(inst, s, orig, prefix, k, |s|);
      penalty := penalty + (prefix[|s|] - prefix[k]);
    } else {
      PrefixMonotone(inst, s, k, |s|);
    }
  }

  /** The from-scratch part of an evaluation: from position k0 on, adds the
      cost of each flight after its predecessor, to the end of s. */
  method ChainFrom(inst: Instance, s: seq<nat>, k0: nat, penalty0: nat, prev0: nat)
    returns (penalty: nat)
    requires inst.WellFormed() && ValidIds(inst, s) && 1 <= k0 <= |s|
    requires penalty0 == PrefixPenalty(inst, s, k0) && prev0 == StartTime(inst, s, k0 - 1)
    ensures penalty == TotalPenalty(inst, s)
  {
    penalty := penalty0;
    var prev := prev0;
    var k := k0;
    while k < |s|
      invariant k0 <= k <= |s|
      invariant penalty == PrefixPenalty(inst, s, k)
      invariant prev == StartTime(inst, s, k - 1)
    {
      prev := NextStart(inst, s[k - 1], prev, s[k]);
      penalty := penalty + Cost(inst, s[k], prev);
      k := k + 1;
    }
  }
}
