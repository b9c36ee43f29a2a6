/** One runway of a solution: its landing sequence (flight ids), the prefix
    penalties of that sequence and its total penalty. */
module Runways {
  import opened Instances
  import opened Schedule
  import opened Sequences

  /** A runway: its id, its landing sequence (flight ids in landing order),
      the prefix penalties of that sequence (entry k is the penalty of its
      first k flights) and its total penalty. */
  datatype Runway = Runway(id: nat, sequence: seq<nat>, prefixPenalty: seq<nat>, penalty: nat)

  /** Prefix penalties 0 .. m of `prefix` are those of s. */
  ghost predicate PrefixesMatch(inst: Instance, s: seq<nat>, prefix: seq<nat>, m: nat)
    requires inst.WellFormed() && ValidIds(inst, s)
  {
    && m <= |s|
    && |prefix| == |s| + 1
    && forall k {:trigger prefix[k]} :: 0 <= k <= m ==> prefix[k] == PrefixPenalty(inst, s, k)
  }

  /** The stored start times of the first m flights of s are their chained starts. */
  ghost predicate StartsMatch(inst: Instance, s: seq<nat>, start: seq<nat>, m: nat)
    requires inst.WellFormed() && ValidIds(inst, s)
  {
    && m <= |s|
    && |start| == inst.numFlights
    && forall k {:trigger start[s[k]]} :: 0 <= k < m ==> start[s[k]] == StartTime(inst, s, k)
  }

  lemma PrefixesExtend(inst: Instance, s: seq<nat>, prefix: seq<nat>, m: nat, v: nat)
    requires inst.WellFormed() && ValidIds(inst, s)
    requires PrefixesMatch(inst, s, prefix, m) && m < |s|
    requires v == PrefixPenalty(inst, s, m + 1)
    ensures PrefixesMatch(inst, s, prefix[m + 1 := v], m + 1)
  {
  }

  lemma StartsExtend(inst: Instance, s: seq<nat>, start: seq<nat>, m: nat, t: nat)
    requires inst.WellFormed() && ValidIds(inst, s) && NoDup(s)
    requires StartsMatch(inst, s, start, m) && m < |s|
    requires t == StartTime(inst, s, m)
    ensures StartsMatch(inst, s, start[s[m] := t], m + 1)
  {
    forall k | 0 <= k < m
      ensures s[k] != s[m]
    {
    }
  }

  /** The caches a runway keeps agree with its sequence: prefix penalty k is the
      sum of the first k costs (so entry 0 is 0), every flight's stored start time
      is its chained start, and the penalty is the whole sum. */
  ghost predicate Consistent(inst: Instance, v: Runway, start: seq<nat>) {
    && inst.WellFormed()
    && ValidIds(inst, v.sequence)
    && PrefixesMatch(inst, v.sequence, v.prefixPenalty, |v.sequence|)
    && StartsMatch(inst, v.sequence, start, |v.sequence|)
    && v.penalty == TotalPenalty(inst, v.sequence)
  }

  /** After a change from position f on, the caches of the old sequence s are
      still right for the first f flights of the new sequence s', with prefix'
      the old prefix penalties resized to the new length (entries 0 .. f kept). */
  lemma MatchesBefore(inst: Instance, s: seq<nat>, s': seq<nat>, prefix: seq<nat>, prefix': seq<nat>,
                      start: seq<nat>, f: nat)
    requires inst.WellFormed() && ValidIds(inst, s) && ValidIds(inst, s')
    requires f <= |s| && f <= |s'|
    requires forall k :: 0 <= k < f ==> s'[k] == s[k]
    requires PrefixesMatch(inst, s, prefix, |s|) && StartsMatch(inst, s, start, |s|)
    requires |prefix'| == |s'| + 1 && forall k :: 0 <= k <= f ==> prefix'[k] == prefix[k]
    ensures PrefixesMatch(inst, s', prefix', f) && StartsMatch(inst, s', start, f)
  {
    PrefixAgreement(inst, s', s, f);
    forall k | 0 <= k <= f
      ensures prefix'[k] == PrefixPenalty(inst, s', k)
    {
      assert prefix[k] == PrefixPenalty(inst, s, k);
    }
    forall k | 0 <= k < f
      ensures start[s'[k]] == StartTime(inst, s', k)
    {
      assert start[s[k]] == StartTime(inst, s, k);
    }
  }

  /** A runway stays consistent when start times of flights it does not hold change. */
  lemma ConsistentFrame(inst: Instance, v: Runway, start: seq<nat>, start': seq<nat>)
    requires Consistent(inst, v, start)
    requires |start'| == |start|
    requires forall k :: 0 <= k < |v.sequence| ==> start'[v.sequence[k]] == start[v.sequence[k]]
    ensures Consistent(inst, v, start')
  {
  }

  /** The stored starts of the first m flights of s stay right when the start
      times of those flights do not change. */
  lemma StartsMatchFrame(inst: Instance, s: seq<nat>, start: seq<nat>, start': seq<nat>, m: nat)
    requires inst.WellFormed() && ValidIds(inst, s) && StartsMatch(inst, s, start, m)
    requires |start'| == |start|
    requires forall k :: 0 <= k < m ==> start'[s[k]] == start[s[k]]
    ensures StartsMatch(inst, s, start', m)
  {
  }

  /** Runway::Runway: an empty runway with the given id, no flights, prefix
      penalties [0] and penalty 0. */
  function EmptyRunway(id: nat): (r: Runway)
    ensures r.id == id && r.sequence == [] && r.prefixPenalty == [0] && r.penalty == 0
  {
    Runway(id, [], [0], 0)
  }

  /** An empty runway's caches agree with its (empty) sequence whatever the start times. */
  lemma EmptyRunwayConsistent(inst: Instance, id: nat, start: seq<nat>)
    requires inst.WellFormed() && |start| == inst.numFlights
    ensures Consistent(inst, EmptyRunway(id), start)
  {
  }

  /** Runway::calculate_total_penalty: the penalty of the sequence recomputed
      from scratch along the chain, 0 for an empty runway. */
  method CalculateTotalPenalty(inst: Instance, rw: Runway) returns (p: nat)
    requires inst.WellFormed() && ValidIds(inst, rw.sequence)
    ensures p == TotalPenalty(inst, rw.sequence)
  {
    var sequence := rw.sequence;
    if |sequence| == 0 {
      return 0;
    }
    p := 0;
    var startTime := inst.ReleaseTime(sequence[0]);
    var i := 1;
    while i < |sequence|
      invariant 1 <= i <= |sequence|
      invariant startTime == StartTime(inst, sequence, i - 1)
      invariant p == PrefixPenalty(inst, sequence, i)
    {
      startTime := NextStart(inst, sequence[i - 1], startTime, sequence[i]);
      p := p + Cost(inst, sequence[i], startTime);
      i := i + 1;
    }
  }

  /** Runway::update_total_penalty: the runway with its penalty recomputed;
      sequence, prefix penalties and id are kept. */
  method UpdateTotalPenalty(inst: Instance, rw: Runway) returns (rw': Runway)
    requires inst.WellFormed() && ValidIds(inst, rw.sequence)
    ensures rw'.id == rw.id && rw'.sequence == rw.sequence && rw'.prefixPenalty == rw.prefixPenalty
    ensures rw'.penalty == TotalPenalty(inst, rw.sequence)
  {
    var p := CalculateTotalPenalty(inst, rw);
    rw' := rw.(penalty := p);
  }

  /** Runway::test_sequence_feasibility: the sequence names only flights of
      the instance and none twice. */
  method TestSequenceFeasibility(inst: Instance, rw: Runway) returns (ok: bool)
    ensures ok <==> ValidIds(inst, rw.sequence) && NoDup(rw.sequence)
  {
    var sequence := rw.sequence;
    var seen: set<nat> := {};
    var i := 0;
    while i < |sequence|
      invariant 0 <= i <= |sequence|
      invariant seen == set k | 0 <= k < i :: sequence[k]
      invariant forall k :: 0 <= k < i ==> sequence[k] < inst.numFlights
      invariant forall p, q :: 0 <= p < q < i ==> sequence[p] != sequence[q]
    {
      var f := sequence[i];
      if f >= inst.numFlights {
        return false;
      }
      if f in seen {
        var p :| 0 <= p < i && sequence[p] == f;
        assert sequence[p] == sequence[i];
        return false;
      }
      seen := seen + {f};
      i := i + 1;
    }
    return true;
  }

  /** Runway::test_penalty: the stored penalty is the penalty of the sequence. */
  method TestPenalty(inst: Instance, rw: Runway) returns (ok: bool)
    requires inst.WellFormed() && ValidIds(inst, rw.sequence)
    ensures ok <==> rw.penalty == TotalPenalty(inst, rw.sequence)
  {
    var p := CalculateTotalPenalty(inst, rw);
    ok := rw.penalty == p;
  }

  /** Runway::test_feasibility: both tests, the penalty one only when the
      sequence passed. */
  method TestFeasibility(inst: Instance, rw: Runway) returns (ok: bool)
    requires inst.WellFormed()
    ensures ok <==> ValidIds(inst, rw.sequence) && NoDup(rw.sequence) && rw.penalty == TotalPenalty(inst, rw.sequence)
  {
    ok := TestSequenceFeasibility(inst, rw);
    if ok {
      ok := TestPenalty(inst, rw);
    }
  }

  /** Recomputes start times and prefix penalties of landing sequence s from
      position `from` to the end, the loop every applied move runs on the
      runways it changed: the entries before `from` are already right, and at
      `from == 0` the first flight lands at its release time with prefix
      penalty 0. Start times of flights not in s are left alone. */
  method RefreshFrom(inst: Instance, s: seq<nat>, prefix0: seq<nat>, start: array<nat>, from: nat)
    returns (prefix: seq<nat>)
    requires inst.WellFormed() && ValidIds(inst, s) && NoDup(s)
    requires 1 <= |s| && from <= |s|
    requires PrefixesMatch(inst, s, prefix0, from)
    requires StartsMatch(inst, s, start[..], from)
    modifies start
    ensures PrefixesMatch(inst, s, prefix, |s|)
    ensures prefix[|prefix| - 1] == TotalPenalty(inst, s)
    ensures StartsMatch(inst, s, start[..], |s|)
    ensures forall f :: 0 <= f < start.Length && f !in s ==> start[f] == old(start[f])
  {
    prefix := prefix0;
    var i := from;
    if i == 0 {
      PrefixesExtend(inst, s, prefix, 0, 0);
      StartsExtend(inst, s, start[..], 0, inst.ReleaseTime(s[0]));
      start[s[0]] := inst.ReleaseTime(s[0]);
      prefix := prefix[1 := 0];
      i := 1;
    }
    while i < |s|
      invariant 1 <= i <= |s|
      invariant PrefixesMatch(inst, s, prefix, i)
      invariant StartsMatch(inst, s, start[..], i)
      invariant forall f :: 0 <= f < start.Length && f !in s ==> start[f] == old(start[f])
    {
      var f := s[i];
      var t := NextStart(inst, s[i - 1], start[s[i - 1]], f);
      var v := prefix[i] + Cost(inst, f, t);
      PrefixesExtend(inst, s, prefix, i, v);
      StartsExtend(inst, s, start[..], i, t);
      start[f] := t;
      prefix := prefix[i + 1 := v];
      i := i + 1;
    }
    assert prefix[|s|] == PrefixPenalty(inst, s, |s|);
  }

  /** Runway rw with landing sequence s' and penalty p', its start times and
      prefix penalties recomputed from position `from` on: the step every
      applied move ends with on each runway it changed. */
  method Reschedule(inst: Instance, start: array<nat>, rw: Runway, s': seq<nat>, from: nat, p': nat)
    returns (rw': Runway)
    requires inst.WellFormed() && ValidIds(inst, s') && NoDup(s')
    requires 1 <= |s'| && from <= |s'|
    requires PrefixesMatch(inst, s', rw.prefixPenalty, from)
    requires StartsMatch(inst, s', start[..], from)
    requires p' == TotalPenalty(inst, s')
    modifies start
    ensures rw'.id == rw.id && rw'.sequence == s' && rw'.penalty == p'
    ensures Consistent(inst, rw', start[..])
    ensures forall f :: 0 <= f < start.Length && f !in s' ==> start[f] == old(start[f])
  {
    var prefix := RefreshFrom(inst, s', rw.prefixPenalty, start, from);
    rw' := Runway(rw.id, s', prefix, p');
  }

  /** The rescheduling step of a move on two runways: start times and prefix
      penalties of the first (new sequence si) are recomputed from position fi
      on, then those of the second (sj) from position fj on, and each runway's
      penalty becomes its last prefix penalty. Start times of other flights are
      left alone. */
  method RescheduleTwo(inst: Instance, start: array<nat>, rwI: Runway, rwJ: Runway,
                       si: seq<nat>, sj: seq<nat>, fi: nat, fj: nat)
    returns (rwI': Runway, rwJ': Runway)
    requires inst.WellFormed() && ValidIds(inst, si) && NoDup(si) && ValidIds(inst, sj) && NoDup(sj)
    requires 1 <= |si| && 1 <= |sj| && fi <= |si| && fj <= |sj|
    requires PrefixesMatch(inst, si, rwI.prefixPenalty, fi) && StartsMatch(inst, si, start[..], fi)
    requires PrefixesMatch(inst, sj, rwJ.prefixPenalty, fj) && StartsMatch(inst, sj, start[..], fj)
    requires forall k :: 0 <= k < |sj| ==> sj[k] !in si
    modifies start
    ensures rwI'.id == rwI.id && rwI'.sequence == si && Consistent(inst, rwI', start[..])
    ensures rwJ'.id == rwJ.id && rwJ'.sequence == sj && Consistent(inst, rwJ', start[..])
    ensures forall f :: 0 <= f < start.Length && f !in si && f !in sj ==> start[f] == old(start[f])
  {
    ghost var start0 := start[..];
    var prefixI := RefreshFrom(inst, si, rwI.prefixPenalty, start, fi);
    ghost var start1 := start[..];
    StartsMatchFrame(inst, sj, start0, start1, fj);
    var prefixJ := RefreshFrom(inst, sj, rwJ.prefixPenalty, start, fj);
    rwI' := Runway(rwI.id, si, prefixI, prefixI[|prefixI| - 1]);
    rwJ' := Runway(rwJ.id, sj, prefixJ, prefixJ[|prefixJ| - 1]);
    ConsistentFrame(inst, rwI', start1, start[..]);
  }
}
