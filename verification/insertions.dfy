/** The candidate insertions the randomized greedy construction ranks, and the
    two orders the constructions sort by: candidates by non-increasing release
    time (so the earliest-released flight sits at the back of the list) and
    insertions by non-decreasing penalty. */
module Insertions {
  import opened Instances
  import opened Schedule

  /** Candidates are listed by non-increasing release time. */
  ghost predicate ReleaseDescending(inst: Instance, s: seq<nat>)
    requires inst.WellFormed() && ValidIds(inst, s)
  {
    forall p, q :: 0 <= p < q < |s| ==> inst.ReleaseTime(s[p]) >= inst.ReleaseTime(s[q])
  }

  /** s with x put before the first flight released no later than x. */
  function InsertByRelease(inst: Instance, s: seq<nat>, x: nat): (r: seq<nat>)
    requires inst.WellFormed() && ValidIds(inst, s) && x < inst.numFlights
    ensures multiset(r) == multiset(s) + multiset{x} && ValidIds(inst, r)
  {
    if |s| == 0 then [x]
    else if inst.ReleaseTime(x) >= inst.ReleaseTime(s[0]) then [x] + s
    else
      assert s == [s[0]] + s[1..];
      [s[0]] + InsertByRelease(inst, s[1..], x)
  }

  /** Putting a flight released no earlier than every flight of a sorted
      list in front keeps the list sorted. */
  lemma ConsByRelease(inst: Instance, a: nat, t: seq<nat>)
    requires inst.WellFormed() && a < inst.numFlights && ValidIds(inst, t) && ReleaseDescending(inst, t)
    requires forall q :: 0 <= q < |t| ==> inst.ReleaseTime(t[q]) <= inst.ReleaseTime(a)
    ensures ValidIds(inst, [a] + t) && ReleaseDescending(inst, [a] + t)
  {
    var r := [a] + t;
    forall p, q | 0 <= p < q < |r|
      ensures inst.ReleaseTime(r[p]) >= inst.ReleaseTime(r[q])
    {
      assert r[q] == t[q - 1];
      if p > 0 {
        assert r[p] == t[p - 1];
      }
    }
  }

  /** Inserting into a list sorted by release time keeps it sorted. */
  lemma {:induction false} InsertByReleaseSorted(inst: Instance, s: seq<nat>, x: nat)
    requires inst.WellFormed() && ValidIds(inst, s) && x < inst.numFlights
    requires ReleaseDescending(inst, s)
    ensures ReleaseDescending(inst, InsertByRelease(inst, s, x))
  {
    if |s| == 0 {
    } else if inst.ReleaseTime(x) >= inst.ReleaseTime(s[0]) {
      ConsByRelease(inst, x, s);
    } else {
      var t := InsertByRelease(inst, s[1..], x);
      InsertByReleaseSorted(inst, s[1..], x);
      forall q | 0 <= q < |t|
        ensures inst.ReleaseTime(t[q]) <= inst.ReleaseTime(s[0])
      {
        assert t[q] in multiset(s[1..]) + multiset{x};
        if t[q] != x {
          var j :| 0 <= j < |s[1..]| && s[1..][j] == t[q];
          assert s[j + 1] == t[q];
        }
      }
      ConsByRelease(inst, s[0], t);
    }
  }

  /** The candidate list ordered by non-increasing release time (the order
      std::sort gives up to the order of equal release times). */
  function SortByRelease(inst: Instance, s: seq<nat>): (r: seq<nat>)
    requires inst.WellFormed() && ValidIds(inst, s)
    ensures multiset(r) == multiset(s) && |r| == |s|
    ensures ValidIds(inst, r) && ReleaseDescending(inst, r)
  {
    if |s| == 0 then []
    else
      assert s == [s[0]] + s[1..];
      InsertByReleaseSorted(inst, SortByRelease(inst, s[1..]), s[0]);
      InsertByRelease(inst, SortByRelease(inst, s[1..]), s[0])
  }

  /** A possible insertion: the index of the candidate in the candidate list,
      the start time it would get, the penalty it would add, and the runway. */
  datatype Insertion = Insertion(candidate: nat, startTime: nat, penalty: nat, runway: nat)

  /** Insertions listed by non-decreasing penalty. */
  ghost predicate PenaltyAscending(s: seq<Insertion>) {
    forall p, q :: 0 <= p < q < |s| ==> s[p].penalty <= s[q].penalty
  }

  /** How many insertions of s add strictly less than v. */
  function CountBelow(s: seq<Insertion>, v: nat): (c: nat)
    ensures c <= |s|
  {
    if |s| == 0 then 0 else (if s[0].penalty < v then 1 else 0) + CountBelow(s[1..], v)
  }

  /** How many insertions of s add at most v. */
  function CountAtMost(s: seq<Insertion>, v: nat): (c: nat)
    ensures c <= |s|
  {
    if |s| == 0 then 0 else (if s[0].penalty <= v then 1 else 0) + CountAtMost(s[1..], v)
  }

  /** s with x put before the first insertion adding at least as much. */
  function InsertByPenalty(s: seq<Insertion>, x: Insertion): (r: seq<Insertion>)
    ensures multiset(r) == multiset(s) + multiset{x}
    ensures forall v :: CountBelow(r, v) == CountBelow(s, v) + (if x.penalty < v then 1 else 0)
    ensures forall v :: CountAtMost(r, v) == CountAtMost(s, v) + (if x.penalty <= v then 1 else 0)
  {
    if |s| == 0 then [x]
    else if x.penalty <= s[0].penalty then
      assert ([x] + s)[1..] == s;
      [x] + s
    else
      var t := InsertByPenalty(s[1..], x);
      assert s == [s[0]] + s[1..];
      assert ([s[0]] + t)[1..] == t;
      [s[0]] + t
  }

  /** Putting an insertion adding no more than every insertion of a sorted
      list in front keeps the list sorted. */
  lemma ConsByPenalty(a: Insertion, t: seq<Insertion>)
    requires PenaltyAscending(t)
    requires forall q :: 0 <= q < |t| ==> a.penalty <= t[q].penalty
    ensures PenaltyAscending([a] + t)
  {
    var r := [a] + t;
    forall p, q | 0 <= p < q < |r|
      ensures r[p].penalty <= r[q].penalty
    {
      assert r[q] == t[q - 1];
      if p > 0 {
        assert r[p] == t[p - 1];
      }
    }
  }

  /** Inserting into a list sorted by penalty keeps it sorted. */
  lemma {:induction false} InsertByPenaltySorted(s: seq<Insertion>, x: Insertion)
    requires PenaltyAscending(s)
    ensures PenaltyAscending(InsertByPenalty(s, x))
  {
    if |s| == 0 {
    } else if x.penalty <= s[0].penalty {
      ConsByPenalty(x, s);
    } else {
      var t := InsertByPenalty(s[1..], x);
      InsertByPenaltySorted(s[1..], x);
      forall q | 0 <= q < |t|
        ensures s[0].penalty <= t[q].penalty
      {
        assert t[q] in multiset(s[1..]) + multiset{x};
        if t[q] != x {
          var j :| 0 <= j < |s[1..]| && s[1..][j] == t[q];
          assert s[j + 1] == t[q];
        }
      }
      ConsByPenalty(s[0], t);
    }
  }

  /** std::sort of the possible insertions by penalty: a permutation of them
      in non-decreasing penalty order, so every count by penalty is kept. */
  function SortByPenalty(s: seq<Insertion>): (r: seq<Insertion>)
    ensures multiset(r) == multiset(s) && |r| == |s| && PenaltyAscending(r)
    ensures forall v :: CountBelow(r, v) == CountBelow(s, v) && CountAtMost(r, v) == CountAtMost(s, v)
  {
    if |s| == 0 then []
    else
      assert s == [s[0]] + s[1..];
      InsertByPenaltySorted(SortByPenalty(s[1..]), s[0]);
      InsertByPenalty(SortByPenalty(s[1..]), s[0])
  }

  /** No insertion of s adds less than v when all add at least v. */
  lemma {:induction false} NoneBelow(s: seq<Insertion>, v: nat)
    requires forall k :: 0 <= k < |s| ==> s[k].penalty >= v
    ensures CountBelow(s, v) == 0
  {
    if |s| > 0 {
      NoneBelow(s[1..], v);
    }
  }

  /** In a list sorted by penalty, the entry at index c has at most c
      insertions adding strictly less and more than c adding at most as much:
      its penalty is the c-th smallest. */
  lemma {:induction false} SortedRank(s: seq<Insertion>, c: nat)
    requires PenaltyAscending(s) && c < |s|
    ensures CountBelow(s, s[c].penalty) <= c < CountAtMost(s, s[c].penalty)
  {
    if c == 0 {
      NoneBelow(s, s[0].penalty);
    } else {
      assert s[1..][c - 1] == s[c];
      SortedRank(s[1..], c - 1);
    }
  }

  /** The insertion randomized_greedy takes with draw `choice` from the list
      sorted by penalty: one of the possible insertions, and its penalty is
      the choice-th smallest of them (whatever order the sort leaves equal
      penalties in). */
  function SelectInsertion(s: seq<Insertion>, choice: nat): (sel: Insertion)
    requires choice < |s|
    ensures sel in s
    ensures CountBelow(s, sel.penalty) <= choice < CountAtMost(s, sel.penalty)
  {
    var sorted := SortByPenalty(s);
    SortedRank(sorted, choice);
    assert sorted[choice] in multiset(s);
    sorted[choice]
  }
}
