/** The placement rules of the two constructions, stated on landing sequences
    alone, independently of the start-time caches the constructions read:
    lowest_release_time_insertion appends the earliest-released candidate to
    the first runway on which it can start earliest, and randomized_greedy
    appends the (candidate, runway) pair whose penalty has the rank the draw
    names. */
module GreedyRules {
  import opened Instances
  import opened Schedule
  import opened Sequences
  import opened Solutions
  import opened Insertions

  /** The start flight x would get at the tail of landing sequence s. */
  function TailStart(inst: Instance, s: seq<nat>, x: nat): (t: nat)
    requires inst.WellFormed() && ValidIds(inst, s) && x < inst.numFlights
    ensures t >= inst.ReleaseTime(x)
    ensures |s| == 0 ==> t == inst.ReleaseTime(x)
  {
    assert ValidIds(inst, s + [x]);
    StartTime(inst, s + [x], |s|)
  }

  /** Among runways 0 .. k - 1 of ss, the first on which x can start
      earliest. */
  function FirstEarliestAmong(inst: Instance, ss: seq<seq<nat>>, x: nat, k: nat): (b: nat)
    requires inst.WellFormed() && AllValidIds(inst, ss) && x < inst.numFlights
    requires 1 <= k <= |ss|
    ensures b < k
    ensures forall r :: 0 <= r < k ==> TailStart(inst, ss[b], x) <= TailStart(inst, ss[r], x)
    ensures forall r :: 0 <= r < b ==> TailStart(inst, ss[b], x) < TailStart(inst, ss[r], x)
    decreases k
  {
    if k == 1 then 0
    else
      var b := FirstEarliestAmong(inst, ss, x, k - 1);
      if TailStart(inst, ss[k - 1], x) < TailStart(inst, ss[b], x) then k - 1 else b
  }

  /** The runway lowest_release_time_insertion gives x: the first on which
      it can start earliest. */
  function FirstEarliest(inst: Instance, ss: seq<seq<nat>>, x: nat): (b: nat)
    requires inst.WellFormed() && AllValidIds(inst, ss) && x < inst.numFlights && |ss| >= 1
    ensures b < |ss|
  {
    FirstEarliestAmong(inst, ss, x, |ss|)
  }

  /** A runway on which x starts no later than on any runway, and strictly
      earlier than on every runway before it, is the one FirstEarliest names. */
  lemma FirstEarliestUnique(inst: Instance, ss: seq<seq<nat>>, x: nat, b: nat)
    requires inst.WellFormed() && AllValidIds(inst, ss) && x < inst.numFlights && b < |ss|
    requires forall r :: 0 <= r < |ss| ==> TailStart(inst, ss[b], x) <= TailStart(inst, ss[r], x)
    requires forall r :: 0 <= r < b ==> TailStart(inst, ss[b], x) < TailStart(inst, ss[r], x)
    ensures b == FirstEarliest(inst, ss, x)
  {
    var f := FirstEarliest(inst, ss, x);
    assert TailStart(inst, ss[f], x) <= TailStart(inst, ss[b], x);
    assert TailStart(inst, ss[b], x) <= TailStart(inst, ss[f], x);
  }

  /** Appending x, a flight, at the tail of runway b keeps the ids valid,
      adds x to the bag and keeps every runway's earlier flights in place. */
  lemma AppendAtTail(inst: Instance, ss: seq<seq<nat>>, b: nat, x: nat)
    requires inst.WellFormed() && AllValidIds(inst, ss) && x < inst.numFlights && b < |ss|
    ensures AllValidIds(inst, ss[b := ss[b] + [x]])
    ensures FlightBag(ss[b := ss[b] + [x]]) == FlightBag(ss) + multiset{x}
    ensures forall r :: 0 <= r < |ss| ==> ss[r] <= ss[b := ss[b] + [x]][r]
  {
    var next := ss[b := ss[b] + [x]];
    forall r | 0 <= r < |ss|
      ensures ValidIds(inst, next[r]) && ss[r] <= next[r]
    {
      if r == b {
        assert next[r] == ss[b] + [x] && ss[b] == next[r][..|ss[b]|];
      }
    }
    BagUpdate(ss, b, ss[b] + [x]);
    var bag, bag', m := FlightBag(ss) + multiset{x}, FlightBag(next), multiset(ss[b]);
    assert multiset(ss[b] + [x]) == m + multiset{x};
    assert bag' + m == bag + m;
    forall y
      ensures bag'[y] == bag[y]
    {
      assert (bag' + m)[y] == (bag + m)[y];
    }
    assert bag' == bag;
  }

  /** The schedule lowest_release_time_insertion builds from ss with the
      candidates cand still to place: the candidate at the back of the list
      is appended to its first earliest runway, until none is left. Flights
      already placed keep their places. */
  function LowestReleaseFrom(inst: Instance, ss: seq<seq<nat>>, cand: seq<nat>): (ss': seq<seq<nat>>)
    requires inst.WellFormed() && AllValidIds(inst, ss) && ValidIds(inst, cand)
    requires |cand| > 0 ==> |ss| >= 1
    ensures |ss'| == |ss| && AllValidIds(inst, ss')
    decreases |cand|
  {
    if |cand| == 0 then ss
    else
      var x, rest := cand[|cand| - 1], cand[..|cand| - 1];
      var b := FirstEarliest(inst, ss, x);
      AppendAtTail(inst, ss, b, x);
      assert cand == rest + [x];
      LowestReleaseFrom(inst, ss[b := ss[b] + [x]], rest)
  }

  /** The rule only appends: every runway keeps its flights as a prefix, and
      the runways end up holding their flights and the candidates. */
  lemma {:induction false} LowestReleaseKeeps(inst: Instance, ss: seq<seq<nat>>, cand: seq<nat>)
    requires inst.WellFormed() && AllValidIds(inst, ss) && ValidIds(inst, cand)
    requires |cand| > 0 ==> |ss| >= 1
    ensures var ss' := LowestReleaseFrom(inst, ss, cand);
      && (forall r :: 0 <= r < |ss| ==> ss[r] <= ss'[r])
      && FlightBag(ss') == FlightBag(ss) + multiset(cand)
    decreases |cand|
  {
    if |cand| > 0 {
      var x, rest := cand[|cand| - 1], cand[..|cand| - 1];
      var b := FirstEarliest(inst, ss, x);
      AppendAtTail(inst, ss, b, x);
      assert cand == rest + [x];
      LowestReleaseKeeps(inst, ss[b := ss[b] + [x]], rest);
      var ss' := LowestReleaseFrom(inst, ss, cand);
      forall r | 0 <= r < |ss|
        ensures ss[r] <= ss'[r]
      {
        assert ss[r] <= ss[b := ss[b] + [x]][r];
      }
    }
  }

  /** The seeds of both constructions from the candidates in release order:
      runway q holds the q-th flight from the back of the list, alone. */
  function Seeds(order: seq<nat>, count: nat): (ss: seq<seq<nat>>)
    requires count <= |order|
    ensures |ss| == count
    ensures forall q :: 0 <= q < count ==> ss[q] == [order[|order| - 1 - q]]
  {
    seq(count, q requires 0 <= q < count => [order[|order| - 1 - q]])
  }

  /** A candidate order both constructions may use: every flight once, by
      non-increasing release time (the order std::sort leaves equal release
      times in is unspecified). */
  ghost predicate ReleaseOrder(inst: Instance, order: seq<nat>) {
    && inst.WellFormed() && ValidIds(inst, order)
    && multiset(order) == AllFlights(inst.numFlights) && ReleaseDescending(inst, order)
    && inst.numRunways <= |order| && (inst.numRunways == 0 ==> |order| == 0)
  }

  /** Schedule ss is what lowest_release_time_insertion builds from the
      candidate order `order`. */
  ghost predicate LowestReleaseSchedule(inst: Instance, order: seq<nat>, ss: seq<seq<nat>>) {
    && ReleaseOrder(inst, order)
    && var seeds := Seeds(order, inst.numRunways);
       assert AllValidIds(inst, seeds) by {
         forall q | 0 <= q < |seeds|
           ensures ValidIds(inst, seeds[q])
         {
           assert seeds[q][0] == order[|order| - 1 - q];
         }
       }
       ss == LowestReleaseFrom(inst, seeds, order[..|order| - inst.numRunways])
  }

  /** Schedule ss is what lowest_release_time_insertion builds from some
      order of the flights by release time. */
  ghost predicate BuiltByLowestRelease(inst: Instance, ss: seq<seq<nat>>) {
    exists order :: LowestReleaseSchedule(inst, order, ss)
  }

  /** The possible insertion of candidate c at the tail of runway r of ss:
      its start there and the cost of landing then. */
  function InsertionOn(inst: Instance, ss: seq<seq<nat>>, cand: seq<nat>, c: nat, r: nat): (e: Insertion)
    requires inst.WellFormed() && AllValidIds(inst, ss) && ValidIds(inst, cand)
    requires c < |cand| && r < |ss|
    ensures e.candidate == c && e.runway == r && e.startTime == TailStart(inst, ss[r], cand[c])
    ensures e.penalty == inst.DelayPenalty(cand[c]) * (e.startTime - inst.ReleaseTime(cand[c]))
  {
    var t := TailStart(inst, ss[r], cand[c]);
    Insertion(c, t, Cost(inst, cand[c], t), r)
  }

  /** The insertions of candidates c .. |cand| - 1 on every runway of ss,
      from the back of the candidate list forwards, runways in order. */
  function InsertionsOn(inst: Instance, ss: seq<seq<nat>>, cand: seq<nat>, c: nat): (all: seq<Insertion>)
    requires inst.WellFormed() && AllValidIds(inst, ss) && ValidIds(inst, cand) && c <= |cand|
    decreases |cand| - c
  {
    if c == |cand| then []
    else
      InsertionsOn(inst, ss, cand, c + 1)
        + seq(|ss|, r requires 0 <= r < |ss| => InsertionOn(inst, ss, cand, c, r))
  }

  /** Draw `choice` picks candidate c on runway r: that insertion's penalty
      is the choice-th smallest of all insertions of the round. */
  ghost predicate Picked(inst: Instance, ss: seq<seq<nat>>, cand: seq<nat>, choice: nat, c: nat, r: nat)
    requires inst.WellFormed() && AllValidIds(inst, ss) && ValidIds(inst, cand)
    requires c < |cand| && r < |ss|
  {
    var all := InsertionsOn(inst, ss, cand, 0);
    var penalty := InsertionOn(inst, ss, cand, c, r).penalty;
    CountBelow(all, penalty) <= choice < CountAtMost(all, penalty)
  }

  /** One round of randomized_greedy takes ss and cand to ss' and cand':
      some candidate c, on some runway r, whose insertion has the rank the
      draw names, is appended there and leaves the list. */
  ghost predicate RandomizedRound(inst: Instance, ss: seq<seq<nat>>, cand: seq<nat>, choice: nat,
                                  ss': seq<seq<nat>>, cand': seq<nat>)
    requires inst.WellFormed() && AllValidIds(inst, ss) && ValidIds(inst, cand)
  {
    exists c: nat, r: nat :: c < |cand| && r < |ss| && Picked(inst, ss, cand, choice, c, r)
      && ss' == ss[r := ss[r] + [cand[c]]] && cand' == cand[..c] + cand[c + 1..]
  }

  /** The rounds of randomized_greedy with the draws `choices`, in order,
      take ss0 and cand0 to ss and cand. */
  ghost predicate RandomizedRounds(inst: Instance, ss0: seq<seq<nat>>, cand0: seq<nat>, choices: seq<nat>,
                                   ss: seq<seq<nat>>, cand: seq<nat>)
    requires inst.WellFormed() && AllValidIds(inst, ss0) && ValidIds(inst, cand0)
    decreases |choices|
  {
    if |choices| == 0 then ss == ss0 && cand == cand0
    else
      exists ssm: seq<seq<nat>>, candm: seq<nat> ::
        && RandomizedRounds(inst, ss0, cand0, choices[..|choices| - 1], ssm, candm)
        && AllValidIds(inst, ssm) && ValidIds(inst, candm)
        && RandomizedRound(inst, ssm, candm, choices[|choices| - 1], ss, cand)
  }

  /** Round i with draw choices[i] extends the first i rounds to i + 1. */
  lemma RoundsStep(inst: Instance, ss0: seq<seq<nat>>, cand0: seq<nat>, choices: seq<nat>, i: nat,
                   ss: seq<seq<nat>>, cand: seq<nat>, ss': seq<seq<nat>>, cand': seq<nat>)
    requires inst.WellFormed() && AllValidIds(inst, ss0) && ValidIds(inst, cand0) && i < |choices|
    requires RandomizedRounds(inst, ss0, cand0, choices[..i], ss, cand)
    requires AllValidIds(inst, ss) && ValidIds(inst, cand)
    requires RandomizedRound(inst, ss, cand, choices[i], ss', cand')
    ensures RandomizedRounds(inst, ss0, cand0, choices[..i + 1], ss', cand')
  {
    var done := choices[..i + 1];
    assert done[..|done| - 1] == choices[..i] && done[|done| - 1] == choices[i];
  }

  /** Schedule ss is one randomized_greedy can build with the draws
      `choices` from the candidate order `order`: every candidate is placed. */
  ghost predicate RandomizedSchedule(inst: Instance, order: seq<nat>, choices: seq<nat>, ss: seq<seq<nat>>) {
    && ReleaseOrder(inst, order)
    && var seeds := Seeds(order, inst.numRunways);
       assert AllValidIds(inst, seeds) by {
         forall q | 0 <= q < |seeds|
           ensures ValidIds(inst, seeds[q])
         {
           assert seeds[q][0] == order[|order| - 1 - q];
         }
       }
       RandomizedRounds(inst, seeds, order[..|order| - inst.numRunways], choices, ss, [])
  }

  /** Schedule ss is one randomized_greedy can build with the draws
      `choices` from some order of the flights by release time. */
  ghost predicate BuiltByRandomized(inst: Instance, choices: seq<nat>, ss: seq<seq<nat>>) {
    exists order :: RandomizedSchedule(inst, order, choices, ss)
  }
}
