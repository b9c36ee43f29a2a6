/** Landing sequences as values: the rearrangements the neighbourhoods perform,
    and the bookkeeping that says every flight sits on exactly one runway. */
module Sequences {

  /** No flight appears twice in s. */
  ghost predicate NoDup(s: seq<nat>) {
    forall p, q :: 0 <= p < q < |s| ==> s[p] != s[q]
  }

  /** s with the flights at positions i and j exchanged. */
  function Swap(s: seq<nat>, i: nat, j: nat): (r: seq<nat>)
    requires i < |s| && j < |s|
    ensures |r| == |s| && r[i] == s[j] && r[j] == s[i]
    ensures forall k :: 0 <= k < |s| && k != i && k != j ==> r[k] == s[k]
    ensures multiset(r) == multiset(s)
  {
    s[i := s[j]][j := s[i]]
  }

  /** Swapping the same two positions twice restores the sequence. */
  lemma SwapInvolution(s: seq<nat>, i: nat, j: nat)
    requires i < |s| && j < |s|
    ensures Swap(Swap(s, i, j), i, j) == s
  {
  }

  /** Overwriting position i with x trades the flight s[i] for x. */
  lemma UpdateBag(s: seq<nat>, i: nat, x: nat)
    requires i < |s|
    ensures multiset(s[i := x]) + multiset{s[i]} == multiset(s) + multiset{x}
  {
    assert s == s[..i] + [s[i]] + s[i + 1..];
    assert s[i := x] == s[..i] + [x] + s[i + 1..];
  }

  /** s without the flight at position i; the later flights move one place forward. */
  function Remove(s: seq<nat>, i: nat): (r: seq<nat>)
    requires i < |s|
    ensures |r| == |s| - 1
    ensures forall k :: 0 <= k < i ==> r[k] == s[k]
    ensures forall k :: i <= k < |r| ==> r[k] == s[k + 1]
  {
    seq(|s| - 1, k requires 0 <= k < |s| - 1 => if k < i then s[k] else s[k + 1])
  }

  /** Removing position i loses exactly the flight s[i]. */
  lemma RemoveBag(s: seq<nat>, i: nat)
    requires i < |s|
    ensures multiset(Remove(s, i)) + multiset{s[i]} == multiset(s)
  {
    assert s == s[..i] + [s[i]] + s[i + 1..];
    assert Remove(s, i) == s[..i] + s[i + 1..];
  }

  /** s with x placed at position j; the flights from j on move one place back. */
  function Insert(s: seq<nat>, j: nat, x: nat): (r: seq<nat>)
    requires j <= |s|
    ensures |r| == |s| + 1
    ensures r[j] == x
    ensures forall k :: 0 <= k < j ==> r[k] == s[k]
    ensures forall k :: j < k < |r| ==> r[k] == s[k - 1]
  {
    seq(|s| + 1, k requires 0 <= k < |s| + 1 => if k < j then s[k] else if k == j then x else s[k - 1])
  }

  /** Inserting x gains exactly the flight x. */
  lemma InsertBag(s: seq<nat>, j: nat, x: nat)
    requires j <= |s|
    ensures multiset(Insert(s, j, x)) == multiset(s) + multiset{x}
  {
    assert s == s[..j] + s[j..];
    assert Insert(s, j, x) == s[..j] + [x] + s[j..];
  }

  /** Taking a flight out and putting it back where it was is the identity. */
  lemma InsertRemoveInverse(s: seq<nat>, i: nat)
    requires i < |s|
    ensures Insert(Remove(s, i), i, s[i]) == s
  {
    var r := Insert(Remove(s, i), i, s[i]);
    assert forall k :: 0 <= k < |s| ==> r[k] == s[k];
  }

  /** The flight at position i moved to position j of the same sequence (std::rotate). */
  function Relocate(s: seq<nat>, i: nat, j: nat): (r: seq<nat>)
    requires i < |s| && j < |s|
    ensures |r| == |s| && r[j] == s[i]
    ensures forall k :: 0 <= k < |s| && k < i && k < j ==> r[k] == s[k]
    ensures forall k :: 0 <= k < |s| && k > i && k > j ==> r[k] == s[k]
    ensures j < i ==> forall k :: j < k <= i ==> r[k] == s[k - 1]
    ensures i < j ==> forall k :: i <= k < j ==> r[k] == s[k + 1]
  {
    Insert(Remove(s, i), j, s[i])
  }

  /** A relocation keeps the flights of the sequence. */
  lemma RelocateBag(s: seq<nat>, i: nat, j: nat)
    requires i < |s| && j < |s|
    ensures multiset(Relocate(s, i, j)) == multiset(s)
  {
    RemoveBag(s, i);
    InsertBag(Remove(s, i), j, s[i]);
  }

  /** Moving a flight and moving it back restores the sequence. */
  lemma RelocateInverse(s: seq<nat>, i: nat, j: nat)
    requires i < |s| && j < |s|
    ensures Relocate(Relocate(s, i, j), j, i) == s
  {
    var r := Relocate(Relocate(s, i, j), j, i);
    assert forall k :: 0 <= k < |s| ==> r[k] == s[k];
  }

  /** The position of s whose flight Relocate(s, i, j) holds at position k. */
  function RelocateSource(i: nat, j: nat, k: nat): nat {
    if k == j then i
    else if j < i && j < k <= i then k - 1
    else if i < j && i <= k < j then k + 1
    else k
  }

  /** Every flight of a relocated sequence comes from the position RelocateSource names. */
  lemma RelocateFrom(s: seq<nat>, i: nat, j: nat, k: nat)
    requires i < |s| && j < |s| && k < |s|
    ensures RelocateSource(i, j, k) < |s| && Relocate(s, i, j)[k] == s[RelocateSource(i, j, k)]
  {
  }

  /** A relocation puts no flight twice into a sequence that had none twice. */
  lemma RelocateNoDup(s: seq<nat>, i: nat, j: nat)
    requires i < |s| && j < |s| && NoDup(s)
    ensures NoDup(Relocate(s, i, j))
  {
    forall a, b | 0 <= a < b < |s|
      ensures Relocate(s, i, j)[a] != Relocate(s, i, j)[b]
    {
      RelocateFrom(s, i, j, a);
      RelocateFrom(s, i, j, b);
    }
  }

  /** In a sequence without repeats, a flight outside positions lo .. hi - 1 is not among them. */
  lemma OutsideSlice(s: seq<nat>, lo: nat, hi: nat, k: nat)
    requires NoDup(s) && lo <= hi <= |s| && k < |s| && (k < lo || hi <= k)
    ensures s[k] !in s[lo..hi]
  {
    forall m | 0 <= m < hi - lo
      ensures s[lo..hi][m] != s[k]
    {
      assert s[lo..hi][m] == s[lo + m];
    }
  }

  /** A flight not in s is in no part of it. */
  lemma NotInSlice(s: seq<nat>, lo: nat, hi: nat, y: nat)
    requires lo <= hi <= |s| && y !in s
    ensures y !in s[lo..hi]
  {
    forall m | 0 <= m < hi - lo
      ensures s[lo..hi][m] != y
    {
      assert s[lo..hi][m] == s[lo + m];
    }
  }

  /** A flight none of the positions lo .. hi - 1 of s holds is not in that part of s. */
  lemma AbsentFromSlice(s: seq<nat>, lo: nat, hi: nat, y: nat)
    requires lo <= hi <= |s| && forall k :: lo <= k < hi ==> s[k] != y
    ensures y !in s[lo..hi]
  {
    forall m | 0 <= m < hi - lo
      ensures s[lo..hi][m] != y
    {
      assert s[lo..hi][m] == s[lo + m];
    }
  }

  /** Every flight id of an n-flight instance, once each. */
  function AllFlights(n: nat): multiset<nat> {
    if n == 0 then multiset{} else AllFlights(n - 1) + multiset{n - 1}
  }

  /** The flights on all runways together, with multiplicity. */
  function FlightBag(ss: seq<seq<nat>>): multiset<nat> {
    if |ss| == 0 then multiset{} else FlightBag(ss[..|ss| - 1]) + multiset(ss[|ss| - 1])
  }

  /** Replacing one runway's sequence changes the bag by exactly the flights
      taken off and put on that runway. */
  lemma {:induction false} BagUpdate(ss: seq<seq<nat>>, r: nat, t: seq<nat>)
    requires r < |ss|
    ensures FlightBag(ss[r := t]) + multiset(ss[r]) == FlightBag(ss) + multiset(t)
  {
    var last := |ss| - 1;
    if r == last {
      assert ss[r := t][..last] == ss[..last];
    } else {
      assert ss[r := t][..last] == ss[..last][r := t];
      assert ss[r := t][last] == ss[last];
      BagUpdate(ss[..last], r, t);
      calc {
        FlightBag(ss[r := t]) + multiset(ss[r]);
        FlightBag(ss[..last][r := t]) + multiset(ss[last]) + multiset(ss[r]);
        FlightBag(ss[..last]) + multiset(t) + multiset(ss[last]);
        FlightBag(ss) + multiset(t);
      }
    }
  }

  /** Appending a runway adds its flights to the bag. */
  lemma BagAppend(ss: seq<seq<nat>>, t: seq<nat>)
    ensures FlightBag(ss + [t]) == FlightBag(ss) + multiset(t)
  {
    assert (ss + [t])[..|ss|] == ss;
  }

  /** Each runway's flights are part of the bag. */
  lemma {:induction false} BagContains(ss: seq<seq<nat>>, r: nat)
    requires r < |ss|
    ensures multiset(ss[r]) <= FlightBag(ss)
  {
    var last := |ss| - 1;
    if r < last {
      BagContains(ss[..last], r);
    }
  }

  /** AllFlights(n) holds each id below n exactly once and nothing else. */
  lemma {:induction false} AllFlightsCount(n: nat, f: nat)
    ensures AllFlights(n)[f] == (if f < n then 1 else 0)
  {
    if n > 0 {
      AllFlightsCount(n - 1, f);
    }
  }

  /** When the runways partition the ids 0 .. n-1, every id lies on some runway,
      every flight on a runway is a real id, and each runway is duplicate-free. */
  lemma PartitionFacts(ss: seq<seq<nat>>, n: nat)
    requires FlightBag(ss) == AllFlights(n)
    ensures forall f: nat :: f < n ==> FlightBag(ss)[f] == 1
    ensures forall r, k :: 0 <= r < |ss| && 0 <= k < |ss[r]| ==> ss[r][k] < n
    ensures forall r :: 0 <= r < |ss| ==> NoDup(ss[r])
  {
    forall f: nat | f < n
      ensures FlightBag(ss)[f] == 1
    {
      AllFlightsCount(n, f);
    }
    forall r, k | 0 <= r < |ss| && 0 <= k < |ss[r]|
      ensures ss[r][k] < n
    {
      BagContains(ss, r);
      AllFlightsCount(n, ss[r][k]);
    }
    forall r | 0 <= r < |ss|
      ensures NoDup(ss[r])
    {
      BagContains(ss, r);
      forall p, q | 0 <= p < q < |ss[r]|
        ensures ss[r][p] != ss[r][q]
      {
        if ss[r][p] == ss[r][q] {
          TwiceCounted(ss[r], p, q);
          AllFlightsCount(n, ss[r][p]);
          assert false;
        }
      }
    }
  }

  /** A value occurring at two positions is counted at least twice. */
  lemma TwiceCounted(s: seq<nat>, p: nat, q: nat)
    requires p < q < |s| && s[p] == s[q]
    ensures multiset(s)[s[p]] >= 2
  {
    assert s == s[..p] + [s[p]] + s[p + 1..q] + [s[q]] + s[q + 1..];
  }

  /** The number of flights on all runways together. */
  function TotalLength(ss: seq<seq<nat>>): nat {
    if |ss| == 0 then 0 else TotalLength(ss[..|ss| - 1]) + |ss[|ss| - 1]|
  }

  lemma {:induction false} BagSize(ss: seq<seq<nat>>)
    ensures |FlightBag(ss)| == TotalLength(ss)
  {
    if |ss| > 0 {
      BagSize(ss[..|ss| - 1]);
    }
  }

  lemma {:induction false} AllFlightsSize(n: nat)
    ensures |AllFlights(n)| == n
  {
    if n > 0 {
      AllFlightsSize(n - 1);
    }
  }

  /** Everything in the bag sits at some position of some runway. */
  lemma {:induction false} BagMember(ss: seq<seq<nat>>, x: nat)
    requires x in FlightBag(ss)
    ensures exists r, k :: 0 <= r < |ss| && 0 <= k < |ss[r]| && ss[r][k] == x
  {
    var last := |ss| - 1;
    if x in multiset(ss[last]) {
      var k :| 0 <= k < |ss[last]| && ss[last][k] == x;
    } else {
      BagMember(ss[..last], x);
      var r, k :| 0 <= r < last && 0 <= k < |ss[..last][r]| && ss[..last][r][k] == x;
      assert ss[r][k] == x;
    }
  }

  /** Two different runways' flights are both part of the bag. */
  lemma {:induction false} BagContainsTwo(ss: seq<seq<nat>>, a: nat, b: nat)
    requires a < b < |ss|
    ensures multiset(ss[a]) + multiset(ss[b]) <= FlightBag(ss)
  {
    var last := |ss| - 1;
    if b < last {
      BagContainsTwo(ss[..last], a, b);
    } else {
      BagContains(ss[..last], a);
    }
  }

  /** A duplicate-free sequence counts every value at most once. */
  lemma {:induction false} NoDupCount(s: seq<nat>, x: nat)
    requires NoDup(s)
    ensures multiset(s)[x] <= 1
  {
    if |s| > 0 {
      var init := s[..|s| - 1];
      assert s == init + [s[|s| - 1]];
      assert NoDup(init);
      NoDupCount(init, x);
      if x == s[|s| - 1] {
        assert x !in init;
      }
    }
  }

  /** No flight occupies two positions of a schedule. */
  ghost predicate DistinctPlacements(ss: seq<seq<nat>>) {
    forall r, j, r', k ::
      && 0 <= r < |ss| && 0 <= j < |ss[r]| && 0 <= r' < |ss| && 0 <= k < |ss[r']|
      && (r' < r || (r' == r && k < j))
      ==> ss[r'][k] != ss[r][j]
  }

  /** Every flight on some runway is an id below n. */
  ghost predicate IdsBelow(ss: seq<seq<nat>>, n: nat) {
    forall r, k :: 0 <= r < |ss| && 0 <= k < |ss[r]| ==> ss[r][k] < n
  }

  lemma {:induction false} DistinctCounts(ss: seq<seq<nat>>, x: nat)
    requires DistinctPlacements(ss)
    ensures FlightBag(ss)[x] <= 1
  {
    if |ss| > 0 {
      var last := |ss| - 1;
      var init := ss[..last];
      assert DistinctPlacements(init) by {
        forall r, j, r', k | 0 <= r < |init| && 0 <= j < |init[r]| && 0 <= r' < |init| && 0 <= k < |init[r']| &&
          (r' < r || (r' == r && k < j))
          ensures init[r'][k] != init[r][j]
        {
          assert init[r'][k] == ss[r'][k] && init[r][j] == ss[r][j];
        }
      }
      DistinctCounts(init, x);
      assert NoDup(ss[last]) by {
        forall p, q | 0 <= p < q < |ss[last]|
          ensures ss[last][p] != ss[last][q]
        {
        }
      }
      NoDupCount(ss[last], x);
      if x in multiset(ss[last]) && x in FlightBag(init) {
        var j :| 0 <= j < |ss[last]| && ss[last][j] == x;
        BagMember(init, x);
        assert false;
      }
    }
  }

  /** n distinct ids below n are exactly the ids 0 .. n-1. */
  lemma {:induction false} Pigeonhole(m: multiset<nat>, n: nat)
    requires forall x :: m[x] <= 1
    requires forall x :: x in m ==> x < n
    requires |m| == n
    ensures m == AllFlights(n)
  {
    if n == 0 {
      assert m == multiset{};
    } else if n - 1 in m {
      var m' := m - multiset{n - 1};
      assert m == m' + multiset{n - 1};
      forall x | x in m'
        ensures x < n - 1
      {
        assert x in m;
      }
      Pigeonhole(m', n - 1);
    } else {
      SizeBound(m, n - 1);
      assert false;
    }
  }

  lemma {:induction false} SizeBound(m: multiset<nat>, k: nat)
    requires forall x :: m[x] <= 1
    requires forall x :: x in m ==> x < k
    ensures |m| <= k
  {
    if k == 0 {
      assert m == multiset{};
    } else {
      var m' := m - multiset{k - 1};
      if k - 1 in m {
        assert m == m' + multiset{k - 1};
      } else {
        assert m == m';
      }
      SizeBound(m', k - 1);
    }
  }

  /** The runways partition the ids 0 .. n-1 exactly when no flight is placed
      twice, every placed flight is an id below n, and n flights are placed. */
  lemma PartitionIff(ss: seq<seq<nat>>, n: nat)
    ensures FlightBag(ss) == AllFlights(n) <==>
      DistinctPlacements(ss) && IdsBelow(ss, n) && TotalLength(ss) == n
  {
    BagSize(ss);
    AllFlightsSize(n);
    if FlightBag(ss) == AllFlights(n) {
      PartitionFacts(ss, n);
      forall r, j, r', k | 0 <= r < |ss| && 0 <= j < |ss[r]| && 0 <= r' < |ss| && 0 <= k < |ss[r']| &&
        (r' < r || (r' == r && k < j))
        ensures ss[r'][k] != ss[r][j]
      {
        if ss[r'][k] == ss[r][j] {
          if r' != r {
            AllFlightsCount(n, ss[r][j]);
            BagContainsTwo(ss, r', r);
          }
          assert false;
        }
      }
    }
    if DistinctPlacements(ss) && IdsBelow(ss, n) && TotalLength(ss) == n {
      forall x: nat
        ensures FlightBag(ss)[x] <= 1
      {
        DistinctCounts(ss, x);
      }
      forall x: nat | x in FlightBag(ss)
        ensures x < n
      {
        BagMember(ss, x);
      }
      Pigeonhole(FlightBag(ss), n);
    }
  }
}
