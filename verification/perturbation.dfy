/** The block-swap perturbation as values: which blocks it exchanges, how the
    drawn choices are put in order, and what the exchange does to a schedule. */
module BlockSwaps {
  import opened Instances
  import opened Schedule
  import opened Sequences
  import opened Solutions

  /** Sequence a with its n flights from position pa replaced by the n flights
      of b from position pb. */
  function SpliceBlock(a: seq<nat>, pa: nat, b: seq<nat>, pb: nat, n: nat): (r: seq<nat>)
    requires pa + n <= |a| && pb + n <= |b|
    ensures |r| == |a|
    ensures forall k :: 0 <= k < |a| && (k < pa || pa + n <= k) ==> r[k] == a[k]
    ensures forall k :: pa <= k < pa + n ==> r[k] == b[k - pa + pb]
  {
    a[..pa] + b[pb..pb + n] + a[pa + n..]
  }

  /** An exchange of the aligned blocks of n flights starting at position pi
      of runway ri and at position pj of runway rj. */
  datatype BlockMove = BlockMove(ri: nat, pi: nat, rj: nat, pj: nat, n: nat)

  /** Block move m fits schedule ss: two different runways, each block inside its runway. */
  ghost predicate BlockFits(ss: seq<seq<nat>>, m: BlockMove) {
    m.ri < |ss| && m.rj < |ss| && m.ri != m.rj && m.pi + m.n <= |ss[m.ri]| && m.pj + m.n <= |ss[m.rj]|
  }

  /** Schedule ss with the two blocks of m exchanged. */
  function BlockSwapped(ss: seq<seq<nat>>, m: BlockMove): seq<seq<nat>>
    requires BlockFits(ss, m)
  {
    ss[m.ri := SpliceBlock(ss[m.ri], m.pi, ss[m.rj], m.pj, m.n)][m.rj := SpliceBlock(ss[m.rj], m.pj, ss[m.ri], m.pi, m.n)]
  }

  /** The random choices of the perturbation: two different runways ri and rj,
      a flight position fi of ri, the partner position fj of rj, and block
      sizes from 1 up to the flights left from each position. */
  ghost predicate BlockChoice(ss: seq<seq<nat>>, ri: nat, rj: nat, fi: nat, fj: nat, bi: nat, bj: nat) {
    && ri < |ss| && rj < |ss| && ri != rj
    && fi < |ss[ri]| && fj < |ss[rj]|
    && 1 <= bi <= |ss[ri]| - fi && 1 <= bj <= |ss[rj]| - fj
  }

  /** The ordering step: when the first block is the larger, runways,
      positions and sizes trade places, so that the first block is never the
      larger; its size is the number of flights exchanged. */
  function OrderBlocks(ri: nat, rj: nat, fi: nat, fj: nat, bi: nat, bj: nat): BlockMove {
    if bi > bj then BlockMove(rj, fj, ri, fi, bj) else BlockMove(ri, fi, rj, fj, bi)
  }

  /** After ordering, the exchanged blocks lie inside both runways: the number
      of pairs is the smaller drawn size (at least 1), the runways are the two
      drawn ones, and each block starts at the position drawn for its runway. */
  lemma OrderedBlocksFit(ss: seq<seq<nat>>, ri: nat, rj: nat, fi: nat, fj: nat, bi: nat, bj: nat)
    requires BlockChoice(ss, ri, rj, fi, fj, bi, bj)
    ensures BlockFits(ss, OrderBlocks(ri, rj, fi, fj, bi, bj))
    ensures var m := OrderBlocks(ri, rj, fi, fj, bi, bj);
      && 1 <= m.n && m.n == (if bi <= bj then bi else bj)
      && ((m.ri, m.pi, m.rj, m.pj) == (ri, fi, rj, fj) || (m.ri, m.pi, m.rj, m.pj) == (rj, fj, ri, fi))
  {
  }

  /** The exchange changes only runways ri and rj and keeps their lengths;
      the q-th flights of the two blocks trade places, and every flight
      outside the blocks stays where it is. */
  lemma BlockSwapShape(ss: seq<seq<nat>>, m: BlockMove)
    requires BlockFits(ss, m)
    ensures var ss' := BlockSwapped(ss, m);
      && |ss'| == |ss|
      && (forall r :: 0 <= r < |ss| ==> |ss'[r]| == |ss[r]|)
      && (forall r :: 0 <= r < |ss| && r != m.ri && r != m.rj ==> ss'[r] == ss[r])
      && (forall k :: m.pi <= k < m.pi + m.n ==> ss'[m.ri][k] == ss[m.rj][k - m.pi + m.pj])
      && (forall k :: m.pj <= k < m.pj + m.n ==> ss'[m.rj][k] == ss[m.ri][k - m.pj + m.pi])
      && (forall k :: 0 <= k < |ss[m.ri]| && (k < m.pi || m.pi + m.n <= k) ==> ss'[m.ri][k] == ss[m.ri][k])
      && (forall k :: 0 <= k < |ss[m.rj]| && (k < m.pj || m.pj + m.n <= k) ==> ss'[m.rj][k] == ss[m.rj][k])
  {
    var ss' := BlockSwapped(ss, m);
    assert ss'[m.ri] == SpliceBlock(ss[m.ri], m.pi, ss[m.rj], m.pj, m.n);
    assert ss'[m.rj] == SpliceBlock(ss[m.rj], m.pj, ss[m.ri], m.pi, m.n);
  }

  /** Exchanging the same blocks twice restores the schedule. */
  lemma BlockSwapInvolution(ss: seq<seq<nat>>, m: BlockMove)
    requires BlockFits(ss, m)
    ensures BlockFits(BlockSwapped(ss, m), m)
    ensures BlockSwapped(BlockSwapped(ss, m), m) == ss
  {
    var ss' := BlockSwapped(ss, m);
    BlockSwapShape(ss, m);
    var ss'' := BlockSwapped(ss', m);
    BlockSwapShape(ss', m);
    assert ss''[m.ri] == ss[m.ri];
    assert ss''[m.rj] == ss[m.rj];
  }

  /** The two exchanged sequences hold between them the flights the two
      runways held. */
  lemma BlockPairBag(a: seq<nat>, pa: nat, b: seq<nat>, pb: nat, n: nat)
    requires pa + n <= |a| && pb + n <= |b|
    ensures multiset(SpliceBlock(a, pa, b, pb, n)) + multiset(SpliceBlock(b, pb, a, pa, n)) == multiset(a) + multiset(b)
  {
    assert a == a[..pa] + a[pa..pa + n] + a[pa + n..];
    assert b == b[..pb] + b[pb..pb + n] + b[pb + n..];
  }

  /** Rewriting two different runways with sequences that hold between them
      the same flights as before keeps the flights of the schedule. */
  lemma TwoRunwaysBag(ss: seq<seq<nat>>, ri: nat, rj: nat, a': seq<nat>, b': seq<nat>)
    requires ri < |ss| && rj < |ss| && ri != rj
    requires multiset(a') + multiset(b') == multiset(ss[ri]) + multiset(ss[rj])
    ensures FlightBag(ss[ri := a'][rj := b']) == FlightBag(ss)
  {
    var t := ss[ri := a'];
    var ss' := t[rj := b'];
    BagUpdate(ss, ri, a');
    BagUpdate(t, rj, b');
    forall x
      ensures FlightBag(ss')[x] == FlightBag(ss)[x]
    {
      assert (FlightBag(ss') + multiset(ss[rj]))[x] == (FlightBag(t) + multiset(b'))[x];
      assert (FlightBag(t) + multiset(ss[ri]))[x] == (FlightBag(ss) + multiset(a'))[x];
      assert (multiset(a') + multiset(b'))[x] == (multiset(ss[ri]) + multiset(ss[rj]))[x];
    }
    assert FlightBag(ss') == FlightBag(ss);
  }

  /** The exchange keeps the flights of the schedule. */
  lemma BlockSwapKeepsFlights(ss: seq<seq<nat>>, m: BlockMove)
    requires BlockFits(ss, m)
    ensures FlightBag(BlockSwapped(ss, m)) == FlightBag(ss)
  {
    BlockPairBag(ss[m.ri], m.pi, ss[m.rj], m.pj, m.n);
    TwoRunwaysBag(ss, m.ri, m.rj, SpliceBlock(ss[m.ri], m.pi, ss[m.rj], m.pj, m.n),
                  SpliceBlock(ss[m.rj], m.pj, ss[m.ri], m.pi, m.n));
  }

  /** The exchanged runways name valid flights when the schedule does. */
  lemma BlockSwapValidIds(inst: Instance, ss: seq<seq<nat>>, m: BlockMove)
    requires inst.WellFormed() && AllValidIds(inst, ss) && BlockFits(ss, m)
    ensures AllValidIds(inst, BlockSwapped(ss, m))
  {
    BlockSwapShape(ss, m);
    var ss' := BlockSwapped(ss, m);
    forall r, k | 0 <= r < |ss'| && 0 <= k < |ss'[r]|
      ensures ss'[r][k] < inst.numFlights
    {
      if r == m.ri && m.pi <= k < m.pi + m.n {
        assert ss'[r][k] == ss[m.rj][k - m.pi + m.pj];
      } else if r == m.rj && m.pj <= k < m.pj + m.n {
        assert ss'[r][k] == ss[m.ri][k - m.pj + m.pi];
      }
    }
  }

  /** The objective of the exchanged schedule is the old one with the
      penalties of the two runways replaced by their new penalties. */
  lemma BlockSwapObjective(inst: Instance, ss: seq<seq<nat>>, m: BlockMove)
    requires inst.WellFormed() && AllValidIds(inst, ss) && BlockFits(ss, m)
    ensures AllValidIds(inst, BlockSwapped(ss, m))
    ensures var ss' := BlockSwapped(ss, m);
      Objective(inst, ss') + TotalPenalty(inst, ss[m.ri]) + TotalPenalty(inst, ss[m.rj])
      == Objective(inst, ss) + TotalPenalty(inst, ss'[m.ri]) + TotalPenalty(inst, ss'[m.rj])
  {
    BlockSwapValidIds(inst, ss, m);
    var ss' := BlockSwapped(ss, m);
    var t := ss[m.ri := ss'[m.ri]];
    assert ss' == t[m.rj := ss'[m.rj]];
    ObjectiveUpdate(inst, ss, m.ri, ss'[m.ri]);
    ObjectiveUpdate(inst, t, m.rj, ss'[m.rj]);
  }

  /** The exchange keeps the flights and their ids, and the objective moves
      by the two runways' changes of penalty. */
  lemma BlockSwapEffect(inst: Instance, ss: seq<seq<nat>>, m: BlockMove)
    requires inst.WellFormed() && AllValidIds(inst, ss) && BlockFits(ss, m)
    ensures FlightBag(BlockSwapped(ss, m)) == FlightBag(ss)
    ensures AllValidIds(inst, BlockSwapped(ss, m))
    ensures var ss' := BlockSwapped(ss, m);
      Objective(inst, ss') + TotalPenalty(inst, ss[m.ri]) + TotalPenalty(inst, ss[m.rj])
      == Objective(inst, ss) + TotalPenalty(inst, ss'[m.ri]) + TotalPenalty(inst, ss'[m.rj])
  {
    BlockSwapKeepsFlights(ss, m);
    BlockSwapObjective(inst, ss, m);
  }

  /** Leaving the runway and position caches as they were after an exchange,
      as the perturbation is written, breaks the cache invariant: the first
      flight of the first block is still cached on its old runway. */
  lemma StaleCachesAfterBlockSwap(ss: seq<seq<nat>>, runwayOf: seq<nat>, position: seq<nat>, m: BlockMove)
    requires Placed(ss, runwayOf, position) && BlockFits(ss, m) && m.n >= 1
    ensures !Placed(BlockSwapped(ss, m), runwayOf, position)
  {
    BlockSwapShape(ss, m);
    var x := ss[m.ri][m.pi];
    assert BlockSwapped(ss, m)[m.rj][m.pj] == x && runwayOf[x] == m.ri;
  }

  /** The smallest example: runways [0] and [1] with their caches right,
      their single flights exchanged. */
  lemma StaleCachesExample()
    ensures Placed([[0], [1]], [0, 1], [0, 0])
    ensures BlockSwapped([[0], [1]], BlockMove(0, 0, 1, 0, 1)) == [[1], [0]]
    ensures !Placed(BlockSwapped([[0], [1]], BlockMove(0, 0, 1, 0, 1)), [0, 1], [0, 0])
  {
    var ss: seq<seq<nat>> := [[0], [1]];
    var m := BlockMove(0, 0, 1, 0, 1);
    assert SpliceBlock(ss[0], 0, ss[1], 0, 1) == [1];
    assert SpliceBlock(ss[1], 0, ss[0], 0, 1) == [0];
    StaleCachesAfterBlockSwap(ss, [0, 1], [0, 0], m);
  }
}

/** ASP::random_inter_block_swap: two different runways are drawn, a flight
    position on the first and the partner position on the second, and a block
    size from each; the blocks are put in order so that the first is not the
    larger, the aligned pairs of the first block's size are exchanged, and
    both runways are rescheduled from the start of their blocks. */
module Perturbation {
  import opened Instances
  import opened Schedule
  import opened Sequences
  import opened Runways
  import opened Solutions
  import opened Asp
  import opened BlockSwaps

  /** The exchange loop: the q-th flights of the two blocks trade places, for
      every q below n, one pair at a time. */
  method SwapBlocks(si: seq<nat>, sj: seq<nat>, pi: nat, pj: nat, n: nat) returns (si': seq<nat>, sj': seq<nat>)
    requires pi + n <= |si| && pj + n <= |sj|
    ensures si' == SpliceBlock(si, pi, sj, pj, n) && sj' == SpliceBlock(sj, pj, si, pi, n)
  {
    si', sj' := si, sj;
    for k := 0 to n
      invariant si' == SpliceBlock(si, pi, sj, pj, k) && sj' == SpliceBlock(sj, pj, si, pi, k)
    {
      var x := si'[pi + k];
      si' := si'[pi + k := sj'[pj + k]];
      sj' := sj'[pj + k := x];
      assert si' == SpliceBlock(si, pi, sj, pj, k + 1);
      assert sj' == SpliceBlock(sj, pj, si, pi, k + 1);
    }
  }

  /** The flights of block [pa, pa + n) of runway ra, and of block [pb, pb + n)
      of another runway rb, are the only ones whose caches change: every other
      flight of ra keeps its cached runway and position. */
  lemma KeptEntries(ss: seq<seq<nat>>, runwayOf: seq<nat>, position: seq<nat>, ra: nat, pa: nat, rb: nat, pb: nat, n: nat,
                    runwayOf': seq<nat>, position': seq<nat>)
    requires Placed(ss, runwayOf, position)
    requires ra < |ss| && rb < |ss| && ra != rb && pa + n <= |ss[ra]| && pb + n <= |ss[rb]|
    requires |runwayOf| == |position| == |runwayOf'| == |position'|
    requires forall y :: 0 <= y < |runwayOf| && y !in ss[ra][pa..pa + n] && y !in ss[rb][pb..pb + n] ==>
               runwayOf'[y] == runwayOf[y] && position'[y] == position[y]
    ensures forall k :: 0 <= k < |ss[ra]| && (k < pa || pa + n <= k) ==>
              ss[ra][k] < |runwayOf'| && runwayOf'[ss[ra][k]] == ra && position'[ss[ra][k]] == k
  {
    forall k | 0 <= k < |ss[ra]| && (k < pa || pa + n <= k)
      ensures ss[ra][k] < |runwayOf'| && runwayOf'[ss[ra][k]] == ra && position'[ss[ra][k]] == k
    {
      var x := ss[ra][k];
      forall p | pa <= p < pa + n
        ensures ss[ra][p] != x
      {
        PlacedDistinct(ss, runwayOf, position, ra, p, ra, k);
      }
      forall p | pb <= p < pb + n
        ensures ss[rb][p] != x
      {
        PlacedDistinct(ss, runwayOf, position, rb, p, ra, k);
      }
      AbsentFromSlice(ss[ra], pa, pa + n, x);
      AbsentFromSlice(ss[rb], pb, pb + n, x);
    }
  }

  /** When the flights of a outside its block keep runway r and their
      positions, and the flights of b's block are cached on runway r at the
      positions of a's block, every flight of the spliced sequence is cached
      where it now is. */
  lemma SplicedEntries(a: seq<nat>, pa: nat, b: seq<nat>, pb: nat, n: nat, r: nat,
                       runwayOf': seq<nat>, position': seq<nat>)
    requires pa + n <= |a| && pb + n <= |b| && |runwayOf'| == |position'|
    requires forall k :: 0 <= k < |a| && (k < pa || pa + n <= k) ==>
               a[k] < |runwayOf'| && runwayOf'[a[k]] == r && position'[a[k]] == k
    requires forall k :: pb <= k < pb + n ==>
               b[k] < |runwayOf'| && runwayOf'[b[k]] == r && position'[b[k]] == k - pb + pa
    ensures var a' := SpliceBlock(a, pa, b, pb, n);
      forall k :: 0 <= k < |a'| ==>
        (a'[k] in a || a'[k] in b) && a'[k] < |runwayOf'| && runwayOf'[a'[k]] == r && position'[a'[k]] == k
  {
    var a' := SpliceBlock(a, pa, b, pb, n);
    forall k | 0 <= k < |a'|
      ensures (a'[k] in a || a'[k] in b) && a'[k] < |runwayOf'| && runwayOf'[a'[k]] == r && position'[a'[k]] == k
    {
      if pa <= k < pa + n {
        assert a'[k] == b[k - pa + pb];
      }
    }
  }

  /** A flight on neither exchanged runway after the exchange was in
      neither block before it, so its caches were left alone. */
  lemma UntouchedFlights(ss: seq<seq<nat>>, runwayOf: seq<nat>, position: seq<nat>, m: BlockMove,
                         runwayOf': seq<nat>, position': seq<nat>)
    requires BlockFits(ss, m) && |runwayOf| == |position| == |runwayOf'| == |position'|
    requires forall y :: 0 <= y < |runwayOf| && y !in ss[m.ri][m.pi..m.pi + m.n] && y !in ss[m.rj][m.pj..m.pj + m.n] ==>
               runwayOf'[y] == runwayOf[y] && position'[y] == position[y]
    ensures var ss' := BlockSwapped(ss, m);
      forall y :: 0 <= y < |runwayOf| && y !in ss'[m.ri] && y !in ss'[m.rj] ==>
        runwayOf'[y] == runwayOf[y] && position'[y] == position[y]
  {
    var ss' := BlockSwapped(ss, m);
    var a, b := ss[m.ri], ss[m.rj];
    assert ss'[m.ri] == SpliceBlock(a, m.pi, b, m.pj, m.n) && ss'[m.rj] == SpliceBlock(b, m.pj, a, m.pi, m.n);
    forall y | 0 <= y < |runwayOf| && y !in ss'[m.ri] && y !in ss'[m.rj]
      ensures runwayOf'[y] == runwayOf[y] && position'[y] == position[y]
    {
      forall p | m.pi <= p < m.pi + m.n
        ensures a[p] != y
      {
        assert ss'[m.rj][p - m.pi + m.pj] == a[p];
      }
      forall p | m.pj <= p < m.pj + m.n
        ensures b[p] != y
      {
        assert ss'[m.ri][p - m.pj + m.pi] == b[p];
      }
      AbsentFromSlice(a, m.pi, m.pi + m.n, y);
      AbsentFromSlice(b, m.pj, m.pj + m.n, y);
    }
  }

  /** One side of the exchange: every flight of the sequence runway ra gets
      from it is cached on ra at its new position. */
  lemma SideEntries(ss: seq<seq<nat>>, runwayOf: seq<nat>, position: seq<nat>, ra: nat, pa: nat, rb: nat, pb: nat, n: nat,
                    runwayOf': seq<nat>, position': seq<nat>)
    requires Placed(ss, runwayOf, position)
    requires ra < |ss| && rb < |ss| && ra != rb && pa + n <= |ss[ra]| && pb + n <= |ss[rb]|
    requires |runwayOf| == |position| == |runwayOf'| == |position'|
    requires forall k :: pb <= k < pb + n ==> runwayOf'[ss[rb][k]] == ra && position'[ss[rb][k]] == k - pb + pa
    requires forall y :: 0 <= y < |runwayOf| && y !in ss[ra][pa..pa + n] && y !in ss[rb][pb..pb + n] ==>
               runwayOf'[y] == runwayOf[y] && position'[y] == position[y]
    ensures var a' := SpliceBlock(ss[ra], pa, ss[rb], pb, n);
      forall k :: 0 <= k < |a'| ==>
        (a'[k] in ss[ra] || a'[k] in ss[rb]) && a'[k] < |runwayOf| && runwayOf'[a'[k]] == ra && position'[a'[k]] == k
  {
    KeptEntries(ss, runwayOf, position, ra, pa, rb, pb, n, runwayOf', position');
    assert forall k :: pb <= k < pb + n ==> ss[rb][k] < |runwayOf'|;
    SplicedEntries(ss[ra], pa, ss[rb], pb, n, ra, runwayOf', position');
  }

  /** Side ri of the exchange, in the form the rewrite lemma takes. */
  lemma FirstSideEntries(ss: seq<seq<nat>>, runwayOf: seq<nat>, position: seq<nat>, m: BlockMove,
                         runwayOf': seq<nat>, position': seq<nat>)
    requires Placed(ss, runwayOf, position) && BlockFits(ss, m)
    requires |runwayOf| == |position| == |runwayOf'| == |position'|
    requires forall k :: m.pi <= k < m.pi + m.n ==>
               runwayOf'[ss[m.ri][k]] == m.rj && position'[ss[m.ri][k]] == k - m.pi + m.pj
    requires forall k :: m.pj <= k < m.pj + m.n ==>
               runwayOf'[ss[m.rj][k]] == m.ri && position'[ss[m.rj][k]] == k - m.pj + m.pi
    requires forall y :: 0 <= y < |runwayOf| && y !in ss[m.ri][m.pi..m.pi + m.n] && y !in ss[m.rj][m.pj..m.pj + m.n] ==>
               runwayOf'[y] == runwayOf[y] && position'[y] == position[y]
    ensures var s' := BlockSwapped(ss, m)[m.ri];
      forall k :: 0 <= k < |s'| ==> s'[k] in ss[m.ri] || s'[k] in ss[m.rj]
    ensures var s' := BlockSwapped(ss, m)[m.ri];
      forall k :: 0 <= k < |s'| ==> s'[k] < |runwayOf| && runwayOf'[s'[k]] == m.ri && position'[s'[k]] == k
  {
    assert BlockSwapped(ss, m)[m.ri] == SpliceBlock(ss[m.ri], m.pi, ss[m.rj], m.pj, m.n);
    SideEntries(ss, runwayOf, position, m.ri, m.pi, m.rj, m.pj, m.n, runwayOf', position');
  }

  /** Side rj of the exchange, in the form the rewrite lemma takes. */
  lemma SecondSideEntries(ss: seq<seq<nat>>, runwayOf: seq<nat>, position: seq<nat>, m: BlockMove,
                          runwayOf': seq<nat>, position': seq<nat>)
    requires Placed(ss, runwayOf, position) && BlockFits(ss, m)
    requires |runwayOf| == |position| == |runwayOf'| == |position'|
    requires forall k :: m.pi <= k < m.pi + m.n ==>
               runwayOf'[ss[m.ri][k]] == m.rj && position'[ss[m.ri][k]] == k - m.pi + m.pj
    requires forall k :: m.pj <= k < m.pj + m.n ==>
               runwayOf'[ss[m.rj][k]] == m.ri && position'[ss[m.rj][k]] == k - m.pj + m.pi
    requires forall y :: 0 <= y < |runwayOf| && y !in ss[m.ri][m.pi..m.pi + m.n] && y !in ss[m.rj][m.pj..m.pj + m.n] ==>
               runwayOf'[y] == runwayOf[y] && position'[y] == position[y]
    ensures var s' := BlockSwapped(ss, m)[m.rj];
      forall k :: 0 <= k < |s'| ==> s'[k] in ss[m.ri] || s'[k] in ss[m.rj]
    ensures var s' := BlockSwapped(ss, m)[m.rj];
      forall k :: 0 <= k < |s'| ==> s'[k] < |runwayOf| && runwayOf'[s'[k]] == m.rj && position'[s'[k]] == k
  {
    assert BlockSwapped(ss, m)[m.rj] == SpliceBlock(ss[m.rj], m.pj, ss[m.ri], m.pi, m.n);
    forall y | 0 <= y < |runwayOf| && y !in ss[m.rj][m.pj..m.pj + m.n] && y !in ss[m.ri][m.pi..m.pi + m.n]
      ensures runwayOf'[y] == runwayOf[y] && position'[y] == position[y]
    {
    }
    SideEntries(ss, runwayOf, position, m.rj, m.pj, m.ri, m.pi, m.n, runwayOf', position');
  }

  /** Caches that place every flight of ss and then give each flight of
      either block the runway and position of its partner in the other block,
      leaving every other flight alone, place every flight of the exchanged
      schedule. */
  lemma PlacedAfterBlockSwap(ss: seq<seq<nat>>, runwayOf: seq<nat>, position: seq<nat>, m: BlockMove,
                             runwayOf': seq<nat>, position': seq<nat>)
    requires Placed(ss, runwayOf, position) && BlockFits(ss, m)
    requires |runwayOf| == |position| == |runwayOf'| == |position'|
    requires forall k :: m.pi <= k < m.pi + m.n ==>
               runwayOf'[ss[m.ri][k]] == m.rj && position'[ss[m.ri][k]] == k - m.pi + m.pj
    requires forall k :: m.pj <= k < m.pj + m.n ==>
               runwayOf'[ss[m.rj][k]] == m.ri && position'[ss[m.rj][k]] == k - m.pj + m.pi
    requires forall y :: 0 <= y < |runwayOf| && y !in ss[m.ri][m.pi..m.pi + m.n] && y !in ss[m.rj][m.pj..m.pj + m.n] ==>
               runwayOf'[y] == runwayOf[y] && position'[y] == position[y]
    ensures Placed(BlockSwapped(ss, m), runwayOf', position')
  {
    FirstSideEntries(ss, runwayOf, position, m, runwayOf', position');
    SecondSideEntries(ss, runwayOf, position, m, runwayOf', position');
    UntouchedFlights(ss, runwayOf, position, m, runwayOf', position');
    PlacedAfterRewrite(ss, runwayOf, position, m.ri, m.rj, BlockSwapped(ss, m), runwayOf', position');
  }

  /** The cache update loop for one block: the flights at positions lo ..
      lo + n - 1 of s are cached on runway r at positions to, to + 1, ...;
      the caches of every other flight are left alone. */
  method RelabelBlock(runwayOf: array<nat>, position: array<nat>, s: seq<nat>, lo: nat, n: nat, r: nat, to: nat)
    requires runwayOf != position && runwayOf.Length == position.Length
    requires lo + n <= |s| && NoDup(s)
    requires forall k :: 0 <= k < |s| ==> s[k] < runwayOf.Length
    modifies runwayOf, position
    ensures forall k :: lo <= k < lo + n ==> runwayOf[s[k]] == r && position[s[k]] == k - lo + to
    ensures forall y :: 0 <= y < runwayOf.Length && y !in s[lo..lo + n] ==>
              runwayOf[y] == old(runwayOf[y]) && position[y] == old(position[y])
  {
    for k := lo to lo + n
      invariant forall p :: lo <= p < k ==> runwayOf[s[p]] == r && position[s[p]] == p - lo + to
      invariant forall y :: 0 <= y < runwayOf.Length && y !in s[lo..k] ==>
                  runwayOf[y] == old(runwayOf[y]) && position[y] == old(position[y])
    {
      runwayOf[s[k]] := r;
      position[s[k]] := k - lo + to;
      assert s[lo..k + 1] == s[lo..k] + [s[k]];
    }
  }

  /** The corrected cache update of the perturbation: with caches that place
      every flight of ss, rewriting those of the two blocks leaves caches
      that place every flight of the exchanged schedule. */
  method RelabelBlocks(runwayOf: array<nat>, position: array<nat>, ghost ss: seq<seq<nat>>, m: BlockMove,
                       si: seq<nat>, sj: seq<nat>)
    requires runwayOf != position && runwayOf.Length == position.Length
    requires Placed(ss, runwayOf[..], position[..]) && BlockFits(ss, m)
    requires si == ss[m.ri] && sj == ss[m.rj]
    modifies runwayOf, position
    ensures Placed(BlockSwapped(ss, m), runwayOf[..], position[..])
  {
    ghost var runwayOf0, position0 := runwayOf[..], position[..];
    PlacedNoDup(ss, runwayOf0, position0, m.ri);
    PlacedNoDup(ss, runwayOf0, position0, m.rj);
    PlacedDisjoint(ss, runwayOf0, position0, m.ri, m.rj);
    forall k | m.pi <= k < m.pi + m.n
      ensures si[k] !in sj[m.pj..m.pj + m.n]
    {
      AbsentFromSlice(sj, m.pj, m.pj + m.n, si[k]);
    }
    RelabelBlock(runwayOf, position, si, m.pi, m.n, m.rj, m.pj);
    RelabelBlock(runwayOf, position, sj, m.pj, m.n, m.ri, m.pi);
    PlacedAfterBlockSwap(ss, runwayOf0, position0, m, runwayOf[..], position[..]);
  }

  /** What the exchange needs of a valid state: both runways are non-empty
      and consistent, the caches place every flight, and the exchanged
      sequences are the splices of the two blocks. */
  lemma BeforeBlockSwap(inst: Instance, sol: Solution, start: seq<nat>, runwayOf: seq<nat>, position: seq<nat>,
                        ss: seq<seq<nat>>, m: BlockMove)
    requires ScheduleInvariant(inst, sol, start, runwayOf, position)
    requires ss == SequencesOf(sol.runways) && BlockFits(ss, m)
    ensures sol.runways[m.ri].sequence == ss[m.ri] && sol.runways[m.rj].sequence == ss[m.rj]
    ensures |ss[m.ri]| >= 1 && Consistent(inst, sol.runways[m.ri], start)
    ensures |ss[m.rj]| >= 1 && Consistent(inst, sol.runways[m.rj], start)
    ensures Placed(ss, runwayOf, position) && AllValidIds(inst, ss)
    ensures BlockSwapped(ss, m)[m.ri] == SpliceBlock(ss[m.ri], m.pi, ss[m.rj], m.pj, m.n)
    ensures BlockSwapped(ss, m)[m.rj] == SpliceBlock(ss[m.rj], m.pj, ss[m.ri], m.pi, m.n)
  {
  }

  /** What rescheduling the exchanged runways needs, once the caches place
      every flight of the exchanged schedule: both new sequences name valid
      flights, none twice and none on both, and the old prefix penalties and
      start times are still right up to the start of each block. */
  lemma BeforeBlockReschedule(inst: Instance, ss: seq<seq<nat>>, m: BlockMove, rwI: Runway, rwJ: Runway,
                              start: seq<nat>, runwayOf': seq<nat>, position': seq<nat>)
    requires inst.WellFormed() && AllValidIds(inst, ss) && BlockFits(ss, m)
    requires rwI.sequence == ss[m.ri] && Consistent(inst, rwI, start)
    requires rwJ.sequence == ss[m.rj] && Consistent(inst, rwJ, start)
    requires Placed(BlockSwapped(ss, m), runwayOf', position')
    ensures var si, sj := BlockSwapped(ss, m)[m.ri], BlockSwapped(ss, m)[m.rj];
      && ValidIds(inst, si) && NoDup(si) && ValidIds(inst, sj) && NoDup(sj)
      && (forall k :: 0 <= k < |sj| ==> sj[k] !in si)
      && PrefixesMatch(inst, si, rwI.prefixPenalty, m.pi) && StartsMatch(inst, si, start, m.pi)
      && PrefixesMatch(inst, sj, rwJ.prefixPenalty, m.pj) && StartsMatch(inst, sj, start, m.pj)
  {
    var ss' := BlockSwapped(ss, m);
    BlockSwapValidIds(inst, ss, m);
    assert ValidIds(inst, ss'[m.ri]) && ValidIds(inst, ss'[m.rj]);
    PlacedNoDup(ss', runwayOf', position', m.ri);
    PlacedNoDup(ss', runwayOf', position', m.rj);
    PlacedDisjoint(ss', runwayOf', position', m.ri, m.rj);
    assert ss'[m.ri] == SpliceBlock(ss[m.ri], m.pi, ss[m.rj], m.pj, m.n);
    assert ss'[m.rj] == SpliceBlock(ss[m.rj], m.pj, ss[m.ri], m.pi, m.n);
    MatchesBefore(inst, ss[m.ri], ss'[m.ri], rwI.prefixPenalty, rwI.prefixPenalty, start, m.pi);
    MatchesBefore(inst, ss[m.rj], ss'[m.rj], rwJ.prefixPenalty, rwJ.prefixPenalty, start, m.pj);
  }

  /** After the exchange has been applied to a valid state with schedule ss:
      with the two runways replaced by runways holding the exchanged sequences
      with caches consistent with the new start times, start times changed
      only for flights of those two runways, caches that place every flight of
      the exchanged schedule, and the objective moved by the two runways'
      changes of penalty, the state is valid again and its schedule is the
      exchanged one. */
  lemma AfterBlockSwap(inst: Instance, sol: Solution, start: seq<nat>, runwayOf: seq<nat>, position: seq<nat>,
                       ss: seq<seq<nat>>, m: BlockMove, rs': seq<Runway>, objective': int,
                       start': seq<nat>, runwayOf': seq<nat>, position': seq<nat>)
    requires ScheduleInvariant(inst, sol, start, runwayOf, position)
    requires ss == SequencesOf(sol.runways) && BlockFits(ss, m)
    requires |rs'| == |ss| && forall q :: 0 <= q < |ss| && q != m.ri && q != m.rj ==> rs'[q] == sol.runways[q]
    requires rs'[m.ri].sequence == BlockSwapped(ss, m)[m.ri] && Consistent(inst, rs'[m.ri], start')
    requires rs'[m.rj].sequence == BlockSwapped(ss, m)[m.rj] && Consistent(inst, rs'[m.rj], start')
    requires |start'| == |start| && |runwayOf'| == |runwayOf| && |position'| == |position|
    requires forall f :: 0 <= f < |start| && f !in rs'[m.ri].sequence && f !in rs'[m.rj].sequence ==>
               start'[f] == start[f]
    requires Placed(BlockSwapped(ss, m), runwayOf', position')
    requires objective' == sol.objective + (rs'[m.rj].penalty - sol.runways[m.rj].penalty)
                                         + (rs'[m.ri].penalty - sol.runways[m.ri].penalty)
    ensures SequencesOf(rs') == BlockSwapped(ss, m)
    ensures objective' == Objective(inst, BlockSwapped(ss, m))
    ensures objective' >= 0 && ScheduleInvariant(inst, Solution(rs', objective'), start', runwayOf', position')
  {
    var ss' := BlockSwapped(ss, m);
    assert SequencesOf(rs') == ss';
    BlockSwapEffect(inst, ss, m);
    assert objective' == Objective(inst, ss') by {
      assert Consistent(inst, sol.runways[m.ri], start) && Consistent(inst, sol.runways[m.rj], start);
    }
    RunwaysAfterUpdate(inst, sol.runways, start, m.ri, m.rj, rs', start', runwayOf', position');
  }

  /** Applies block move m to a valid state: the aligned pairs are
      exchanged, the caches of the moved flights rewritten, both runways
      rescheduled from the start of their blocks, and the objective moved by
      the sum of the two runways' changes of penalty. */
  method ApplyBlockSwap(asp: ASP, sol: Solution, m: BlockMove) returns (sol': Solution)
    requires asp.Valid(sol) && BlockFits(SequencesOf(sol.runways), m)
    modifies asp.startTime, asp.runwayOf, asp.position
    ensures asp.Valid(sol')
    ensures SequencesOf(sol'.runways) == BlockSwapped(SequencesOf(sol.runways), m)
    ensures sol'.objective == sol.objective + (sol'.runways[m.rj].penalty - sol.runways[m.rj].penalty)
                                            + (sol'.runways[m.ri].penalty - sol.runways[m.ri].penalty)
  {
    var inst := asp.instance;
    ghost var ss := SequencesOf(sol.runways);
    ghost var start0, runwayOf0, position0 := asp.startTime[..], asp.runwayOf[..], asp.position[..];
    var rwI, rwJ := sol.runways[m.ri], sol.runways[m.rj];
    BeforeBlockSwap(inst, sol, start0, runwayOf0, position0, ss, m);
    var si, sj := SwapBlocks(rwI.sequence, rwJ.sequence, m.pi, m.pj, m.n);
    RelabelBlocks(asp.runwayOf, asp.position, ss, m, rwI.sequence, rwJ.sequence);
    BeforeBlockReschedule(inst, ss, m, rwI, rwJ, start0, asp.runwayOf[..], asp.position[..]);
    assert asp.startTime[..] == start0;
    var rwI', rwJ' := RescheduleTwo(inst, asp.startTime, rwI, rwJ, si, sj, m.pi, m.pj);
    var rs' := sol.runways[m.ri := rwI'][m.rj := rwJ'];
    var objective := sol.objective + (rwJ'.penalty - rwJ.penalty) + (rwI'.penalty - rwI.penalty);
    AfterBlockSwap(inst, sol, start0, runwayOf0, position0, ss, m, rs', objective,
                   asp.startTime[..], asp.runwayOf[..], asp.position[..]);
    sol' := Solution(rs', objective);
  }

  /** The swap of ASP::random_inter_block_swap, with the draws and the
      partner as parameters: runways ri and rj (drawn again until they
      differ), flight position fi of ri, partner position fj of rj, and block
      sizes bi and bj. The partner is given here; Metaheuristics.NearestPartner
      chooses it as the flight of rj whose start time is nearest. With fewer
      than two runways nothing changes. Otherwise the blocks are put in order
      and exchanged, both runways are rescheduled, and the objective moves by
      the sum of the two runways' changes of penalty. */
  method RandomInterBlockSwap(asp: ASP, sol: Solution, ri: nat, rj: nat, fi: nat, fj: nat, bi: nat, bj: nat)
    returns (sol': Solution)
    requires asp.Valid(sol)
    requires |sol.runways| >= 2 ==> BlockChoice(SequencesOf(sol.runways), ri, rj, fi, fj, bi, bj)
    modifies asp.startTime, asp.runwayOf, asp.position
    ensures asp.Valid(sol')
    ensures |sol.runways| < 2 ==> sol' == sol && unchanged(asp.startTime, asp.runwayOf, asp.position)
    ensures |sol.runways| >= 2 ==>
      && SequencesOf(sol'.runways) == BlockSwapped(SequencesOf(sol.runways), OrderBlocks(ri, rj, fi, fj, bi, bj))
      && sol'.objective == sol.objective + (sol'.runways[ri].penalty - sol.runways[ri].penalty)
                                         + (sol'.runways[rj].penalty - sol.runways[rj].penalty)
  {
    if |sol.runways| < 2 {
      return sol;
    }
    OrderedBlocksFit(SequencesOf(sol.runways), ri, rj, fi, fj, bi, bj);
    var m := OrderBlocks(ri, rj, fi, fj, bi, bj);
    sol' := ApplyBlockSwap(asp, sol, m);
  }
}
