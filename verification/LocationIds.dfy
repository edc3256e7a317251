/**
  Global location ids and the list of all CPU locations of a run.

  A global id packs a thread number above a rank. The list of all CPU locations, as the unification
  helpers exchange it, is ordered by rank and then by thread; a coordinate is found in it by scanning
  down from a computed start position.
*/
module LocationIds {
  import opened Bits

  /** A local id, and the part of a C int that is a rank. */
  type LocalId = t: nat | t < 0x1_0000_0000
  type Rank = r: nat | r < 0x8000_0000

  datatype Option<+T> = None | Some(value: T)

  // ------------------------------------------------------------------ packing

  /** The cast `(uint64_t)rank` of a C int. */
  function CastInt(rank: int): nat
    requires -0x8000_0000 <= rank < 0x8000_0000
  {
    if rank >= 0 then rank else 0x1_0000_0000_0000_0000 + rank
  }

  function CalculateGlobalId(rank: int, thread: LocalId): nat
    requires -0x8000_0000 <= rank < 0x8000_0000
  {
    Or((thread * 0x1_0000_0000) % 0x1_0000_0000_0000_0000, CastInt(rank))
  }

  function CalculateLocalId(globalId: nat): nat
  {
    (globalId / 0x1_0000_0000) % 0x1_0000_0000
  }

  function CalculateRank(globalId: nat): nat
  {
    And(globalId, 0xFFFF_FFFF) % 0x1_0000_0000
  }

  lemma GlobalIdIsSum(rank: Rank, thread: LocalId)
    ensures CalculateGlobalId(rank, thread) == 0x1_0000_0000 * thread + rank
  {
    ShiftFits(thread);
    HighOrLow(thread, rank, thread * 0x1_0000_0000);
  }

  lemma ShiftFits(thread: LocalId)
    ensures (thread * 0x1_0000_0000) % 0x1_0000_0000_0000_0000 == thread * 0x1_0000_0000
  {
  }

  lemma HighOrLow(hi: nat, lo: Rank, shifted: nat)
    requires shifted == hi * 0x1_0000_0000
    ensures Or(shifted, lo) == shifted + lo
  {
    Pow2Values();
    OrDisjoint(hi, lo, 32);
  }

  /** Unpacking a global id gives back rank and thread. */
  lemma GlobalIdRoundTrip(rank: Rank, thread: LocalId)
    ensures CalculateRank(CalculateGlobalId(rank, thread)) == rank
    ensures CalculateLocalId(CalculateGlobalId(rank, thread)) == thread
  {
    GlobalIdIsSum(rank, thread);
    UnpackSum(0x1_0000_0000 * thread + rank, rank, thread);
  }

  lemma UnpackSum(id: nat, rank: Rank, thread: LocalId)
    requires id == 0x1_0000_0000 * thread + rank
    ensures CalculateRank(id) == rank && CalculateLocalId(id) == thread
  {
    RemainderUnique(id, 0x1_0000_0000, thread, rank);
    LowWord(id);
  }

  lemma LowWord(id: nat)
    ensures And(id, 0xFFFF_FFFF) == id % 0x1_0000_0000
  {
    Pow2Values();
    AndLowMask(id, 32);
  }

  lemma GlobalIdInjective(rank: Rank, thread: LocalId, rank': Rank, thread': LocalId)
    requires CalculateGlobalId(rank, thread) == CalculateGlobalId(rank', thread')
    ensures rank == rank' && thread == thread'
  {
    GlobalIdRoundTrip(rank, thread);
    GlobalIdRoundTrip(rank', thread');
  }

  /** A negative rank is sign-extended over the thread, so the thread survives the packing exactly
      when the rank is not negative or the thread has all bits set. */
  lemma ThreadSurvivesPacking(rank: int, thread: LocalId)
    requires -0x8000_0000 <= rank < 0x8000_0000
    ensures CalculateLocalId(CalculateGlobalId(rank, thread)) == thread <==>
            rank >= 0 || thread == 0xFFFF_FFFF
  {
    if rank >= 0 {
      GlobalIdRoundTrip(rank, thread);
    } else {
      Pow2Values();
      var high := (thread * 0x1_0000_0000) % 0x1_0000_0000_0000_0000;
      OrBound(high, CastInt(rank), 64);
      OrAtLeast(high, CastInt(rank));
    }
  }

  lemma {:induction false} OrAtLeast(x: nat, y: nat)
    ensures Or(x, y) >= y
    decreases x + y
  {
    if x != 0 || y != 0 {
      OrAtLeast(x / 2, y / 2);
    }
  }

  // ------------------------------------------------------------------ all CPU locations of a run

  /** For every rank the local ids of its CPU locations, in definition order. Local ids are sequence
      numbers of location definitions, so they ascend but may leave gaps for other location types. */
  type Layout = seq<seq<LocalId>>

  ghost predicate Ascending(s: seq<nat>)
  {
    forall i, j :: 0 <= i < j < |s| ==> s[i] < s[j]
  }

  ghost predicate ValidLayout(layout: Layout)
  {
    && |layout| <= 0x8000_0000
    && forall r :: 0 <= r < |layout| ==> Ascending(layout[r])
  }

  function RankIds(rank: Rank, threads: seq<LocalId>): (ids: seq<nat>)
    ensures |ids| == |threads|
  {
    seq(|threads|, i requires 0 <= i < |threads| => CalculateGlobalId(rank, threads[i]))
  }

  /** The exchanged list: rank after rank. */
  function AllLocations(layout: Layout): seq<nat>
    requires ValidLayout(layout)
  {
    if |layout| == 0 then []
    else
      var last := |layout| - 1;
      assert ValidLayout(layout[..last]);
      AllLocations(layout[..last]) + RankIds(last, layout[last])
  }

  /** The index of the first location of a rank. */
  function Offset(layout: Layout, rank: nat): nat
    requires rank <= |layout|
  {
    if rank == 0 then 0 else Offset(layout, rank - 1) + |layout[rank - 1]|
  }

  function MaxPerRank(layout: Layout): nat
  {
    if |layout| == 0 then 0
    else
      var m, n := MaxPerRank(layout[..|layout| - 1]), |layout[|layout| - 1]|;
      if m < n then n else m
  }

  lemma {:induction false} MaxPerRankBound(layout: Layout, rank: nat)
    requires rank < |layout|
    ensures |layout[rank]| <= MaxPerRank(layout)
  {
    if rank < |layout| - 1 {
      MaxPerRankBound(layout[..|layout| - 1], rank);
    }
  }

  lemma {:induction false} OffsetOfPrefix(layout: Layout, n: nat, rank: nat)
    requires rank <= n <= |layout|
    ensures Offset(layout[..n], rank) == Offset(layout, rank)
  {
    if rank > 0 {
      OffsetOfPrefix(layout, n, rank - 1);
    }
  }

  lemma {:induction false} AllLocationsLength(layout: Layout)
    requires ValidLayout(layout)
    ensures |AllLocations(layout)| == Offset(layout, |layout|)
  {
    if |layout| > 0 {
      var last := |layout| - 1;
      assert ValidLayout(layout[..last]);
      AllLocationsLength(layout[..last]);
      OffsetOfPrefix(layout, last, last);
    }
  }

  lemma OffsetStep(layout: Layout, rank: nat)
    requires rank < |layout|
    ensures Offset(layout, rank + 1) == Offset(layout, rank) + |layout[rank]|
  {
  }

  lemma {:induction false} OffsetMonotone(layout: Layout, low: nat, high: nat)
    requires low <= high <= |layout|
    ensures Offset(layout, low) <= Offset(layout, high)
  {
    if low < high {
      OffsetMonotone(layout, low, high - 1);
    }
  }

  /** The i-th location of a rank stands at the rank's offset plus i. */
  lemma {:induction false} LocationAt(layout: Layout, rank: nat, i: nat)
    requires ValidLayout(layout) && rank < |layout| && i < |layout[rank]|
    ensures Offset(layout, rank) + i < |AllLocations(layout)|
    ensures AllLocations(layout)[Offset(layout, rank) + i] == CalculateGlobalId(rank, layout[rank][i])
  {
    var last := |layout| - 1;
    var front := layout[..last];
    assert ValidLayout(front);
    AllLocationsLength(front);
    OffsetOfPrefix(layout, last, last);
    OffsetOfPrefix(layout, last, rank);
    if rank < last {
      LocationAt(front, rank, i);
    }
  }

  /** Every index of the list belongs to one rank and one of its threads. */
  lemma {:induction false} RankOfIndex(layout: Layout, k: nat) returns (rank: nat, i: nat)
    requires ValidLayout(layout) && k < |AllLocations(layout)|
    ensures rank < |layout| && i < |layout[rank]| && k == Offset(layout, rank) + i
  {
    var last := |layout| - 1;
    var front := layout[..last];
    assert ValidLayout(front);
    AllLocationsLength(front);
    OffsetOfPrefix(layout, last, last);
    if k < |AllLocations(front)| {
      rank, i := RankOfIndex(front, k);
      OffsetOfPrefix(layout, last, rank);
    } else {
      rank, i := last, k - |AllLocations(front)|;
    }
  }

  lemma {:induction false} LocationsBelowTotal(layout: Layout, p: nat, x: nat)
    requires ValidLayout(layout) && p < |layout| && x < Offset(layout, p) + |layout[p]|
    ensures x < |AllLocations(layout)|
  {
    AllLocationsLength(layout);
    OffsetStep(layout, p);
    OffsetMonotone(layout, p + 1, |layout|);
  }

  lemma {:induction false} SegmentsDisjoint(layout: Layout, p: nat, q: nat, x: nat)
    requires p < |layout| && q < |layout|
    requires Offset(layout, p) <= x < Offset(layout, p) + |layout[p]|
    requires Offset(layout, q) <= x < Offset(layout, q) + |layout[q]|
    ensures p == q
  {
    OffsetStep(layout, p);
    OffsetStep(layout, q);
    if p < q {
      OffsetMonotone(layout, p + 1, q);
    } else if q < p {
      OffsetMonotone(layout, q + 1, p);
    }
  }

  /** No id occurs twice in the list. */
  lemma LocationsDistinct(layout: Layout, k: nat, l: nat)
    requires ValidLayout(layout) && k < |AllLocations(layout)| && l < |AllLocations(layout)|
    requires AllLocations(layout)[k] == AllLocations(layout)[l]
    ensures k == l
  {
    var r, i := RankOfIndex(layout, k);
    var r', i' := RankOfIndex(layout, l);
    LocationAt(layout, r, i);
    LocationAt(layout, r', i');
    GlobalIdInjective(r, layout[r][i], r', layout[r'][i']);
  }

  lemma {:induction false} AscendingAtLeast(s: seq<nat>, i: nat)
    requires Ascending(s) && i < |s|
    ensures s[i] >= i
  {
    if i > 0 {
      AscendingAtLeast(s, i - 1);
      assert s[i - 1] < s[i];
    }
  }

  lemma {:induction false} OffsetBound(layout: Layout, rank: nat, max: nat)
    requires rank <= |layout| && forall r :: 0 <= r < |layout| ==> |layout[r]| <= max
    ensures Offset(layout, rank) <= rank * max
  {
    if rank > 0 {
      OffsetBound(layout, rank - 1, max);
      assert rank * max == (rank - 1) * max + max;
    }
  }

  // ------------------------------------------------------------------ the downward scan

  function ScanDown(locations: seq<nat>, id: nat, i: nat): (r: Option<nat>)
    requires i < |locations|
    ensures r.Some? ==> r.value <= i && locations[r.value] == id
    ensures r.None? ==> forall k :: 0 <= k <= i ==> locations[k] != id
  {
    if locations[i] == id then Some(i)
    else if i == 0 then None
    else ScanDown(locations, id, i - 1)
  }

  /** The start position: computed in 32 bits, as both operands are, and cut to the last index. */
  function StartPosition(rank: Rank, thread: LocalId, maxPerRank: nat, count: nat): (start: nat)
    requires count > 0
    ensures start < count
  {
    var start := (rank * maxPerRank + thread) % 0x1_0000_0000;
    if start > count - 1 then count - 1 else start
  }

  /** The lookup of pre- and post-unification. None is the fatal "No location match found". */
  method FindLocation(locations: seq<nat>, rank: Rank, thread: LocalId, maxPerRank: nat) returns (r: Option<nat>)
    requires |locations| > 0
    ensures r == ScanDown(locations, CalculateGlobalId(rank, thread),
                          StartPosition(rank, thread, maxPerRank, |locations|))
  {
    var id := CalculateGlobalId(rank, thread);
    var i := (rank * maxPerRank + thread) % 0x1_0000_0000;
    if i > |locations| - 1 {
      i := |locations| - 1;
    }
    while locations[i] != id
      invariant 0 <= i < |locations|
      invariant ScanDown(locations, id, i) ==
                ScanDown(locations, id, StartPosition(rank, thread, maxPerRank, |locations|))
      decreases i
    {
      if i == 0 {
        return None;
      }
      i := i - 1;
    }
    r := Some(i);
  }

  /** The scan for the i-th location of a rank. */
  ghost function Lookup(layout: Layout, rank: nat, i: nat): Option<nat>
    requires ValidLayout(layout) && rank < |layout| && i < |layout[rank]|
  {
    LocationAt(layout, rank, i);
    var all := AllLocations(layout);
    ScanDown(all, CalculateGlobalId(rank, layout[rank][i]),
             StartPosition(rank, layout[rank][i], MaxPerRank(layout), |all|))
  }

  /** The scan ends at the one index that holds the id, or in the fatal case. It is fatal exactly
      when the 32-bit start position lies below that index. */
  lemma {:induction false} LookupExact(layout: Layout, rank: nat, i: nat)
    requires ValidLayout(layout) && rank < |layout| && i < |layout[rank]|
    ensures Lookup(layout, rank, i) ==
            if Offset(layout, rank) + i <= (rank * MaxPerRank(layout) + layout[rank][i]) % 0x1_0000_0000
            then Some(Offset(layout, rank) + i) else None
  {
    var all, p := AllLocations(layout), Offset(layout, rank) + i;
    LocationAt(layout, rank, i);
    var r := Lookup(layout, rank, i);
    if r.Some? {
      LocationsDistinct(layout, r.value, p);
    }
  }

  /** Whatever the distribution of threads over ranks, the start position is never too low as long
      as it does not wrap around at 2^32: the coordinate is found at its own index. */
  lemma LookupFinds(layout: Layout, rank: nat, i: nat)
    requires ValidLayout(layout) && rank < |layout| && i < |layout[rank]|
    requires rank * MaxPerRank(layout) + layout[rank][i] < 0x1_0000_0000
    ensures Lookup(layout, rank, i) == Some(Offset(layout, rank) + i)
  {
    PositionBound(layout, rank, i);
    var start := rank * MaxPerRank(layout) + layout[rank][i];
    RemainderUnique(start, 0x1_0000_0000, 0, start);
    LookupExact(layout, rank, i);
  }

  /** Computed without wrap-around, the start position is never below the location's index. */
  lemma PositionBound(layout: Layout, rank: nat, i: nat)
    requires ValidLayout(layout) && rank < |layout| && i < |layout[rank]|
    ensures Offset(layout, rank) + i <= rank * MaxPerRank(layout) + layout[rank][i]
  {
    forall r | 0 <= r < |layout|
      ensures |layout[r]| <= MaxPerRank(layout)
    {
      MaxPerRankBound(layout, r);
    }
    OffsetBound(layout, rank, MaxPerRank(layout));
    AscendingAtLeast(layout[rank], i);
  }

  /** Many threads on rank 0 and one on every other rank. */
  function WideLayout(ranks: nat, threads: nat): (layout: Layout)
    requires threads <= 0x1_0000_0000
    ensures |layout| == ranks
  {
    seq(ranks, r requires 0 <= r => if r == 0 then seq(threads, i requires 0 <= i < threads => i) else [0])
  }

  lemma {:induction false} MaxOfWide(ranks: nat, threads: nat)
    requires ranks > 0 && 0 < threads <= 0x1_0000_0000
    ensures MaxPerRank(WideLayout(ranks, threads)) == threads
  {
    var layout := WideLayout(ranks, threads);
    assert layout[..ranks - 1] == WideLayout(ranks - 1, threads);
    if ranks > 1 {
      MaxOfWide(ranks - 1, threads);
    }
  }

  lemma {:induction false} OffsetOfWide(ranks: nat, threads: nat, rank: nat)
    requires 0 < rank <= ranks && threads <= 0x1_0000_0000
    ensures Offset(WideLayout(ranks, threads), rank) == threads + rank - 1
  {
    var layout := WideLayout(ranks, threads);
    if rank > 1 {
      OffsetOfWide(ranks, threads, rank - 1);
    } else {
      assert Offset(layout, 0) == 0;
    }
  }

  /** If the start position of a rank in such a layout is 2^32, the scan for it misses. */
  lemma WideLayoutMisses(ranks: nat, threads: nat, rank: nat)
    requires 0 < rank < ranks <= 0x8000_0000 && 0 < threads <= 0x1_0000_0000 && rank * threads == 0x1_0000_0000
    ensures ValidLayout(WideLayout(ranks, threads)) && WideLayout(ranks, threads)[rank] == [0]
    ensures Lookup(WideLayout(ranks, threads), rank, 0).None?
  {
    MaxOfWide(ranks, threads);
    OffsetOfWide(ranks, threads, rank);
    LookupExact(WideLayout(ranks, threads), rank, 0);
  }

  /** So with the wrap-around the scan can miss: 65537 ranks, the first of which has 65536 threads. The
      start position of the last rank is 65536 * 65536, which is 0 in 32 bits. */
  lemma LookupCanMiss()
    ensures ValidLayout(WideLayout(65537, 65536)) && WideLayout(65537, 65536)[65536] == [0]
    ensures Lookup(WideLayout(65537, 65536), 65536, 0).None?
  {
    WideLayoutMisses(65537, 65536, 65536);
  }
}
