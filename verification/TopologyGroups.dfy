/**
  Pre-unification of user topologies: every rank computes, for each of its user topologies, the
  group of all locations that take part in a topology of that name on any rank.

  The ranks of a run are a list of local definitions; an allgather makes a list of what each rank
  contributes. The methods are the steps of one rank; `UnifyUserTopologies` lets all ranks take the
  same steps in lockstep, as the collective calls force them to.
*/
module TopologyGroups {
  import opened LocationIds
  import opened FirstOccurrences
  import opened TopologyNames

  datatype TopologyType = Mpi | Process | Platform

  datatype Topology = UserTopology(name: Name) | OtherTopology(kind: TopologyType)

  /** A coordinate belongs to a location, given by rank and local id. */
  datatype Coord = Coord(topology: nat, rank: Rank, thread: LocalId)

  datatype RankDefs = RankDefs(topologies: seq<Topology>, coords: seq<Coord>)

  ghost predicate UserCoord(d: RankDefs, c: Coord)
  {
    c.topology < |d.topologies| && d.topologies[c.topology].UserTopology?
  }

  /** A rank defines user coordinates for its own CPU locations only. */
  ghost predicate ValidDefs(layout: Layout, p: nat, d: RankDefs)
  {
    && p < |layout|
    && forall i :: 0 <= i < |d.coords| ==>
         var c := d.coords[i];
         && c.topology < |d.topologies|
         && (UserCoord(d, c) ==> c.rank == p && c.thread in layout[p])
  }

  ghost predicate ValidRun(layout: Layout, defs: seq<RankDefs>)
  {
    && ValidLayout(layout) && |defs| == |layout|
    && forall p :: 0 <= p < |defs| ==> ValidDefs(layout, p, defs[p])
  }

  // ------------------------------------------------------------------ the local name list

  function UserNames(ts: seq<Topology>): seq<Name>
  {
    if ts == [] then []
    else
      var front, last := UserNames(ts[..|ts| - 1]), ts[|ts| - 1];
      if last.UserTopology? then front + [last.name] else front
  }

  function UniqueNames(ts: seq<Topology>): seq<Name>
  {
    Dedup(UserNames(ts))
  }

  lemma {:induction false} NameIsListed(ts: seq<Topology>, k: nat)
    requires k < |ts| && ts[k].UserTopology?
    ensures ts[k].name in UserNames(ts) && ts[k].name in UniqueNames(ts)
    decreases |ts|
  {
    DedupFacts(UserNames(ts));
    if k < |ts| - 1 {
      NameIsListed(ts[..|ts| - 1], k);
    }
  }

  ghost predicate NamesUser(ts: seq<Topology>, name: Name)
  {
    exists k :: 0 <= k < |ts| && ts[k] == UserTopology(name)
  }

  lemma {:induction false} UserNamesAre(ts: seq<Topology>, name: Name)
    ensures name in UserNames(ts) <==> NamesUser(ts, name)
  {
    if ts != [] {
      var front, last := ts[..|ts| - 1], ts[|ts| - 1];
      UserNamesAre(front, name);
      assert ts == front + [last];
      if NamesUser(ts, name) {
        var k :| 0 <= k < |ts| && ts[k] == UserTopology(name);
        assert k < |front| ==> front[k] == UserTopology(name);
      }
      if NamesUser(front, name) {
        var k :| 0 <= k < |front| && front[k] == UserTopology(name);
        assert ts[k] == UserTopology(name);
      }
      assert last == UserTopology(name) ==> ts[|ts| - 1] == UserTopology(name);
    }
  }

  /** The unique names are the names of the user topologies, each once, and no others. */
  lemma UniqueNamesAre(ts: seq<Topology>, name: Name)
    ensures Distinct(UniqueNames(ts)) && (name in UniqueNames(ts) <==> NamesUser(ts, name))
  {
    DedupFacts(UserNames(ts));
    UserNamesAre(ts, name);
  }

  /** The entry of `map_to_local_unique_topos`. */
  function LocalIndex(ts: seq<Topology>, k: nat): (u: nat)
    requires k < |ts| && ts[k].UserTopology?
    ensures u < |UniqueNames(ts)| && UniqueNames(ts)[u] == ts[k].name
  {
    NameIsListed(ts, k);
    IndexOf(UniqueNames(ts), ts[k].name)
  }

  /** The search for a name in the table, which takes it up if it is new. */
  method EnterHandle(handles: array<Name>, count: nat, name: Name, ghost before: seq<Name>)
    returns (i: nat, count': nat)
    requires count < handles.Length && handles[..count] == Dedup(before)
    modifies handles
    ensures count <= count' <= count + 1 && handles[..count'] == Dedup(before + [name])
    ensures handles[..count] == old(handles[..count])
    ensures i < count' && handles[i] == name
  {
    DedupSnoc(before, name);
    i, count' := 0, count;
    while i < count && handles[i] != name
      invariant 0 <= i <= count
      invariant name !in handles[..i]
    {
      i := i + 1;
    }
    if i == count {
      handles[count] := name;
      count' := count + 1;
    } else {
      assert name in handles[..count];
    }
  }

  method CollectUniqueNames(ts: seq<Topology>) returns (names: seq<Name>, mapToLocal: seq<nat>)
    ensures names == UniqueNames(ts)
    ensures |mapToLocal| == |ts|
    ensures forall k :: 0 <= k < |ts| && ts[k].UserTopology? ==> mapToLocal[k] == LocalIndex(ts, k)
  {
    var handles := new Name[|ts|](_ => "x");
    var toUnique := new nat[|ts|](_ => 0);
    var count := 0;
    for k := 0 to |ts|
      invariant count <= k
      invariant handles[..count] == UniqueNames(ts[..k])
      invariant forall l :: 0 <= l < k && ts[l].UserTopology? ==>
                  toUnique[l] < count && handles[toUnique[l]] == ts[l].name
    {
      assert ts[..k + 1][..k] == ts[..k];
      if ts[k].UserTopology? {
        var i;
        i, count := EnterHandle(handles, count, ts[k].name, UserNames(ts[..k]));
        toUnique[k] := i;
      }
    }
    assert ts[..|ts|] == ts;
    names, mapToLocal := handles[..count], toUnique[..];
    DedupFacts(UserNames(ts));
    forall k | 0 <= k < |ts| && ts[k].UserTopology?
      ensures mapToLocal[k] == LocalIndex(ts, k)
    {
      IndexOfDistinct(names, mapToLocal[k]);
    }
  }

  // ------------------------------------------------------------------ the local member lists

  /** The index of a coordinate's location in the list of all CPU locations. */
  function Position(layout: Layout, c: Coord): nat
    requires c.rank < |layout| && c.thread in layout[c.rank]
  {
    Offset(layout, c.rank) + IndexOf(layout[c.rank], c.thread)
  }

  /** The scan for a coordinate succeeds: its start position did not wrap around below it. */
  ghost predicate Found(layout: Layout, c: Coord)
    requires c.rank < |layout| && c.thread in layout[c.rank]
  {
    Position(layout, c) <= (c.rank * MaxPerRank(layout) + c.thread) % 0x1_0000_0000
  }

  /** The locations of the first n coordinates that belong to the u-th name of a rank. */
  ghost function Positions(layout: Layout, p: nat, d: RankDefs, u: nat, n: nat): seq<nat>
    requires ValidDefs(layout, p, d) && n <= |d.coords|
  {
    if n == 0 then []
    else
      var front, c := Positions(layout, p, d, u, n - 1), d.coords[n - 1];
      if UserCoord(d, c) && LocalIndex(d.topologies, c.topology) == u then front + [Position(layout, c)] else front
  }

  ghost function Members(layout: Layout, p: nat, d: RankDefs, u: nat): seq<nat>
    requires ValidDefs(layout, p, d)
  {
    Dedup(Positions(layout, p, d, u, |d.coords|))
  }

  /** Coordinate i belongs to a user topology of the u-th name, and x is the index of its location. */
  ghost predicate CoordAt(layout: Layout, p: nat, d: RankDefs, u: nat, i: nat, x: nat)
    requires ValidDefs(layout, p, d) && i < |d.coords| && u < |UniqueNames(d.topologies)|
  {
    var c := d.coords[i];
    && d.topologies[c.topology] == UserTopology(UniqueNames(d.topologies)[u])
    && x == Offset(layout, p) + IndexOf(layout[p], c.thread)
  }

  lemma CoordIsOfName(layout: Layout, p: nat, d: RankDefs, u: nat, i: nat)
    requires ValidDefs(layout, p, d) && i < |d.coords| && u < |UniqueNames(d.topologies)|
    ensures UserCoord(d, d.coords[i]) && LocalIndex(d.topologies, d.coords[i].topology) == u <==>
            d.topologies[d.coords[i].topology] == UserTopology(UniqueNames(d.topologies)[u])
  {
    var t := d.topologies[d.coords[i].topology];
    if t.UserTopology? && t.name == UniqueNames(d.topologies)[u] {
      DedupFacts(UserNames(d.topologies));
      IndexOfDistinct(UniqueNames(d.topologies), u);
    }
  }

  lemma {:induction false} PositionsAre(layout: Layout, p: nat, d: RankDefs, u: nat, n: nat, x: nat)
    requires ValidDefs(layout, p, d) && n <= |d.coords| && u < |UniqueNames(d.topologies)|
    ensures x in Positions(layout, p, d, u, n) <==> exists i :: 0 <= i < n && CoordAt(layout, p, d, u, i, x)
  {
    if n > 0 {
      PositionsAre(layout, p, d, u, n - 1, x);
      CoordIsOfName(layout, p, d, u, n - 1);
      var front := Positions(layout, p, d, u, n - 1);
      if x in Positions(layout, p, d, u, n) && x !in front {
        assert CoordAt(layout, p, d, u, n - 1, x);
      }
      if exists i :: 0 <= i < n && CoordAt(layout, p, d, u, i, x) {
        var i :| 0 <= i < n && CoordAt(layout, p, d, u, i, x);
        assert i == n - 1 ==> Positions(layout, p, d, u, n) == front + [x];
      }
    }
  }

  /** The members of a rank's u-th name: the locations of its coordinates of topologies of that name. */
  lemma MembersAre(layout: Layout, p: nat, d: RankDefs, u: nat, x: nat)
    requires ValidDefs(layout, p, d) && u < |UniqueNames(d.topologies)|
    ensures x in Members(layout, p, d, u) <==> exists i :: 0 <= i < |d.coords| && CoordAt(layout, p, d, u, i, x)
  {
    DedupFacts(Positions(layout, p, d, u, |d.coords|));
    PositionsAre(layout, p, d, u, |d.coords|, x);
  }

  lemma {:induction false} PositionsInRank(layout: Layout, p: nat, d: RankDefs, u: nat, n: nat)
    requires ValidDefs(layout, p, d) && n <= |d.coords|
    ensures forall x :: x in Positions(layout, p, d, u, n) ==> Offset(layout, p) <= x < Offset(layout, p) + |layout[p]|
  {
    if n > 0 {
      PositionsInRank(layout, p, d, u, n - 1);
    }
  }

  /** A rank's members are distinct, its own, and fit into the slots of the exchange. */
  lemma MembersFit(layout: Layout, p: nat, d: RankDefs, u: nat)
    requires ValidDefs(layout, p, d)
    ensures Distinct(Members(layout, p, d, u))
    ensures forall x :: x in Members(layout, p, d, u) ==> Offset(layout, p) <= x < Offset(layout, p) + |layout[p]|
    ensures |Members(layout, p, d, u)| <= |layout[p]| <= MaxPerRank(layout)
  {
    var xs := Positions(layout, p, d, u, |d.coords|);
    PositionsInRank(layout, p, d, u, |d.coords|);
    DedupFacts(xs);
    DistinctBelow(Dedup(xs), Offset(layout, p), Offset(layout, p) + |layout[p]|);
    MaxPerRankBound(layout, p);
  }

  /** What the scan returns for a coordinate of the rank. */
  lemma ScanOfCoord(layout: Layout, c: Coord)
    requires ValidLayout(layout) && c.rank < |layout| && c.thread in layout[c.rank]
    ensures |AllLocations(layout)| > 0
    ensures ScanDown(AllLocations(layout), CalculateGlobalId(c.rank, c.thread),
                     StartPosition(c.rank, c.thread, MaxPerRank(layout), |AllLocations(layout)|))
            == if Found(layout, c) then Some(Position(layout, c)) else None
  {
    var i := IndexOf(layout[c.rank], c.thread);
    LocationAt(layout, c.rank, i);
    LookupExact(layout, c.rank, i);
  }

  /** Every coordinate is found as long as its start position stays below 2^32. */
  lemma FoundWithoutWrap(layout: Layout, c: Coord)
    requires ValidLayout(layout) && c.rank < |layout| && c.thread in layout[c.rank]
    requires c.rank * MaxPerRank(layout) + c.thread < 0x1_0000_0000
    ensures Found(layout, c)
  {
    PositionBound(layout, c.rank, IndexOf(layout[c.rank], c.thread));
  }

  method LocateCoord(ghost layout: Layout, c: Coord, locations: seq<nat>, maxPerRank: nat) returns (r: Option<nat>)
    requires ValidLayout(layout) && c.rank < |layout| && c.thread in layout[c.rank]
    requires locations == AllLocations(layout) && maxPerRank == MaxPerRank(layout)
    ensures r == if Found(layout, c) then Some(Position(layout, c)) else None
  {
    ScanOfCoord(layout, c);
    r := FindLocation(locations, c.rank, c.thread, maxPerRank);
  }

  /** The effect of one coordinate on the list of every name. */
  lemma PositionsStep(layout: Layout, p: nat, d: RankDefs, u: nat, n: nat)
    requires ValidDefs(layout, p, d) && n < |d.coords|
    ensures Dedup(Positions(layout, p, d, u, n + 1)) ==
            var c := d.coords[n];
            if UserCoord(d, c) && LocalIndex(d.topologies, c.topology) == u
            then AddNew(Dedup(Positions(layout, p, d, u, n)), Position(layout, c))
            else Dedup(Positions(layout, p, d, u, n))
  {
    DedupSnoc(Positions(layout, p, d, u, n), if UserCoord(d, d.coords[n]) then Position(layout, d.coords[n]) else 0);
  }

  ghost predicate MapsLocally(d: RankDefs, mapToLocal: seq<nat>)
  {
    && |mapToLocal| == |d.topologies|
    && forall k :: 0 <= k < |d.topologies| && d.topologies[k].UserTopology? ==>
         mapToLocal[k] == LocalIndex(d.topologies, k)
  }

  ghost predicate MembersAfter(layout: Layout, p: nat, d: RankDefs, members: seq<seq<nat>>, n: nat)
    requires ValidDefs(layout, p, d) && n <= |d.coords|
  {
    && |members| == |UniqueNames(d.topologies)|
    && forall u :: 0 <= u < |members| ==> members[u] == Dedup(Positions(layout, p, d, u, n))
  }

  method AddCoord(ghost layout: Layout, ghost p: nat, d: RankDefs, n: nat, locations: seq<nat>, maxPerRank: nat,
                  mapToLocal: seq<nat>, members: seq<seq<nat>>)
    returns (r: Option<seq<seq<nat>>>)
    requires ValidLayout(layout) && ValidDefs(layout, p, d) && n < |d.coords|
    requires locations == AllLocations(layout) && maxPerRank == MaxPerRank(layout)
    requires MapsLocally(d, mapToLocal) && MembersAfter(layout, p, d, members, n)
    ensures r.Some? <==> (UserCoord(d, d.coords[n]) ==> Found(layout, d.coords[n]))
    ensures r.Some? ==> MembersAfter(layout, p, d, r.value, n + 1)
  {
    var c := d.coords[n];
    var members' := members;
    if d.topologies[c.topology].UserTopology? {
      assert UserCoord(d, c);
      var found := LocateCoord(layout, c, locations, maxPerRank);
      if found == None {
        return None;
      }
      var u := mapToLocal[c.topology];
      members' := members[u := AddNew(members[u], found.value)];
    }
    forall v | 0 <= v < |members|
      ensures members'[v] == Dedup(Positions(layout, p, d, v, n + 1))
    {
      PositionsStep(layout, p, d, v, n);
    }
    r := Some(members');
  }

  /** The members of every name of a rank, or the fatal case. */
  method CollectMembers(ghost layout: Layout, ghost p: nat, d: RankDefs, locations: seq<nat>, maxPerRank: nat,
                        mapToLocal: seq<nat>, uniqueCount: nat)
    returns (r: Option<seq<seq<nat>>>)
    requires ValidLayout(layout) && ValidDefs(layout, p, d)
    requires locations == AllLocations(layout) && maxPerRank == MaxPerRank(layout)
    requires uniqueCount == |UniqueNames(d.topologies)| && MapsLocally(d, mapToLocal)
    ensures r.Some? <==> forall i :: 0 <= i < |d.coords| && UserCoord(d, d.coords[i]) ==> Found(layout, d.coords[i])
    ensures r.Some? ==> MembersAfter(layout, p, d, r.value, |d.coords|)
  {
    var members := seq(uniqueCount, _ => []);
    for n := 0 to |d.coords|
      invariant MembersAfter(layout, p, d, members, n)
      invariant forall i :: 0 <= i < n && UserCoord(d, d.coords[i]) ==> Found(layout, d.coords[i])
    {
      var added := AddCoord(layout, p, d, n, locations, maxPerRank, mapToLocal, members);
      if added == None {
        return None;
      }
      members := added.value;
    }
    r := Some(members);
  }

  // ------------------------------------------------------------------ the slots of the exchange

  /** UINT64_MAX marks a slot without a member. */
  const NO_MEMBER: nat := 0xFFFF_FFFF_FFFF_FFFF

  function Padded(xs: seq<nat>, width: nat): (slots: seq<nat>)
    requires |xs| <= width
    ensures |slots| == width
  {
    xs + seq(width - |xs|, _ => NO_MEMBER)
  }

  /** A list stands at the beginning of its row, and UINT64_MAX in every slot behind it. */
  lemma PaddedSlots(xs: seq<nat>, width: nat, k: nat)
    requires |xs| <= width && k < width
    ensures Padded(xs, width)[k] == if k < |xs| then xs[k] else 0xFFFF_FFFF_FFFF_FFFF
  {
  }

  /** What a receiver reads: up to the first empty slot. */
  function Visible(slots: seq<nat>): seq<nat>
  {
    if slots == [] || slots[0] == NO_MEMBER then [] else [slots[0]] + Visible(slots[1..])
  }

  lemma {:induction false} VisiblePadded(xs: seq<nat>, width: nat)
    requires |xs| <= width && NO_MEMBER !in xs
    ensures Visible(Padded(xs, width)) == xs
  {
    if xs != [] {
      VisiblePadded(xs[1..], width - 1);
      assert Padded(xs, width) == [xs[0]] + Padded(xs[1..], width - 1);
    }
  }

  /** Writing a list over the first slots leaves what stands behind them. */
  function Overlay(below: seq<nat>, xs: seq<nat>): seq<nat>
  {
    if |xs| < |below| then xs + below[|xs|..] else xs
  }

  /** What stands in the slots of global name g after the lists of the first n local names. */
  function Overlaid(toGlobal: seq<int>, members: seq<seq<nat>>, g: nat, n: nat): seq<nat>
    requires n <= |members| <= |toGlobal|
  {
    if n == 0 then []
    else
      var below := Overlaid(toGlobal, members, g, n - 1);
      if toGlobal[n - 1] == g then Overlay(below, members[n - 1]) else below
  }

  function Rows(a: array2<nat>): seq<seq<nat>>
    reads a
  {
    seq(a.Length0, g requires 0 <= g < a.Length0 reads a => Row(a, g))
  }

  function Row(a: array2<nat>, g: nat): seq<nat>
    requires g < a.Length0
    reads a
  {
    seq(a.Length1, k requires 0 <= k < a.Length1 reads a => a[g, k])
  }

  /** One list is written into the slots of its global name. */
  method WriteList(slots: array2<nat>, g: nat, xs: seq<nat>, ghost below: seq<nat>)
    requires g < slots.Length0 && |xs| <= slots.Length1 && |below| <= slots.Length1
    requires Row(slots, g) == Padded(below, slots.Length1)
    modifies slots
    ensures Row(slots, g) == Padded(Overlay(below, xs), slots.Length1)
    ensures forall h :: 0 <= h < slots.Length0 && h != g ==> Row(slots, h) == old(Row(slots, h))
  {
    ghost var before := Row(slots, g);
    for j := 0 to |xs|
      invariant forall k :: 0 <= k < slots.Length1 ==> slots[g, k] == if k < j then xs[k] else before[k]
      invariant forall h, k :: 0 <= h < slots.Length0 && h != g && 0 <= k < slots.Length1 ==>
                  slots[h, k] == old(slots[h, k])
    {
      slots[g, j] := xs[j];
    }
    assert Row(slots, g) == Padded(Overlay(below, xs), slots.Length1);
    forall h | 0 <= h < slots.Length0 && h != g
      ensures Row(slots, h) == old(Row(slots, h))
    {
      assert forall k :: 0 <= k < slots.Length1 ==> Row(slots, h)[k] == old(Row(slots, h))[k];
    }
  }

  method FillSlots(toGlobal: seq<int>, members: seq<seq<nat>>, globalCount: nat, width: nat)
    returns (sent: seq<seq<nat>>)
    requires |members| <= |toGlobal|
    requires forall u :: 0 <= u < |members| ==> 0 <= toGlobal[u] < globalCount && |members[u]| <= width
    ensures |sent| == globalCount
    ensures forall g :: 0 <= g < globalCount ==>
              |Overlaid(toGlobal, members, g, |members|)| <= width
              && sent[g] == Padded(Overlaid(toGlobal, members, g, |members|), width)
  {
    var slots := new nat[globalCount, width]((_, _) => NO_MEMBER);
    forall g | 0 <= g < globalCount
      ensures Row(slots, g) == Padded([], width)
    {
      assert forall k :: 0 <= k < width ==> Row(slots, g)[k] == NO_MEMBER;
    }
    for u := 0 to |members|
      invariant forall g :: 0 <= g < globalCount ==>
                  |Overlaid(toGlobal, members, g, u)| <= width
                  && Row(slots, g) == Padded(Overlaid(toGlobal, members, g, u), width)
    {
      var g := toGlobal[u];
      WriteList(slots, g, members[u], Overlaid(toGlobal, members, g, u));
    }
    sent := Rows(slots);
  }
}
