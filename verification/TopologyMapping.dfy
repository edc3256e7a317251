/**
  Post-unification on rank 0: the rank of every coordinate is replaced by an index into the group
  of its topology, and two lookup functions that take the index back to rank and thread.
*/
module TopologyMapping {
  import opened LocationIds
  import opened FirstOccurrences
  import opened TopologyNames
  import opened TopologyGroups
  import opened TopologyUnify

  /** A unified topology. The communicator of a user topology has a group of its own; process and
      platform topologies use the list of all CPU locations directly. */
  datatype Unified = MpiTopology | ProcessTopology | PlatformTopology | GroupTopology(group: seq<nat>)

  /** A unified coordinate definition, whose rank is overwritten in place. */
  class CoordDef {
    const topology: Unified
    const thread: LocalId
    var rank: nat

    constructor (topology: Unified, rank: Rank, thread: LocalId)
      ensures this.topology == topology && this.rank == rank && this.thread == thread
    {
      this.topology, this.rank, this.thread := topology, rank, thread;
    }
  }

  /** The last index at which a group holds a location, or the given default. */
  function LastIndexIn(group: seq<nat>, location: nat, default: nat): nat
  {
    if group == [] then default
    else if group[|group| - 1] == location then |group| - 1
    else LastIndexIn(group[..|group| - 1], location, default)
  }

  /** The new rank of a coordinate, or None for the fatal case. */
  function MappedRank(locations: seq<nat>, maxPerRank: nat, topology: Unified, rank: Rank, thread: LocalId): Option<nat>
    requires |locations| > 0
  {
    if topology.MpiTopology? then Some(rank)
    else
      var found := ScanDown(locations, CalculateGlobalId(rank, thread),
                            StartPosition(rank, thread, maxPerRank, |locations|));
      match found
      case None => None
      case Some(i) => if topology.GroupTopology? then Some(LastIndexIn(topology.group, i, rank)) else Some(i)
  }

  method MapCoordinate(locations: seq<nat>, maxPerRank: nat, c: CoordDef) returns (ok: bool)
    requires |locations| > 0 && c.rank < 0x8000_0000
    modifies c`rank
    ensures var mapped := MappedRank(locations, maxPerRank, c.topology, old(c.rank), c.thread);
            ok == mapped.Some? && c.rank == if ok then mapped.value else old(c.rank)
    ensures c.topology.MpiTopology? ==> ok && c.rank == old(c.rank)
  {
    ok := true;
    if !c.topology.MpiTopology? {
      var found := FindLocation(locations, c.rank, c.thread, maxPerRank);
      if found == None {
        return false;
      }
      if c.topology.GroupTopology? {
        var group := c.topology.group;
        for j := 0 to |group|
          invariant c.rank == LastIndexIn(group[..j], found.value, old(c.rank))
        {
          assert group[..j + 1][..j] == group[..j];
          if found.value == group[j] {
            c.rank := j;
          }
        }
        assert group[..|group|] == group;
      } else {
        c.rank := found.value;
      }
    }
  }

  /** All coordinates, one after the other. A fatal case ends the program. */
  method MapCoordinates(locations: seq<nat>, maxPerRank: nat, coords: seq<CoordDef>) returns (ok: bool)
    requires |locations| > 0
    requires forall i, j :: 0 <= i < j < |coords| ==> coords[i] != coords[j]
    requires forall i :: 0 <= i < |coords| ==> coords[i].rank < 0x8000_0000
    modifies coords
    ensures ok <==> forall i :: 0 <= i < |coords| ==>
                      MappedRank(locations, maxPerRank, coords[i].topology, old(coords[i].rank), coords[i].thread).Some?
    ensures forall i :: 0 <= i < |coords| && coords[i].topology.MpiTopology? ==> coords[i].rank == old(coords[i].rank)
    ensures ok ==> forall i :: 0 <= i < |coords| ==>
                      Some(coords[i].rank) ==
                      MappedRank(locations, maxPerRank, coords[i].topology, old(coords[i].rank), coords[i].thread)
  {
    for n := 0 to |coords|
      invariant forall i :: n <= i < |coords| ==> coords[i].rank == old(coords[i].rank)
      invariant forall i :: 0 <= i < n && coords[i].topology.MpiTopology? ==> coords[i].rank == old(coords[i].rank)
      invariant forall i :: 0 <= i < n ==>
                  Some(coords[i].rank) ==
                  MappedRank(locations, maxPerRank, coords[i].topology, old(coords[i].rank), coords[i].thread)
    {
      ok := MapCoordinate(locations, maxPerRank, coords[n]);
      if !ok {
        return;
      }
    }
    ok := true;
  }

  // ------------------------------------------------------------------ the lookups

  /** The index into the list of all CPU locations; None is the fatal case of MPI topologies. */
  function LocationIndex(topology: Unified, index: nat): Option<nat>
    requires topology.GroupTopology? ==> index < |topology.group|
  {
    match topology
    case MpiTopology => None
    case GroupTopology(group) => Some(group[index] % 0x1_0000_0000)
    case _ => Some(index)
  }

  function CoordRankFromGroupIndex(locations: seq<nat>, topology: Unified, index: nat): Option<nat>
    requires topology.GroupTopology? ==> index < |topology.group|
    requires LocationIndex(topology, index).Some? ==> LocationIndex(topology, index).value < |locations|
  {
    match LocationIndex(topology, index)
    case None => None
    case Some(i) => Some(CalculateRank(locations[i]))
  }

  function CoordThreadFromGroupIndex(locations: seq<nat>, topology: Unified, index: nat): Option<nat>
    requires topology.GroupTopology? ==> index < |topology.group|
    requires LocationIndex(topology, index).Some? ==> LocationIndex(topology, index).value < |locations|
  {
    match LocationIndex(topology, index)
    case None => None
    case Some(i) => Some(CalculateLocalId(locations[i]))
  }

  /** The index leads back to rank and thread. */
  ghost predicate LeadsBack(locations: seq<nat>, topology: Unified, index: nat, rank: Rank, thread: LocalId)
  {
    && (topology.GroupTopology? ==> index < |topology.group|)
    && LocationIndex(topology, index).Some? && LocationIndex(topology, index).value < |locations|
    && CoordRankFromGroupIndex(locations, topology, index) == Some(rank)
    && CoordThreadFromGroupIndex(locations, topology, index) == Some(thread)
  }

  lemma {:induction false} LastIndexOfMember(group: seq<nat>, location: nat, default: nat)
    requires location in group
    ensures var j := LastIndexIn(group, location, default); j < |group| && group[j] == location
  {
    if group[|group| - 1] != location {
      LastIndexOfMember(group[..|group| - 1], location, default);
    }
  }

  lemma {:induction false} LastIndexOfStranger(group: seq<nat>, location: nat, default: nat)
    requires location !in group
    ensures LastIndexIn(group, location, default) == default
  {
    if group != [] {
      LastIndexOfStranger(group[..|group| - 1], location, default);
    }
  }

  lemma IdAtPosition(layout: Layout, c: Coord)
    requires ValidLayout(layout) && c.rank < |layout| && c.thread in layout[c.rank]
    ensures Position(layout, c) < |AllLocations(layout)|
    ensures CalculateRank(AllLocations(layout)[Position(layout, c)]) == c.rank
    ensures CalculateLocalId(AllLocations(layout)[Position(layout, c)]) == c.thread
  {
    LocationAt(layout, c.rank, IndexOf(layout[c.rank], c.thread));
    GlobalIdRoundTrip(c.rank, c.thread);
  }

  /** Round trip for process and platform topologies: it works exactly when the scan finds the
      location. */
  lemma LocationRoundTrip(layout: Layout, topology: Unified, c: Coord)
    requires ValidLayout(layout) && c.rank < |layout| && c.thread in layout[c.rank]
    requires topology.ProcessTopology? || topology.PlatformTopology?
    ensures |AllLocations(layout)| > 0
    ensures var mapped := MappedRank(AllLocations(layout), MaxPerRank(layout), topology, c.rank, c.thread);
            if Found(layout, c)
            then mapped == Some(Position(layout, c))
                 && LeadsBack(AllLocations(layout), topology, mapped.value, c.rank, c.thread)
            else mapped == None
  {
    ScanOfCoord(layout, c);
    IdAtPosition(layout, c);
  }

  lemma MemberLeadsBack(layout: Layout, group: seq<nat>, c: Coord, j: nat)
    requires ValidLayout(layout) && c.rank < |layout| && c.thread in layout[c.rank]
    requires |AllLocations(layout)| < 0x1_0000_0000
    requires j < |group| && group[j] == Position(layout, c)
    ensures LeadsBack(AllLocations(layout), GroupTopology(group), j, c.rank, c.thread)
  {
    IdAtPosition(layout, c);
    assert LocationIndex(GroupTopology(group), j) == Some(Position(layout, c));
  }

  /** Round trip for user topologies, through the group of the topology. A location outside the
      group leaves the rank as it was. */
  lemma GroupRoundTrip(layout: Layout, group: seq<nat>, c: Coord)
    requires ValidLayout(layout) && c.rank < |layout| && c.thread in layout[c.rank]
    requires |AllLocations(layout)| < 0x1_0000_0000
    requires Found(layout, c)
    ensures |AllLocations(layout)| > 0
    ensures var mapped := MappedRank(AllLocations(layout), MaxPerRank(layout), GroupTopology(group), c.rank, c.thread);
            && mapped.Some?
            && (Position(layout, c) in group ==>
                  LeadsBack(AllLocations(layout), GroupTopology(group), mapped.value, c.rank, c.thread))
            && (Position(layout, c) !in group ==> mapped.value == c.rank)
  {
    ScanOfCoord(layout, c);
    var x := Position(layout, c);
    var j := LastIndexIn(group, x, c.rank);
    assert MappedRank(AllLocations(layout), MaxPerRank(layout), GroupTopology(group), c.rank, c.thread) == Some(j);
    if x in group {
      LastIndexOfMember(group, x, c.rank);
      MemberLeadsBack(layout, group, c, j);
    } else {
      LastIndexOfStranger(group, x, c.rank);
    }
  }

  /** A location outside the group is not led back to by any index into it. */
  lemma StrangerIsLost(layout: Layout, group: seq<nat>, c: Coord, index: nat)
    requires ValidLayout(layout) && c.rank < |layout| && c.thread in layout[c.rank]
    requires |AllLocations(layout)| < 0x1_0000_0000
    requires Position(layout, c) !in group && forall y :: y in group ==> y < |AllLocations(layout)|
    ensures !LeadsBack(AllLocations(layout), GroupTopology(group), index, c.rank, c.thread)
  {
    var locations, x := AllLocations(layout), Position(layout, c);
    if LeadsBack(locations, GroupTopology(group), index, c.rank, c.thread) {
      var y := group[index];
      assert y in group;
      assert LocationIndex(GroupTopology(group), index) == Some(y);
      SameIdSameIndex(layout, c, y);
    }
  }

  lemma SameIdSameIndex(layout: Layout, c: Coord, y: nat)
    requires ValidLayout(layout) && c.rank < |layout| && c.thread in layout[c.rank] && y < |AllLocations(layout)|
    requires CalculateRank(AllLocations(layout)[y]) == c.rank
    requires CalculateLocalId(AllLocations(layout)[y]) == c.thread
    ensures y == Position(layout, c)
  {
    var r, i := RankOfIndex(layout, y);
    LocationAt(layout, r, i);
    GlobalIdRoundTrip(r, layout[r][i]);
    var x := Position(layout, c);
    LocationAt(layout, c.rank, IndexOf(layout[c.rank], c.thread));
    LocationsDistinct(layout, x, y);
  }

  lemma {:induction false} PositionListed(layout: Layout, p: nat, d: RankDefs, u: nat, n: nat, i: nat)
    requires ValidDefs(layout, p, d) && i < n <= |d.coords|
    requires UserCoord(d, d.coords[i]) && LocalIndex(d.topologies, d.coords[i].topology) == u
    ensures Position(layout, d.coords[i]) in Positions(layout, p, d, u, n)
    decreases n
  {
    if i < n - 1 {
      PositionListed(layout, p, d, u, n - 1, i);
    }
  }

  /** From the definitions of all ranks to the lookups and back: a coordinate of a user topology is
      mapped into the group its rank computed, and gives back its rank and thread if and only if it is
      kept in the exchange. Without clashing names all are. */
  lemma UserCoordRoundTrip(layout: Layout, defs: seq<RankDefs>, p: nat, i: nat)
    requires ValidRun(layout, defs) && AllFound(layout, defs)
    requires |AllLocations(layout)| < 0x1_0000_0000
    requires p < |defs| && i < |defs[p].coords| && UserCoord(defs[p], defs[p].coords[i])
    ensures |AllLocations(layout)| > 0
    ensures var c := defs[p].coords[i];
            var u := LocalIndex(defs[p].topologies, c.topology);
            var group := UserGroup(layout, defs, p, u);
            var mapped := MappedRank(AllLocations(layout), MaxPerRank(layout), GroupTopology(group), c.rank, c.thread);
            && mapped.Some?
            && (LeadsBack(AllLocations(layout), GroupTopology(group), mapped.value, c.rank, c.thread) <==>
                Kept(layout, defs, p, u, Position(layout, c)))
            && (NoClash(defs) ==> Kept(layout, defs, p, u, Position(layout, c)))
  {
    var d := defs[p];
    var c := d.coords[i];
    var u := LocalIndex(d.topologies, c.topology);
    var group := UserGroup(layout, defs, p, u);
    assert RankFound(layout, p, d);
    PositionListed(layout, p, d, u, |d.coords|, i);
    DedupFacts(Positions(layout, p, d, u, |d.coords|));
    assert Position(layout, c) in Members(layout, p, d, u);
    assert SamePackedName(defs, p, u, p, u);
    GroupHoldsMember(layout, defs, p, u, p, u, Position(layout, c));
    GroupRoundTrip(layout, group, c);
    if Position(layout, c) !in group {
      GroupShape(layout, defs, p, u);
      StrangerIsLost(layout, group, c, c.rank);
    }
    if NoClash(defs) {
      KeptAlone(layout, defs, p, u, Position(layout, c));
    }
  }
}
