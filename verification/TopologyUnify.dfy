/**
  The exchange of user-topology groups over all ranks, and what the result means.
*/
module TopologyUnify {
  import opened LocationIds
  import opened FirstOccurrences
  import opened TopologyNames
  import opened TopologyGroups

  // ------------------------------------------------------------------ the result as a function

  function Names(defs: seq<RankDefs>): (ns: seq<seq<Name>>)
    ensures |ns| == |defs|
    ensures forall p :: 0 <= p < |defs| ==> ns[p] == UniqueNames(defs[p].topologies)
  {
    seq(|defs|, p requires 0 <= p < |defs| => UniqueNames(defs[p].topologies))
  }

  ghost function MembersOf(layout: Layout, defs: seq<RankDefs>, p: nat): (ms: seq<seq<nat>>)
    requires ValidRun(layout, defs) && p < |defs|
    ensures |ms| == |Names(defs)[p]|
    ensures forall u :: 0 <= u < |ms| ==> ms[u] == Members(layout, p, defs[p], u)
  {
    seq(|Names(defs)[p]|, u requires 0 <= u => Members(layout, p, defs[p], u))
  }

  ghost function ToGlobal(defs: seq<RankDefs>, p: nat): (gs: seq<nat>)
    requires p < |defs|
    ensures |gs| == |Names(defs)[p]|
    ensures forall u :: 0 <= u < |gs| ==> gs[u] == GlobalIndex(Names(defs), p, u)
  {
    seq(|Names(defs)[p]|, u requires 0 <= u < |Names(defs)[p]| => GlobalIndex(Names(defs), p, u))
  }

  /** What a rank sends for a global name. */
  ghost function Sent(layout: Layout, defs: seq<RankDefs>, p: nat, g: nat): seq<nat>
    requires ValidRun(layout, defs) && p < |defs|
  {
    Overlaid(ToGlobal(defs, p), MembersOf(layout, defs, p), g, |Names(defs)[p]|)
  }

  ghost function Contributions(layout: Layout, defs: seq<RankDefs>, g: nat, n: nat): seq<nat>
    requires ValidRun(layout, defs) && n <= |defs|
  {
    if n == 0 then [] else Contributions(layout, defs, g, n - 1) + Sent(layout, defs, n - 1, g)
  }

  /** The group rank p computes for its u-th topology name. */
  ghost function UserGroup(layout: Layout, defs: seq<RankDefs>, p: nat, u: nat): seq<nat>
    requires ValidRun(layout, defs) && p < |defs| && u < |Names(defs)[p]|
  {
    Sort(Dedup(Contributions(layout, defs, GlobalIndex(Names(defs), p, u), |defs|)))
  }

  /** No rank has two names that pack alike. */
  ghost predicate NoClash(defs: seq<RankDefs>)
  {
    forall p, u, v :: 0 <= p < |defs| && 0 <= u < v < |Names(defs)[p]| ==>
      Packed(Names(defs)[p][u]) != Packed(Names(defs)[p][v])
  }

  ghost predicate SamePackedName(defs: seq<RankDefs>, p: nat, u: nat, q: nat, v: nat)
    requires p < |defs| && u < |Names(defs)[p]| && q < |defs| && v < |Names(defs)[q]|
  {
    Packed(Names(defs)[p][u]) == Packed(Names(defs)[q][v])
  }

  // ------------------------------------------------------------------ what is sent

  lemma {:induction false} OverlaidElements(toGlobal: seq<int>, members: seq<seq<nat>>, g: nat, n: nat, x: nat)
    requires n <= |members| <= |toGlobal|
    requires x in Overlaid(toGlobal, members, g, n)
    ensures exists u :: 0 <= u < n && toGlobal[u] == g && x in members[u]
  {
    var below := Overlaid(toGlobal, members, g, n - 1);
    if toGlobal[n - 1] == g && x in members[n - 1] {
    } else {
      assert x in below;
      OverlaidElements(toGlobal, members, g, n - 1, x);
    }
  }

  /** Of the lists from lo up to n, none with global index g reaches slot j. */
  predicate NoneReaches(toGlobal: seq<int>, members: seq<seq<nat>>, g: nat, lo: nat, n: nat, j: nat)
    requires n <= |members| <= |toGlobal|
  {
    forall w :: lo <= w < n && toGlobal[w] == g ==> |members[w]| <= j
  }

  /** List w with global index g has x at slot j, and no later list of that index reaches the slot. */
  predicate LastAt(toGlobal: seq<int>, members: seq<seq<nat>>, g: nat, n: nat, x: nat, w: nat, j: nat)
    requires n <= |members| <= |toGlobal|
  {
    && w < n && toGlobal[w] == g && j < |members[w]| && members[w][j] == x
    && NoneReaches(toGlobal, members, g, w + 1, n, j)
  }

  /** A slot keeps what the last list that reached it wrote. */
  lemma {:induction false} LastWriterStays(toGlobal: seq<int>, members: seq<seq<nat>>, g: nat, n: nat, x: nat,
                                           w: nat, j: nat)
    requires n <= |members| <= |toGlobal| && LastAt(toGlobal, members, g, n, x, w, j)
    ensures j < |Overlaid(toGlobal, members, g, n)| && Overlaid(toGlobal, members, g, n)[j] == x
  {
    if w < n - 1 {
      assert toGlobal[n - 1] == g ==> |members[n - 1]| <= j;
      LastWriterStays(toGlobal, members, g, n - 1, x, w, j);
    }
  }

  lemma {:induction false} SlotHasWriter(toGlobal: seq<int>, members: seq<seq<nat>>, g: nat, n: nat, j: nat)
    returns (w: nat)
    requires n <= |members| <= |toGlobal| && j < |Overlaid(toGlobal, members, g, n)|
    ensures LastAt(toGlobal, members, g, n, Overlaid(toGlobal, members, g, n)[j], w, j)
  {
    if toGlobal[n - 1] == g && j < |members[n - 1]| {
      w := n - 1;
    } else {
      w := SlotHasWriter(toGlobal, members, g, n - 1, j);
    }
  }

  /** What the definitions of a rank say about it: x stands at a place of the list of some name that packs
      like the v-th one, and the lists of all later such names end before that place. */
  ghost predicate Kept(layout: Layout, defs: seq<RankDefs>, q: nat, v: nat, x: nat)
    requires ValidRun(layout, defs) && q < |defs| && v < |Names(defs)[q]|
  {
    exists w, j :: KeptAt(layout, defs, q, v, x, w, j)
  }

  ghost predicate KeptAt(layout: Layout, defs: seq<RankDefs>, q: nat, v: nat, x: nat, w: nat, j: nat)
    requires ValidRun(layout, defs) && q < |defs| && v < |Names(defs)[q]|
  {
    && w < |Names(defs)[q]| && SamePackedName(defs, q, v, q, w)
    && j < |Members(layout, q, defs[q], w)| && Members(layout, q, defs[q], w)[j] == x
    && LaterEndBefore(layout, defs, q, v, w, j)
  }

  ghost predicate LaterEndBefore(layout: Layout, defs: seq<RankDefs>, q: nat, v: nat, w: nat, j: nat)
    requires ValidRun(layout, defs) && q < |defs| && v < |Names(defs)[q]|
  {
    forall w' :: w < w' < |Names(defs)[q]| && SamePackedName(defs, q, v, q, w') ==>
      |Members(layout, q, defs[q], w')| <= j
  }

  lemma KeptIsLast(layout: Layout, defs: seq<RankDefs>, q: nat, v: nat, x: nat, w: nat, j: nat)
    requires ValidRun(layout, defs) && q < |defs| && v < |Names(defs)[q]|
    ensures KeptAt(layout, defs, q, v, x, w, j) <==>
            LastAt(ToGlobal(defs, q), MembersOf(layout, defs, q), GlobalIndex(Names(defs), q, v), |Names(defs)[q]|,
                   x, w, j)
  {
    var gs, ms, g := ToGlobal(defs, q), MembersOf(layout, defs, q), GlobalIndex(Names(defs), q, v);
    forall w' | 0 <= w' < |ms|
      ensures gs[w'] == g <==> SamePackedName(defs, q, v, q, w')
    {
      SharedIndex(Names(defs), q, v, q, w');
    }
  }

  /** What a rank sends can be read off its definitions. */
  lemma SentIsKept(layout: Layout, defs: seq<RankDefs>, q: nat, v: nat, x: nat)
    requires ValidRun(layout, defs) && q < |defs| && v < |Names(defs)[q]|
    ensures x in Sent(layout, defs, q, GlobalIndex(Names(defs), q, v)) <==> Kept(layout, defs, q, v, x)
  {
    var gs, ms, g := ToGlobal(defs, q), MembersOf(layout, defs, q), GlobalIndex(Names(defs), q, v);
    if x in Sent(layout, defs, q, g) {
      var j :| 0 <= j < |Sent(layout, defs, q, g)| && Sent(layout, defs, q, g)[j] == x;
      var w := SlotHasWriter(gs, ms, g, |ms|, j);
      KeptIsLast(layout, defs, q, v, x, w, j);
    }
    if Kept(layout, defs, q, v, x) {
      var w, j :| KeptAt(layout, defs, q, v, x, w, j);
      KeptIsLast(layout, defs, q, v, x, w, j);
      LastWriterStays(gs, ms, g, |ms|, x, w, j);
    }
  }

  /** Everything a rank sends are its own locations. */
  lemma SentInRank(layout: Layout, defs: seq<RankDefs>, p: nat, g: nat, x: nat)
    requires ValidRun(layout, defs) && p < |defs| && x in Sent(layout, defs, p, g)
    ensures Offset(layout, p) <= x < Offset(layout, p) + |layout[p]|
    ensures exists u :: 0 <= u < |Names(defs)[p]| && GlobalIndex(Names(defs), p, u) == g
                        && x in Members(layout, p, defs[p], u)
  {
    var gs, ms := ToGlobal(defs, p), MembersOf(layout, defs, p);
    OverlaidElements(gs, ms, g, |ms|, x);
    var u :| 0 <= u < |ms| && gs[u] == g && x in ms[u];
    assert ms[u] == Members(layout, p, defs[p], u);
    MembersFit(layout, p, defs[p], u);
  }

  lemma {:induction false} ContributionElements(layout: Layout, defs: seq<RankDefs>, g: nat, n: nat, x: nat)
    requires ValidRun(layout, defs) && n <= |defs|
    ensures x in Contributions(layout, defs, g, n) ==> exists q :: 0 <= q < n && x in Sent(layout, defs, q, g)
  {
    if x in Contributions(layout, defs, g, n) {
      if x in Sent(layout, defs, n - 1, g) {
      } else {
        ContributionElements(layout, defs, g, n - 1, x);
      }
    }
  }

  lemma {:induction false} ContributionListed(layout: Layout, defs: seq<RankDefs>, g: nat, n: nat, q: nat, x: nat)
    requires ValidRun(layout, defs) && q < n <= |defs| && x in Sent(layout, defs, q, g)
    ensures x in Contributions(layout, defs, g, n)
    decreases n
  {
    var front, last := Contributions(layout, defs, g, n - 1), Sent(layout, defs, n - 1, g);
    if q < n - 1 {
      ContributionListed(layout, defs, g, n - 1, q, x);
      assert x in front;
    } else {
      assert x in last;
    }
    assert x in front + last;
  }

  // ------------------------------------------------------------------ the theorems

  /** Any two ranks that own the same packed name compute the identical group. */
  lemma GroupsAgree(layout: Layout, defs: seq<RankDefs>, p: nat, u: nat, q: nat, v: nat)
    requires ValidRun(layout, defs)
    requires p < |defs| && u < |Names(defs)[p]| && q < |defs| && v < |Names(defs)[q]|
    requires SamePackedName(defs, p, u, q, v)
    ensures UserGroup(layout, defs, p, u) == UserGroup(layout, defs, q, v)
  {
    SharedIndex(Names(defs), p, u, q, v);
  }

  lemma GroupElements(layout: Layout, defs: seq<RankDefs>, p: nat, u: nat, x: nat)
    requires ValidRun(layout, defs) && p < |defs| && u < |Names(defs)[p]|
    ensures x in UserGroup(layout, defs, p, u) <==>
            exists q :: 0 <= q < |defs| && x in Sent(layout, defs, q, GlobalIndex(Names(defs), p, u))
  {
    var g := GlobalIndex(Names(defs), p, u);
    var all := Contributions(layout, defs, g, |defs|);
    DedupFacts(all);
    SortFacts(Dedup(all));
    ContributionElements(layout, defs, g, |defs|, x);
    forall q | 0 <= q < |defs| && x in Sent(layout, defs, q, g)
      ensures x in all
    {
      ContributionListed(layout, defs, g, |defs|, q, x);
    }
  }

  /** A group is strictly ascending and holds valid location indices only; so it is never larger
      than the number of locations, the size of the buffer it is collected in. */
  lemma GroupShape(layout: Layout, defs: seq<RankDefs>, p: nat, u: nat)
    requires ValidRun(layout, defs) && p < |defs| && u < |Names(defs)[p]|
    ensures StrictlyAscending(UserGroup(layout, defs, p, u))
    ensures forall x :: x in UserGroup(layout, defs, p, u) ==> x < |AllLocations(layout)|
    ensures |UserGroup(layout, defs, p, u)| <= |AllLocations(layout)|
  {
    var g := GlobalIndex(Names(defs), p, u);
    var group := UserGroup(layout, defs, p, u);
    DedupFacts(Contributions(layout, defs, g, |defs|));
    SortDistinct(Dedup(Contributions(layout, defs, g, |defs|)));
    forall x | x in group
      ensures x < |AllLocations(layout)|
    {
      GroupElements(layout, defs, p, u, x);
      var q :| 0 <= q < |defs| && x in Sent(layout, defs, q, g);
      SentInRank(layout, defs, q, g, x);
      LocationsBelowTotal(layout, q, x);
    }
    DistinctBelow(group, 0, |AllLocations(layout)|);
  }

  /** Nothing foreign: whoever is in the group is a member of a topology of that packed name. */
  lemma GroupIsSound(layout: Layout, defs: seq<RankDefs>, p: nat, u: nat, x: nat)
    requires ValidRun(layout, defs) && p < |defs| && u < |Names(defs)[p]|
    requires x in UserGroup(layout, defs, p, u)
    ensures exists q, v :: 0 <= q < |defs| && 0 <= v < |Names(defs)[q]|
                           && SamePackedName(defs, p, u, q, v) && x in Members(layout, q, defs[q], v)
  {
    var g := GlobalIndex(Names(defs), p, u);
    GroupElements(layout, defs, p, u, x);
    var q :| 0 <= q < |defs| && x in Sent(layout, defs, q, g);
    SentInRank(layout, defs, q, g, x);
    var v :| 0 <= v < |Names(defs)[q]| && GlobalIndex(Names(defs), q, v) == g && x in Members(layout, q, defs[q], v);
    SharedIndex(Names(defs), p, u, q, v);
    assert SamePackedName(defs, p, u, q, v);
  }

  /** A member is in the group exactly when its own rank's slots still hold it. */
  lemma GroupHoldsSent(layout: Layout, defs: seq<RankDefs>, p: nat, u: nat, q: nat, v: nat, x: nat)
    requires ValidRun(layout, defs)
    requires p < |defs| && u < |Names(defs)[p]| && q < |defs| && v < |Names(defs)[q]|
    requires SamePackedName(defs, p, u, q, v) && x in Members(layout, q, defs[q], v)
    ensures x in UserGroup(layout, defs, p, u) <==> x in Sent(layout, defs, q, GlobalIndex(Names(defs), q, v))
  {
    var g := GlobalIndex(Names(defs), p, u);
    SharedIndex(Names(defs), p, u, q, v);
    GroupElements(layout, defs, p, u, x);
    if x in UserGroup(layout, defs, p, u) {
      var q' :| 0 <= q' < |defs| && x in Sent(layout, defs, q', g);
      SentInRank(layout, defs, q', g, x);
      MembersFit(layout, q, defs[q], v);
      SegmentsDisjoint(layout, q, q', x);
    }
  }

  /** A member is in the group exactly when no later list of its rank overwrites its last place. */
  lemma GroupHoldsMember(layout: Layout, defs: seq<RankDefs>, p: nat, u: nat, q: nat, v: nat, x: nat)
    requires ValidRun(layout, defs)
    requires p < |defs| && u < |Names(defs)[p]| && q < |defs| && v < |Names(defs)[q]|
    requires SamePackedName(defs, p, u, q, v) && x in Members(layout, q, defs[q], v)
    ensures x in UserGroup(layout, defs, p, u) <==> Kept(layout, defs, q, v, x)
  {
    GroupHoldsSent(layout, defs, p, u, q, v, x);
    SentIsKept(layout, defs, q, v, x);
  }

  ghost predicate MemberSomewhere(layout: Layout, defs: seq<RankDefs>, p: nat, u: nat, x: nat)
    requires ValidRun(layout, defs) && p < |defs| && u < |Names(defs)[p]|
  {
    exists q, v :: 0 <= q < |defs| && 0 <= v < |Names(defs)[q]|
                   && SamePackedName(defs, p, u, q, v) && x in Members(layout, q, defs[q], v)
  }

  /** On every rank every member of a topology of that packed name is kept. */
  ghost predicate AllKept(layout: Layout, defs: seq<RankDefs>, p: nat, u: nat)
    requires ValidRun(layout, defs) && p < |defs| && u < |Names(defs)[p]|
  {
    forall q, v, x :: 0 <= q < |defs| && 0 <= v < |Names(defs)[q]| && SamePackedName(defs, p, u, q, v)
                      && x in Members(layout, q, defs[q], v) ==>
      Kept(layout, defs, q, v, x)
  }

  ghost predicate IsUnion(layout: Layout, defs: seq<RankDefs>, p: nat, u: nat, group: seq<nat>)
    requires ValidRun(layout, defs) && p < |defs| && u < |Names(defs)[p]|
  {
    forall x :: x in group <==> MemberSomewhere(layout, defs, p, u, x)
  }

  /** The group is the union of the members on all ranks if and only if all of them are kept. */
  lemma GroupIsUnionIff(layout: Layout, defs: seq<RankDefs>, p: nat, u: nat)
    requires ValidRun(layout, defs) && p < |defs| && u < |Names(defs)[p]|
    ensures IsUnion(layout, defs, p, u, UserGroup(layout, defs, p, u)) <==> AllKept(layout, defs, p, u)
  {
    var group := UserGroup(layout, defs, p, u);
    if IsUnion(layout, defs, p, u, group) {
      forall q, v, x | 0 <= q < |defs| && 0 <= v < |Names(defs)[q]| && SamePackedName(defs, p, u, q, v)
                       && x in Members(layout, q, defs[q], v)
        ensures Kept(layout, defs, q, v, x)
      {
        assert MemberSomewhere(layout, defs, p, u, x);
        GroupHoldsMember(layout, defs, p, u, q, v, x);
      }
    }
    if AllKept(layout, defs, p, u) {
      forall x
        ensures x in group <==> MemberSomewhere(layout, defs, p, u, x)
      {
        KeptMembersInGroup(layout, defs, p, u, x);
      }
    }
  }

  lemma KeptMembersInGroup(layout: Layout, defs: seq<RankDefs>, p: nat, u: nat, x: nat)
    requires ValidRun(layout, defs) && p < |defs| && u < |Names(defs)[p]| && AllKept(layout, defs, p, u)
    ensures x in UserGroup(layout, defs, p, u) <==> MemberSomewhere(layout, defs, p, u, x)
  {
    if x in UserGroup(layout, defs, p, u) {
      GroupIsSound(layout, defs, p, u, x);
    }
    if MemberSomewhere(layout, defs, p, u, x) {
      var q, v :| 0 <= q < |defs| && 0 <= v < |Names(defs)[q]|
                  && SamePackedName(defs, p, u, q, v) && x in Members(layout, q, defs[q], v);
      GroupHoldsMember(layout, defs, p, u, q, v, x);
    }
  }

  /** Without clashing names all members are kept, so every group is a union. */
  lemma GroupIsUnion(layout: Layout, defs: seq<RankDefs>, p: nat, u: nat)
    requires ValidRun(layout, defs) && NoClash(defs) && p < |defs| && u < |Names(defs)[p]|
    ensures IsUnion(layout, defs, p, u, UserGroup(layout, defs, p, u))
  {
    forall q, v, x | 0 <= q < |defs| && 0 <= v < |Names(defs)[q]| && SamePackedName(defs, p, u, q, v)
                     && x in Members(layout, q, defs[q], v)
      ensures Kept(layout, defs, q, v, x)
    {
      KeptAlone(layout, defs, q, v, x);
    }
    GroupIsUnionIff(layout, defs, p, u);
  }

  lemma KeptAlone(layout: Layout, defs: seq<RankDefs>, q: nat, v: nat, x: nat)
    requires ValidRun(layout, defs) && NoClash(defs) && q < |defs| && v < |Names(defs)[q]|
    requires x in Members(layout, q, defs[q], v)
    ensures Kept(layout, defs, q, v, x)
  {
    var j :| 0 <= j < |Members(layout, q, defs[q], v)| && Members(layout, q, defs[q], v)[j] == x;
    assert KeptAt(layout, defs, q, v, x, v, j);
  }

  // One rank with two locations and two topologies whose names differ in the last character only.
  const CLASH_LAYOUT: Layout := [[0, 1]]
  const CLASH_TOPOLOGIES: seq<Topology> := [UserTopology("ab"), UserTopology("ac")]
  const CLASH: RankDefs := RankDefs(CLASH_TOPOLOGIES, [Coord(0, 0, 0), Coord(1, 0, 1)])

  lemma TwoNames(x: Name, y: Name)
    requires x != y
    ensures UniqueNames([UserTopology(x), UserTopology(y)]) == [x, y]
  {
    TwoUserNames(x, y);
    TwoDistinct(x, y);
  }

  lemma TwoUserNames(x: Name, y: Name)
    ensures UserNames([UserTopology(x), UserTopology(y)]) == [x] + [y]
  {
    var ts := [UserTopology(x), UserTopology(y)];
    var one := [UserTopology(x)];
    assert ts[..1] == one && one[..0] == [];
    assert UserNames(one) == [x];
  }

  lemma TwoDistinct(x: Name, y: Name)
    requires x != y
    ensures Dedup([x] + [y]) == [x, y]
  {
    var none: seq<Name> := [];
    DedupSnoc(none, x);
    assert none + [x] == [x];
    DedupSnoc([x], y);
    assert [x] + [y] == [x, y];
  }

  lemma TwoLists(gs: seq<int>, ms: seq<seq<nat>>, g: nat)
    requires |gs| == |ms| == 2 && gs[0] == gs[1] == g && |ms[0]| == |ms[1]|
    ensures Overlaid(gs, ms, g, 2) == ms[1]
  {
    assert Overlaid(gs, ms, g, 1) == ms[0];
  }

  lemma ClashNames()
    ensures UniqueNames(CLASH_TOPOLOGIES) == ["ab", "ac"]
    ensures LocalIndex(CLASH_TOPOLOGIES, 0) == 0 && LocalIndex(CLASH_TOPOLOGIES, 1) == 1
  {
    assert "ac" != "ab" by { assert "ac"[1] != "ab"[1]; }
    TwoNames("ab", "ac");
  }

  lemma ClashPositions()
    ensures Positions(CLASH_LAYOUT, 0, CLASH, 0, 2) == [0]
    ensures Positions(CLASH_LAYOUT, 0, CLASH, 1, 2) == [1]
  {
    ClashNames();
    assert Offset(CLASH_LAYOUT, 0) == 0;
    assert Position(CLASH_LAYOUT, CLASH.coords[0]) == 0;
    assert Position(CLASH_LAYOUT, CLASH.coords[1]) == 1;
    assert Positions(CLASH_LAYOUT, 0, CLASH, 0, 1) == [0];
    assert Positions(CLASH_LAYOUT, 0, CLASH, 1, 1) == [];
  }

  lemma ClashValid()
    ensures ValidDefs(CLASH_LAYOUT, 0, CLASH)
  {
    ClashNames();
  }

  lemma OneElement(x: nat)
    ensures Dedup([x]) == [x]
  {
    var none: seq<nat> := [];
    DedupSnoc(none, x);
    assert none + [x] == [x];
  }

  lemma ClashMembers()
    ensures ValidDefs(CLASH_LAYOUT, 0, CLASH)
    ensures Members(CLASH_LAYOUT, 0, CLASH, 0) == [0]
    ensures Members(CLASH_LAYOUT, 0, CLASH, 1) == [1]
  {
    ClashValid();
    ClashPositions();
    OneElement(0);
    OneElement(1);
  }

  lemma ClashShared()
    ensures Names([CLASH])[0] == ["ab", "ac"]
    ensures GlobalIndex(Names([CLASH]), 0, 0) == GlobalIndex(Names([CLASH]), 0, 1)
  {
    ClashNames();
    assert Packed("ab") == "a" && Packed("ac") == "a";
    SharedIndex(Names([CLASH]), 0, 0, 0, 1);
  }

  /** Of two lists of the same length for one global name the second is sent. */
  lemma SentOfTwo(layout: Layout, defs: seq<RankDefs>, p: nat)
    requires ValidRun(layout, defs) && p < |defs| && |Names(defs)[p]| == 2
    requires GlobalIndex(Names(defs), p, 0) == GlobalIndex(Names(defs), p, 1)
    requires |Members(layout, p, defs[p], 0)| == |Members(layout, p, defs[p], 1)|
    ensures Sent(layout, defs, p, GlobalIndex(Names(defs), p, 0)) == Members(layout, p, defs[p], 1)
  {
    TwoLists(ToGlobal(defs, p), MembersOf(layout, defs, p), GlobalIndex(Names(defs), p, 0));
  }

  lemma ClashSent()
    ensures ValidRun(CLASH_LAYOUT, [CLASH])
    ensures Names([CLASH])[0] == ["ab", "ac"]
    ensures Sent(CLASH_LAYOUT, [CLASH], 0, GlobalIndex(Names([CLASH]), 0, 0)) == [1]
  {
    ClashShared();
    ClashMembers();
    SentOfTwo(CLASH_LAYOUT, [CLASH], 0);
  }

  /** With clashing names a member can be lost: the second list overwrites the first slot. */
  lemma ClashLosesMember()
    ensures ValidRun(CLASH_LAYOUT, [CLASH]) && |Names([CLASH])[0]| == 2
    ensures 0 in Members(CLASH_LAYOUT, 0, CLASH, 0)
    ensures 0 !in UserGroup(CLASH_LAYOUT, [CLASH], 0, 0)
  {
    ClashMembers();
    ClashSent();
    GroupHoldsSent(CLASH_LAYOUT, [CLASH], 0, 0, 0, 0, 0);
  }

  // ------------------------------------------------------------------ merging what was received

  /** The lists of the first n ranks for a global name, as read from their slots. */
  function Joined(received: seq<seq<seq<nat>>>, g: nat, n: nat): seq<nat>
    requires n <= |received| && forall q :: 0 <= q < n ==> g < |received[q]|
  {
    if n == 0 then [] else Joined(received, g, n - 1) + Visible(received[n - 1][g])
  }

  /** Row j of the fixed-size buffer holds the list xs. */
  ghost predicate Holds(groups: array2<nat>, counts: array<nat>, j: nat, xs: seq<nat>)
    reads groups, counts
  {
    && j < groups.Length0 == counts.Length
    && counts[j] == |xs| <= groups.Length1
    && forall k :: 0 <= k < |xs| ==> groups[j, k] == xs[k]
  }

  /** Adds a location to a group unless it is there. The buffer has room because the group holds
      distinct locations only and has a slot for each. */
  method AppendMember(groups: array2<nat>, counts: array<nat>, j: nat, x: nat, ghost lists: seq<seq<nat>>)
    requires j < |lists| == groups.Length0 == counts.Length && x < groups.Length1
    requires forall i :: 0 <= i < |lists| ==> Holds(groups, counts, i, lists[i])
    requires Distinct(lists[j]) && forall y :: y in lists[j] ==> y < groups.Length1
    modifies groups, counts
    ensures forall i :: 0 <= i < |lists| ==>
              Holds(groups, counts, i, if i == j then AddNew(lists[j], x) else lists[i])
  {
    ghost var xs := lists[j];
    assert Holds(groups, counts, j, xs);
    var n := 0;
    while n < counts[j]
      invariant n <= |xs|
      invariant x !in xs[..n]
    {
      if groups[j, n] == x {
        assert xs[n] in xs;
        return;
      }
      n := n + 1;
    }
    assert xs[..n] == xs;
    DistinctBelow(xs + [x], 0, groups.Length1);
    groups[j, counts[j]] := x;
    counts[j] := counts[j] + 1;
    forall i | 0 <= i < |lists|
      ensures Holds(groups, counts, i, if i == j then AddNew(xs, x) else lists[i])
    {
      assert old(Holds(groups, counts, i, lists[i]));
    }
  }

  lemma SlotMoves(seen: seq<nat>, slots: seq<nat>, k: nat)
    requires k < |slots| && slots[k] != NO_MEMBER
    ensures (seen + [slots[k]]) + Visible(slots[k + 1..]) == seen + Visible(slots[k..])
    ensures slots[k] in seen + Visible(slots[k..])
  {
    assert Visible(slots[k..]) == [slots[k]] + Visible(slots[k + 1..]);
    assert (seen + Visible(slots[k..]))[|seen|] == slots[k];
  }

  /** The loop over the slots one rank sent for the name of group j. */
  method MergeSlots(groups: array2<nat>, counts: array<nat>, j: nat, slots: seq<nat>, ghost lists: seq<seq<nat>>,
                    ghost before: seq<nat>)
    requires j < |lists| == groups.Length0 == counts.Length
    requires forall i :: 0 <= i < |lists| ==> Holds(groups, counts, i, lists[i])
    requires lists[j] == Dedup(before)
    requires forall y :: y in before || y in Visible(slots) ==> y < groups.Length1
    modifies groups, counts
    ensures forall i :: 0 <= i < |lists| ==>
              Holds(groups, counts, i, if i == j then Dedup(before + Visible(slots)) else lists[i])
  {
    ghost var now, seen := lists, before;
    var k := 0;
    while k < |slots| && slots[k] != NO_MEMBER
      invariant 0 <= k <= |slots|
      invariant |now| == |lists| && now[j] == Dedup(seen)
      invariant forall i :: 0 <= i < |lists| && i != j ==> now[i] == lists[i]
      invariant forall i :: 0 <= i < |now| ==> Holds(groups, counts, i, now[i])
      invariant seen + Visible(slots[k..]) == before + Visible(slots)
      invariant forall y :: y in seen ==> y in before || y in Visible(slots)
    {
      ghost var x := slots[k];
      SlotMoves(seen, slots, k);
      assert x in before + Visible(slots);
      DedupFacts(seen);
      DedupSnoc(seen, x);
      AppendMember(groups, counts, j, slots[k], now);
      now := now[j := AddNew(now[j], x)];
      seen := seen + [x];
      k := k + 1;
    }
    assert seen + Visible(slots[k..]) == seen;
  }

  /** Every slot row a rank needs is there and names valid locations. */
  ghost predicate Readable(received: seq<seq<seq<nat>>>, toGlobal: seq<nat>, total: nat)
  {
    forall q, j :: 0 <= q < |received| && 0 <= j < |toGlobal| ==>
      toGlobal[j] < |received[q]| && forall y :: y in Visible(received[q][toGlobal[j]]) ==> y < total
  }

  ghost function GroupList(received: seq<seq<seq<nat>>>, toGlobal: seq<nat>, total: nat, j: nat, n: nat): seq<nat>
    requires Readable(received, toGlobal, total) && j < |toGlobal| && n <= |received|
  {
    Dedup(Joined(received, toGlobal[j], n))
  }

  lemma {:induction false} JoinedValid(received: seq<seq<seq<nat>>>, toGlobal: seq<nat>, total: nat, j: nat, n: nat)
    requires Readable(received, toGlobal, total) && j < |toGlobal| && n <= |received|
    ensures forall y :: y in Joined(received, toGlobal[j], n) ==> y < total
  {
    if n > 0 {
      JoinedValid(received, toGlobal, total, j, n - 1);
    }
  }

  /** The buffers after the first n ranks. */
  ghost predicate HoldGroups(groups: array2<nat>, counts: array<nat>, received: seq<seq<seq<nat>>>,
                             toGlobal: seq<nat>, total: nat, n: nat)
    requires Readable(received, toGlobal, total) && n <= |received|
    reads groups, counts
  {
    forall j :: 0 <= j < |toGlobal| ==> Holds(groups, counts, j, GroupList(received, toGlobal, total, j, n))
  }

  /** What rank i sent for the name of group j goes into the group. */
  method MergeGroup(received: seq<seq<seq<nat>>>, i: nat, toGlobal: seq<nat>, ghost total: nat,
                    groups: array2<nat>, counts: array<nat>, j: nat, ghost lists: seq<seq<nat>>)
    requires Readable(received, toGlobal, total) && i < |received| && j < |toGlobal|
    requires |lists| == groups.Length0 == counts.Length == |toGlobal| && groups.Length1 == total
    requires forall h :: 0 <= h < |lists| ==> Holds(groups, counts, h, lists[h])
    requires lists[j] == GroupList(received, toGlobal, total, j, i)
    modifies groups, counts
    ensures forall h :: 0 <= h < |lists| ==>
              Holds(groups, counts, h, if h == j then GroupList(received, toGlobal, total, j, i + 1) else lists[h])
  {
    ghost var before := Joined(received, toGlobal[j], i);
    JoinedValid(received, toGlobal, total, j, i);
    var slots := received[i][toGlobal[j]];
    assert Dedup(before + Visible(slots)) == GroupList(received, toGlobal, total, j, i + 1);
    MergeSlots(groups, counts, j, slots, lists, before);
  }

  /** One round of the outer loop: what rank i sent goes into each of our groups. */
  method MergeRank(received: seq<seq<seq<nat>>>, i: nat, toGlobal: seq<nat>, total: nat,
                   groups: array2<nat>, counts: array<nat>)
    requires Readable(received, toGlobal, total) && i < |received|
    requires groups.Length0 == counts.Length == |toGlobal| && groups.Length1 == total
    requires HoldGroups(groups, counts, received, toGlobal, total, i)
    modifies groups, counts
    ensures HoldGroups(groups, counts, received, toGlobal, total, i + 1)
  {
    ghost var lists := seq(|toGlobal|, j requires 0 <= j < |toGlobal| => GroupList(received, toGlobal, total, j, i));
    for j := 0 to |toGlobal|
      invariant |lists| == |toGlobal|
      invariant forall h :: 0 <= h < |lists| ==> Holds(groups, counts, h, lists[h])
      invariant forall h :: 0 <= h < |lists| ==>
                  lists[h] == GroupList(received, toGlobal, total, h, if h < j then i + 1 else i)
    {
      MergeGroup(received, i, toGlobal, total, groups, counts, j, lists);
      lists := lists[j := GroupList(received, toGlobal, total, j, i + 1)];
    }
    ghost var after := i + 1;
    forall j | 0 <= j < |toGlobal|
      ensures Holds(groups, counts, j, GroupList(received, toGlobal, total, j, after))
    {
      assert Holds(groups, counts, j, lists[j]);
    }
  }

  function RowPrefix(a: array2<nat>, j: nat, n: nat): (xs: seq<nat>)
    requires j < a.Length0 && n <= a.Length1
    reads a
  {
    seq(n, k requires 0 <= k < n reads a => a[j, k])
  }

  /** All rounds, then `qsort` on every group. */
  method MergeGroups(received: seq<seq<seq<nat>>>, toGlobal: seq<nat>, total: nat) returns (result: seq<seq<nat>>)
    requires Readable(received, toGlobal, total)
    ensures |result| == |toGlobal|
    ensures forall j :: 0 <= j < |toGlobal| ==>
              result[j] == Sort(GroupList(received, toGlobal, total, j, |received|))
  {
    var groups := new nat[|toGlobal|, total]((_, _) => 0);
    var counts := new nat[|toGlobal|](_ => 0);
    for i := 0 to |received|
      invariant HoldGroups(groups, counts, received, toGlobal, total, i)
    {
      MergeRank(received, i, toGlobal, total, groups, counts);
    }
    result := SortGroups(received, toGlobal, total, groups, counts);
  }

  method SortGroups(ghost received: seq<seq<seq<nat>>>, toGlobal: seq<nat>, ghost total: nat,
                    groups: array2<nat>, counts: array<nat>)
    returns (result: seq<seq<nat>>)
    requires Readable(received, toGlobal, total)
    requires HoldGroups(groups, counts, received, toGlobal, total, |received|)
    ensures |result| == |toGlobal|
    ensures forall j :: 0 <= j < |toGlobal| ==>
              result[j] == Sort(GroupList(received, toGlobal, total, j, |received|))
  {
    result := [];
    for j := 0 to |toGlobal|
      invariant |result| == j
      invariant forall h :: 0 <= h < j ==> result[h] == Sort(GroupList(received, toGlobal, total, h, |received|))
    {
      assert Holds(groups, counts, j, GroupList(received, toGlobal, total, j, |received|));
      assert RowPrefix(groups, j, counts[j]) == GroupList(received, toGlobal, total, j, |received|);
      result := result + [Sort(RowPrefix(groups, j, counts[j]))];
    }
  }

  // ------------------------------------------------------------------ all ranks in lockstep

  ghost predicate AllFound(layout: Layout, defs: seq<RankDefs>)
    requires ValidRun(layout, defs)
  {
    forall p :: 0 <= p < |defs| ==> RankFound(layout, p, defs[p])
  }

  ghost predicate RankFound(layout: Layout, p: nat, d: RankDefs)
    requires ValidDefs(layout, p, d)
  {
    forall i :: 0 <= i < |d.coords| && UserCoord(d, d.coords[i]) ==> Found(layout, d.coords[i])
  }

  /** The names and members of one rank, or the fatal case. */
  method CollectRank(layout: Layout, defs: seq<RankDefs>, p: nat, locations: seq<nat>, maxPerRank: nat)
    returns (names: seq<Name>, members: Option<seq<seq<nat>>>)
    requires ValidRun(layout, defs) && p < |defs|
    requires locations == AllLocations(layout) && maxPerRank == MaxPerRank(layout)
    ensures members.Some? <==> RankFound(layout, p, defs[p])
    ensures names == Names(defs)[p] && (members.Some? ==> members.value == MembersOf(layout, defs, p))
  {
    var d := defs[p];
    assert ValidDefs(layout, p, d);
    var mapToLocal;
    names, mapToLocal := CollectUniqueNames(d.topologies);
    members := CollectMembers(layout, p, d, locations, maxPerRank, mapToLocal, |names|);
    if members.Some? {
      assert members.value == MembersOf(layout, defs, p);
    }
  }

  /** What the first n ranks collected. */
  ghost predicate Collected(layout: Layout, defs: seq<RankDefs>, n: nat, names: seq<seq<Name>>,
                            members: seq<seq<seq<nat>>>)
    requires ValidRun(layout, defs) && n <= |defs|
  {
    && |names| == |members| == n
    && forall q :: 0 <= q < n ==> CollectedBy(layout, defs, q, names[q], members[q])
  }

  ghost predicate CollectedBy(layout: Layout, defs: seq<RankDefs>, q: nat, names: seq<Name>, members: seq<seq<nat>>)
    requires ValidRun(layout, defs) && q < |defs|
  {
    names == Names(defs)[q] && members == MembersOf(layout, defs, q) && RankFound(layout, q, defs[q])
  }

  lemma OneMoreCollected(layout: Layout, defs: seq<RankDefs>, n: nat, names: seq<seq<Name>>,
                         members: seq<seq<seq<nat>>>, own: seq<Name>, lists: seq<seq<nat>>)
    requires ValidRun(layout, defs) && n < |defs|
    requires Collected(layout, defs, n, names, members) && CollectedBy(layout, defs, n, own, lists)
    ensures Collected(layout, defs, n + 1, names + [own], members + [lists])
  {
    forall q | 0 <= q < n + 1
      ensures CollectedBy(layout, defs, q, (names + [own])[q], (members + [lists])[q])
    {
      assert q < n ==> CollectedBy(layout, defs, q, names[q], members[q]);
    }
  }

  lemma AllCollected(layout: Layout, defs: seq<RankDefs>, names: seq<seq<Name>>, members: seq<seq<seq<nat>>>)
    requires ValidRun(layout, defs) && Collected(layout, defs, |defs|, names, members)
    ensures AllFound(layout, defs) && names == Names(defs)
    ensures forall p :: 0 <= p < |defs| ==> members[p] == MembersOf(layout, defs, p)
  {
    forall q | 0 <= q < |defs|
      ensures names[q] == Names(defs)[q] && members[q] == MembersOf(layout, defs, q) && RankFound(layout, q, defs[q])
    {
      assert CollectedBy(layout, defs, q, names[q], members[q]);
    }
  }

  /** Step 1: names and members of every rank, or the fatal case on some rank. */
  method CollectLocally(layout: Layout, defs: seq<RankDefs>)
    returns (names: seq<seq<Name>>, members: Option<seq<seq<seq<nat>>>>)
    requires ValidRun(layout, defs)
    ensures members.Some? <==> AllFound(layout, defs)
    ensures members.Some? ==> names == Names(defs) && |members.value| == |defs|
    ensures members.Some? ==> forall p :: 0 <= p < |defs| ==> members.value[p] == MembersOf(layout, defs, p)
  {
    var locations, maxPerRank := AllLocations(layout), MaxPerRank(layout);
    names := [];
    var collected := [];
    for p := 0 to |defs|
      invariant Collected(layout, defs, p, names, collected)
    {
      var own, r := CollectRank(layout, defs, p, locations, maxPerRank);
      if r == None {
        return names, None;
      }
      OneMoreCollected(layout, defs, p, names, collected, own, r.value);
      names := names + [own];
      collected := collected + [r.value];
    }
    AllCollected(layout, defs, names, collected);
    members := Some(collected);
  }

  /** Step 2: the largest number of names (an allreduce), then lengths and buffers of all ranks
      (two allgathers). */
  method GatherNames(names: seq<seq<Name>>) returns (lengths: seq<seq<nat>>, rows: seq<string>, width: nat)
    ensures Gathered(names, lengths, rows, width)
  {
    width := 0;
    for p := 0 to |names|
      invariant forall q :: 0 <= q < p ==> |names[q]| <= width
    {
      if |names[p]| > width {
        width := |names[p]|;
      }
    }
    lengths, rows := [], [];
    for p := 0 to |names|
      invariant |lengths| == |rows| == p
      invariant forall q :: 0 <= q < p ==> GatheredFrom(names[q], lengths[q], rows[q], width)
    {
      var row := PackNames(names[p]);
      var own := names[p];
      lengths := lengths + [seq(width, j requires 0 <= j => if j < |own| then |own[j]| else 0)];
      rows := rows + [row];
    }
  }

  /** The slots of one rank, read back, are what the rank has to say for each global name. */
  ghost predicate Sends(layout: Layout, defs: seq<RankDefs>, q: nat, slots: seq<seq<nat>>)
    requires ValidRun(layout, defs) && q < |defs|
  {
    && |slots| == |GlobalNames(Names(defs))|
    && forall h :: 0 <= h < |slots| ==> Visible(slots[h]) == Sent(layout, defs, q, h)
  }

  ghost predicate AllSent(layout: Layout, defs: seq<RankDefs>, received: seq<seq<seq<nat>>>)
    requires ValidRun(layout, defs)
  {
    && |received| == |defs|
    && forall q :: 0 <= q < |defs| ==> Sends(layout, defs, q, received[q])
  }

  lemma {:induction false} JoinedIsContributions(layout: Layout, defs: seq<RankDefs>, received: seq<seq<seq<nat>>>,
                                                 g: nat, n: nat)
    requires ValidRun(layout, defs) && n <= |defs| && g < |GlobalNames(Names(defs))|
    requires AllSent(layout, defs, received)
    ensures forall q :: 0 <= q < n ==> g < |received[q]|
    ensures Joined(received, g, n) == Contributions(layout, defs, g, n)
  {
    if n > 0 {
      JoinedIsContributions(layout, defs, received, g, n - 1);
      assert Sends(layout, defs, n - 1, received[n - 1]);
    }
  }

  /** Step 4: every rank writes its lists into its slots (one allgather). */
  method GatherSlots(layout: Layout, defs: seq<RankDefs>, q: nat, toGlobal: seq<int>, members: seq<seq<nat>>,
                     globalCount: nat)
    returns (slots: seq<seq<nat>>)
    requires ValidRun(layout, defs) && q < |defs|
    requires toGlobal == ToGlobal(defs, q) && members == MembersOf(layout, defs, q)
    requires globalCount == |GlobalNames(Names(defs))|
    requires |AllLocations(layout)| <= NO_MEMBER
    ensures Sends(layout, defs, q, slots)
  {
    forall u | 0 <= u < |members|
      ensures |members[u]| <= MaxPerRank(layout)
    {
      MembersFit(layout, q, defs[q], u);
    }
    slots := FillSlots(toGlobal, members, globalCount, MaxPerRank(layout));
    forall h | 0 <= h < |slots|
      ensures Visible(slots[h]) == Sent(layout, defs, q, h)
    {
      var xs := Overlaid(toGlobal, members, h, |members|);
      assert xs == Sent(layout, defs, q, h);
      if NO_MEMBER in xs {
        SentInRank(layout, defs, q, h, NO_MEMBER);
        LocationsBelowTotal(layout, q, NO_MEMBER);
      }
      VisiblePadded(xs, MaxPerRank(layout));
    }
  }

  lemma SentReadable(layout: Layout, defs: seq<RankDefs>, received: seq<seq<seq<nat>>>,
                     toGlobal: seq<nat>)
    requires ValidRun(layout, defs) && AllSent(layout, defs, received)
    requires forall u :: 0 <= u < |toGlobal| ==> toGlobal[u] < |GlobalNames(Names(defs))|
    ensures Readable(received, toGlobal, |AllLocations(layout)|)
  {
    forall q, j | 0 <= q < |received| && 0 <= j < |toGlobal|
      ensures toGlobal[j] < |received[q]|
              && forall y :: y in Visible(received[q][toGlobal[j]]) ==> y < |AllLocations(layout)|
    {
      assert Sends(layout, defs, q, received[q]);
      forall y | y in Visible(received[q][toGlobal[j]])
        ensures y < |AllLocations(layout)|
      {
        SentInRank(layout, defs, q, toGlobal[j], y);
        LocationsBelowTotal(layout, q, y);
      }
    }
  }

  /** Step 5: a rank merges what all ranks sent into its final groups. */
  method FinalGroups(layout: Layout, ghost defs: seq<RankDefs>, ghost p: nat, received: seq<seq<seq<nat>>>,
                     toGlobal: seq<nat>)
    returns (groups: seq<seq<nat>>)
    requires ValidRun(layout, defs) && p < |defs| && AllSent(layout, defs, received)
    requires toGlobal == ToGlobal(defs, p)
    ensures |groups| == |Names(defs)[p]|
    ensures forall u :: 0 <= u < |groups| ==> groups[u] == UserGroup(layout, defs, p, u)
  {
    SentReadable(layout, defs, received, toGlobal);
    groups := MergeGroups(received, toGlobal, |AllLocations(layout)|);
    forall u | 0 <= u < |groups|
      ensures groups[u] == UserGroup(layout, defs, p, u)
    {
      assert toGlobal[u] == GlobalIndex(Names(defs), p, u);
      JoinedIsContributions(layout, defs, received, toGlobal[u], |defs|);
    }
  }

  /** The row of `map_to_global` a rank uses, cut to its own names. */
  lemma RowIsToGlobal(defs: seq<RankDefs>, p: nat, row: seq<int>, width: nat)
    requires p < |defs| && MapsTo(row, Names(defs)[p], GlobalNames(Names(defs)), width)
    ensures row[..|Names(defs)[p]|] == ToGlobal(defs, p)
  {
    forall u | 0 <= u < |Names(defs)[p]|
      ensures row[u] == GlobalIndex(Names(defs), p, u)
    {
      MapsToGlobalIndex(row, Names(defs), p, u, width);
    }
  }

  ghost predicate OwnGroups(layout: Layout, defs: seq<RankDefs>, p: nat, groups: seq<seq<nat>>)
    requires ValidRun(layout, defs) && p < |defs|
  {
    && |groups| == |Names(defs)[p]|
    && forall u :: 0 <= u < |groups| ==> groups[u] == UserGroup(layout, defs, p, u)
  }

  /** The maps of the first n ranks and the slots they sent. */
  ghost predicate SentSoFar(layout: Layout, defs: seq<RankDefs>, n: nat, toGlobals: seq<seq<nat>>,
                            received: seq<seq<seq<nat>>>)
    requires ValidRun(layout, defs) && n <= |defs|
  {
    && |toGlobals| == |received| == n
    && forall q :: 0 <= q < n ==> SentBy(layout, defs, q, toGlobals[q], received[q])
  }

  ghost predicate SentBy(layout: Layout, defs: seq<RankDefs>, q: nat, toGlobal: seq<nat>, slots: seq<seq<nat>>)
    requires ValidRun(layout, defs) && q < |defs|
  {
    toGlobal == ToGlobal(defs, q) && Sends(layout, defs, q, slots)
  }

  lemma OneMoreSent(layout: Layout, defs: seq<RankDefs>, n: nat, toGlobals: seq<seq<nat>>, received: seq<seq<seq<nat>>>,
                    toGlobal: seq<nat>, slots: seq<seq<nat>>)
    requires ValidRun(layout, defs) && n < |defs|
    requires SentSoFar(layout, defs, n, toGlobals, received) && SentBy(layout, defs, n, toGlobal, slots)
    ensures SentSoFar(layout, defs, n + 1, toGlobals + [toGlobal], received + [slots])
  {
    forall q | 0 <= q < n + 1
      ensures SentBy(layout, defs, q, (toGlobals + [toGlobal])[q], (received + [slots])[q])
    {
      assert q < n ==> SentBy(layout, defs, q, toGlobals[q], received[q]);
    }
  }

  /** The global indices of a rank's own names, and the slots it sends. */
  method SendSlots(layout: Layout, defs: seq<RankDefs>, p: nat, members: seq<seq<nat>>, row: seq<int>,
                   globalCount: nat, ghost width: nat)
    returns (toGlobal: seq<nat>, slots: seq<seq<nat>>)
    requires ValidRun(layout, defs) && |AllLocations(layout)| <= NO_MEMBER && p < |defs|
    requires globalCount == |GlobalNames(Names(defs))| && members == MembersOf(layout, defs, p)
    requires MapsTo(row, Names(defs)[p], GlobalNames(Names(defs)), width)
    ensures SentBy(layout, defs, p, toGlobal, slots)
  {
    RowIsToGlobal(defs, p, row, width);
    toGlobal := row[..|members|];
    slots := GatherSlots(layout, defs, p, toGlobal, members, globalCount);
  }

  method ExchangeSlots(layout: Layout, defs: seq<RankDefs>, members: seq<seq<seq<nat>>>,
                       mapToGlobal: seq<seq<int>>, globalCount: nat, ghost width: nat)
    returns (toGlobals: seq<seq<nat>>, received: seq<seq<seq<nat>>>)
    requires ValidRun(layout, defs) && |AllLocations(layout)| <= NO_MEMBER
    requires |members| == |mapToGlobal| == |defs| && globalCount == |GlobalNames(Names(defs))|
    requires forall p :: 0 <= p < |defs| ==> members[p] == MembersOf(layout, defs, p)
    requires forall p :: 0 <= p < |defs| ==> MapsTo(mapToGlobal[p], Names(defs)[p], GlobalNames(Names(defs)), width)
    ensures AllSent(layout, defs, received)
    ensures |toGlobals| == |defs| && forall p :: 0 <= p < |defs| ==> toGlobals[p] == ToGlobal(defs, p)
  {
    toGlobals, received := [], [];
    for p := 0 to |defs|
      invariant SentSoFar(layout, defs, p, toGlobals, received)
    {
      var toGlobal, slots := SendSlots(layout, defs, p, members[p], mapToGlobal[p], globalCount, width);
      OneMoreSent(layout, defs, p, toGlobals, received, toGlobal, slots);
      toGlobals := toGlobals + [toGlobal];
      received := received + [slots];
    }
    forall q | 0 <= q < |defs|
      ensures toGlobals[q] == ToGlobal(defs, q) && Sends(layout, defs, q, received[q])
    {
      assert SentBy(layout, defs, q, toGlobals[q], received[q]);
    }
  }

  /** The groups as computed: same packed name, same group, on whatever ranks; each in ascending order and
      within its buffer; and the union of all members exactly where all are kept. */
  ghost predicate Unified(layout: Layout, defs: seq<RankDefs>, groups: seq<seq<seq<nat>>>)
    requires ValidRun(layout, defs)
  {
    && |groups| == |defs|
    && (forall p :: 0 <= p < |defs| ==> |groups[p]| == |Names(defs)[p]|)
    && (forall p, u, q, v ::
          0 <= p < |defs| && 0 <= u < |groups[p]| && 0 <= q < |defs| && 0 <= v < |groups[q]|
          && SamePackedName(defs, p, u, q, v) ==>
            groups[p][u] == groups[q][v])
    && (forall p, u :: 0 <= p < |defs| && 0 <= u < |groups[p]| ==>
          StrictlyAscending(groups[p][u]) && |groups[p][u]| <= |AllLocations(layout)|)
    && (forall p, u :: 0 <= p < |defs| && 0 <= u < |groups[p]| ==>
          (IsUnion(layout, defs, p, u, groups[p][u]) <==> AllKept(layout, defs, p, u)))
  }

  lemma OwnGroupsAreUnified(layout: Layout, defs: seq<RankDefs>, groups: seq<seq<seq<nat>>>)
    requires ValidRun(layout, defs) && |groups| == |defs|
    requires forall p :: 0 <= p < |defs| ==> OwnGroups(layout, defs, p, groups[p])
    ensures Unified(layout, defs, groups)
  {
    forall p, u, q, v | 0 <= p < |defs| && 0 <= u < |groups[p]| && 0 <= q < |defs| && 0 <= v < |groups[q]|
                        && SamePackedName(defs, p, u, q, v)
      ensures groups[p][u] == groups[q][v]
    {
      GroupsAgree(layout, defs, p, u, q, v);
    }
    forall p, u | 0 <= p < |defs| && 0 <= u < |groups[p]|
      ensures StrictlyAscending(groups[p][u]) && |groups[p][u]| <= |AllLocations(layout)|
    {
      GroupShape(layout, defs, p, u);
    }
    forall p, u | 0 <= p < |defs| && 0 <= u < |groups[p]|
      ensures IsUnion(layout, defs, p, u, groups[p][u]) <==> AllKept(layout, defs, p, u)
    {
      GroupIsUnionIff(layout, defs, p, u);
    }
  }

  method AllFinalGroups(layout: Layout, defs: seq<RankDefs>, received: seq<seq<seq<nat>>>, toGlobals: seq<seq<nat>>)
    returns (groups: seq<seq<seq<nat>>>)
    requires ValidRun(layout, defs) && AllSent(layout, defs, received)
    requires |toGlobals| == |defs| && forall p :: 0 <= p < |defs| ==> toGlobals[p] == ToGlobal(defs, p)
    ensures |groups| == |defs| && forall p :: 0 <= p < |defs| ==> OwnGroups(layout, defs, p, groups[p])
  {
    groups := [];
    for p := 0 to |defs|
      invariant |groups| == p
      invariant forall q :: 0 <= q < p ==> OwnGroups(layout, defs, q, groups[q])
    {
      var own := FinalGroups(layout, defs, p, received, toGlobals[p]);
      groups := groups + [own];
    }
  }

  /** The user part of pre-unification on all ranks. None is the fatal "No location match found". */
  method UnifyUserTopologies(layout: Layout, defs: seq<RankDefs>) returns (r: Option<seq<seq<seq<nat>>>>)
    requires ValidRun(layout, defs) && |AllLocations(layout)| < 0x1_0000_0000
    ensures r.Some? <==> AllFound(layout, defs)
    ensures r.Some? ==> |r.value| == |defs|
    ensures r.Some? ==> forall p :: 0 <= p < |defs| ==> OwnGroups(layout, defs, p, r.value[p])
    ensures r.Some? ==> Unified(layout, defs, r.value)
  {
    var names, members := CollectLocally(layout, defs);
    if members == None {
      return None;
    }
    var lengths, rows, width := GatherNames(names);
    var globalNames, mapToGlobal := BuildGlobalTable(names, lengths, rows, width);
    var toGlobals, received := ExchangeSlots(layout, defs, members.value, mapToGlobal, |globalNames|, width);
    var groups := AllFinalGroups(layout, defs, received, toGlobals);
    OwnGroupsAreUnified(layout, defs, groups);
    r := Some(groups);
  }
}
