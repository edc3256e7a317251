/**
  The list of locations (scorep_location_management.c): appending at a tail pointer, and deferred
  initialisation, where the callbacks that initialise one location may create more of them.

  Locations come from memory that is never given back, so a pointer is a position in the order of
  allocation.
*/
module LocationList {
  datatype Kind = CpuThread | Gpu | Metric

  datatype Link = Null | To(address: nat)

  /** What the callbacks do when they initialise a location: nothing more, or create a location, for
      which they will do `inner`, and go on. A plan is a finite creation behaviour. */
  datatype Plan = Done | Create(kind: Kind, inner: Plan, rest: Plan)

  datatype Location = Location(kind: Kind, parent: Link, next: Link, plan: Plan)

  /** The pointer that the next location is stored through. */
  datatype Slot = Head | NextOf(address: nat)

  /** `scorep_subsystems_initialize_location` and `SCOREP_Thread_ActivateLocation` were called. */
  datatype Event = Initialized(location: nat, parent: Link) | Activated(location: nat, parent: Link)

  /** The number of locations that a plan creates in the end. */
  function Size(plan: Plan): nat
  {
    match plan
    case Done => 0
    case Create(_, inner, rest) => 1 + Size(inner) + Size(rest)
  }

  /** The locations from i on, and those that their plans create. */
  function Remaining(locations: seq<Location>, i: nat): nat
    requires i <= |locations|
    decreases |locations| - i
  {
    if i == |locations| then 0 else 1 + Size(locations[i].plan) + Remaining(locations, i + 1)
  }

  /** The list runs through the locations in the order of their creation. */
  ghost predicate InList(locations: seq<Location>, i: nat)
    requires i < |locations|
  {
    locations[i].next == if i == |locations| - 1 then Null else To(i + 1)
  }

  ghost predicate Linked(locations: seq<Location>, head: Link, tail: Slot)
  {
    && head == (if locations == [] then Null else To(0))
    && tail == (if locations == [] then Head else NextOf(|locations| - 1))
    && (forall i {:trigger InList(locations, i)} :: 0 <= i < |locations| ==> InList(locations, i))
  }

  /** What happens to a location that the activation finds in the list, and to one created later. */
  function Happens(location: Location, i: nat, activation: bool): seq<Event>
  {
    if location.kind == CpuThread then
      if activation then [Initialized(i, location.parent), Activated(i, location.parent)] else []
    else [Initialized(i, location.parent)]
  }

  /** The events for the first n locations, `activated` of which the activation found in the list. */
  function Expected(locations: seq<Location>, activated: nat, n: nat): seq<Event>
    requires n <= |locations|
  {
    if n == 0 then []
    else Expected(locations, activated, n - 1) + Happens(locations[n - 1], n - 1, n - 1 < activated)
  }

  /** Locations that agree but for their links have the same events. */
  lemma {:induction false} ExpectedKept(locations: seq<Location>, locations': seq<Location>, activated: nat, n: nat)
    requires n <= |locations| <= |locations'|
    requires forall i :: 0 <= i < n ==> locations'[i].(next := Null) == locations[i].(next := Null)
    ensures Expected(locations', activated, n) == Expected(locations, activated, n)
  {
    if n > 0 {
      ExpectedKept(locations, locations', activated, n - 1);
    }
  }

  lemma {:induction false} RemainingKept(locations: seq<Location>, locations': seq<Location>, i: nat)
    requires i <= |locations| == |locations'|
    requires forall k :: i <= k < |locations| ==> locations'[k].plan == locations[k].plan
    ensures Remaining(locations', i) == Remaining(locations, i)
    decreases |locations| - i
  {
    if i < |locations| {
      RemainingKept(locations, locations', i + 1);
    }
  }

  lemma {:induction false} RemainingAppend(locations: seq<Location>, location: Location, i: nat)
    requires i <= |locations|
    ensures Remaining(locations + [location], i) == Remaining(locations, i) + 1 + Size(location.plan)
    decreases |locations| - i
  {
    if i < |locations| {
      RemainingAppend(locations, location, i + 1);
    } else {
      assert Remaining(locations + [location], i + 1) == 0;
    }
  }

  /** Nothing but links changed, and locations were appended. */
  ghost predicate Extends(locations': seq<Location>, locations: seq<Location>)
  {
    && |locations| <= |locations'|
    && (forall i :: 0 <= i < |locations| ==> locations'[i].(next := Null) == locations[i].(next := Null))
  }

  /** The flag only matters for locations at or behind the number activated. */
  lemma {:induction false} ExpectedActivated(locations: seq<Location>, a: nat, b: nat, n: nat)
    requires n <= |locations| && n <= a && n <= b
    ensures Expected(locations, a, n) == Expected(locations, b, n)
  {
    if n > 0 {
      ExpectedActivated(locations, a, b, n - 1);
    }
  }

  /** All events are about the first n locations, and initialisations come in increasing order. */
  ghost predicate InOrderBelow(log: seq<Event>, n: nat)
  {
    && (forall k :: 0 <= k < |log| ==> log[k].location < n)
    && (forall j, k :: 0 <= j < k < |log| && log[j].Initialized? && log[k].Initialized? ==>
          log[j].location < log[k].location)
  }

  /** Initialisations come in the order of creation, so none comes twice. */
  lemma {:induction false} InitializedInOrder(locations: seq<Location>, activated: nat, n: nat)
    requires n <= |locations|
    ensures InOrderBelow(Expected(locations, activated, n), n)
  {
    if n > 0 {
      InitializedInOrder(locations, activated, n - 1);
      var front, last := Expected(locations, activated, n - 1), Happens(locations[n - 1], n - 1, n - 1 < activated);
      var log := Expected(locations, activated, n);
      forall k | 0 <= k < |log|
        ensures k < |front| ==> log[k] == front[k]
        ensures k >= |front| ==> log[k].location == n - 1 && (log[k].Initialized? ==> k == |front|)
      {
        if k >= |front| {
          assert log[k] == last[k - |front|];
        }
      }
    }
  }

  /** Exactly the locations that the activation found, and the non-CPU ones created later, are
      initialised, with their parents. */
  lemma {:induction false} InitializedIff(locations: seq<Location>, activated: nat, n: nat, i: nat)
    requires i < n <= |locations|
    ensures Initialized(i, locations[i].parent) in Expected(locations, activated, n) <==>
            i < activated || locations[i].kind != CpuThread
  {
    var front, last := Expected(locations, activated, n - 1), Happens(locations[n - 1], n - 1, n - 1 < activated);
    InitializedInOrder(locations, activated, n - 1);
    if i < n - 1 {
      InitializedIff(locations, activated, n - 1, i);
      assert Initialized(i, locations[i].parent) !in last;
    } else {
      assert Initialized(i, locations[i].parent) !in front;
      assert last != [] ==> last[0] == Initialized(i, locations[i].parent);
    }
  }

  /** An event is about one of the locations and carries its parent, and an activation comes directly
      behind the initialisation of the same location. */
  predicate WellPlaced(locations: seq<Location>, log: seq<Event>, k: nat)
    requires k < |log|
  {
    && log[k].location < |locations| && log[k].parent == locations[log[k].location].parent
    && (log[k].Activated? ==> k > 0 && log[k - 1] == Initialized(log[k].location, log[k].parent))
  }

  lemma {:induction false} EventsWellPlaced(locations: seq<Location>, activated: nat, n: nat, k: nat)
    requires n <= |locations| && k < |Expected(locations, activated, n)|
    ensures WellPlaced(locations, Expected(locations, activated, n), k)
  {
    var front, last := Expected(locations, activated, n - 1), Happens(locations[n - 1], n - 1, n - 1 < activated);
    if k < |front| {
      EventsWellPlaced(locations, activated, n - 1, k);
    } else {
      assert (front + last)[k] == last[k - |front|];
      assert k > |front| ==> (front + last)[k - 1] == last[0];
    }
  }

  /** Exactly the CPU locations that the activation found are activated. */
  lemma {:induction false} ActivatedIff(locations: seq<Location>, activated: nat, n: nat, i: nat)
    requires i < n <= |locations|
    ensures Activated(i, locations[i].parent) in Expected(locations, activated, n) <==>
            i < activated && locations[i].kind == CpuThread
  {
    var front, last := Expected(locations, activated, n - 1), Happens(locations[n - 1], n - 1, n - 1 < activated);
    InitializedInOrder(locations, activated, n - 1);
    if i < n - 1 {
      ActivatedIff(locations, activated, n - 1, i);
      assert Activated(i, locations[i].parent) !in last;
    } else {
      assert Activated(i, locations[i].parent) !in front;
      assert |last| == 2 ==> last[1] == Activated(i, locations[i].parent);
    }
  }

  /** No location is activated twice: two activations follow two initialisations, which are in order. */
  lemma ActivatedOnce(locations: seq<Location>, activated: nat, n: nat, j: nat, k: nat)
    requires n <= |locations| && j < k < |Expected(locations, activated, n)|
    requires Expected(locations, activated, n)[j].Activated? && Expected(locations, activated, n)[k].Activated?
    ensures Expected(locations, activated, n)[j].location < Expected(locations, activated, n)[k].location
  {
    EventsWellPlaced(locations, activated, n, j);
    EventsWellPlaced(locations, activated, n, k);
    InitializedInOrder(locations, activated, n);
  }

  /** The locations from the first on are initialised, and the CPU locations among them activated. */
  ghost predicate AllInitialized(locations: seq<Location>, log: seq<Event>)
  {
    forall i :: 0 <= i < |locations| ==>
      && Initialized(i, locations[i].parent) in log
      && (Activated(i, locations[i].parent) in log <==> locations[i].kind == CpuThread)
  }

  lemma ActivationCovers(locations: seq<Location>)
    ensures AllInitialized(locations, Expected(locations, |locations|, |locations|))
  {
    forall i | 0 <= i < |locations|
      ensures Initialized(i, locations[i].parent) in Expected(locations, |locations|, |locations|)
      ensures Activated(i, locations[i].parent) in Expected(locations, |locations|, |locations|) <==>
              locations[i].kind == CpuThread
    {
      InitializedIff(locations, |locations|, |locations|, i);
      ActivatedIff(locations, |locations|, |locations|, i);
    }
  }

  class LocationManagement {
    var locations: seq<Location>
    var head: Link
    var tail: Slot
    var deferInit: bool
    var log: seq<Event>

    // The number of locations that the activation has initialised.
    ghost var activated: nat

    ghost predicate Valid()
      reads this
    {
      Linked(locations, head, tail) && activated <= |locations|
    }

    /** Once initialisation is not deferred any more, every location has had its events, in the order
        of creation and exactly once. */
    ghost predicate CaughtUp()
      reads this
      requires Valid()
    {
      !deferInit ==> log == Expected(locations, activated, |locations|)
    }

    constructor ()
      ensures Valid() && deferInit && locations == [] && log == [] && activated == 0
    {
      locations, head, tail, deferInit, log, activated := [], Null, Head, true, [], 0;
    }

    /** `scorep_location_create_location`: the new location is stored through the tail pointer. */
    method CreateLocation(kind: Kind, plan: Plan) returns (l: nat)
      requires Valid()
      modifies this`locations, this`head, this`tail
      ensures Valid() && l == |old(locations)| && |locations| == l + 1
      ensures Extends(locations, old(locations)) && locations[l] == Location(kind, Null, Null, plan)
    {
      l := |locations|;
      ghost var before := locations;
      locations := locations + [Location(kind, Null, Null, plan)];
      if tail == Head {
        head := To(l);
      } else {
        var a := tail.address;
        locations := locations[a := locations[a].(next := To(l))];
      }
      tail := NextOf(l);
      forall i | 0 <= i < |locations|
        ensures InList(locations, i)
      {
        if i < l {
          assert InList(before, i);
        }
      }
    }

    /** `SCOREP_Location_CreateCPULocation`. */
    method CreateCPULocation(plan: Plan) returns (l: nat)
      requires Valid() && CaughtUp()
      modifies this`locations, this`head, this`tail
      ensures Valid() && CaughtUp() && l == |old(locations)| && |locations| == l + 1
      ensures Extends(locations, old(locations)) && locations[l].(next := Null) == Location(CpuThread, Null, Null, plan)
    {
      l := CreateLocation(CpuThread, plan);
      ExpectedKept(old(locations), locations, activated, l);
    }

    method SetParent(l: nat, parent: Link)
      requires Valid() && l < |locations|
      modifies this`locations
      ensures Valid() && locations == old(locations)[l := old(locations)[l].(parent := parent)]
    {
      ghost var before := locations;
      locations := locations[l := locations[l].(parent := parent)];
      forall i | 0 <= i < |locations|
        ensures InList(locations, i)
      {
        assert InList(before, i);
      }
    }

    /** `SCOREP_Location_CreateNonCPULocation`: initialised at once, unless that is deferred. */
    method CreateNonCPULocation(parent: Link, kind: Kind, plan: Plan) returns (l: nat)
      requires Valid() && CaughtUp() && kind != CpuThread
      modifies this`locations, this`head, this`tail, this`log
      ensures Valid() && CaughtUp() && l == |old(locations)| && Extends(locations, old(locations))
      ensures l < |locations| && locations[l].(next := Null) == Location(kind, parent, Null, plan)
      ensures deferInit ==> log == old(log) && |locations| == l + 1
      decreases plan, 2
    {
      l := CreateLocation(kind, plan);
      SetParent(l, parent);
      ghost var created := locations;
      ExpectedKept(old(locations), locations, activated, l);
      if !deferInit {
        InitializeLocation(l, plan);
      }
    }

    /** `scorep_subsystems_initialize_location`: an event, and whatever the callbacks do. */
    method InitializeLocation(l: nat, plan: Plan)
      requires Valid() && l < |locations| && plan == locations[l].plan
      requires !deferInit ==>
                 && l == |locations| - 1 && activated <= l && locations[l].kind != CpuThread
                 && log == Expected(locations, activated, l)
      modifies this`locations, this`head, this`tail, this`log
      ensures Valid() && CaughtUp() && Extends(locations, old(locations))
      ensures deferInit ==> log == old(log) + [Initialized(l, old(locations)[l].parent)]
      ensures deferInit ==> Remaining(locations, l) == Remaining(old(locations), l) + Size(plan)
      decreases plan, 1
    {
      log := log + [Initialized(l, locations[l].parent)];
      Callbacks(l, plan);
    }

    /** The callbacks that initialise location l carry out a plan. */
    method Callbacks(l: nat, plan: Plan)
      requires Valid() && CaughtUp() && l < |locations|
      modifies this`locations, this`head, this`tail, this`log
      ensures Valid() && CaughtUp() && Extends(locations, old(locations))
      ensures deferInit ==> log == old(log)
      ensures deferInit ==> Remaining(locations, l) == Remaining(old(locations), l) + Size(plan)
      decreases plan, 0
    {
      match plan
      case Done =>
      case Create(kind, inner, rest) =>
        ghost var before := locations;
        if kind == CpuThread {
          var _ := CreateCPULocation(inner);
        } else {
          var _ := CreateNonCPULocation(To(l), kind, inner);
        }
        if deferInit {
          RemainingOneMore(before, locations, l);
        }
        Callbacks(l, rest);
    }

    /** `SCOREP_Location_ActivateInitLocations`: walks the list while the callbacks append to it. */
    method ActivateInitLocations()
      requires Valid() && deferInit && log == [] && activated == 0
      modifies this
      ensures Valid() && CaughtUp() && !deferInit && Extends(locations, old(locations))
      ensures activated == |locations| && AllInitialized(locations, log)
    {
      var location := head;
      while location != Null
        invariant Valid() && deferInit && Extends(locations, old(locations))
        invariant location == if activated == |locations| then Null else To(activated)
        invariant log == Expected(locations, activated, activated)
        decreases Remaining(locations, activated)
      {
        ActivateLocation(location.address);
        assert InList(locations, activated);
        location := locations[location.address].next;
        activated := activated + 1;
      }
      deferInit := false;
      ActivationCovers(locations);
    }

    /** The part of the loop that concerns one location. */
    method ActivateLocation(l: nat)
      requires Valid() && deferInit && l < |locations| && log == Expected(locations, l, l)
      modifies this`locations, this`head, this`tail, this`log
      ensures Valid() && Extends(locations, old(locations))
      ensures l < |locations| && var after := l + 1; log == Expected(locations, after, after)
      ensures Remaining(locations, l) == Remaining(old(locations), l) + Size(old(locations)[l].plan)
    {
      ghost var before := locations;
      InitializeLocation(l, locations[l].plan);
      if locations[l].kind == CpuThread {
        log := log + [Activated(l, locations[l].parent)];
      }
      ExpectedKept(before, locations, l, l);
      ExpectedActivated(locations, l, l + 1, l);
    }
  }

  lemma RemainingOneMore(locations: seq<Location>, locations': seq<Location>, i: nat)
    requires i <= |locations| && |locations'| == |locations| + 1 && Extends(locations', locations)
    ensures Remaining(locations', i) ==
            Remaining(locations, i) + 1 + Size(locations'[|locations|].plan)
  {
    var last := locations'[|locations|];
    RemainingAppend(locations, last, i);
    RemainingKept(locations + [last], locations', i);
  }
}
