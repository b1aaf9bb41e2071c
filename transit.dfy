/**
 * Stops, routes and buses of the campus transit simulation.
 *
 * A stop is a FIFO queue of waiting passengers. A route is a cursor over an
 * ordered list of shared stops with the distances between consecutive
 * stops. A bus carries a capacity-bounded manifest along an outgoing and
 * then an incoming route, unloading and loading passengers at each stop it
 * reaches.
 */
module Transit {
  import opened Riders
  import opened Decimal

  datatype Option<T> = None | Some(value: T)

  /**
   * Dereferencing a list iterator advanced `steps` times from the front
   * (no step at all when `steps` is not positive); None when the walk runs
   * off the end of the list, where the dereference is undefined.
   */
  function Walk<T>(xs: seq<T>, steps: int): (r: Option<T>)
    ensures r.Some? <==> (if steps < 0 then 0 else steps) < |xs|
    ensures r.Some? ==> r.value == xs[if steps < 0 then 0 else steps]
    decreases |xs|
  {
    if xs == [] then None
    else if steps <= 0 then Some(xs[0])
    else Walk(xs[1..], steps - 1)
  }

  /** Everyone waiting at `stops`, stop by stop, each queue front first. */
  function Queue(stops: seq<Stop>): (r: seq<Passenger>)
    reads stops
    ensures forall p :: p in r ==> exists i :: 0 <= i < |stops| && p in stops[i].passengers
  {
    if stops == [] then []
    else
      var front := stops[..|stops| - 1];
      assert forall i :: 0 <= i < |front| ==> front[i] == stops[i];
      Queue(front) + stops[|stops| - 1].passengers
  }

  /**
   * Running totals of the queues of `stops`: entry j counts, for each
   * passenger, the places it holds in the queues of the first j stops.
   */
  ghost function Tally(stops: seq<Stop>): (r: seq<multiset<Passenger>>)
    reads stops
    ensures |r| == |stops| + 1
    ensures r[0] == multiset{}
    ensures forall j {:trigger stops[j]} :: 0 <= j < |stops| ==> r[j + 1] == r[j] + multiset(stops[j].passengers)
    ensures r[|stops|] == multiset(Queue(stops))
  {
    if stops == [] then [multiset{}]
    else
      var front := stops[..|stops| - 1];
      assert forall i :: 0 <= i < |front| ==> front[i] == stops[i];
      var t := Tally(front);
      t + [t[|front|] + multiset(stops[|stops| - 1].passengers)]
  }

  /** The clocks of `ps`, position by position. */
  ghost function ClocksOf(ps: seq<Passenger>): (r: seq<Counters>)
    reads set p | p in ps
    ensures |r| == |ps|
    ensures forall k :: 0 <= k < |ps| ==> r[k] == ps[k].Clocks()
  {
    if ps == [] then [] else ClocksOf(ps[..|ps| - 1]) + [ps[|ps| - 1].Clocks()]
  }

  /** The passengers of Queue(stops) as a set: what an update of the stops may change. */
  function Waiting(stops: seq<Stop>): set<Passenger>
    reads stops
  {
    set p | p in Queue(stops)
  }

  /** Everyone waiting at one of the stops is in Queue(stops), the converse of its postcondition. */
  lemma {:induction false} QueueMembers(stops: seq<Stop>)
    ensures forall i, p :: 0 <= i < |stops| && p in stops[i].passengers ==> p in Queue(stops)
    decreases |stops|
  {
    if stops != [] {
      var front := stops[..|stops| - 1];
      QueueMembers(front);
      forall i, p | 0 <= i < |front| && p in front[i].passengers
        ensures p in Queue(stops)
      {
        assert front[i] == stops[i];
      }
    }
  }

  /**
   * The manifest once every passenger bound for `stopId` has left, the
   * others kept in order.
   */
  function Remaining(ps: seq<Passenger>, stopId: int): (r: seq<Passenger>)
    ensures |r| <= |ps|
    ensures forall p :: p in r ==> p.destination != stopId
  {
    if ps == [] then []
    else
      var last := ps[|ps| - 1];
      assert ps == ps[..|ps| - 1] + [last];
      Remaining(ps[..|ps| - 1], stopId) + (if last.destination == stopId then [] else [last])
  }

  /**
   * Remaining as a multiset: passengers bound for `stopId` are all gone,
   * every other passenger stays as often as it was listed.
   */
  lemma {:induction false} RemainingCount(ps: seq<Passenger>, stopId: int, p: Passenger)
    ensures multiset(Remaining(ps, stopId))[p] == if p.destination == stopId then 0 else multiset(ps)[p]
    decreases |ps|
  {
    if ps != [] {
      var front, last := ps[..|ps| - 1], ps[|ps| - 1];
      RemainingCount(front, stopId, p);
      assert ps == front + [last];
      assert multiset(ps) == multiset(front) + multiset{last};
      if last.destination == stopId {
        assert Remaining(ps, stopId) == Remaining(front, stopId);
      } else {
        assert Remaining(ps, stopId) == Remaining(front, stopId) + [last];
      }
    }
  }

  /** Remaining changes the manifest exactly when someone on it is bound for `stopId`. */
  lemma {:induction false} RemainingUnchanged(ps: seq<Passenger>, stopId: int)
    ensures Remaining(ps, stopId) == ps <==> forall i :: 0 <= i < |ps| ==> ps[i].destination != stopId
    decreases |ps|
  {
    if ps != [] {
      var front, last := ps[..|ps| - 1], ps[|ps| - 1];
      RemainingUnchanged(front, stopId);
      assert ps == front + [last];
      if last.destination == stopId {
        // the last passenger leaves, so the manifest shrinks
        assert Remaining(ps, stopId) == Remaining(front, stopId);
        assert ps[|ps| - 1].destination == stopId;
      } else {
        assert Remaining(ps, stopId) == Remaining(front, stopId) + [last];
        assert (forall i :: 0 <= i < |ps| ==> ps[i].destination != stopId)
           <==> (forall i :: 0 <= i < |front| ==> front[i].destination != stopId);
        if Remaining(ps, stopId) == ps {
          assert Remaining(front, stopId) == Remaining(ps, stopId)[..|front|];
        }
      }
    }
  }

  lemma RemainingSnoc(ps: seq<Passenger>, i: nat, stopId: int)
    requires i < |ps|
    ensures Remaining(ps[..i + 1], stopId)
            == Remaining(ps[..i], stopId) + (if ps[i].destination == stopId then [] else [ps[i]])
  {
    assert ps[..i + 1][..i] == ps[..i];
  }

  /**
   * How many of `waiting` passengers board a bus with `onBoard` riders when
   * the bus accepts riders while it holds fewer than `limit`.
   */
  function Boardable(waiting: nat, onBoard: nat, limit: nat): (n: nat)
    ensures n <= waiting
    ensures onBoard <= limit ==> onBoard + n <= limit
    ensures n == waiting || onBoard + n >= limit
    ensures n > 0 <==> waiting > 0 && onBoard < limit
  {
    if onBoard >= limit then 0
    else if waiting <= limit - onBoard then waiting
    else limit - onBoard
  }

  /** Update every passenger of `ps` once per occurrence, in order. */
  method UpdateAll(ps: seq<Passenger>)
    modifies ps
    ensures forall p :: p in ps ==> p.Clocks() == old(p.Clocks()).Ticks(multiset(ps)[p])
  {
    for i := 0 to |ps|
      invariant forall p :: p in ps ==> p.Clocks() == old(p.Clocks()).Ticks(multiset(ps[..i])[p])
    {
      assert ps[..i + 1] == ps[..i] + [ps[i]];
      ps[i].Update();
    }
    assert ps[..|ps|] == ps;
  }

  /**
   * One passenger offered to a bus: the bus takes them if it has room, and
   * the stop then tells them to get on the bus as well.
   */
  method HandOver(bus: Bus, p: Passenger) returns (accepted: bool)
    modifies bus`passengers, p
    ensures accepted == (|old(bus.passengers)| < bus.Limit())
    ensures bus.passengers == if accepted then old(bus.passengers) + [p] else old(bus.passengers)
    ensures p.Clocks() == if accepted then old(p.Clocks()).Board() else old(p.Clocks())
  {
    accepted := bus.LoadPassenger(p);
    if accepted {
      p.GetOnBus();
      Riders.BoardIsIdempotent(old(p.Clocks()));
    }
  }

  /** 2^52: a double's fraction has 52 bits. */
  const TwoTo52: nat := 0x10_0000_0000_0000

  /**
   * What dereferencing the end iterator of a `std::list<double>` of `n`
   * elements reads under the GNU C++ library's list layout: the end node
   * keeps the element count where an element would be, and its bits taken
   * as a double are the subnormal n * 2^-1074 (for every n below 2^52).
   * It is 0 for an empty list and otherwise a positive number far below any
   * distance or speed in use.
   */
  function EndRead(n: nat): (r: real)
    ensures r >= 0.0
    ensures r > 0.0 <==> n > 0
    ensures r <= n as real
    ensures n < TwoTo52 ==> r < MinNormal
  {
    // n / 2^1074
    n as real / (0x4_0000_0000_0000_0000_0000_0000_0000_0000_0000_0000_0000_0000_0000_0000_0000_0000_0000_0000_0000_0000_0000_0000_0000_0000_0000_0000_0000_0000_0000_0000_0000_0000_0000_0000_0000_0000_0000_0000_0000_0000_0000_0000_0000_0000_0000_0000_0000_0000_0000_0000_0000_0000_0000_0000_0000_0000_0000_0000_0000_0000_0000_0000_0000_0000_0000_0000_0000 as real)
  }

  /** The smallest positive normal double, 2^-1022. */
  const MinNormal: real := 1.0 / (0x4000_0000_0000_0000_0000_0000_0000_0000_0000_0000_0000_0000_0000_0000_0000_0000_0000_0000_0000_0000_0000_0000_0000_0000_0000_0000_0000_0000_0000_0000_0000_0000_0000_0000_0000_0000_0000_0000_0000_0000_0000_0000_0000_0000_0000_0000_0000_0000_0000_0000_0000_0000_0000_0000_0000_0000_0000_0000_0000_0000_0000_0000_0000_0000 as real)

  /** `x` is a nonzero double below the smallest normal one in magnitude. */
  predicate Subnormal(x: real) {
    x != 0.0 && -MinNormal < x < MinNormal
  }

  /**
   * The double sum of `a` and `b`, rounded to nearest. When one operand is
   * subnormal and the other at least 1 in magnitude, the subnormal one is
   * below half a unit in the last place of the other, so the sum is the
   * other operand. Every other sum is kept exact.
   */
  function Sum(a: real, b: real): (r: real)
    ensures -MinNormal < r - (a + b) < MinNormal
  {
    if Subnormal(a) && (b >= 1.0 || b <= -1.0) then b
    else if Subnormal(b) && (a >= 1.0 || a <= -1.0) then a
    else a + b
  }

  class Stop {
    const id: int
    /** Waiting passengers, front of the queue first. */
    var passengers: seq<Passenger>

    constructor (id: int)
      ensures this.id == id && passengers == []
    {
      this.id := id;
      passengers := [];
    }

    function GetId(): (i: int)
      ensures i == id
    {
      id
    }

    /** The length of the queue; 0 exactly when nobody waits. */
    function GetNumPassengers(): (n: nat)
      reads this
      ensures n == |passengers| && (n == 0 <==> passengers == [])
    {
      |passengers|
    }

    method AddPassengers(p: Passenger) returns (r: int)
      modifies this
      ensures passengers == old(passengers) + [p]
      ensures r == 1
    {
      passengers := passengers + [p];
      r := 1;
    }

    /**
     * Hands passengers from the front of the queue to `bus` until the queue
     * is empty or the bus refuses one; each accepted passenger is told to
     * get on the bus by the bus and again by the stop.
     */
    method LoadPassengers(bus: Bus) returns (loaded: bool)
      modifies this`passengers, bus`passengers, passengers
      ensures var n := Boardable(|old(passengers)|, |old(bus.passengers)|, bus.Limit());
        && passengers == old(passengers)[n..]
        && bus.passengers == old(bus.passengers) + old(passengers)[..n]
        && loaded == (n > 0)
        && (forall p :: p in old(passengers)[..n] ==> p.Clocks() == old(p.Clocks()).Board())
        && (forall p :: p in old(passengers) && p !in old(passengers)[..n] ==> p.Clocks() == old(p.Clocks()))
    {
      ghost var queue := passengers;
      ghost var n := Boardable(|queue|, |bus.passengers|, bus.Limit());
      ghost var k := 0;
      loaded := false;
      while passengers != []
        invariant k <= n
        invariant passengers == queue[k..]
        invariant bus.passengers == old(bus.passengers) + queue[..k]
        invariant loaded == (k > 0)
        invariant forall p :: p in queue[..k] ==> p.Clocks() == old(p.Clocks()).Board()
        invariant forall p :: p in queue && p !in queue[..k] ==> p.Clocks() == old(p.Clocks())
        decreases |passengers|
      {
        var pass := passengers[0];
        assert pass == queue[k] && queue[..k + 1] == queue[..k] + [pass] && passengers[1..] == queue[k + 1..];
        var accepted := HandOver(bus, pass);
        if accepted {
          passengers := passengers[1..];
          loaded := true;
          k := k + 1;
        } else {
          break;
        }
      }
    }

    /** Every waiting passenger's stop clock advances once per time step. */
    method Update()
      modifies passengers
      ensures forall p :: p in passengers ==> p.Clocks() == old(p.Clocks()).Ticks(multiset(passengers)[p])
    {
      UpdateAll(passengers);
    }
  }

  /** What a visualiser is shown of one stop: its id as text and its queue length. */
  datatype StopData = StopData(id: string, numPeople: nat)

  /** What a visualiser is shown of a route. */
  datatype RouteData = RouteData(id: string, stops: seq<StopData>)

  class Route {
    const name: string
    const stops: seq<Stop>
    /** distances[i] is the distance from stops[i] to stops[i + 1]. */
    const distances: seq<real>
    /** Index of the stop the bus is heading for. */
    var cursor: nat
    var destination: Stop
    var routeData: RouteData

    ghost predicate Valid()
      reads this`cursor, this`destination
    {
      && |stops| >= 1
      && |distances| == |stops| - 1
      && cursor < |stops|
      && destination == stops[cursor]
    }

    /** The first `numStops` stops and the `numStops - 1` distances between them. */
    constructor (name: string, stops: seq<Stop>, distances: seq<real>, numStops: int)
      requires 1 <= numStops <= |stops|
      requires numStops - 1 <= |distances|
      ensures Valid()
      ensures this.name == name && this.stops == stops[..numStops]
      ensures this.distances == distances[..numStops - 1]
      ensures cursor == 0 && destination == stops[0]
      ensures routeData == RouteData("", [])
    {
      var own: seq<Stop> := [];
      for i := 0 to numStops
        invariant own == stops[..i]
      {
        own := own + [stops[i]];
      }
      var gaps: seq<real> := [];
      for i := 0 to numStops - 1
        invariant gaps == distances[..i]
      {
        gaps := gaps + [distances[i]];
      }
      this.name := name;
      this.stops := own;
      this.distances := gaps;
      destination := stops[0];
      cursor := 0;
      routeData := RouteData("", []);
    }

    /** Same name, stops (the same Stop objects), distances, cursor and snapshot as `other`. */
    ghost predicate IsCopyOf(other: Route)
      reads this`cursor, this`destination, this`routeData, other`cursor, other`destination, other`routeData
    {
      && name == other.name && stops == other.stops && distances == other.distances
      && cursor == other.cursor && destination == other.destination && routeData == other.routeData
    }

    /** A member-by-member copy of `other`, cursor included. */
    constructor Copy(other: Route)
      requires other.Valid()
      ensures Valid() && IsCopyOf(other)
    {
      name := other.name;
      stops := other.stops;
      distances := other.distances;
      cursor := other.cursor;
      destination := other.destination;
      routeData := other.routeData;
    }

    /** A new route object with the attributes of this one; the stops are shared, not copied. */
    method Clone() returns (c: Route)
      requires Valid()
      ensures fresh(c) && c.Valid() && c.IsCopyOf(this)
    {
      c := new Route.Copy(this);
    }

    /** The cursor is on the last stop: nothing is left to visit. */
    predicate IsAtEnd()
      reads this`cursor
      ensures cursor < |stops| ==> (IsAtEnd() <==> cursor == |stops| - 1)
    {
      !(cursor < |stops| - 1)
    }

    method NextStop()
      requires Valid()
      modifies this`cursor, this`destination
      ensures Valid()
      ensures old(IsAtEnd()) ==> cursor == old(cursor)
      ensures !old(IsAtEnd()) ==> cursor == old(cursor) + 1
    {
      if !IsAtEnd() {
        cursor := cursor + 1;
        destination := Walk(stops, cursor).value;
      }
    }

    function GetDestinationStop(): (s: Stop)
      reads this`destination
      ensures s == destination
    {
      destination
    }

    /** The stop before the destination; at the first stop, the first stop itself. */
    function GetPreviousStop(): (s: Stop)
      reads this`cursor, this`destination
      requires Valid()
      ensures s == stops[if cursor == 0 then 0 else cursor - 1]
    {
      Walk(stops, cursor - 1).value
    }

    /**
     * The distance of the leg ending at the destination, read by walking the
     * distance list `cursor` steps. At the last stop that walk ends on the
     * list's end node, and the read yields EndRead of the list's length.
     */
    function GetNextStopDistance(): (d: real)
      reads this`cursor, this`destination
      requires Valid()
      ensures !IsAtEnd() ==> d == distances[cursor]
      ensures IsAtEnd() ==> d == EndRead(|distances|)
    {
      match Walk(distances, cursor)
      case Some(gap) => gap
      case None => EndRead(|distances|)
    }

    /** `data` lists every stop of the route in order with its id text and queue length. */
    ghost predicate Describes(data: RouteData)
      reads stops
    {
      && data.id == name
      && |data.stops| == |stops|
      && forall i :: 0 <= i < |stops| ==>
           data.stops[i] == StopData(DecimalString(stops[i].id), |stops[i].passengers|)
    }

    /** The snapshot that UpdateRouteData stores. */
    method BuildRouteData() returns (data: RouteData)
      ensures Describes(data)
    {
      var entries: seq<StopData> := [];
      for i := 0 to |stops|
        invariant |entries| == i
        invariant forall j :: 0 <= j < i ==>
                    entries[j] == StopData(DecimalString(stops[j].id), |stops[j].passengers|)
      {
        entries := entries + [StopData(DecimalString(stops[i].GetId()), stops[i].GetNumPassengers())];
      }
      data := RouteData(name, entries);
    }

    method UpdateRouteData()
      modifies this`routeData
      ensures Describes(routeData)
    {
      routeData := BuildRouteData();
    }

    /**
     * Every passenger waiting at one of the stops has the clock advanced
     * once per stop it is queued at, in stop order.
     */
    method TickQueues()
      modifies Waiting(stops)
      ensures forall p :: p in old(Queue(stops)) ==> p.Clocks() == old(p.Clocks()).Ticks(multiset(old(Queue(stops)))[p])
    {
      ghost var queue := Queue(stops);
      ghost var start := ClocksOf(queue);
      TickAll(queue, start);
      forall p | p in queue
        ensures p.Clocks() == old(p.Clocks()).Ticks(multiset(queue)[p])
      {
        var k :| 0 <= k < |queue| && queue[k] == p;
      }
    }

    /**
     * TickQueues position by position: the passenger at place `k` of the
     * whole queue, whose clocks were `start[k]`, has taken one step per
     * place it holds.
     */
    method TickAll(ghost queue: seq<Passenger>, ghost start: seq<Counters>)
      requires queue == Queue(stops) && |start| == |queue|
      requires forall k :: 0 <= k < |queue| ==> queue[k].Clocks() == start[k]
      modifies Waiting(stops)
      ensures forall k :: 0 <= k < |queue| ==> queue[k].Clocks() == start[k].Ticks(multiset(queue)[queue[k]])
    {
      ghost var counts := Tally(stops);
      for i := 0 to |stops|
        invariant forall k :: 0 <= k < |queue| ==> queue[k].Clocks() == start[k].Ticks(counts[i][queue[k]])
      {
        TickStop(i, queue, start, counts[i], counts[i + 1]);
      }
    }

    /**
     * The passengers waiting at stop `i` have their clocks advanced, once
     * per time they are queued there: for everyone in `queue`, the count of
     * steps taken since `start` grows from `done` by that number.
     */
    method TickStop(i: nat, ghost queue: seq<Passenger>, ghost start: seq<Counters>,
                    ghost done: multiset<Passenger>, ghost after: multiset<Passenger>)
      requires i < |stops| && queue == Queue(stops) && |start| == |queue|
      requires after == done + multiset(stops[i].passengers)
      requires forall k :: 0 <= k < |queue| ==> queue[k].Clocks() == start[k].Ticks(done[queue[k]])
      modifies Waiting(stops)
      ensures forall k :: 0 <= k < |queue| ==> queue[k].Clocks() == start[k].Ticks(after[queue[k]])
    {
      QueueMembers(stops);
      stops[i].Update();
      forall k | 0 <= k < |queue|
        ensures queue[k].Clocks() == start[k].Ticks(after[queue[k]])
      {
        TicksAdd(start[k], done[queue[k]], multiset(stops[i].passengers)[queue[k]]);
      }
    }

    /** One time step of the route: the waiting clocks advance and the snapshot is refreshed. */
    method Update()
      requires Valid()
      modifies this`routeData, Waiting(stops)
      ensures Valid()
      ensures forall p :: p in old(Queue(stops)) ==> p.Clocks() == old(p.Clocks()).Ticks(multiset(old(Queue(stops)))[p])
      ensures Describes(routeData)
    {
      TickQueues();
      UpdateRouteData();
    }
  }

  /**
   * A clone is a route of its own: moving it on to its next stop leaves
   * the route it was cloned from where it was.
   */
  method AdvanceClone(r: Route) returns (c: Route)
    requires r.Valid()
    ensures fresh(c) && c.Valid()
    ensures c.name == r.name && c.stops == r.stops && c.distances == r.distances
    ensures c.cursor == if r.IsAtEnd() then r.cursor else r.cursor + 1
    ensures unchanged(r)
  {
    c := r.Clone();
    c.NextStop();
  }

  /** `c` after a boarding call when `boards` holds, else `c` unchanged. */
  function BoardIf(c: Counters, boards: bool): Counters {
    if boards then c.Board() else c
  }

  /**
   * The part of the simulation one movement step of a bus depends on and
   * changes, apart from the passengers' clocks: the manifest, the distance
   * left, the cursors of both routes and the queue at the stop ahead.
   */
  datatype Snap = Snap(manifest: seq<Passenger>, distance: real, outCursor: int, inCursor: int, queue: seq<Passenger>)

  /** Where a bus is: the cursors of both its routes and the distance left to the stop ahead. */
  datatype Place = Place(outCursor: int, inCursor: int, distance: real)

  /**
   * The loop of Bus.UnloadPassengers over the manifest `ps`: everyone bound
   * for stop `stopId` leaves, the others stay in order, and the answer says
   * whether anyone left.
   */
  method Unload(ps: seq<Passenger>, stopId: int) returns (kept: seq<Passenger>, unloaded: bool)
    ensures kept == Remaining(ps, stopId)
    ensures unloaded <==> kept != ps
    ensures unloaded <==> exists i :: 0 <= i < |ps| && ps[i].destination == stopId
  {
    kept := [];
    unloaded := false;
    for i := 0 to |ps|
      invariant kept == Remaining(ps[..i], stopId)
      invariant unloaded <==> exists j :: 0 <= j < i && ps[j].destination == stopId
    {
      RemainingSnoc(ps, i, stopId);
      if ps[i].destination == stopId {
        unloaded := true;
      } else {
        kept := kept + [ps[i]];
      }
    }
    assert ps[..|ps|] == ps;
    RemainingUnchanged(ps, stopId);
  }

  class Bus {
    const name: string
    const outgoing: Route
    const incoming: Route
    const capacity: int
    /** Distance covered in one time step. */
    const speed: real
    var passengers: seq<Passenger>
    var distanceRemaining: real

    /** The capacity as LoadPassenger compares it: converted to a 32-bit unsigned number. */
    function Limit(): (l: nat)
      ensures l < 0x1_0000_0000 && (l - capacity) % 0x1_0000_0000 == 0
      ensures 0 <= capacity < 0x1_0000_0000 ==> l == capacity
    {
      capacity % 0x1_0000_0000
    }

    ghost predicate Valid()
      reads this`passengers, outgoing`cursor, outgoing`destination, incoming`cursor, incoming`destination
    {
      |passengers| <= Limit() && outgoing != incoming && outgoing.Valid() && incoming.Valid()
    }

    /** The defaults are capacity 60 and speed 1. */
    constructor (name: string, outRoute: Route, inRoute: Route, capacity: int := 60, speed: real := 1.0)
      requires outRoute.Valid() && inRoute.Valid() && outRoute != inRoute
      ensures Valid()
      ensures this.name == name && outgoing == outRoute && incoming == inRoute
      ensures this.capacity == capacity && this.speed == speed
      ensures passengers == [] && distanceRemaining == outRoute.GetNextStopDistance()
    {
      this.name := name;
      outgoing := outRoute;
      incoming := inRoute;
      this.capacity := capacity;
      this.speed := speed;
      passengers := [];
      distanceRemaining := outRoute.GetNextStopDistance();
    }

    /** Both routes have been traversed to their last stop. */
    predicate IsTripComplete()
      reads outgoing`cursor, incoming`cursor
      ensures IsTripComplete() <==> outgoing.cursor >= |outgoing.stops| - 1 && incoming.cursor >= |incoming.stops| - 1
    {
      outgoing.IsAtEnd() && incoming.IsAtEnd()
    }

    /** Stops still to be reached on both routes; none exactly when the trip is complete. */
    ghost function LegsLeft(): (n: nat)
      reads outgoing`cursor, outgoing`destination, incoming`cursor, incoming`destination
      requires outgoing.Valid() && incoming.Valid()
      ensures n == 0 <==> IsTripComplete()
    {
      (|outgoing.stops| - 1 - outgoing.cursor) + (|incoming.stops| - 1 - incoming.cursor)
    }

    function GetNextStop(): (s: Stop)
      reads outgoing`cursor, outgoing`destination, incoming`cursor, incoming`destination
      requires outgoing.Valid() && incoming.Valid()
      ensures !outgoing.IsAtEnd() ==> s == outgoing.stops[outgoing.cursor]
      ensures outgoing.IsAtEnd() ==> s == incoming.stops[incoming.cursor]
    {
      if !outgoing.IsAtEnd() then outgoing.GetDestinationStop() else incoming.GetDestinationStop()
    }

    /** How many ride on the bus. */
    function GetNumPassengers(): (n: nat)
      reads this
      ensures n == |passengers|
    {
      |passengers|
    }

    function GetCapacity(): (c: int)
      ensures c == capacity
    {
      capacity
    }

    /** The step-relevant state of this bus and its routes, as a value. */
    ghost function Snapshot(): (s: Snap)
      requires outgoing.Valid() && incoming.Valid()
      reads this, outgoing, incoming, GetNextStop()
      ensures Fits(s)
    {
      Snap(passengers, distanceRemaining, outgoing.cursor, incoming.cursor, GetNextStop().passengers)
    }

    /** `pre` has a cursor on each route. */
    predicate Fits(pre: Snap) {
      0 <= pre.outCursor < |outgoing.stops| && 0 <= pre.inCursor < |incoming.stops|
    }

    /** In state `pre` the outgoing route is not yet at its end. */
    predicate OnOutgoing(pre: Snap) {
      pre.outCursor != |outgoing.stops| - 1
    }

    /** In state `pre` both routes are at their end. */
    predicate CompleteIn(pre: Snap) {
      !OnOutgoing(pre) && pre.inCursor == |incoming.stops| - 1
    }

    /** In state `pre` the next Move reaches a stop. */
    predicate ArrivingIn(pre: Snap) {
      !CompleteIn(pre) && pre.distance <= 0.0
    }

    /** The route travelled in state `pre`. */
    function RouteIn(pre: Snap): Route {
      if OnOutgoing(pre) then outgoing else incoming
    }

    /** The stop the bus is heading for in state `pre`. */
    function StopIn(pre: Snap): Stop
      requires Fits(pre)
    {
      if OnOutgoing(pre) then outgoing.stops[pre.outCursor] else incoming.stops[pre.inCursor]
    }

    /** In state `pre` someone on board is bound for the stop ahead. */
    predicate UnloadsIn(pre: Snap)
      requires Fits(pre)
    {
      Remaining(pre.manifest, StopIn(pre).id) != pre.manifest
    }

    /** Who boards on arrival from state `pre`: nobody if someone gets off, else the front of the queue that fits. */
    function BoardersIn(pre: Snap): (b: seq<Passenger>)
      requires Fits(pre)
      ensures b <= pre.queue
      ensures UnloadsIn(pre) ==> b == []
      ensures |pre.manifest| <= Limit() ==> |pre.manifest| + |b| <= Limit()
      ensures !UnloadsIn(pre) && |b| < |pre.queue| ==> |pre.manifest| + |b| >= Limit()
    {
      if UnloadsIn(pre) then []
      else pre.queue[..Boardable(|pre.queue|, |pre.manifest|, Limit())]
    }

    /** The queue left at the stop reached from state `pre` once the boarders are gone. */
    function Left(pre: Snap): (q: seq<Passenger>)
      requires Fits(pre)
      ensures BoardersIn(pre) + q == pre.queue
    {
      pre.queue[|BoardersIn(pre)|..]
    }

    /** The manifest after arriving from state `pre`. */
    function ManifestAfter(pre: Snap): (m: seq<Passenger>)
      requires Fits(pre)
      ensures |pre.manifest| <= Limit() ==> |m| <= Limit()
      ensures UnloadsIn(pre) ==> forall p :: p in m ==> p.destination != StopIn(pre).id
      ensures !UnloadsIn(pre) ==> m == pre.manifest + BoardersIn(pre)
    {
      if UnloadsIn(pre) then Remaining(pre.manifest, StopIn(pre).id) else pre.manifest + BoardersIn(pre)
    }

    /** Between stops only the distance changes, by `speed`; on a completed trip nothing does. */
    ghost predicate Cruised(pre: Snap)
      requires outgoing.Valid() && incoming.Valid()
      reads this, outgoing, incoming, GetNextStop()
    {
      Snapshot() == pre.(distance := if CompleteIn(pre) then pre.distance else Sum(pre.distance, -speed))
    }

    /**
     * Arrival from state `pre`: the cursor of the route travelled moves on
     * by one, the manifest becomes ManifestAfter(pre) and the boarders
     * leave the front of the queue of the stop reached; if anyone got off
     * or on, the distance becomes the next leg, otherwise the next leg is
     * added to what is left over.
     */
    ghost predicate Served(pre: Snap)
      requires Fits(pre)
      reads this, outgoing, incoming, StopIn(pre)
    {
      && RouteIn(pre).Valid()
      && outgoing.cursor == pre.outCursor + (if outgoing == RouteIn(pre) then 1 else 0)
      && incoming.cursor == pre.inCursor + (if incoming == RouteIn(pre) then 1 else 0)
      && passengers == ManifestAfter(pre)
      && StopIn(pre).passengers == Left(pre)
      && distanceRemaining == (if UnloadsIn(pre) || BoardersIn(pre) != [] then RouteIn(pre).GetNextStopDistance()
                               else Sum(pre.distance, RouteIn(pre).GetNextStopDistance()))
    }

    /** The effect of one Move from state `pre`, clocks aside. */
    ghost predicate Stepped(pre: Snap)
      requires Fits(pre) && outgoing.Valid() && incoming.Valid()
      reads this, outgoing, incoming, StopIn(pre), GetNextStop()
    {
      if ArrivingIn(pre) then Served(pre) else Cruised(pre)
    }

    ghost function Where(): Place
      reads this`distanceRemaining, outgoing`cursor, incoming`cursor
    {
      Place(outgoing.cursor, incoming.cursor, distanceRemaining)
    }

    /**
     * From `before` to `after` the bus made one movement step: nothing on a
     * completed trip; between stops only the distance shrinks, by `speed`;
     * at a stop exactly the cursor of the route travelled moves on by one.
     */
    predicate Progressed(before: Place, after: Place) {
      var onOutgoing := before.outCursor != |outgoing.stops| - 1;
      if !onOutgoing && before.inCursor == |incoming.stops| - 1 then after == before
      else if before.distance > 0.0 then after == before.(distance := Sum(before.distance, -speed))
      else if onOutgoing then after.outCursor == before.outCursor + 1 && after.inCursor == before.inCursor
      else after.outCursor == before.outCursor && after.inCursor == before.inCursor + 1
    }

    /** The next Move reaches a stop. */
    ghost predicate Arriving()
      reads this, outgoing, incoming
    {
      !IsTripComplete() && distanceRemaining <= 0.0
    }

    /** Who boards during the next Move. */
    ghost function Boarders(): seq<Passenger>
      reads this, outgoing, incoming, outgoing.stops, incoming.stops
      requires Valid()
    {
      if Arriving() then BoardersAt(GetNextStop()) else []
    }

    /** Someone on board is bound for stop `s`. */
    ghost predicate Unloading(s: Stop)
      reads this
    {
      Remaining(passengers, s.id) != passengers
    }

    /** Who would board at stop `s`: nobody if someone gets off there, else as many as fit. */
    ghost function BoardersAt(s: Stop): seq<Passenger>
      reads this, s
    {
      if Unloading(s) then []
      else s.passengers[..Boardable(|s.passengers|, |passengers|, Limit())]
    }

    /**
     * The exchange of passengers at stop `s`: those bound for `s` get off,
     * and only if nobody did, the front of the queue at `s` boards while
     * there is room.
     */
    twostate predicate Exchanged(s: Stop)
      reads this, s
    {
      && passengers == (if old(Unloading(s)) then Remaining(old(passengers), s.id)
                        else old(passengers) + old(BoardersAt(s)))
      && s.passengers == old(s.passengers)[|old(BoardersAt(s))|..]
    }

    /** Accepts `p` while the manifest is below the limit; `p` is then told it is on the bus. */
    method LoadPassenger(p: Passenger) returns (accepted: bool)
      modifies this`passengers, p
      ensures accepted == (|old(passengers)| < Limit())
      ensures passengers == if accepted then old(passengers) + [p] else old(passengers)
      ensures p.Clocks() == if accepted then old(p.Clocks()).Board() else old(p.Clocks())
    {
      if |passengers| < Limit() {
        passengers := passengers + [p];
        p.GetOnBus();
        accepted := true;
      } else {
        accepted := false;
      }
    }

    /** Everyone bound for `stop` gets off; the answer says whether anyone did. */
    method UnloadPassengers(stop: Stop) returns (unloaded: bool)
      modifies this`passengers
      ensures passengers == Remaining(old(passengers), stop.id)
      ensures unloaded <==> passengers != old(passengers)
      ensures unloaded <==> exists i :: 0 <= i < |old(passengers)| && old(passengers)[i].destination == stop.id
    {
      passengers, unloaded := Unload(passengers, stop.id);
    }

    /**
     * Unloads at `stop` and, only if nobody got off, loads from it; the
     * answer says whether anyone got off or on.
     */
    method Exchange(stop: Stop) returns (exchanged: bool)
      requires |passengers| <= Limit()
      modifies this`passengers, stop`passengers, stop.passengers
      ensures |passengers| <= Limit()
      ensures Exchanged(stop)
      ensures exchanged == (old(Unloading(stop)) || old(BoardersAt(stop)) != [])
      ensures forall p :: p in old(BoardersAt(stop)) ==> p.Clocks() == old(p.Clocks()).Board()
      ensures forall p :: p in old(stop.passengers) && p !in old(BoardersAt(stop)) ==> p.Clocks() == old(p.Clocks())
    {
      exchanged := UnloadPassengers(stop);
      if !exchanged {
        exchanged := stop.LoadPassengers(this);
      }
    }

    /**
     * The arrival part of Move on the route `r` being travelled: `r` moves
     * on to its next stop, passengers are exchanged at the stop reached,
     * and the distance becomes the next leg, or has the next leg added when
     * nobody got off or on.
     */
    method ServeStop(r: Route)
      requires r.Valid() && !r.IsAtEnd() && |passengers| <= Limit()
      modifies this`passengers, this`distanceRemaining, r`cursor, r`destination, r.destination`passengers,
               r.destination.passengers
      ensures r.Valid() && r.cursor == old(r.cursor) + 1 && |passengers| <= Limit()
      ensures Exchanged(old(r.destination))
      ensures distanceRemaining == if old(Unloading(r.destination)) || old(BoardersAt(r.destination)) != []
                                   then r.GetNextStopDistance()
                                   else Sum(old(distanceRemaining), r.GetNextStopDistance())
      ensures forall p :: p in old(BoardersAt(r.destination)) ==> p.Clocks() == old(p.Clocks()).Board()
      ensures forall p :: p in old(r.destination.passengers) && p !in old(BoardersAt(r.destination)) ==>
                p.Clocks() == old(p.Clocks())
    {
      var stop := r.GetDestinationStop();
      r.NextStop();
      var exchanged := Exchange(stop);
      if !exchanged {
        distanceRemaining := Sum(distanceRemaining, r.GetNextStopDistance());
      } else {
        distanceRemaining := r.GetNextStopDistance();
      }
    }

    /**
     * One step of movement: nothing on a completed trip; between stops the
     * distance shrinks by `speed`; at a stop, the arrival of Served.
     */
    method Move() returns (moved: bool)
      requires Valid()
      modifies this`passengers, this`distanceRemaining, outgoing`cursor, outgoing`destination, incoming`cursor, incoming`destination,
               GetNextStop()`passengers, GetNextStop().passengers
      ensures Valid()
      ensures moved == !old(IsTripComplete())
      ensures Stepped(old(Snapshot()))
      ensures old(Arriving()) ==> LegsLeft() < old(LegsLeft())
      ensures forall p :: p in old(Boarders()) ==> p.Clocks() == old(p.Clocks()).Board()
      ensures forall p :: p in old(GetNextStop().passengers) && p !in old(Boarders()) ==> p.Clocks() == old(p.Clocks())
    {
      if IsTripComplete() {
        return false;
      }
      if distanceRemaining <= 0.0 {
        ghost var pre := Snapshot();
        var r := if !outgoing.IsAtEnd() then outgoing else incoming;
        assert r == RouteIn(pre) && r.destination == StopIn(pre);
        assert BoardersAt(r.destination) == BoardersIn(pre) && Unloading(r.destination) == UnloadsIn(pre);
        ServeStop(r);
        assert Served(pre);
      } else {
        distanceRemaining := Sum(distanceRemaining, -speed);
      }
      return true;
    }

    /**
     * A step from `pre` brings nobody new: everyone on board afterwards was
     * on board or queued at the stop ahead in `pre`, and that stop's queue
     * only loses passengers.
     */
    lemma StepKeepsRiders(pre: Snap)
      requires Fits(pre) && outgoing.Valid() && incoming.Valid() && Stepped(pre)
      ensures forall p :: p in passengers ==> p in pre.manifest || p in pre.queue
      ensures forall p :: p in StopIn(pre).passengers ==> p in pre.queue
    {
      if ArrivingIn(pre) {
        assert pre.queue == BoardersIn(pre) + Left(pre);
        forall p | p in passengers && UnloadsIn(pre)
          ensures p in pre.manifest
        {
          RemainingCount(pre.manifest, StopIn(pre).id, p);
        }
      }
    }

    /** One time step: every rider's clock advances, then the bus moves. */
    method Update()
      requires Valid()
      modifies this`passengers, this`distanceRemaining, outgoing`cursor, outgoing`destination, incoming`cursor, incoming`destination,
               GetNextStop()`passengers, GetNextStop().passengers, passengers
      ensures Valid()
      ensures Stepped(old(Snapshot()))
      ensures forall p :: p in old(passengers) || p in old(GetNextStop().passengers) ==>
                p.Clocks() == BoardIf(old(p.Clocks()).Ticks(multiset(old(passengers))[p]), p in old(Boarders()))
      ensures forall p :: p in passengers ==> p in old(passengers) || p in old(GetNextStop().passengers)
      ensures forall p :: p in old(GetNextStop()).passengers ==> p in old(GetNextStop().passengers)
    {
      ghost var manifest: seq<Passenger> := passengers;
      ghost var pre := Snapshot();
      ghost var boarders: seq<Passenger> := Boarders();
      ghost var queue := GetNextStop().passengers;
      UpdateAll(passengers);
      forall p | p in manifest || p in queue
        ensures p.Clocks() == old(p.Clocks()).Ticks(multiset(manifest)[p])
      {
        if p !in manifest {
          assert multiset(manifest)[p] == 0;
        }
      }
      assert Snapshot() == pre && Boarders() == boarders && GetNextStop().passengers == queue;
      label ticked:
      var _ := Move();
      StepKeepsRiders(pre);
      forall p | p in manifest || p in queue
        ensures p.Clocks() == BoardIf(old@ticked(p.Clocks()), p in boarders)
      {
        if p in boarders {
          assert p.Clocks() == old@ticked(p.Clocks()).Board();
        }
      }
    }
  }

  /**
   * Arriving at the last stop of the outgoing route with an exchange leaves
   * the bus at the positive read past the end of the outgoing legs, so the
   * next move only cruises: the first stop of the incoming route is reached
   * a tick later.
   */
  lemma TurnaroundTakesATick(b: Bus, pre: Snap)
    requires b.outgoing.Valid() && b.incoming.Valid() && b.Fits(pre) && b.ArrivingIn(pre) && b.Served(pre)
    requires b.OnOutgoing(pre) && pre.outCursor == |b.outgoing.stops| - 2
    requires b.UnloadsIn(pre) || b.BoardersIn(pre) != []
    ensures b.outgoing.IsAtEnd() && b.GetNextStop() == b.incoming.stops[b.incoming.cursor]
    ensures b.distanceRemaining == EndRead(|b.outgoing.distances|) > 0.0
    ensures !b.Arriving()
  {
  }

  /**
   * Rounding drops a subnormal operand against one of magnitude at least 1:
   * the end read left over after a turnaround vanishes in the next cruise
   * subtraction of a speed of at least 1.
   */
  lemma SumAbsorbs(a: real, b: real)
    ensures Subnormal(a) && (b >= 1.0 || b <= -1.0) ==> Sum(a, b) == b
    ensures Subnormal(b) && (a >= 1.0 || a <= -1.0) ==> Sum(a, b) == a
    ensures !Subnormal(a) && !Subnormal(b) ==> Sum(a, b) == a + b
    ensures forall n: nat, speed: real {:trigger Sum(EndRead(n), -speed)} ::
              0 < n < TwoTo52 && speed >= 1.0 ==> Sum(EndRead(n), -speed) == -speed
  {
  }

  /** Nobody rides `bus` and nobody waits at any stop of its routes. */
  ghost predicate Quiet(bus: Bus)
    reads bus, bus.outgoing, bus.incoming, bus.outgoing.stops, bus.incoming.stops
  {
    && bus.Valid() && bus.passengers == []
    && (forall s :: s in bus.outgoing.stops ==> s.passengers == [])
    && (forall s :: s in bus.incoming.stops ==> s.passengers == [])
  }

  /** One Move of a bus in a quiet state: it stays quiet, and nobody gets off or on at a stop reached. */
  method QuietMove(bus: Bus)
    requires Quiet(bus) && !bus.IsTripComplete()
    modifies bus`passengers, bus`distanceRemaining, bus.outgoing`cursor, bus.outgoing`destination,
             bus.incoming`cursor, bus.incoming`destination, bus.GetNextStop()`passengers
    ensures Quiet(bus)
    ensures old(bus.distanceRemaining) > 0.0 ==>
              bus.Where() == old(bus.Where()).(distance := Sum(old(bus.distanceRemaining), -bus.speed))
    ensures old(bus.distanceRemaining) <= 0.0 && !old(bus.outgoing.IsAtEnd()) ==>
              && bus.outgoing.cursor == old(bus.outgoing.cursor) + 1 && bus.incoming.cursor == old(bus.incoming.cursor)
              && bus.distanceRemaining == Sum(old(bus.distanceRemaining), bus.outgoing.GetNextStopDistance())
    ensures old(bus.distanceRemaining) <= 0.0 && old(bus.outgoing.IsAtEnd()) ==>
              && bus.outgoing.cursor == old(bus.outgoing.cursor) && bus.incoming.cursor == old(bus.incoming.cursor) + 1
              && bus.distanceRemaining == Sum(old(bus.distanceRemaining), bus.incoming.GetNextStopDistance())
  {
    ghost var pre := bus.Snapshot();
    assert bus.Arriving() ==> !bus.UnloadsIn(pre) && bus.BoardersIn(pre) == [];
    var _ := bus.Move();
  }

  /** Five new stops where nobody waits. */
  method QuietStops() returns (o0: Stop, o1: Stop, i0: Stop, i1: Stop, i2: Stop)
    ensures fresh(o0) && fresh(o1) && fresh(i0) && fresh(i1) && fresh(i2)
    ensures o0.passengers == o1.passengers == i0.passengers == i1.passengers == i2.passengers == []
  {
    o0 := new Stop(0);
    o1 := new Stop(1);
    i0 := new Stop(2);
    i1 := new Stop(3);
    i2 := new Stop(4);
  }

  /**
   * An empty bus with speed 1 on an outgoing route with one leg of 2 and an
   * incoming route with two legs of 1, at stops where nobody waits.
   */
  method QuietTrip(o0: Stop, o1: Stop, i0: Stop, i1: Stop, i2: Stop) returns (bus: Bus)
    requires o0.passengers == o1.passengers == i0.passengers == i1.passengers == i2.passengers == []
    ensures fresh(bus) && fresh(bus.outgoing) && fresh(bus.incoming)
    ensures bus.outgoing.stops == [o0, o1] && bus.incoming.stops == [i0, i1, i2]
    ensures Quiet(bus) && bus.speed == 1.0 && bus.distanceRemaining == 2.0
    ensures bus.outgoing.distances == [2.0] && bus.outgoing.cursor == 0
    ensures bus.incoming.distances == [1.0, 1.0] && bus.incoming.cursor == 0
  {
    var out := new Route("out", [o0, o1], [2.0], 2);
    var inn := new Route("in", [i0, i1, i2], [1.0, 1.0], 3);
    assert out.stops == [o0, o1] && inn.stops == [i0, i1, i2];
    assert out.distances == [2.0] && inn.distances == [1.0, 1.0];
    bus := new Bus("bus", out, inn, 60, 1.0);
  }

  /**
   * The trip of QuietTrip's bus: the turnaround at the end of the outgoing
   * route adds the end read to the distance left (0), the next cruise step
   * drops it again, and the trip is complete after the sixth move and not
   * before.
   */
  method EmptyBusTrip() returns (completeAfterFive: bool, completeAfterSix: bool)
    ensures !completeAfterFive && completeAfterSix
  {
    var o0, o1, i0, i1, i2 := QuietStops();
    var bus := QuietTrip(o0, o1, i0, i1, i2);
    QuietMove(bus);
    QuietMove(bus);
    assert bus.distanceRemaining == 0.0;
    QuietMove(bus);
    assert bus.distanceRemaining == EndRead(1);
    SumAbsorbs(EndRead(1), -1.0);
    QuietMove(bus);
    assert bus.distanceRemaining == -1.0 && bus.incoming.cursor == 0;
    QuietMove(bus);
    SumAbsorbs(-1.0, 1.0);
    assert bus.incoming.cursor == 1 && bus.distanceRemaining == 0.0;
    completeAfterFive := bus.IsTripComplete();
    QuietMove(bus);
    completeAfterSix := bus.IsTripComplete();
  }

  /** On the last stop of a route, the list walk for the next distance runs off the end. */
  lemma FinalLegReadsPastEnd(r: Route)
    requires r.Valid() && r.IsAtEnd()
    ensures Walk(r.distances, r.cursor) == None
  {
  }
}
