/**
 * The configuration simulator: one time step spawns buses on per-pair
 * countdowns, updates every prototype route, then updates every bus from the
 * last to the first, dropping those that have finished their trip.
 */
module Simulation {
  import opened Riders
  import opened Decimal
  import opened Transit

  /** Id of the first bus spawned. */
  const FirstBusId := 1000
  /** Capacity and speed of every spawned bus. */
  const SpawnCapacity := 60
  const SpawnSpeed := 1.0

  /**
   * One tick of the spawn countdown of a route pair with interval `k`: a
   * countdown at or below zero spawns a bus and restarts at `k`, any other
   * counts down by one.
   */
  function Countdown(c: int, k: int): int {
    if c <= 0 then k else c - 1
  }

  /**
   * The countdowns `now` are the countdowns `start` with the first `i`
   * ticked once, for the intervals `timings`.
   */
  ghost predicate Ticked(i: nat, start: seq<int>, now: seq<int>, timings: seq<int>) {
    && i <= |start| && |now| == |start| == |timings|
    && (forall j :: 0 <= j < i ==> now[j] == Countdown(start[j], timings[j]))
    && (forall j :: i <= j < |start| ==> now[j] == start[j])
  }

  /** Ticking countdown `i` extends the ticked prefix by one. */
  lemma TickedStep(i: nat, start: seq<int>, now: seq<int>, timings: seq<int>)
    requires Ticked(i, start, now, timings) && i < |start|
    ensures Ticked(i + 1, start, now[i := Countdown(now[i], timings[i])], timings)
  {
  }

  /** The countdown of a pair with interval `k`, `t` ticks after Start set it to 0. */
  function CountdownAfter(k: int, t: nat): int {
    if t == 0 then 0 else Countdown(CountdownAfter(k, t - 1), k)
  }

  /** The pair with interval `k` spawns a bus on tick `t`, counting ticks from 1. */
  predicate SpawnsOnTick(k: int, t: nat)
    requires t >= 1
  {
    CountdownAfter(k, t - 1) <= 0
  }

  lemma MulAway(d: int, n: int)
    requires n > 0
    ensures d >= 1 ==> d * n >= n
    ensures d <= -1 ==> d * n <= -n
  {
    if d >= 1 {
      assert d * n == (d - 1) * n + n;
    } else if d <= -1 {
      assert d * n == (d + 1) * n - n;
    }
  }

  lemma ModUnique(a: int, n: int, q: int, r: int)
    requires n > 0 && a == q * n + r && 0 <= r < n
    ensures a % n == r
  {
    MulAway(a / n - q, n);
    assert (a / n - q) * n == a / n * n - q * n;
  }

  /** Counting one further modulo `n`. */
  lemma ModSucc(a: nat, n: nat)
    requires n > 0
    ensures (a + 1) % n == if a % n == n - 1 then 0 else a % n + 1
  {
    if a % n == n - 1 {
      ModUnique(a + 1, n, a / n + 1, 0);
    } else {
      ModUnique(a + 1, n, a / n, a % n + 1);
    }
  }

  /** After a non-negative interval `k`, the countdown cycles k, k - 1, ..., 0. */
  lemma {:induction false} CountdownCycle(k: nat, t: nat)
    ensures CountdownAfter(k, t) == if t == 0 then 0 else k - (t - 1) % (k + 1)
  {
    if t > 1 {
      CountdownCycle(k, t - 1);
      ModSucc(t - 2, k + 1);
    }
  }

  /**
   * With interval `k` a pair spawns on ticks 1, k + 2, 2k + 3, ...: once
   * every k + 1 ticks, starting with the first.
   */
  lemma SpawnSchedule(k: nat, t: nat)
    requires t >= 1
    ensures SpawnsOnTick(k, t) <==> (t - 1) % (k + 1) == 0
  {
    CountdownCycle(k, t - 1);
    if t == 1 {
      ModUnique(0, k + 1, 0, 0);
    } else {
      ModSucc(t - 2, k + 1);
    }
  }

  /** With a negative interval a pair spawns on every tick. */
  lemma {:induction false} NegativeIntervalSpawnsEveryTick(k: int, t: nat)
    requires k < 0 && t >= 1
    ensures SpawnsOnTick(k, t)
  {
    if t > 1 {
      NegativeIntervalSpawnsEveryTick(k, t - 1);
    }
  }

  /** The pairs whose countdown in `c` is due, in increasing order. */
  function DuePairs(c: seq<int>): (r: seq<nat>)
    ensures |r| <= |c|
  {
    if c == [] then [] else DuePairs(c[..|c| - 1]) + (if c[|c| - 1] <= 0 then [|c| - 1] else [])
  }

  /** DuePairs lists only due pairs, each once, in increasing order. */
  lemma {:induction false} DuePairsSound(c: seq<int>)
    ensures forall k :: 0 <= k < |DuePairs(c)| ==> DuePairs(c)[k] < |c| && c[DuePairs(c)[k]] <= 0
    ensures forall a, b :: 0 <= a < b < |DuePairs(c)| ==> DuePairs(c)[a] < DuePairs(c)[b]
    decreases |c|
  {
    if c != [] {
      var front := c[..|c| - 1];
      DuePairsSound(front);
      var r, p := DuePairs(c), DuePairs(front);
      assert r == p + (if c[|c| - 1] <= 0 then [|c| - 1] else []);
      forall k | 0 <= k < |p|
        ensures r[k] == p[k] && p[k] < |c| - 1 && c[p[k]] <= 0
      {
        assert front[p[k]] == c[p[k]];
      }
    }
  }

  lemma DuePairsSnoc(c: seq<int>, i: nat)
    requires i < |c|
    ensures DuePairs(c[..i + 1]) == DuePairs(c[..i]) + (if c[i] <= 0 then [i] else [])
  {
    assert c[..i + 1][..i] == c[..i];
  }

  /** Every due pair is listed by DuePairs: with its postcondition, a pair spawns exactly when its countdown is due. */
  lemma {:induction false} DuePairsComplete(c: seq<int>, i: nat)
    requires i < |c| && c[i] <= 0
    ensures i in DuePairs(c)
    decreases |c|
  {
    var front := c[..|c| - 1];
    if i < |front| {
      assert front[i] == c[i];
      DuePairsComplete(front, i);
    }
  }

  /** The stops of `routes`, route after route. */
  function StopsOf(routes: seq<Route>): seq<Stop> {
    if routes == [] then [] else StopsOf(routes[..|routes| - 1]) + routes[|routes| - 1].stops
  }

  /** The queue along two runs of stops is the queue along the first, then along the second. */
  lemma {:induction false} QueueAppend(a: seq<Stop>, b: seq<Stop>)
    ensures Queue(a + b) == Queue(a) + Queue(b)
    decreases |b|
  {
    if b == [] {
      assert a + b == a;
    } else {
      var front := b[..|b| - 1];
      QueueAppend(a, front);
      assert (a + b)[..|a + b| - 1] == a + front;
    }
  }

  lemma StopsOfSnoc(routes: seq<Route>, i: nat)
    requires i < |routes|
    ensures Queue(StopsOf(routes[..i + 1])) == Queue(StopsOf(routes[..i])) + Queue(routes[i].stops)
  {
    assert routes[..i + 1][..i] == routes[..i];
    QueueAppend(StopsOf(routes[..i]), routes[i].stops);
  }

  /** Whoever waits along one of `routes` waits in the queue along all of them. */
  lemma {:induction false} StopsOfMembers(routes: seq<Route>)
    ensures forall i, p :: 0 <= i < |routes| && p in Queue(routes[i].stops) ==> p in Queue(StopsOf(routes))
    decreases |routes|
  {
    if routes != [] {
      var front := routes[..|routes| - 1];
      StopsOfMembers(front);
      QueueAppend(StopsOf(front), routes[|routes| - 1].stops);
      forall i, p | 0 <= i < |front| && p in Queue(front[i].stops)
        ensures p in Queue(StopsOf(routes))
      {
        assert front[i] == routes[i];
      }
    }
  }

  /** Routes `r` and `s` have the same name, stops and distances. */
  predicate SameLine(r: Route, s: Route) {
    r.name == s.name && r.stops == s.stops && r.distances == s.distances
  }

  /** Route.Update, which leaves the queue along any run of stops as it was. */
  method UpdateKeepingStops(route: Route, ghost others: seq<Stop>, ghost all: seq<Stop>)
    requires route.Valid()
    modifies route`routeData, Waiting(route.stops)
    ensures route.Valid() && route.Describes(route.routeData)
    ensures forall p :: p in old(Queue(route.stops)) ==>
              p.Clocks() == old(p.Clocks()).Ticks(multiset(old(Queue(route.stops)))[p])
    ensures Queue(others) == old(Queue(others)) && Queue(all) == old(Queue(all))
  {
    route.Update();
  }

  /**
   * Route `i` of `routes` updates (Route.Update); every route stays valid,
   * the snapshots refreshed so far stay refreshed, and the queues along
   * `before` and `all` are as they were.
   */
  method UpdateNth(routes: seq<Route>, i: nat, route: Route, ghost before: seq<Stop>, ghost all: seq<Stop>)
    requires i < |routes| && route == routes[i]
    requires forall r :: r in routes ==> r.Valid()
    requires forall j :: 0 <= j < i ==> routes[j].Describes(routes[j].routeData)
    modifies route`routeData, Waiting(route.stops)
    ensures forall r :: r in routes ==> r.Valid()
    ensures forall j :: 0 <= j < i + 1 ==> routes[j].Describes(routes[j].routeData)
    ensures forall p :: p in old(Queue(route.stops)) ==>
              p.Clocks() == old(p.Clocks()).Ticks(multiset(old(Queue(route.stops)))[p])
    ensures Queue(before) == old(Queue(before)) && Queue(all) == old(Queue(all))
  {
    UpdateKeepingStops(route, before, all);
    forall j | 0 <= j < i + 1
      ensures routes[j].Describes(routes[j].routeData)
    {
      if routes[j] != route {
        assert j < i;
      }
    }
  }

  /**
   * Route `i` updates, seen from the whole queue: for everyone in `queue`,
   * the steps counted since `start` grow by the number of places that
   * person holds along route `i`.
   */
  method UpdateRouteClocks(routes: seq<Route>, i: nat, route: Route, ghost queue: seq<Passenger>, ghost start: seq<Counters>,
                           ghost done: multiset<Passenger>, ghost local: seq<Passenger>)
    requires i < |routes| && route == routes[i] && forall r :: r in routes ==> r.Valid()
    requires forall j :: 0 <= j < i ==> routes[j].Describes(routes[j].routeData)
    requires |start| == |queue| && local == Queue(route.stops)
    requires forall k :: 0 <= k < |queue| ==> queue[k].Clocks() == start[k].Ticks(done[queue[k]])
    modifies route`routeData, Waiting(route.stops)
    ensures forall r :: r in routes ==> r.Valid()
    ensures forall j :: 0 <= j < i + 1 ==> routes[j].Describes(routes[j].routeData)
    ensures Queue(StopsOf(routes[..i + 1])) == old(Queue(StopsOf(routes[..i + 1])))
    ensures Queue(StopsOf(routes)) == old(Queue(StopsOf(routes)))
    ensures forall k :: 0 <= k < |queue| ==>
              queue[k].Clocks() == start[k].Ticks(done[queue[k]] + multiset(local)[queue[k]])
  {
    UpdateNth(routes, i, route, StopsOf(routes[..i + 1]), StopsOf(routes));
    forall k | 0 <= k < |queue|
      ensures queue[k].Clocks() == start[k].Ticks(done[queue[k]] + multiset(local)[queue[k]])
    {
      var p := queue[k];
      if p in local {
        assert p.Clocks() == old(p.Clocks()).Ticks(multiset(local)[p]);
      } else {
        assert p.Clocks() == old(p.Clocks());
      }
      TicksAdd(start[k], done[p], multiset(local)[p]);
    }
  }

  /**
   * The first `i` of `routes` have updated: all stay valid, the first `i`
   * describe their stops, `done` is the queue along them and each
   * passenger of `queue` (the queue along all of them, which the updates
   * leave alone) has the clock `start` gave it advanced once per place in
   * `done`.
   */
  ghost predicate RoutesUpdated(routes: seq<Route>, i: nat, queue: seq<Passenger>, start: seq<Counters>, done: seq<Passenger>)
    reads *
  {
    RoutesDone(routes, i, queue, done) && TicksDone(queue, start, done)
  }

  /** All of `routes` are valid, the first `i` describe their stops and `done` is the queue along them. */
  ghost predicate RoutesDone(routes: seq<Route>, i: nat, queue: seq<Passenger>, done: seq<Passenger>)
    reads *
  {
    && i <= |routes|
    && (forall r :: r in routes ==> r.Valid())
    && done == Queue(StopsOf(routes[..i])) && Queue(StopsOf(routes)) == queue
    && (forall j :: 0 <= j < i ==> routes[j].Describes(routes[j].routeData))
  }

  /** Each passenger of `queue` has the clock `start` gave it advanced once per place in `done`. */
  ghost predicate TicksDone(queue: seq<Passenger>, start: seq<Counters>, done: seq<Passenger>)
    reads set p | p in queue
  {
    |start| == |queue| && forall k :: 0 <= k < |queue| ==> queue[k].Clocks() == start[k].Ticks(multiset(done)[queue[k]])
  }

  /**
   * One turn of the route loop: route `i` updates, and `done`, the queue
   * along the routes updated so far, grows by the queue along route `i`.
   */
  method UpdateRoute(routes: seq<Route>, i: nat, route: Route, ghost queue: seq<Passenger>, ghost start: seq<Counters>,
                     ghost done: seq<Passenger>) returns (ghost done': seq<Passenger>)
    requires i < |routes| && route == routes[i] && forall r :: r in routes ==> r.Valid()
    requires forall j :: 0 <= j < i ==> routes[j].Describes(routes[j].routeData)
    requires |start| == |queue| && done == Queue(StopsOf(routes[..i]))
    requires forall k :: 0 <= k < |queue| ==> queue[k].Clocks() == start[k].Ticks(multiset(done)[queue[k]])
    modifies route`routeData, Waiting(route.stops)
    ensures forall r :: r in routes ==> r.Valid()
    ensures forall j :: 0 <= j < i + 1 ==> routes[j].Describes(routes[j].routeData)
    ensures done' == Queue(StopsOf(routes[..i + 1])) && Queue(StopsOf(routes)) == old(Queue(StopsOf(routes)))
    ensures forall k :: 0 <= k < |queue| ==> queue[k].Clocks() == start[k].Ticks(multiset(done')[queue[k]])
  {
    ghost var local := Queue(route.stops);
    StopsOfSnoc(routes, i);
    UpdateRouteClocks(routes, i, route, queue, start, multiset(done), local);
    done' := done + local;
    assert multiset(done') == multiset(done) + multiset(local);
  }

  /**
   * The loop of UpdateAllRoutes: every route of `routes` updates in turn,
   * starting from the clocks `start` of the queue `queue` along them.
   */
  method UpdateInOrder(routes: seq<Route>, ghost queue: seq<Passenger>, ghost start: seq<Counters>)
    requires forall r :: r in routes ==> r.Valid()
    requires queue == Queue(StopsOf(routes)) && start == ClocksOf(queue)
    modifies routes`routeData, Waiting(StopsOf(routes))
    ensures RoutesUpdated(routes, |routes|, queue, start, queue)
  {
    ghost var done: seq<Passenger> := [];
    StopsOfMembers(routes);
    for i := 0 to |routes|
      invariant RoutesUpdated(routes, i, queue, start, done)
    {
      done := UpdateRoute(routes, i, routes[i], queue, start, done);
    }
    assert routes[..|routes|] == routes;
  }

  /**
   * Every route in `routes` updates in order: each waiting passenger's
   * clock advances once for every place held along the routes, and every
   * route's snapshot is refreshed.
   */
  method UpdateAllRoutes(routes: seq<Route>)
    requires forall r :: r in routes ==> r.Valid()
    modifies routes`routeData, Waiting(StopsOf(routes))
    ensures forall r :: r in routes ==> r.Valid() && r.Describes(r.routeData)
    ensures forall p :: p in old(Queue(StopsOf(routes))) ==>
              p.Clocks() == old(p.Clocks()).Ticks(multiset(old(Queue(StopsOf(routes))))[p])
  {
    ghost var queue := Queue(StopsOf(routes));
    ghost var start := ClocksOf(queue);
    UpdateInOrder(routes, queue, start);
    forall p | p in queue
      ensures p.Clocks() == old(p.Clocks()).Ticks(multiset(queue)[p])
    {
      var k :| 0 <= k < |queue| && queue[k] == p;
    }
  }

  /** The buses of `bs` whose flag in `finished` is off, in order. */
  function Keep(bs: seq<Bus>, finished: seq<bool>): (r: seq<Bus>)
    requires |finished| == |bs|
    ensures |r| <= |bs|
  {
    if bs == [] then [] else (if finished[0] then [] else [bs[0]]) + Keep(bs[1..], finished[1..])
  }

  /** The buses of `bs` whose trip is not complete, in order. */
  function Running(bs: seq<Bus>): (r: seq<Bus>)
    reads set b | b in bs :: b.outgoing, set b | b in bs :: b.incoming
    ensures forall b :: b in r ==> b in bs
    ensures forall b :: b in bs ==> (b in r <==> !b.IsTripComplete())
  {
    if bs == [] then [] else (if bs[0].IsTripComplete() then [] else [bs[0]]) + Running(bs[1..])
  }

  /** Filtering by flags that record completion is filtering by completion. */
  lemma {:induction false} RunningIsKeep(bs: seq<Bus>, finished: seq<bool>)
    requires Finished(bs, 0, finished)
    ensures Running(bs) == Keep(bs, finished)
  {
    if bs != [] {
      assert forall k :: 0 <= k < |finished| - 1 ==> finished[1..][k] == finished[k + 1] && bs[1..][k] == bs[k + 1];
      RunningIsKeep(bs[1..], finished[1..]);
    }
  }

  /**
   * `bus` takes its time step: it stays valid, and it ends up carrying only
   * riders it carried or that waited at the stop ahead, which keeps its
   * queue's riders or loses some of them to the bus.
   */
  method Advance(bus: Bus)
    requires bus.Valid()
    modifies bus`passengers, bus`distanceRemaining, bus.outgoing`cursor, bus.outgoing`destination,
             bus.incoming`cursor, bus.incoming`destination, bus.GetNextStop()`passengers, bus.GetNextStop().passengers,
             bus.passengers
    ensures bus.Valid()
    ensures bus.Progressed(old(bus.Where()), bus.Where())
    ensures forall p :: p in bus.passengers ==> p in old(bus.passengers) || p in old(bus.GetNextStop().passengers)
    ensures forall p :: p in old(bus.GetNextStop()).passengers ==> p in old(bus.GetNextStop().passengers)
  {
    bus.Update();
  }

  /**
   * Bus `b` is the one pair `i` of `prototypes` spawns under the name
   * `name`: it has capacity 60 and speed 1, and travels the lines of
   * prototypes 2i and 2i + 1.
   */
  ghost predicate Spawned(b: Bus, name: string, i: nat, prototypes: seq<Route>) {
    && 2 * i + 1 < |prototypes|
    && b.name == name && b.capacity == SpawnCapacity && b.speed == SpawnSpeed
    && SameLine(b.outgoing, prototypes[2 * i]) && SameLine(b.incoming, prototypes[2 * i + 1])
  }

  /** Buses spawned from prototypes that only call at `stations` only call there too. */
  lemma SpawnedServe(spawned: seq<Bus>, id: int, due: seq<nat>, prototypes: seq<Route>, stations: set<Stop>)
    requires Spawns(spawned, id, due, prototypes)
    requires forall r, s :: r in prototypes && s in r.stops ==> s in stations
    ensures forall k, s :: 0 <= k < |spawned| && s in spawned[k].outgoing.stops ==> s in stations
    ensures forall k, s :: 0 <= k < |spawned| && s in spawned[k].incoming.stops ==> s in stations
  {
    forall k | 0 <= k < |spawned|
      ensures spawned[k].outgoing.stops == prototypes[2 * due[k]].stops
      ensures spawned[k].incoming.stops == prototypes[2 * due[k] + 1].stops
    {
      assert Spawned(spawned[k], SpawnNames(id, |spawned|)[k], due[k], prototypes);
    }
  }

  /** The names of `n` buses with consecutive ids from `id` on: their ids as decimal text. */
  function SpawnNames(id: int, n: nat): (names: seq<string>)
    ensures |names| == n
  {
    if n == 0 then [] else SpawnNames(id, n - 1) + [DecimalString(id + n - 1)]
  }

  /** The `k`-th of the names from `id` on is the decimal text of `id + k`. */
  lemma {:induction false} SpawnNamesAt(id: int, n: nat, k: nat)
    requires k < n
    ensures SpawnNames(id, n)[k] == DecimalString(id + k)
  {
    if k < n - 1 {
      SpawnNamesAt(id, n - 1, k);
    }
  }

  /** The names of `a + b` buses are those of the first `a`, then those of the next `b`. */
  lemma {:induction false} SpawnNamesAppend(id: int, a: nat, b: nat)
    ensures SpawnNames(id, a + b) == SpawnNames(id, a) + SpawnNames(id + a, b)
  {
    if b > 0 {
      SpawnNamesAppend(id, a, b - 1);
      var last := [DecimalString(id + a + b - 1)];
      assert SpawnNames(id + a, b) == SpawnNames(id + a, b - 1) + last;
      assert SpawnNames(id, a + b) == (SpawnNames(id, a) + SpawnNames(id + a, b - 1)) + last;
    } else {
      assert SpawnNames(id, a) + [] == SpawnNames(id, a);
    }
  }

  /**
   * The buses `buses` are the ones the pairs `due` spawn, in order, named
   * after consecutive ids from `id` on.
   */
  ghost predicate Spawns(buses: seq<Bus>, id: int, due: seq<nat>, prototypes: seq<Route>) {
    |buses| == |due| && forall k :: 0 <= k < |buses| ==> Spawned(buses[k], SpawnNames(id, |buses|)[k], due[k], prototypes)
  }

  /** Spawning for `due` and then for `due'` is spawning for both in turn. */
  lemma SpawnsAppend(buses: seq<Bus>, id: int, due: seq<nat>, buses': seq<Bus>, due': seq<nat>, prototypes: seq<Route>)
    requires Spawns(buses, id, due, prototypes) && Spawns(buses', id + |buses|, due', prototypes)
    ensures Spawns(buses + buses', id, due + due', prototypes)
  {
    var names, names' := SpawnNames(id, |buses|), SpawnNames(id + |buses|, |buses'|);
    SpawnNamesAppend(id, |buses|, |buses'|);
    forall k | 0 <= k < |buses| + |buses'|
      ensures Spawned((buses + buses')[k], (names + names')[k], (due + due')[k], prototypes)
    {
      if k >= |buses| {
        assert Spawned(buses'[k - |buses|], names'[k - |buses|], due'[k - |buses|], prototypes);
      }
    }
  }

  /**
   * The first `i` pairs of countdowns `start` have ticked to `now` (for
   * the intervals `timings`), spawning `spawned` after the buses `before`
   * of `fleet` for the due pairs `due`, with ids from `id` up to `nextId`.
   */
  ghost predicate SpawnProgress(i: nat, start: seq<int>, due: seq<nat>, before: seq<Bus>, spawned: seq<Bus>, id: int,
                                now: seq<int>, timings: seq<int>, fleet: seq<Bus>, nextId: int, prototypes: seq<Route>)
  {
    && Ticked(i, start, now, timings) && 2 * |start| <= |prototypes|
    && due == DuePairs(start[..i])
    && fleet == before + spawned
    && nextId == id + |spawned|
    && Spawns(spawned, id, due, prototypes)
  }

  /** Pair `i` ticking and spawning `added` if it is due carries the spawn phase one pair further. */
  lemma SpawnProgressStep(i: nat, start: seq<int>, due: seq<nat>, before: seq<Bus>, spawned: seq<Bus>, id: int,
                          now: seq<int>, timings: seq<int>, fleet: seq<Bus>, nextId: int, prototypes: seq<Route>, added: seq<Bus>)
    requires SpawnProgress(i, start, due, before, spawned, id, now, timings, fleet, nextId, prototypes) && i < |start|
    requires Spawns(added, nextId, if now[i] <= 0 then [i] else [], prototypes)
    ensures SpawnProgress(i + 1, start, due + (if start[i] <= 0 then [i] else []), before, spawned + added, id,
                          now[i := Countdown(now[i], timings[i])], timings, fleet + added, nextId + |added|, prototypes)
  {
    assert now[i] == start[i];
    assert DuePairs(start[..i + 1]) == due + (if start[i] <= 0 then [i] else []) by {
      DuePairsSnoc(start, i);
    }
    assert Ticked(i + 1, start, now[i := Countdown(now[i], timings[i])], timings) by {
      TickedStep(i, start, now, timings);
    }
    assert Spawns(spawned + added, id, due + (if start[i] <= 0 then [i] else []), prototypes) by {
      SpawnsAppend(spawned, id, due, added, if start[i] <= 0 then [i] else [], prototypes);
    }
    assert fleet + added == before + (spawned + added);
  }

  /** Where each bus of `fleet` is, place by place. */
  ghost function Places(fleet: seq<Bus>): (r: seq<Place>)
    reads set b | b in fleet, set b | b in fleet :: b.outgoing, set b | b in fleet :: b.incoming
    ensures |r| == |fleet| && forall k {:trigger r[k]} :: 0 <= k < |fleet| ==> r[k] == fleet[k].Where()
  {
    if fleet == [] then [] else [fleet[0].Where()] + Places(fleet[1..])
  }

  /**
   * The buses of `fleet` from place `i` on have taken one movement step from
   * where `before` records them, and those before place `i` have not moved.
   */
  ghost predicate Moved(fleet: seq<Bus>, before: seq<Place>, i: nat)
    reads set b | b in fleet, set b | b in fleet :: b.outgoing, set b | b in fleet :: b.incoming
  {
    && |before| == |fleet| && i <= |fleet|
    && (forall k :: 0 <= k < i ==> fleet[k].Where() == before[k])
    && (forall k :: i <= k < |fleet| ==> fleet[k].Progressed(before[k], fleet[k].Where()))
  }

  /** `finished` records, for the buses of `fleet` from place `i` on, whether their trips are complete. */
  ghost predicate Finished(fleet: seq<Bus>, i: nat, finished: seq<bool>)
    reads set b | b in fleet :: b.outgoing, set b | b in fleet :: b.incoming
  {
    i + |finished| == |fleet| && forall k :: 0 <= k < |finished| ==> finished[k] == fleet[i + k].IsTripComplete()
  }

  /** One more flag in front: the record reaches back to place `i`. */
  lemma FinishedCons(fleet: seq<Bus>, i: nat, finished: seq<bool>, complete: bool)
    requires i < |fleet| && Finished(fleet, i + 1, finished) && complete == fleet[i].IsTripComplete()
    ensures Finished(fleet, i, [complete] + finished)
  {
    forall k | 0 <= k < |finished| + 1
      ensures ([complete] + finished)[k] == fleet[i + k].IsTripComplete()
    {
      if k > 0 {
        assert ([complete] + finished)[k] == finished[k - 1] && fleet[i + k] == fleet[i + 1 + (k - 1)];
      }
    }
  }

  /** Keeping from place `i` on is deciding on bus `i` and keeping from place `i + 1` on. */
  lemma KeepCons(fleet: seq<Bus>, i: nat, finished: seq<bool>, complete: bool)
    requires i < |fleet| && i + 1 + |finished| == |fleet|
    ensures Keep(fleet[i..], [complete] + finished) == (if complete then [] else [fleet[i]]) + Keep(fleet[i + 1..], finished)
  {
    assert fleet[i..][1..] == fleet[i + 1..];
    assert ([complete] + finished)[1..] == finished;
  }

  /**
   * The fleet `bs` is `fleet` up to place `i`, then `kept`: dropping its
   * bus `i` leaves `fleet` before place `i` followed by `kept`.
   */
  lemma DropPlace(fleet: seq<Bus>, i: nat, kept: seq<Bus>, bs: seq<Bus>)
    requires i < |fleet| && bs == fleet[..i + 1] + kept
    ensures bs[..i] + bs[i + 1..] == fleet[..i] + kept
    ensures bs == fleet[..i] + ([fleet[i]] + kept)
  {
    assert bs[..i] == fleet[..i];
    assert bs[i + 1..] == kept;
    assert fleet[..i + 1] == fleet[..i] + [fleet[i]];
  }

  /**
   * The fleet `bs` is `fleet` up to place `i`, then the buses kept after
   * place `i`: after deciding on bus `i` (dropping it when `complete`) it
   * is `fleet` before place `i` followed by the buses kept from place `i` on.
   */
  lemma KeepStep(fleet: seq<Bus>, i: nat, finished: seq<bool>, complete: bool, bs: seq<Bus>)
    requires i < |fleet| && i + 1 + |finished| == |fleet| && bs == fleet[..i + 1] + Keep(fleet[i + 1..], finished)
    ensures (if complete then bs[..i] + bs[i + 1..] else bs) == fleet[..i] + Keep(fleet[i..], [complete] + finished)
  {
    KeepCons(fleet, i, finished, complete);
    DropPlace(fleet, i, Keep(fleet[i + 1..], finished), bs);
  }

  /** Every bus of `fleet` is at place k of `places` for both of its routes. */
  ghost predicate Placed(fleet: seq<Bus>, places: map<Route, nat>) {
    forall k :: 0 <= k < |fleet| ==>
      && fleet[k].outgoing in places && places[fleet[k].outgoing] == k
      && fleet[k].incoming in places && places[fleet[k].incoming] == k
  }

  /**
   * A bus named by the decimal text of `id`, with capacity 60 and speed 1,
   * travelling fresh copies of `outbound` and `inbound`.
   */
  method NewBus(id: int, outbound: Route, inbound: Route) returns (bus: Bus)
    requires outbound.Valid() && inbound.Valid()
    ensures fresh(bus) && fresh(bus.outgoing) && fresh(bus.incoming) && bus.Valid()
    ensures bus.name == DecimalString(id) && bus.capacity == SpawnCapacity && bus.speed == SpawnSpeed
    ensures bus.outgoing.IsCopyOf(outbound) && bus.incoming.IsCopyOf(inbound)
    ensures bus.passengers == [] && bus.distanceRemaining == bus.outgoing.GetNextStopDistance()
  {
    var outCopy := outbound.Clone();
    var inCopy := inbound.Clone();
    bus := new Bus(DecimalString(id), outCopy, inCopy, SpawnCapacity, SpawnSpeed);
  }

  class ConfigurationSimulator {
    /** The routes the configuration defines, two per pair: outbound at 2i, inbound at 2i + 1. */
    const config: seq<Route>
    /** Interval between buses of each route pair. */
    var busStartTimings: seq<int>
    /** Countdown until the next bus of each pair. */
    var timeSinceLastBus: seq<int>
    var numTimeSteps: int
    var simulationTimeElapsed: int
    var prototypeRoutes: seq<Route>
    var busses: seq<Bus>
    /** Id of the next bus. */
    var busId: int
    /** The place in the fleet of the bus that travels each route. */
    ghost var owner: map<Route, nat>

    /**
     * The prototypes are the configured routes (or none before Start); the
     * configured routes are valid and travelled by no bus; every bus is
     * valid and both of the routes it travels are owned by its place in
     * the fleet, so no bus is in the fleet twice and no two buses share a
     * route.
     */
    ghost predicate Valid()
      reads this`prototypeRoutes, this`busses, this`owner, busses`passengers
      reads config`cursor, config`destination, owner.Keys`cursor, owner.Keys`destination
    {
      && (prototypeRoutes == [] || prototypeRoutes == config)
      && (forall r :: r in config ==> r.Valid() && r !in owner)
      && forall i :: 0 <= i < |busses| ==>
           && busses[i].outgoing in owner && owner[busses[i].outgoing] == i
           && busses[i].incoming in owner && owner[busses[i].incoming] == i
           && busses[i].Valid()
    }

    /** One countdown per interval. */
    ghost predicate Paced()
      reads this`timeSinceLastBus, this`busStartTimings
    {
      |timeSinceLastBus| == |busStartTimings|
    }

    /** A simulator over the configured routes `routes`; bus ids start at 1000. */
    constructor (routes: seq<Route>)
      requires forall r :: r in routes ==> r.Valid()
      ensures Valid() && Paced()
      ensures config == routes && prototypeRoutes == [] && busses == []
      ensures busStartTimings == [] && timeSinceLastBus == [] && busId == FirstBusId
    {
      config := routes;
      busStartTimings, timeSinceLastBus := [], [];
      numTimeSteps, simulationTimeElapsed := 0, 0;
      prototypeRoutes, busses := [], [];
      busId := FirstBusId;
      owner := map[];
    }

    /**
     * Takes the intervals and the number of steps, sets one countdown per
     * interval to 0 and the clock to 0, and has every configured route
     * refresh its snapshot.
     */
    method Start(timings: seq<int>, steps: int)
      requires Valid()
      modifies this`busStartTimings, this`numTimeSteps, this`timeSinceLastBus, this`simulationTimeElapsed, this`prototypeRoutes
      modifies config`routeData
      ensures Valid() && Paced()
      ensures busStartTimings == timings && numTimeSteps == steps && simulationTimeElapsed == 0
      ensures |timeSinceLastBus| == |timings| && forall i :: 0 <= i < |timings| ==> timeSinceLastBus[i] == 0
      ensures prototypeRoutes == config
      ensures forall r :: r in config ==> r.Describes(r.routeData)
      ensures busses == old(busses) && busId == old(busId)
    {
      busStartTimings := timings;
      numTimeSteps := steps;
      ResetCountdowns();
      simulationTimeElapsed := 0;
      LoadPrototypes();
    }

    /** The countdowns are resized to one per interval and all set to 0. */
    method ResetCountdowns()
      modifies this`timeSinceLastBus
      ensures |timeSinceLastBus| == |busStartTimings|
      ensures forall i :: 0 <= i < |timeSinceLastBus| ==> timeSinceLastBus[i] == 0
    {
      var before := timeSinceLastBus;
      timeSinceLastBus := seq(|busStartTimings|, i => if 0 <= i < |before| then before[i] else 0);
      for i := 0 to |timeSinceLastBus|
        invariant |timeSinceLastBus| == |busStartTimings|
        invariant forall j :: 0 <= j < i ==> timeSinceLastBus[j] == 0
      {
        timeSinceLastBus := timeSinceLastBus[i := 0];
      }
    }

    /** The configured routes become the prototypes, and each refreshes its snapshot. */
    method LoadPrototypes()
      requires Valid()
      modifies this`prototypeRoutes, config`routeData
      ensures Valid() && prototypeRoutes == config
      ensures forall r :: r in config ==> r.Describes(r.routeData)
    {
      prototypeRoutes := config;
      for i := 0 to |prototypeRoutes|
        invariant Valid() && prototypeRoutes == config
        invariant forall j :: 0 <= j < i ==> prototypeRoutes[j].Describes(prototypeRoutes[j].routeData)
      {
        prototypeRoutes[i].UpdateRouteData();
      }
    }

    /**
     * The route phase of a time step: every prototype route updates in
     * turn, so a passenger waiting along them has the clock advanced once
     * per place in the queue along all prototypes (a stop shared by two
     * routes counts twice), and every prototype's snapshot is refreshed.
     */
    method UpdateRoutes()
      requires Valid()
      modifies prototypeRoutes`routeData, Waiting(StopsOf(prototypeRoutes))
      ensures Valid()
      ensures forall r :: r in prototypeRoutes ==> r.Describes(r.routeData)
      ensures forall p :: p in old(Queue(StopsOf(prototypeRoutes))) ==>
                p.Clocks() == old(p.Clocks()).Ticks(multiset(old(Queue(StopsOf(prototypeRoutes))))[p])
    {
      UpdateAllRoutes(prototypeRoutes);
    }

    /**
     * The spawn phase of a tick, where the prototypes call only at
     * `stations`: the buses it adds call there too and carry nobody.
     */
    method SpawnPhase(ghost stations: set<Stop>, ghost riders: set<Passenger>) returns (ghost spawned: seq<Bus>)
      requires Valid() && Paced() && 2 * |timeSinceLastBus| <= |prototypeRoutes| && Serves(stations, riders)
      requires forall r, s :: r in prototypeRoutes && s in r.stops ==> s in stations
      modifies this`busses, this`timeSinceLastBus, this`busId, this`owner
      ensures Valid() && Paced() && Serves(stations, riders)
      ensures |timeSinceLastBus| == |old(timeSinceLastBus)|
      ensures forall i :: 0 <= i < |timeSinceLastBus| ==>
                timeSinceLastBus[i] == Countdown(old(timeSinceLastBus)[i], busStartTimings[i])
      ensures busses == old(busses) + spawned
      ensures Spawns(spawned, old(busId), DuePairs(old(timeSinceLastBus)), prototypeRoutes) && busId == old(busId) + |spawned|
      ensures forall b :: b in busses ==> b in old(busses) || fresh(b)
      ensures forall r :: r in owner ==> r in old(owner) || fresh(r)
    {
      spawned := SpawnBuses();
      SpawnedServe(spawned, old(busId), DuePairs(old(timeSinceLastBus)), prototypeRoutes, stations);
    }

    /** The route phase as the rest of the tick sees it: the fleet stays valid. */
    method RefreshRoutes()
      requires Valid()
      modifies prototypeRoutes`routeData, Waiting(StopsOf(prototypeRoutes))
      ensures Valid() && unchanged(this)
      ensures forall k :: 0 <= k < |busses| ==> busses[k].Where() == old(busses[k].Where())
      ensures forall r :: r in prototypeRoutes ==> r.Describes(r.routeData)
      ensures forall p :: p in old(Queue(StopsOf(prototypeRoutes))) ==>
                p.Clocks() == old(p.Clocks()).Ticks(multiset(old(Queue(StopsOf(prototypeRoutes))))[p])
    {
      UpdateRoutes();
    }

    /**
     * `stations` holds every stop of every bus's routes, and `riders` holds
     * everyone on a bus or waiting at one of the stations.
     */
    ghost predicate Serves(stations: set<Stop>, riders: set<Passenger>)
      reads this`busses, busses`passengers, stations`passengers
    {
      && (forall k, s :: 0 <= k < |busses| && s in busses[k].outgoing.stops ==> s in stations)
      && (forall k, s :: 0 <= k < |busses| && s in busses[k].incoming.stops ==> s in stations)
      && (forall k, p :: 0 <= k < |busses| && p in busses[k].passengers ==> p in riders)
      && (forall s, p :: s in stations && p in s.passengers ==> p in riders)
    }

    /** The bus at place `i` leaves the fleet; those behind it move up one place. */
    method Retire(i: nat, ghost stations: set<Stop>, ghost riders: set<Passenger>)
      requires Valid() && Serves(stations, riders) && i < |busses|
      modifies this`busses, this`owner
      ensures Valid() && Serves(stations, riders)
      ensures busses == old(busses[..i] + busses[i + 1..]) && owner.Keys == old(owner.Keys)
    {
      busses := busses[..i] + busses[i + 1..];
      owner := map r | r in owner :: if owner[r] > i then owner[r] - 1 else owner[r];
      forall k | 0 <= k < |busses|
        ensures busses[k] == old(busses)[if k < i then k else k + 1]
      {
      }
    }

    /**
     * The bus at place `i` takes its time step (Bus.Update), and the fleet
     * stays valid: the step only touches that bus, its own routes, the
     * stop ahead and passengers.
     */
    method StepBus(i: nat, bus: Bus)
      requires Valid() && i < |busses| && busses[i] == bus
      modifies bus`passengers, bus`distanceRemaining, bus.outgoing`cursor, bus.outgoing`destination,
               bus.incoming`cursor, bus.incoming`destination, bus.GetNextStop()`passengers, bus.GetNextStop().passengers,
               bus.passengers
      ensures Valid()
      ensures bus.Progressed(old(bus.Where()), bus.Where())
      ensures forall p :: p in bus.passengers ==> p in old(bus.passengers) || p in old(bus.GetNextStop().passengers)
      ensures forall p :: p in old(bus.GetNextStop()).passengers ==> p in old(bus.GetNextStop().passengers)
    {
      // every other place owns its own routes, which bus i's step leaves alone
      assert forall j :: 0 <= j < |busses| && j != i ==>
        && busses[j] != bus
        && busses[j].outgoing != bus.outgoing && busses[j].outgoing != bus.incoming
        && busses[j].incoming != bus.outgoing && busses[j].incoming != bus.incoming;
      Advance(bus);
    }

    /**
     * The bus at place `i`, which is place `i` of `fleet` as well, takes
     * its time step. Everything stays valid and served, and no other bus
     * of `fleet` changes whether its trip is complete.
     */
    method UpdateBus(i: nat, bus: Bus, ghost fleet: seq<Bus>, ghost places: map<Route, nat>, ghost finished: seq<bool>,
                     ghost before: seq<Place>, ghost stations: set<Stop>, ghost riders: set<Passenger>)
      requires Valid() && Serves(stations, riders) && i < |busses| && busses[i] == bus
      requires i < |fleet| && fleet[i] == bus && Placed(fleet, places) && Finished(fleet, i + 1, finished)
      requires Moved(fleet, before, i + 1)
      modifies bus`passengers, bus`distanceRemaining, bus.outgoing`cursor, bus.outgoing`destination,
               bus.incoming`cursor, bus.incoming`destination, stations`passengers, riders
      ensures Valid() && Serves(stations, riders) && bus.Valid()
      ensures bus.Progressed(old(bus.Where()), bus.Where())
      ensures forall k :: 0 <= k < |fleet| && k != i ==> fleet[k].Where() == old(fleet[k].Where())
      ensures forall k :: 0 <= k < |fleet| && k != i ==> fleet[k].IsTripComplete() == old(fleet[k].IsTripComplete())
      ensures Finished(fleet, i + 1, finished) && Moved(fleet, before, i)
    {
      StepBus(i, bus);
    }

    /**
     * The bus phase of a time step: from the back of the fleet to the
     * front, each bus takes its time step and leaves the fleet if its trip
     * is then complete.
     */
    method UpdateBuses(ghost stations: set<Stop>, ghost riders: set<Passenger>)
      requires Valid() && Serves(stations, riders)
      modifies this`busses, this`owner, busses`passengers, busses`distanceRemaining,
               owner.Keys`cursor, owner.Keys`destination, stations`passengers, riders
      ensures Valid() && Serves(stations, riders)
      ensures forall k :: 0 <= k < |old(busses)| ==> old(busses)[k].Progressed(old(busses[k].Where()), old(busses)[k].Where())
      ensures busses == Running(old(busses))
    {
      ghost var fleet := busses;
      ghost var places := owner;
      ghost var finished: seq<bool> := [];
      ghost var before := Places(fleet);
      var i := |busses|;
      assert Placed(fleet, places);
      while i > 0
        invariant 0 <= i <= |fleet|
        invariant Valid() && Serves(stations, riders) && owner.Keys == places.Keys
        invariant Finished(fleet, i, finished) && busses == fleet[..i] + Keep(fleet[i..], finished)
        invariant Moved(fleet, before, i)
      {
        i := i - 1;
        finished := Sweep(i, busses[i], fleet, places, finished, before, stations, riders);
      }
      assert i == 0 && fleet[0..] == fleet;
      RunningIsKeep(fleet, finished);
    }

    /**
     * One tick of the simulation: the clock advances, every interval's
     * countdown ticks and each due pair spawns a bus, the prototype routes
     * refresh their data, and every bus moves, those whose trip is over
     * leaving the fleet.
     */
    method Update(ghost stations: set<Stop>, ghost riders: set<Passenger>) returns (ghost spawned: seq<Bus>)
      requires Valid() && Paced() && 2 * |timeSinceLastBus| <= |prototypeRoutes| && Serves(stations, riders)
      requires forall r, s :: r in prototypeRoutes && s in r.stops ==> s in stations
      modifies this`simulationTimeElapsed, this`busses, this`timeSinceLastBus, this`busId, this`owner
      modifies prototypeRoutes`routeData, Waiting(StopsOf(prototypeRoutes))
      modifies busses`passengers, busses`distanceRemaining, owner.Keys`cursor, owner.Keys`destination
      modifies stations`passengers, riders
      ensures Valid() && Paced() && Serves(stations, riders)
      ensures simulationTimeElapsed == old(simulationTimeElapsed) + 1
      ensures |timeSinceLastBus| == |old(timeSinceLastBus)|
      ensures forall i :: 0 <= i < |timeSinceLastBus| ==>
                timeSinceLastBus[i] == Countdown(old(timeSinceLastBus)[i], busStartTimings[i])
      ensures Spawns(spawned, old(busId), DuePairs(old(timeSinceLastBus)), prototypeRoutes) && busId == old(busId) + |spawned|
      ensures busses == Running(old(busses) + spawned)
    {
      ghost var waiting := Waiting(StopsOf(prototypeRoutes));
      simulationTimeElapsed := simulationTimeElapsed + 1;
      spawned := SpawnPhase(stations, riders);
      assert Waiting(StopsOf(prototypeRoutes)) == waiting;
      assert forall i :: 0 <= i < |busses| ==> busses[i] in old(busses) || fresh(busses[i]);
      assert forall r :: r in owner ==> r in old(owner) || fresh(r);
      UpdateRoutesAndBuses(stations, riders);
    }

    /** The route phase and then the bus phase of a tick. */
    method UpdateRoutesAndBuses(ghost stations: set<Stop>, ghost riders: set<Passenger>)
      requires Valid() && Serves(stations, riders)
      modifies prototypeRoutes`routeData, Waiting(StopsOf(prototypeRoutes))
      modifies this`busses, this`owner, busses`passengers, busses`distanceRemaining, owner.Keys`cursor, owner.Keys`destination
      modifies stations`passengers, riders
      ensures Valid() && Serves(stations, riders)
      ensures forall k :: 0 <= k < |old(busses)| ==> old(busses)[k].Progressed(old(busses[k].Where()), old(busses)[k].Where())
      ensures busses == Running(old(busses))
      ensures unchanged(this`simulationTimeElapsed, this`timeSinceLastBus, this`busStartTimings, this`busId, this`prototypeRoutes)
    {
      RefreshRoutes();
      UpdateBuses(stations, riders);
    }

    /**
     * One turn of the bus phase: the bus at place `i`, the last one not yet
     * dealt with, takes its time step and leaves the fleet if its trip is
     * then complete.
     */
    method Sweep(i: nat, bus: Bus, ghost fleet: seq<Bus>, ghost places: map<Route, nat>, ghost finished: seq<bool>,
                 ghost before: seq<Place>, ghost stations: set<Stop>, ghost riders: set<Passenger>) returns (ghost finished': seq<bool>)
      requires Valid() && Serves(stations, riders) && owner.Keys == places.Keys && Placed(fleet, places)
      requires i < |fleet| && fleet[i] == bus && Finished(fleet, i + 1, finished)
      requires busses == fleet[..i + 1] + Keep(fleet[i + 1..], finished) && Moved(fleet, before, i + 1)
      modifies this`busses, this`owner, bus`passengers, bus`distanceRemaining, bus.outgoing`cursor, bus.outgoing`destination,
               bus.incoming`cursor, bus.incoming`destination, stations`passengers, riders
      ensures Valid() && Serves(stations, riders) && owner.Keys == places.Keys
      ensures Finished(fleet, i, finished') && busses == fleet[..i] + Keep(fleet[i..], finished')
      ensures Moved(fleet, before, i)
    {
      UpdateBus(i, bus, fleet, places, finished, before, stations, riders);
      finished' := Decide(i, bus, fleet, finished, stations, riders);
    }

    /**
     * Bus `i`, whose step is done, leaves the fleet if its trip is complete;
     * the record of decisions reaches back to place `i`.
     */
    method Decide(i: nat, bus: Bus, ghost fleet: seq<Bus>, ghost finished: seq<bool>,
                  ghost stations: set<Stop>, ghost riders: set<Passenger>) returns (ghost finished': seq<bool>)
      requires Valid() && Serves(stations, riders)
      requires i < |fleet| && fleet[i] == bus && Finished(fleet, i + 1, finished)
      requires busses == fleet[..i + 1] + Keep(fleet[i + 1..], finished)
      modifies this`busses, this`owner
      ensures Valid() && Serves(stations, riders) && owner.Keys == old(owner.Keys)
      ensures Finished(fleet, i, finished') && busses == fleet[..i] + Keep(fleet[i..], finished')
    {
      var complete := bus.IsTripComplete();
      KeepStep(fleet, i, finished, complete, busses);
      FinishedCons(fleet, i, finished, complete);
      if complete {
        Retire(i, stations, riders);
      }
      finished' := [complete] + finished;
    }

    /**
     * The spawn phase of a time step: each pair whose countdown is due gets
     * a new bus with the next id, and its countdown restarts at its
     * interval; every other countdown drops by one. The new buses join the
     * end of the fleet in pair order.
     */
    method SpawnBuses() returns (ghost spawned: seq<Bus>)
      requires Valid() && Paced() && 2 * |timeSinceLastBus| <= |prototypeRoutes|
      modifies this`busses, this`timeSinceLastBus, this`busId, this`owner
      ensures Valid() && Paced()
      ensures |timeSinceLastBus| == |old(timeSinceLastBus)|
      ensures forall i :: 0 <= i < |timeSinceLastBus| ==>
                timeSinceLastBus[i] == Countdown(old(timeSinceLastBus)[i], busStartTimings[i])
      ensures busses == old(busses) + spawned
      ensures Spawns(spawned, old(busId), DuePairs(old(timeSinceLastBus)), prototypeRoutes) && busId == old(busId) + |spawned|
      ensures forall b :: b in spawned ==> fresh(b) && b.passengers == []
      ensures forall r :: r in owner ==> r in old(owner) || fresh(r)
    {
      ghost var start := timeSinceLastBus;
      ghost var due: seq<nat> := [];
      spawned := [];
      for i := 0 to |timeSinceLastBus|
        invariant Spawning(i, start, due, old(busses), spawned, old(busId))
        invariant forall b :: b in spawned ==> fresh(b) && b.passengers == []
        invariant forall r :: r in owner ==> r in old(owner) || fresh(r)
      {
        due, spawned := SpawnStep(i, start, due, old(busses), spawned, old(busId));
      }
      assert start[..|start|] == start;
    }

    /**
     * The fleet is valid and the spawn phase has come as far as
     * SpawnProgress says of the countdowns, fleet and next id.
     */
    ghost predicate Spawning(i: nat, start: seq<int>, due: seq<nat>, before: seq<Bus>, spawned: seq<Bus>, id: int)
      reads this, busses, config, owner.Keys
    {
      && Valid()
      && SpawnProgress(i, start, due, before, spawned, id, timeSinceLastBus, busStartTimings, busses, busId, prototypeRoutes)
    }

    /** Pair `i` takes its turn in the spawn phase. */
    method SpawnStep(i: nat, ghost start: seq<int>, ghost due: seq<nat>, ghost before: seq<Bus>, ghost spawned: seq<Bus>, ghost id: int)
        returns (ghost due': seq<nat>, ghost spawned': seq<Bus>)
      requires Spawning(i, start, due, before, spawned, id) && i < |start|
      modifies this`busses, this`timeSinceLastBus, this`busId, this`owner
      ensures Spawning(i + 1, start, due', before, spawned', id)
      ensures forall b :: b in spawned' ==> b in spawned || (fresh(b) && b.passengers == [])
      ensures forall r :: r in owner ==> r in old(owner) || fresh(r)
    {
      ghost var countdowns, fleet, nextId := timeSinceLastBus, busses, busId;
      var added := SpawnPair(i);
      SpawnProgressStep(i, start, due, before, spawned, id, countdowns, busStartTimings, fleet, nextId, prototypeRoutes, added);
      due', spawned' := due + (if start[i] <= 0 then [i] else []), spawned + added;
    }

    /** Adds `bus`, valid and with two routes no other bus travels, at the end of the fleet. */
    method Enlist(bus: Bus)
      requires Valid() && bus.Valid() && bus.outgoing !in owner && bus.incoming !in owner
      requires bus.outgoing !in config && bus.incoming !in config
      modifies this`busses, this`owner
      ensures Valid() && busses == old(busses) + [bus] && owner.Keys == old(owner.Keys) + {bus.outgoing, bus.incoming}
    {
      busses := busses + [bus];
      owner := owner[bus.outgoing := |busses| - 1][bus.incoming := |busses| - 1];
    }

    /**
     * The countdown of pair `i` ticks; if it was due, a bus with the next
     * id and copies of the pair's prototypes joins the end of the fleet.
     */
    method SpawnPair(i: nat) returns (ghost spawned: seq<Bus>)
      requires Valid() && Paced() && i < |timeSinceLastBus| && 2 * |timeSinceLastBus| <= |prototypeRoutes|
      modifies this`busses, this`timeSinceLastBus, this`busId, this`owner
      ensures Valid() && Paced()
      ensures timeSinceLastBus == old(timeSinceLastBus)[i := Countdown(old(timeSinceLastBus[i]), busStartTimings[i])]
      ensures busses == old(busses) + spawned && busId == old(busId) + |spawned|
      ensures Spawns(spawned, old(busId), if old(timeSinceLastBus[i]) <= 0 then [i] else [], prototypeRoutes)
      ensures forall b :: b in spawned ==> fresh(b) && b.passengers == []
      ensures forall r :: r in owner ==> r in old(owner) || fresh(r)
    {
      if 0 >= timeSinceLastBus[i] {
        var bus := Commission(i);
        spawned := [bus];
        timeSinceLastBus := timeSinceLastBus[i := busStartTimings[i]];
      } else {
        spawned := [];
        timeSinceLastBus := timeSinceLastBus[i := timeSinceLastBus[i] - 1];
      }
    }

    /**
     * A bus with the next id, travelling fresh copies of prototypes 2i and
     * 2i + 1, empty and one leg from its first stop, joins the end of the
     * fleet.
     */
    method Commission(i: nat) returns (bus: Bus)
      requires Valid() && 2 * i + 1 < |prototypeRoutes|
      modifies this`busses, this`busId, this`owner
      ensures Valid() && busses == old(busses) + [bus] && busId == old(busId) + 1
      ensures fresh(bus) && Spawned(bus, DecimalString(old(busId)), i, prototypeRoutes)
      ensures forall r :: r in owner ==> r in old(owner) || fresh(r)
      ensures bus.outgoing.IsCopyOf(prototypeRoutes[2 * i]) && bus.incoming.IsCopyOf(prototypeRoutes[2 * i + 1])
      ensures bus.Valid() && bus.passengers == [] && bus.distanceRemaining == bus.outgoing.GetNextStopDistance()
    {
      var outbound := prototypeRoutes[2 * i];
      var inbound := prototypeRoutes[2 * i + 1];
      bus := NewBus(busId, outbound, inbound);
      Enlist(bus);
      busId := busId + 1;
    }
  }
}
