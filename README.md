# Campus bus simulation, modelled in Dafny

This project models the core of a discrete-time campus transit simulation
and proves properties of it. Passengers wait in FIFO queues at stops. Buses
travel an outgoing and then an incoming route, unloading and loading
passengers at each stop. A configuration simulator drives one time step
("tick") at a time:

1. It spawns buses on per-pair countdowns.
2. It updates every prototype route.
3. It updates every bus, from the back of the fleet to the front, dropping
   the buses whose trip is over.

The model has four modules:

- `Riders` (`riders.dfy`) holds passengers and their two clocks, time at the
  stop and time on the bus. The clocks are specified through the value type
  `Counters`, and the history lemmas replay a sequence of `Update` and
  `GetOnBus` calls.
- `Decimal` (`decimal.dfy`) is the decimal text of an integer, as
  `std::to_string` writes it. It is used for bus names and stop ids in route
  snapshots, and a round-trip proof makes bus names unique.
- `Transit` (`transit.dfy`) holds the classes `Stop`, `Route` and `Bus`.
  - A stop's queue and a bus's manifest are `seq<Passenger>` fields.
  - A route's stops are shared `Stop` objects.
  - `Bus.Move` is specified against the value-level description `Stepped` of
    one movement step. It covers cruising, arriving, unloading, loading only
    if nobody got off, and the two distance rules.
  - Distances are `real`; the function `Sum` gives the `double` sums of
    `Move`, where a subnormal read past the end of a distance list vanishes
    against a number of magnitude at least 1.
- `Simulation` (`simulator.dfy`) is the `ConfigurationSimulator` class.
  - `Start` and `Update` are modelled, with the spawn loop, route loop and
    reverse bus loop as methods with loop invariants.
  - Each phase is proved against a specification function: `Countdown`,
    `DuePairs` and `Spawns` for spawning, `Queue` and `Tally` for route
    updates, and `Running` and `Keep` for eviction.
  - A ghost map `owner` records which place in the fleet travels each
    route. This proves that no two buses share a route, so updating one bus
    leaves every other bus valid.

Two kinds of parameter exist only for framing:

- The ghost parameters `stations` and `riders` of the simulator's bus phase
  name every stop the buses call at and every passenger involved.
- The `ghost` out-parameter `spawned` of `SpawnBuses` and `Update` names the
  buses a tick created.
- The ghost parameters `fleet`, `places`, `finished` and `before` of the bus
  loop's methods record the fleet, its route owners, the completion flags and
  every bus's place as they were when the loop started.

## Model

| member | source | states |
|---|---|---|
| Riders.Counters.Tick | project/src/passenger.h:37-41 | One update advances exactly one clock by one. The stop clock advances while the passenger is not on the bus, the bus clock once it is. On-bus status is unchanged and the total grows by 1. |
| Riders.Counters.Board | project/src/passenger.h:42-46 | After boarding the passenger is on the bus and the stop clock is unchanged. A waiting passenger's total grows by 1, its bus clock becoming 1. Boarding someone already on board changes nothing. |
| Riders.BoardIsIdempotent | project/src/stop.cc:35-36 | Boarding twice has the effect of boarding once. The second boarding call a stop makes after Bus::LoadPassenger is therefore harmless. |
| Riders.TicksAreRepeatedTick | project/src/passenger.h:37-41 | n updates in a row equal the closed form Ticks(n). |
| Riders.TicksAdd | project/src/passenger.h:37-41 | a updates then b updates equal a + b updates. |
| Riders.ReplayAppend | project/src/passenger.h:37-46 | Replaying two call sequences in turn is replaying their concatenation. |
| Riders.WaitingPhase | project/src/passenger.h:37-41 | Before any boarding call, the stop clock counts the updates and the bus clock stays put. |
| Riders.RidingPhase | project/src/passenger.h:37-46 | Once on the bus, the bus clock counts the updates, the stop clock stays put, and boarding calls do nothing. |
| Riders.ClockHistory | project/src/passenger.h:37-58 | For a new passenger, the stop clock is the number of updates before the first boarding call. The bus clock is 1 plus the updates after it, or 0 if the passenger never boarded. |
| Riders.Passenger.constructor | project/src/passenger.h:36 | Destination and name are as given (defaults -1 and "Nobody"). Both clocks are 0, so the passenger is not on the bus and has total wait 0. |
| Riders.Passenger.Update | project/src/passenger.h:37-41 | The clocks become old clocks .Tick(). |
| Riders.Passenger.GetOnBus | project/src/passenger.h:42-46 | The clocks become old clocks .Board(). |
| Riders.Passenger.GetTotalWait | project/src/passenger.h:47-52 | The total wait is the time at the stop plus the time on the bus. |
| Riders.Passenger.IsOnBus | project/src/passenger.h:53-58 | On the bus exactly when the bus clock is positive. |
| Riders.Passenger.GetDestination | project/src/passenger.h:59-64 | The destination stop id given at construction. |
| Decimal.Digits | project/src/route.cc:127 | The decimal digits of n are at least one digit, and more than one exactly when n >= 10. |
| Decimal.DigitsRoundTrip | project/src/route.cc:127 | Reading back the digits of n gives n. |
| Decimal.DecimalRoundTrip | project/src/configuration_simulator.cc:62 | Every integer is recovered from its decimal text, sign included. |
| Decimal.DecimalStringInjective | project/src/configuration_simulator.cc:62-64 | Distinct ids have distinct decimal texts, so buses with distinct ids have distinct names. |
| Transit.Walk | project/src/route.cc:95-102 | Walking a list iterator k steps from the front yields an element exactly when k (0 if negative) is below the length, and the element is the one at that place. |
| Transit.EndRead | project/src/route.cc:95-102 | What dereferencing the end iterator of a list of n doubles reads under the GNU C++ library's list layout, where the end node holds the element count: 0 for an empty list, otherwise positive and at most n, and a subnormal double (below 2^-1022) for every n below 2^52. |
| Transit.Queue | project/src/route.cc:35-38 | Everyone in the queue along a run of stops waits at one of those stops. |
| Transit.QueueMembers | project/src/route.cc:35-38 | Everyone waiting at one of the stops is in the queue along them. |
| Transit.Tally | project/src/route.cc:35-38 | The running multiset totals of the queues grow stop by stop and end at the whole queue. |
| Transit.Remaining | project/src/bus.cc:77-89 | The manifest after unloading at a stop is no longer than before, and nobody on it is bound for that stop. |
| Transit.RemainingCount | project/src/bus.cc:77-89 | After unloading, passengers bound for the stop are all gone, and everyone else is listed as often as before. |
| Transit.RemainingUnchanged | project/src/bus.cc:77-89 | Unloading leaves the manifest as it was if and only if nobody on it is bound for the stop. |
| Transit.Boardable | project/src/stop.cc:32-43 | The number that board is at most the queue length and never takes the bus past its limit. Either the whole queue boards or the bus ends up full. It is positive if and only if someone waits and the bus has room. |
| Transit.UpdateAll | project/src/stop.cc:48-54 | Every passenger's clock advances once per time it is listed. |
| Transit.Stop.constructor | project/src/stop.cc:15-19 | The stop has the given id and an empty queue. |
| Transit.Stop.GetId | project/src/stop.cc:56-59 | The stop's id. |
| Transit.Stop.GetNumPassengers | project/src/stop.cc:75-78 | The queue length, 0 exactly when nobody waits. |
| Transit.Stop.AddPassengers | project/src/stop.cc:22-25 | The passenger joins the back of the queue and the answer is 1. |
| Transit.HandOver | project/src/stop.cc:34-36 | The bus takes the passenger exactly when its manifest is below the limit. Then the passenger is appended and on board, however often told to get on; otherwise nothing changes. |
| Transit.Stop.LoadPassengers | project/src/stop.cc:28-46 | Let n be Boardable of (queue length, manifest size, capacity limit). The first n passengers of the queue are appended to the manifest in order and board. The queue keeps the untouched rest, nobody else changes, and the answer is n > 0. |
| Transit.Stop.Update | project/src/stop.cc:48-54 | Each waiting passenger's clock advances once per place it holds in the queue. |
| Transit.Route.constructor | project/src/route.cc:15-30 | The route keeps the first numStops stops and numStops - 1 distances. The cursor is 0 and the destination is the first stop. |
| Transit.Route.Copy | project/src/route.cc:54-56 | The copy has every attribute of the original, cursor included, and shares its Stop objects. |
| Transit.Route.Clone | project/src/route.cc:54-56 | A new route object that is a copy of this one. |
| Transit.AdvanceClone | project/src/route.cc:54-77 | Moving a clone on to its next stop leaves the original route exactly as it was. The clone's cursor moves by one unless the clone was at its end. |
| Transit.Route.IsAtEnd | project/src/route.cc:57-64 | For a cursor within the route, at the end exactly when the cursor is on the last stop. |
| Transit.Route.GetDestinationStop | project/src/route.cc:79-82 | The stored destination stop. |
| Transit.Route.NextStop | project/src/route.cc:67-77 | At the end nothing changes. Otherwise the cursor moves on by exactly one, and the destination stays the stop under the cursor. |
| Transit.Route.GetPreviousStop | project/src/route.cc:85-91 | The stop before the destination; at the first stop, the first stop itself. |
| Transit.Sum | project/src/bus.cc:52-71 | The `double` sum of the distance left and a leg or the negated speed: it differs from the exact sum by less than the smallest normal double. |
| Transit.SumAbsorbs | project/src/bus.h:134 | Rounding to nearest drops a subnormal operand against one of magnitude at least 1, and every other sum in the model is exact. In particular, a speed of at least 1 subtracted from an end read of a list shorter than 2^52 leaves exactly minus the speed. |
| Transit.Route.GetNextStopDistance | project/src/route.cc:95-102 | Before the end, the distance of the leg ending at the destination (distances[cursor]). At the end, the walk passes the last element and the read yields EndRead of the list length, which is positive on any route with a leg. |
| Transit.Route.BuildRouteData | project/src/route.cc:115-138 | The snapshot has the route's name and one entry per stop in route order: the stop id as decimal text and the queue length. |
| Transit.Route.UpdateRouteData | project/src/route.cc:115-138 | The stored snapshot describes the stops as they are now. |
| Transit.Route.TickQueues | project/src/route.cc:35-38 | Every passenger waiting along the route has the clock advanced once per place it holds in the queues, in stop order. |
| Transit.Route.TickAll | project/src/route.cc:35-38 | The loop over stops. Each passenger in the whole queue has taken one step per place it holds. |
| Transit.Route.TickStop | project/src/route.cc:37 | One stop updates. Each passenger's step count grows by its places in that stop's queue. |
| Transit.Route.Update | project/src/route.cc:32-40 | The waiting clocks advance as TickQueues says, the route stays valid, and the snapshot describes the stops. |
| Transit.Bus.constructor | project/src/bus.cc:12-20 | The bus has the given name, routes, capacity and speed (defaults 60 and 1). The manifest is empty and the remaining distance is the outgoing route's next distance. |
| Transit.Bus.Limit | project/src/bus.cc:23-32 | The capacity as its conversion to a 32-bit unsigned number gives it: below 2^32, congruent to the capacity modulo 2^32, and equal to it when it is in range. |
| Transit.Bus.IsTripComplete | project/src/bus.cc:118-124 | Complete exactly when the cursors of both routes are on (or past) their last stops. |
| Transit.Bus.GetNumPassengers | project/src/bus.cc:172-175 | The number of passengers on board. |
| Transit.Bus.GetCapacity | project/src/bus.cc:177-180 | The capacity given at construction. |
| Transit.Bus.LegsLeft | project/src/bus.cc:119-124 | The number of stops still to reach on both routes is 0 exactly when the trip is complete. |
| Transit.Bus.GetNextStop | project/src/bus.cc:164-170 | The outgoing route's destination until that route is at its end, then the incoming route's. |
| Transit.Bus.BoardersIn | project/src/bus.cc:48-49 | The boarders are a prefix of the queue, and nobody boards when someone gets off. The manifest stays within the limit. If not everyone boards, the bus is full. |
| Transit.Bus.Left | project/src/stop.cc:33-41 | The boarders followed by those left behind make up the original queue. |
| Transit.Bus.ManifestAfter | project/src/bus.cc:48-49 | The manifest stays within the limit. After unloading, nobody on board is bound for the stop. Otherwise the manifest is the old one with the boarders appended. |
| Transit.Bus.LoadPassenger | project/src/bus.cc:23-32 | Accepted exactly when the manifest is below the capacity (as a 32-bit unsigned number). If accepted, the passenger is appended and boards; otherwise nothing changes. |
| Transit.Unload | project/src/bus.cc:78-88 | The loop of UnloadPassengers over the manifest: the result is Remaining, with those not bound for the stop kept in order. The answer holds if and only if the result differs from the manifest, if and only if someone on it was bound for the stop. |
| Transit.Bus.UnloadPassengers | project/src/bus.cc:77-89 | The manifest becomes Remaining, the others kept in order. The answer holds if and only if the manifest changed, if and only if someone on board was bound for the stop. |
| Transit.Bus.Exchange | project/src/bus.cc:48-49 | Unload, and load only if nobody got off. The answer says whether anyone got off or on. Boarders board and everyone else at the stop is untouched. |
| Transit.Bus.ServeStop | project/src/bus.cc:43-68 | Arrival on the route travelled: its cursor moves on by one and passengers are exchanged at the stop reached. The distance becomes the next leg if anyone got off or on; otherwise the next leg is added, as the `double` addition Sum gives. |
| Transit.Bus.Move | project/src/bus.cc:36-74 | The answer is false exactly on a completed trip. The state changes as Stepped says: nothing on a completed trip, only the distance shrinking by speed between stops (as the `double` subtraction Sum gives), and the arrival of ServeStop at a stop. Arrival strictly decreases LegsLeft, and boarders and non-boarders at the stop get the right clocks. |
| Transit.Bus.StepKeepsRiders | project/src/bus.cc:36-74 | After a step, everyone on board was on board or queued at the stop ahead, and that stop's queue only lost passengers. |
| Transit.Bus.Update | project/src/bus.cc:97-104 | Every rider is updated once per place on the manifest, then the bus moves as Stepped says. Each passenger's clock is the ticked clock, boarded if it was among the boarders. Nobody new appears. |
| Transit.QuietMove | project/src/bus.cc:36-74 | One move of an empty bus whose stops have empty queues. The bus and the queues stay empty. Between stops only the distance changes, by Sum with minus the speed. At a stop only the cursor of the route travelled moves on by one, and the next leg is added by Sum. |
| Transit.EmptyBusTrip | project/src/bus.cc:36-74 | An empty bus with speed 1, outgoing legs [2] and incoming legs [1, 1]. The end read added at the turnaround is dropped by the next cruise subtraction, so the trip is not complete after five moves and is complete after six. |
| Transit.FinalLegReadsPastEnd | project/src/route.cc:95-102 | On the last stop of a route, the list walk for the next distance runs off the end of the distance list. |
| Transit.TurnaroundTakesATick | project/src/bus.cc:44-56 | Arriving at the last stop of the outgoing route with someone getting off or on sets the distance to the positive read past the end of the outgoing legs, so the bus is not arriving: the next move only cruises, and the first incoming stop is reached one tick later. This is the extra tick the NextStop test (bus_UT.cc:137-151) relies on. |
| Simulation.TickedStep | project/src/configuration_simulator.cc:56-71 | Ticking countdown i extends the ticked prefix by one. |
| Simulation.CountdownCycle | project/src/configuration_simulator.cc:58-70 | Starting from 0 with a non-negative interval k, the countdown runs 0, k, k - 1, ..., 0, k, and so on. |
| Simulation.SpawnSchedule | project/src/configuration_simulator.cc:58-70 | With interval k a pair spawns on tick t if and only if (t - 1) mod (k + 1) == 0: on ticks 1, k + 2, 2k + 3, and so on. |
| Simulation.NegativeIntervalSpawnsEveryTick | project/src/configuration_simulator.cc:58-70 | With a negative interval a pair spawns on every tick. |
| Simulation.DuePairs | project/src/configuration_simulator.cc:56-71 | At most one due pair per countdown. |
| Simulation.DuePairsSound | project/src/configuration_simulator.cc:56-58 | Only pairs whose countdown is at or below 0 are listed, in strictly increasing order. |
| Simulation.DuePairsComplete | project/src/configuration_simulator.cc:56-58 | Every pair whose countdown is at or below 0 is listed. |
| Simulation.QueueAppend | project/src/configuration_simulator.cc:76-78 | The queue along two runs of stops is the queue along the first, then along the second. |
| Simulation.StopsOfMembers | project/src/configuration_simulator.cc:76-78 | Whoever waits along one of the routes waits in the queue along all of them. |
| Simulation.UpdateKeepingStops | project/src/configuration_simulator.cc:77 | Route.Update, which leaves every queue as it was. |
| Simulation.UpdateNth | project/src/configuration_simulator.cc:77 | Route i updates; all routes stay valid and the first i + 1 describe their stops. |
| Simulation.UpdateRouteClocks | project/src/configuration_simulator.cc:77 | Route i updates. Each passenger's step count grows by its places along route i. |
| Simulation.UpdateRoute | project/src/configuration_simulator.cc:76-80 | One turn of the route loop. The queue done so far grows by route i's queue, and the clocks keep pace. |
| Simulation.UpdateInOrder | project/src/configuration_simulator.cc:76-80 | After the route loop, every route describes its stops. Everyone in the queue along all routes has the clock advanced once per place held. |
| Simulation.UpdateAllRoutes | project/src/configuration_simulator.cc:76-80 | Every route updates once, in order. Each waiting passenger's clock advances once per place held along the routes, and every snapshot is refreshed. |
| Simulation.Keep | project/src/configuration_simulator.cc:87-96 | Keeping by flags never lengthens the fleet. |
| Simulation.Running | project/src/configuration_simulator.cc:87-96 | The running buses are buses of the fleet, and a bus of the fleet is among them if and only if its trip is not complete. |
| Simulation.RunningIsKeep | project/src/configuration_simulator.cc:87-96 | Filtering by flags that record completion is filtering by completion. |
| Simulation.FinishedCons | project/src/configuration_simulator.cc:87-90 | Recording one more completion flag in front extends the record back by one place. |
| Simulation.KeepCons | project/src/configuration_simulator.cc:87-93 | Keeping from place i on means deciding on bus i, then keeping from place i + 1 on. |
| Simulation.DropPlace | project/src/configuration_simulator.cc:91 | Erasing bus i from the fleet leaves the buses before it followed by those after it. |
| Simulation.KeepStep | project/src/configuration_simulator.cc:87-93 | After deciding on bus i, the fleet is the untouched prefix followed by the buses kept from place i on. |
| Simulation.Advance | project/src/bus.cc:97-104 | Bus.Update, seen from the fleet: the bus stays valid, takes on nobody new, and makes one movement step as Progressed says. That is, nothing on a completed trip, the distance shrinking by speed between stops (by the `double` subtraction Sum), and at a stop the cursor of the route travelled moving on by one. |
| Simulation.Spawned | project/src/configuration_simulator.cc:59-63 | A spawned bus needs both prototypes 2i and 2i + 1 to exist. |
| Simulation.SpawnedServe | project/src/configuration_simulator.cc:59-63 | A spawned bus calls only at stops of its prototypes. |
| Simulation.SpawnNames | project/src/configuration_simulator.cc:62-64 | One name per bus. |
| Simulation.SpawnNamesAt | project/src/configuration_simulator.cc:62-64 | The k-th spawned name is the decimal text of the first id + k, so ids are consecutive. |
| Simulation.SpawnNamesAppend | project/src/configuration_simulator.cc:62-64 | The names of a + b buses are those of the first a, then those of the next b. |
| Simulation.SpawnsAppend | project/src/configuration_simulator.cc:56-71 | Spawning for one list of due pairs and then for another is spawning for both in turn. |
| Simulation.SpawnProgressStep | project/src/configuration_simulator.cc:56-71 | Pair i ticking, and spawning if due, carries the spawn loop invariant one pair further. |
| Simulation.NewBus | project/src/configuration_simulator.cc:62-63 | A fresh bus named by the id's decimal text, with capacity 60 and speed 1, on fresh copies of the two prototypes. It is empty and one leg from its next stop. |
| Simulation.ConfigurationSimulator.constructor | project/src/configuration_simulator.h:56-69 | No countdowns, no prototypes, no buses, and bus ids starting at 1000. |
| Simulation.ConfigurationSimulator.Start | project/src/configuration_simulator.cc:23-44 | The timings and step count are stored. There is one countdown per interval, all 0, and the clock is 0. The prototypes are the configured routes and each describes its stops. The fleet is unchanged. |
| Simulation.ConfigurationSimulator.ResetCountdowns | project/src/configuration_simulator.cc:30-33 | One countdown per interval, all 0. |
| Simulation.ConfigurationSimulator.LoadPrototypes | project/src/configuration_simulator.cc:37-43 | The configured routes become the prototypes and each describes its stops. Only their snapshots are written, so their cursors and destinations stay put. |
| Simulation.ConfigurationSimulator.UpdateRoutes | project/src/configuration_simulator.cc:76-80 | The route phase: UpdateAllRoutes on the prototypes. The simulator stays valid. |
| Simulation.ConfigurationSimulator.RefreshRoutes | project/src/configuration_simulator.cc:76-80 | The route phase as UpdateRoutes states it: every prototype describes its stops, and each waiting passenger's clock advances once per place held along the prototypes. The simulator object is untouched and no bus moves. |
| Simulation.ConfigurationSimulator.SpawnBuses | project/src/configuration_simulator.cc:56-71 | Every countdown ticks by Countdown. The new buses are those Spawns says for DuePairs of the old countdowns: consecutive ids from the old next id, pair order, capacity 60, speed 1, lines of prototypes 2i and 2i + 1. They are fresh and empty and join the end of the fleet. |
| Simulation.ConfigurationSimulator.SpawnStep | project/src/configuration_simulator.cc:57-70 | One turn of the spawn loop keeps its invariant. |
| Simulation.ConfigurationSimulator.SpawnPair | project/src/configuration_simulator.cc:58-70 | Countdown i ticks. If it was due, exactly one bus spawns; otherwise none does. |
| Simulation.ConfigurationSimulator.Commission | project/src/configuration_simulator.cc:59-64 | A fresh, empty bus named after the next id, on copies of prototypes 2i and 2i + 1, joins the end of the fleet. The next id grows by 1. |
| Simulation.ConfigurationSimulator.Enlist | project/src/configuration_simulator.cc:62 | The bus joins the end of the fleet and the simulator stays valid. |
| Simulation.ConfigurationSimulator.SpawnPhase | project/src/configuration_simulator.cc:56-71 | SpawnBuses, with the new buses calling only at the known stops. |
| Simulation.ConfigurationSimulator.Retire | project/src/configuration_simulator.cc:90-92 | Bus i leaves the fleet, those behind it move up one place, and the simulator stays valid. |
| Simulation.ConfigurationSimulator.StepBus | project/src/configuration_simulator.cc:88 | Bus i makes one movement step as Progressed says and takes on nobody new, and every other bus stays valid. |
| Simulation.ConfigurationSimulator.UpdateBus | project/src/configuration_simulator.cc:88 | Bus i makes one movement step and no other bus of the fleet moves or changes whether its trip is complete. So if the buses after place i had moved and those before had not (Moved), now the buses from place i on have. |
| Simulation.ConfigurationSimulator.Sweep | project/src/configuration_simulator.cc:87-96 | One turn of the bus loop: bus i makes its step, carrying Moved back to place i, and is erased exactly when its trip is then complete. |
| Simulation.ConfigurationSimulator.Decide | project/src/configuration_simulator.cc:90-93 | Bus i is erased exactly when its trip is complete. The fleet is then the untouched prefix followed by the buses kept from place i on. |
| Simulation.Places | project/src/configuration_simulator.cc:87 | Where each bus of the fleet is, place by place. |
| Simulation.ConfigurationSimulator.UpdateBuses | project/src/configuration_simulator.cc:86-96 | Every bus of the old fleet made exactly one movement step. The fleet is Running(old fleet): exactly the buses whose trip is not complete, in their old order. |
| Simulation.ConfigurationSimulator.UpdateRoutesAndBuses | project/src/configuration_simulator.cc:76-96 | The route phase, then the bus phase. Every bus of the old fleet made one movement step and the fleet is Running(old fleet). The countdowns, clock, next id and prototypes are untouched. |
| Simulation.ConfigurationSimulator.Update | project/src/configuration_simulator.cc:46-97 | The clock grows by 1 and the countdowns tick as in SpawnBuses. The buses spawned are as Spawns says. The fleet is Running(old fleet + spawned), so no bus left is trip-complete and the survivors keep their order. |

## Left out

- The implementation of Passenger (passenger.cc) is not part of this model. `Update` and `GetOnBus` follow the header's documentation and the passenger tests. `GetOnBus` sets the bus clock to 1 when it is 0 and otherwise does nothing, so the second boarding call a stop makes is harmless (`Riders.BoardIsIdempotent`).
- `UnloadPassengers` in bus.cc:83-84 keeps using an iterator after `remove` has erased its element. That is undefined behaviour, so the model gives the evident intent instead: the manifest is filtered, keeping the others in order.
- Passenger generation (route.cc:34) calls a random generator that is not part of this model. The model treats the call as generating nobody.
- `Report` methods and console output are left out, as is everything about coordinates: `GetCoordinates`, `UpdateBusData` and `GetBusData` (floating-point midpoints), and the positions in `UpdateRouteData`.
- Distances and speed are `real` numbers where the source uses `double` (bus.h:134). Sum models the one rounding that whole-number legs and speeds meet: a subnormal end read vanishes when it is added to or subtracted from a number of magnitude at least 1. Any other rounding, such as that of fractional legs or speeds, is not modelled.
- Transit.Route.GetNextStopDistance: at the last stop the source dereferences the end iterator of its `std::list<double>`, which the C++ standard leaves undefined. The model gives what the GNU C++ library's list layout makes that read return (`EndRead`: the element count held in the end node, read as a double, a positive subnormal number). Another library may read something else there. The read matters after a turnaround: with an exchange at the last outgoing stop it is the whole distance left, so the next move only cruises (`Transit.TurnaroundTakesATick`). That cruise subtraction then drops it (`Transit.SumAbsorbs`, `Transit.EmptyBusTrip`).
- Passenger's `id_` and the static `count_` that numbers instances (passenger.h:76-77) are left out: nothing in the modelled code reads them, and the model has no global state.
- Transit.Bus.constructor requires two distinct route objects, which bus.cc:12-20 does not check. Every caller meets it: configuration_simulator.cc:63 passes two fresh clones, and bus_UT.cc:78 two separately built routes. The model relies on it to tell the two cursors apart.
- `Route.Clone` keeps the cursor of the route it copies, as the code does (route.cc:54-56), not resetting it. Prototypes are never advanced by a bus, so a clone of a prototype starts where the prototype is.
- `ConfigManager` file parsing is not part of this model. The configured routes are a sequence given to the simulator's constructor, and `Start` takes them as the prototypes (configuration_simulator.cc:38).
- The bus id is an unbounded integer. It starts at 1000 (configuration_simulator.h:69), so the `int` increment overflows once 2^31 - 1000 buses have been spawned; that overflow is not modelled.
- The passenger clocks `wait_at_stop_` and `time_on_bus_` (passenger.h:74-75) and the simulator's `simulationTimeElapsed_` (configuration_simulator.h:64) are `int` in the source. The model makes them unbounded (`Riders.Counters`, `elapsed`), so their overflow is not modelled.
- The simulator requires two prototypes per interval (`2 * |timeSinceLastBus| <= |prototypeRoutes|`); with fewer, configuration_simulator.cc:59-60 would read outside the prototype vector.
- Spawned buses are described by their immutable attributes (name, capacity, speed, lines); their fresh routes' cursors are those of the prototypes (`Commission` states the copy).
- Simulation.ConfigurationSimulator.UpdateBuses: states which buses remain and that each bus of the old fleet made one movement step, but not the passengers' clocks and the exchange at each stop. Those are `Transit.Bus.Update`'s contract and are not restated at the fleet level.
- Simulation.Advance: states that the bus stays valid, takes on nobody new and makes one movement step, but not the passengers' clocks or the exchange at the stop reached, which `Transit.Bus.Update` states.
- Simulation.ConfigurationSimulator.StepBus: states bus i's movement step and that nobody new boards it, but not the passengers' clocks or the exchange, which `Transit.Bus.Update` states.
- Simulation.ConfigurationSimulator.UpdateBus: states bus i's movement step and that no other bus moves, but not the passengers' clocks or the exchange, which `Transit.Bus.Update` states.
- Simulation.ConfigurationSimulator.Sweep: states bus i's step and the erase decision, but not the passengers' clocks or the exchange, which `Transit.Bus.Update` states.
- Simulation.ConfigurationSimulator.UpdateRoutesAndBuses: states the bus phase but not the route phase's clocks and snapshots, which the bus phase then changes again; `RefreshRoutes` states those.
- Simulation.ConfigurationSimulator.Update: keeps only what survives the whole tick. It does not restate the route phase, nor that each bus already running made one movement step; `UpdateRoutesAndBuses` states the latter for the fleet as it stands after spawning.
- Bus.Update's position snapshot (`UpdateBusData`, bus.cc:103) is not modelled.
- Bus ownership and deletion of heap objects are not modelled: an erased bus simply leaves the fleet.
- The simulator's bus phase takes ghost parameters naming all stops and passengers involved, so that the methods can state what they may change; the source has no such parameters.
- Bus.LoadPassenger compares against the capacity converted to a 32-bit unsigned number; a negative capacity therefore becomes a large limit, as in the source.
