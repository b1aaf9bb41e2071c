/**
 * Passengers: a destination stop id and two clocks, the time spent waiting
 * at a stop and the time spent on a bus. Which clock a tick advances is
 * decided by whether the passenger is on the bus, and "on the bus" means
 * that the on-bus clock is positive.
 */
module Riders {

  /** The two clocks of a passenger, as a value. */
  datatype Counters = Counters(wait: nat, ride: nat) {

    /** A passenger is on the bus once its on-bus clock has started. */
    predicate OnBus() {
      ride > 0
    }

    /** Total time so far: at the stop plus on the bus. */
    function Total(): nat {
      wait + ride
    }

    /** One time step: exactly one clock advances by one, chosen by OnBus. */
    function Tick(): (c: Counters)
      ensures c.OnBus() == OnBus()
      ensures c.Total() == Total() + 1
      ensures OnBus() ==> c.wait == wait
      ensures !OnBus() ==> c.ride == ride
    {
      if OnBus() then Counters(wait, ride + 1) else Counters(wait + 1, ride)
    }

    /** `n` time steps at once, in closed form. */
    function Ticks(n: nat): Counters {
      if OnBus() then Counters(wait, ride + n) else Counters(wait + n, ride)
    }

    /**
     * Boarding: the on-bus clock starts at 1, which is what makes the
     * passenger count as on the bus; boarding someone already on board
     * changes nothing.
     */
    function Board(): (c: Counters)
      ensures c.OnBus()
      ensures c.wait == wait
      ensures OnBus() ==> c == this
      ensures !OnBus() ==> c.Total() == Total() + 1
    {
      if OnBus() then this else Counters(wait, 1)
    }
  }

  /** The calls a passenger receives over its life. */
  datatype Event = Update | GetOnBus

  function Step(c: Counters, e: Event): Counters {
    match e
    case Update => c.Tick()
    case GetOnBus => c.Board()
  }

  /** The clocks after the events `es`, applied in order from `c`. */
  function Replay(c: Counters, es: seq<Event>): Counters
    decreases |es|
  {
    if es == [] then c else Replay(Step(c, es[0]), es[1..])
  }

  /** The number of Update calls among `es`. */
  function Updates(es: seq<Event>): nat {
    if es == [] then 0 else (if es[0] == Update then 1 else 0) + Updates(es[1..])
  }

  /** `n` repeated ticks are the closed form Ticks(n). */
  lemma {:induction false} TicksAreRepeatedTick(c: Counters, n: nat)
    ensures Replay(c, seq(n, _ => Update)) == c.Ticks(n)
    decreases n
  {
    if n > 0 {
      var es := seq(n, _ => Update);
      assert es[1..] == seq(n - 1, _ => Update);
      TicksAreRepeatedTick(c.Tick(), n - 1);
    }
  }

  /** `a` steps then `b` steps are `a + b` steps. */
  lemma TicksAdd(c: Counters, a: nat, b: nat)
    ensures c.Ticks(a).Ticks(b) == c.Ticks(a + b)
  {
  }

  /** Boarding twice has the effect of boarding once. */
  lemma BoardIsIdempotent(c: Counters)
    ensures c.Board().Board() == c.Board()
  {
  }

  lemma {:induction false} ReplayAppend(c: Counters, a: seq<Event>, b: seq<Event>)
    ensures Replay(c, a + b) == Replay(Replay(c, a), b)
    decreases |a|
  {
    if a != [] {
      assert (a + b)[1..] == a[1..] + b;
      ReplayAppend(Step(c, a[0]), a[1..], b);
    } else {
      assert a + b == b;
    }
  }

  /** While waiting (no boarding call), every Update adds one to the stop clock only. */
  lemma {:induction false} WaitingPhase(c: Counters, es: seq<Event>)
    requires !c.OnBus()
    requires GetOnBus !in es
    ensures Replay(c, es) == Counters(c.wait + Updates(es), c.ride)
    decreases |es|
  {
    if es != [] {
      assert es[0] == Update && es[0] in es;
      WaitingPhase(c.Tick(), es[1..]);
    }
  }

  /** On the bus, every Update adds one to the bus clock only and boarding is a no-op. */
  lemma {:induction false} RidingPhase(c: Counters, es: seq<Event>)
    requires c.OnBus()
    ensures Replay(c, es) == Counters(c.wait, c.ride + Updates(es))
    decreases |es|
  {
    if es != [] {
      RidingPhase(Step(c, es[0]), es[1..]);
    }
  }

  /**
   * The life of a new passenger: the stop clock counts exactly the Update
   * calls made before the first GetOnBus, and the bus clock is 1 plus the
   * Update calls made after it; a passenger never boarded has only waited.
   */
  lemma {:induction false} ClockHistory(es: seq<Event>, k: nat)
    requires k <= |es|
    requires GetOnBus !in es[..k]
    requires k < |es| ==> es[k] == GetOnBus
    ensures k == |es| ==> Replay(Counters(0, 0), es) == Counters(Updates(es), 0)
    ensures k < |es| ==> Replay(Counters(0, 0), es) == Counters(Updates(es[..k]), 1 + Updates(es[k + 1..]))
  {
    if k == |es| {
      assert es[..k] == es;
      WaitingPhase(Counters(0, 0), es);
    } else {
      var before, after := es[..k], es[k + 1..];
      assert es == before + ([GetOnBus] + after);
      ReplayAppend(Counters(0, 0), before, [GetOnBus] + after);
      WaitingPhase(Counters(0, 0), before);
      var boarded := Replay(Counters(0, 0), before).Board();
      assert Replay(Replay(Counters(0, 0), before), [GetOnBus] + after) == Replay(boarded, after);
      RidingPhase(boarded, after);
    }
  }

  class Passenger {
    const name: string
    /** Id of the stop where the passenger gets off. */
    const destination: int
    var waitAtStop: nat
    var timeOnBus: nat

    /** The defaults are destination -1 and the name "Nobody". */
    constructor (destination: int := -1, name: string := "Nobody")
      ensures this.destination == destination && this.name == name
      ensures Clocks() == Counters(0, 0)
    {
      this.destination := destination;
      this.name := name;
      waitAtStop, timeOnBus := 0, 0;
    }

    function Clocks(): Counters
      reads this
    {
      Counters(waitAtStop, timeOnBus)
    }

    method Update()
      modifies this
      ensures Clocks() == old(Clocks()).Tick()
    {
      if timeOnBus > 0 {
        timeOnBus := timeOnBus + 1;
      } else {
        waitAtStop := waitAtStop + 1;
      }
    }

    method GetOnBus()
      modifies this
      ensures Clocks() == old(Clocks()).Board()
    {
      if timeOnBus == 0 {
        timeOnBus := 1;
      }
    }

    /** Everything the passenger has waited and ridden so far. */
    function GetTotalWait(): (t: nat)
      reads this
      ensures t == waitAtStop + timeOnBus
    {
      Clocks().Total()
    }

    /** On the bus exactly when the on-bus clock has started. */
    predicate IsOnBus()
      reads this
      ensures IsOnBus() <==> timeOnBus > 0
    {
      Clocks().OnBus()
    }

    function GetDestination(): (d: int)
      ensures d == destination
    {
      destination
    }
  }
}
