/**
 * The step gate every visualizer repeats: the `stepResolve` ref, the
 * `waitForStep` a driver awaits at each suspension point, and the
 * `handleStepAdvance` a click on the bars runs.
 *
 * The gate is modelled once, in two layers: a `Gate` object whose methods
 * update the slot in place, and a replay of a whole run against the gate,
 * in which a driver's `await sleep(...)` ends on a `Tick` and the user's
 * clicks arrive as `Click`s.
 */
module StepGate {
  import opened Wrappers

  /**
   * The `stepResolve` ref: empty (`null`), or holding the resolver of the wait
   * registered at suspension point `point` of the run.
   */
  datatype Slot = Empty | Pending(point: nat)

  /**
   * `waitForStep` at suspension point `point`: with step mode off it resolves
   * at once and leaves the slot alone; with step mode on the slot takes the new
   * resolver, and whatever it held before is abandoned.
   */
  function Wait(slot: Slot, stepMode: bool, point: nat): (r: Slot)
    ensures stepMode ==> r.Pending? && r.point == point
    ensures !stepMode ==> r == slot
    ensures r == Empty ==> slot == Empty && !stepMode
  {
    if stepMode then Pending(point) else slot
  }

  /**
   * `handleStepAdvance`: a filled slot is fired and cleared, and the point whose
   * wait it releases is returned; an empty slot is left as it is.
   */
  function Advance(slot: Slot): (r: (Slot, Option<nat>))
    ensures r.0 == Empty
    ensures r.1.Some? <==> slot.Pending?
    ensures slot.Pending? ==> r.1.value == slot.point
  {
    match slot
    case Empty => (Empty, None)
    case Pending(point) => (Empty, Some(point))
  }

  /** The gate of one visualizer: the `stepResolve` ref, updated in place. */
  class Gate {
    var slot: Slot

    constructor ()
      ensures slot == Empty
    {
      slot := Empty;
    }

    /** Returns whether the caller is now suspended on the gate. */
    method WaitForStep(stepMode: bool, point: nat) returns (suspended: bool)
      modifies this
      ensures suspended == stepMode
      ensures slot == Wait(old(slot), stepMode, point)
      ensures !stepMode ==> slot == old(slot)
    {
      suspended := stepMode;
      if stepMode {
        slot := Pending(point);
      }
    }

    /** Returns the suspension point released, if the slot held one. */
    method HandleStepAdvance() returns (fired: Option<nat>)
      modifies this
      ensures (slot, fired) == Advance(old(slot))
      ensures slot == Empty
      ensures old(slot) == Empty ==> fired == None
    {
      match slot {
        case Empty =>
          fired := None;
        case Pending(point) =>
          fired := Some(point);
          slot := Empty;
      }
    }
  }

  /**
   * What can happen while a run is in flight: the driver's current
   * `await sleep(...)` ends, or the user clicks the bars.
   */
  datatype Event = Tick | Click

  /**
   * A run of a driver with a fixed number of suspension points (each an
   * `await sleep(...)` followed by an `await waitForStep()`): how many of them
   * are behind it, and the gate's slot. While `slot` is empty and points remain,
   * the driver is asleep before point `passed`; the run is over once
   * `passed` reaches the total.
   */
  datatype Run = Run(passed: nat, slot: Slot)

  const Start := Run(0, Empty)

  /**
   * One event. Step mode is fixed for the whole run: the driver's closure
   * reads the `stepMode` of the render in which the start button was clicked.
   */
  function Step(total: nat, stepMode: bool, r: Run, e: Event): (r': Run)
    ensures e == Click ==> r'.slot == Empty
    ensures e == Tick && !stepMode ==> r'.slot == r.slot
    ensures Consistent(total, r) ==> r.passed <= r'.passed <= r.passed + 1
  {
    match e
    case Tick =>
      if r.passed < total && r.slot == Empty then
        if stepMode then Run(r.passed, Wait(r.slot, stepMode, r.passed))
        else Run(r.passed + 1, r.slot)
      else r
    case Click =>
      var (slot', fired) := Advance(r.slot);
      if fired.Some? then Run(fired.value + 1, slot') else r
  }

  /** The run after a sequence of events, starting from the driver's first sleep. */
  function Replay(total: nat, stepMode: bool, events: seq<Event>): (r: Run)
    ensures Consistent(total, r)
  {
    if events == [] then Start
    else
      var before := Replay(total, stepMode, events[..|events| - 1]);
      StepConsistent(total, stepMode, before, events[|events| - 1]);
      Step(total, stepMode, before, events[|events| - 1])
  }

  function Count(events: seq<Event>, e: Event): nat
  {
    if events == [] then 0
    else Count(events[..|events| - 1], e) + (if events[|events| - 1] == e then 1 else 0)
  }

  /** A state a run can be in: a pending resolver always belongs to the next unpassed point. */
  ghost predicate Consistent(total: nat, r: Run)
  {
    && r.passed <= total
    && (r.slot.Pending? ==> r.slot.point == r.passed && r.passed < total)
  }

  /** Every event keeps a run consistent. */
  lemma StepConsistent(total: nat, stepMode: bool, r: Run, e: Event)
    requires Consistent(total, r)
    ensures Consistent(total, Step(total, stepMode, r, e))
  {
  }

  /**
   * In step mode a run gets past no more suspension points than it received
   * clicks; so with no click at all a run with any suspension point never ends.
   */
  lemma {:induction false} StepModeWaitsForClicks(total: nat, events: seq<Event>)
    ensures Consistent(total, Replay(total, true, events))
    ensures Replay(total, true, events).passed <= Count(events, Click)
    ensures Count(events, Click) == 0 && 0 < total ==> Replay(total, true, events).passed < total
  {
    if events != [] {
      var prefix := events[..|events| - 1];
      StepModeWaitsForClicks(total, prefix);
      StepConsistent(total, true, Replay(total, true, prefix), events[|events| - 1]);
    }
  }

  /**
   * A click on a run blocked at the gate releases exactly that one suspension
   * point and empties the slot; a second click before the driver reaches the
   * next point finds the slot empty and changes nothing.
   */
  lemma ClickPassesOnePoint(total: nat, stepMode: bool, r: Run)
    requires Consistent(total, r) && r.slot.Pending?
    ensures Step(total, stepMode, r, Click) == Run(r.passed + 1, Empty)
    ensures Step(total, stepMode, Run(r.passed + 1, Empty), Click) == Run(r.passed + 1, Empty)
  {
  }

  /**
   * With step mode off the gate never holds a resolver, clicks do nothing,
   * and the run passes one suspension point per elapsed sleep until it ends.
   */
  lemma {:induction false} FreeRunIgnoresClicks(total: nat, events: seq<Event>)
    ensures Replay(total, false, events).slot == Empty
    ensures Replay(total, false, events).passed == if Count(events, Tick) < total then Count(events, Tick) else total
  {
    if events != [] {
      FreeRunIgnoresClicks(total, events[..|events| - 1]);
    }
  }
}
