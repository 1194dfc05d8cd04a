/**
  The countdown state machine of the `Timer` component.

  A mounted timer holds the seconds left and whether its one-second interval
  is still registered. Each interval firing runs the state updater: it
  subtracts one, and either reports the new value through `onTick` or, once
  the value is no longer positive, stops the interval, reports `onComplete`
  and clamps the time to zero. Unmounting clears the interval.

  Wall-clock time is abstracted away: an interval firing is the event `Tick`,
  unmounting is the event `Teardown`, and the optional callbacks become the
  trace of `Callback` values a step emits.
 */
module Countdown {

  /** A callback the component invokes on its caller. */
  datatype Callback = OnTick(timeLeft: int) | OnComplete

  /** What can happen to a mounted timer. */
  datatype Event = Tick | Teardown

  /** The state of one timer instance: the displayed seconds and whether the interval is registered. */
  datatype Timer = Timer(timeLeft: int, active: bool)

  /** The state after one or more events, with the callbacks emitted on the way, oldest first. */
  datatype Step = Step(timer: Timer, emitted: seq<Callback>)

  /** The timer as the component creates it: the state hook starts at `duration`
      and the effect registers the interval. */
  function Mount(duration: int): (t: Timer)
    // the display shows the full duration and the interval is registered
    ensures t.timeLeft == duration && t.active
    // so its first firing reports `duration - 1`, or completes when that is not positive
    ensures Apply(t, Tick).emitted == if duration > 1 then [OnTick(duration - 1)] else [OnComplete]
  {
    Timer(duration, true)
  }

  /** One event applied to a timer. A cleared interval never fires again and
      clearing it twice is harmless, so an inactive timer ignores every event. */
  function Apply(t: Timer, e: Event): (r: Step)
    // a stopped timer changes nothing and emits nothing
    ensures !t.active ==> r == Step(t, [])
    // teardown silently stops the interval and leaves the time as it was
    ensures t.active && e == Teardown ==> r == Step(Timer(t.timeLeft, false), [])
    // a tick from above one counts down by exactly one and reports it
    ensures t.active && e == Tick && t.timeLeft > 1 ==>
              r == Step(Timer(t.timeLeft - 1, true), [OnTick(t.timeLeft - 1)])
    // a tick from one or below completes: zero, stopped, one onComplete
    ensures t.active && e == Tick && t.timeLeft <= 1 ==>
              r == Step(Timer(0, false), [OnComplete])
    // the time is never driven below zero, and never raised from a non-negative value
    ensures r.timer.timeLeft >= 0 || r.timer.timeLeft == t.timeLeft
    ensures t.timeLeft >= 0 ==> r.timer.timeLeft <= t.timeLeft
    // a stopped interval is never restarted
    ensures r.timer.active ==> t.active
    // onComplete fires exactly when a tick stops a running interval
    ensures (OnComplete in r.emitted) <==> (e == Tick && t.active && !r.timer.active)
  {
    if !t.active then
      Step(t, [])
    else
      match e
      case Teardown => Step(t.(active := false), [])
      case Tick =>
        var newTime := t.timeLeft - 1;
        if newTime <= 0 then
          Step(Timer(0, false), [OnComplete])
        else
          Step(Timer(newTime, true), [OnTick(newTime)])
  }

  /** A sequence of events applied in order, with the concatenated trace. */
  function Run(t: Timer, events: seq<Event>): (r: Step)
    ensures |r.emitted| <= |events|
    ensures r.timer.active ==> t.active
    ensures !t.active ==> r == Step(t, [])
    // from a non-negative time, the time stays within [0, start]
    ensures t.timeLeft >= 0 ==> 0 <= r.timer.timeLeft <= t.timeLeft
    decreases |events|
  {
    if events == [] then
      Step(t, [])
    else
      var first := Apply(t, events[0]);
      var rest := Run(first.timer, events[1..]);
      Step(rest.timer, first.emitted + rest.emitted)
  }

  /** `n` interval firings with no teardown in between. */
  function Ticks(n: nat): (ev: seq<Event>)
    ensures |ev| == n
  {
    seq(n, _ => Tick)
  }

  /** Reference trace of the `onTick` reports of a countdown from `d`:
      `d-1, d-2, ..., 1` (empty when `d <= 1`). */
  function Reports(d: int): (trace: seq<Callback>)
    ensures |trace| == if d >= 1 then d - 1 else 0
  {
    seq(if d >= 1 then d - 1 else 0, i => OnTick(d - 1 - i))
  }

  /** How many times a trace reports completion. */
  function Completions(trace: seq<Callback>): nat
  {
    multiset(trace)[OnComplete]
  }

  /** Every `onTick` value in the trace lies in `[1, bound - 1]` and they strictly decrease. */
  ghost predicate DescendingReports(trace: seq<Callback>, bound: int)
  {
    && (forall i :: 0 <= i < |trace| && trace[i].OnTick? ==> 1 <= trace[i].timeLeft < bound)
    && (forall i, j :: 0 <= i < j < |trace| && trace[i].OnTick? && trace[j].OnTick? ==>
          trace[i].timeLeft > trace[j].timeLeft)
  }

  /** `onComplete`, if present, is the last callback of the trace. */
  ghost predicate CompletionIsLast(trace: seq<Callback>)
  {
    forall i :: 0 <= i < |trace| && trace[i] == OnComplete ==> i == |trace| - 1
  }

  /** The interval left to fire on its own until it clears itself: the
      imperative reading of the effect when the component is never unmounted.
      Returns the callbacks emitted and how many times the interval fired. */
  method RunToCompletion(duration: int) returns (trace: seq<Callback>, fired: nat)
    ensures fired == if duration >= 1 then duration else 1
    ensures trace == Reports(duration) + [OnComplete]
  {
    var t := Mount(duration);
    trace := [];
    fired := 0;
    while t.active
      invariant t.active ==> t.timeLeft == duration - fired
      invariant t.active ==> fired == 0 || t.timeLeft >= 1
      invariant t.active ==> trace == Reports(duration)[..fired]
      invariant t.active ==> fired <= |Reports(duration)|
      invariant !t.active ==> trace == Reports(duration) + [OnComplete]
      invariant !t.active ==> fired == if duration >= 1 then duration else 1
      decreases if t.active then (if duration >= 1 then duration else 1) - fired + 1 else 0
    {
      var step := Apply(t, Tick);
      t := step.timer;
      trace := trace + step.emitted;
      fired := fired + 1;
      if t.active {
        assert Reports(duration)[..fired] == Reports(duration)[..fired - 1] + [OnTick(duration - fired)];
      } else {
        assert fired - 1 == |Reports(duration)|;
        assert Reports(duration)[..fired - 1] == Reports(duration);
      }
    }
  }
}
