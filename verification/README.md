# Countdown timer of the balance game, in Dafny

The balance game shows a `Timer` component that counts a round down one
second at a time. When the component mounts, its state hook starts the
displayed time at `duration`. Its effect then registers a one-second
interval. Each time the interval fires, the state updater subtracts one:

- If the result is still positive, the updater stores it and reports it
  through the optional `onTick` callback.
- Otherwise it clears the interval, calls the optional `onComplete` callback
  and clamps the time to zero.

Unmounting runs the effect's cleanup, which clears the interval. The `size`
prop picks one of three presets for the font size and the circle's
dimensions.

The model is functional:

- `Countdown` holds the immutable timer state `Timer(timeLeft, active)`.
- An interval firing is the event `Tick` and unmounting is the event
  `Teardown`.
- `Apply` takes one event and returns the new state together with the
  callbacks it emitted (`OnTick(n)` / `OnComplete`).
- `Run` folds `Apply` over a sequence of events.
- `RunToCompletion` is the imperative reading: the interval left to fire
  until it clears itself.
- `CountdownProperties` proves, by induction over event sequences, how a
  fresh timer counts down, completes and falls silent.
- `SizeStyles` models the preset lookup.

Reference definitions used by the lemmas:

- `Reports(d)` is the expected `onTick` trace `d-1, …, 1`.
- `Completions` counts `onComplete` in a trace.
- `DescendingReports` and `CompletionIsLast` are the trace shapes the lemmas
  establish.

A negative `duration` is not rejected by the component. Its first firing
computes a value `<= 0` and so completes at zero. This is the only case in
which the time goes up. So the "never increases" guarantees are stated for
a non-negative starting time, and `NonPositiveDurationCompletesAtOnce` pins
down the other case.

## Model

| member | source | states |
|---|---|---|
| Countdown.Mount | components/Timer.tsx:19-29 | a mounted timer holds `duration` with its interval registered, so its first firing reports `duration - 1`, or completes when that is not positive |
| Countdown.Apply | components/Timer.tsx:29-47 | a cleared interval ignores every event; teardown stops the interval without a callback and keeps the time; a firing from above one stores exactly one less and reports it through one `onTick` with no `onComplete`; a firing from one or below clamps to 0, stops the interval and emits exactly one `onComplete` and no `onTick`; the time is never driven below zero nor raised from a non-negative value; a stopped interval never restarts; `onComplete` is emitted exactly when a firing stops a running interval |
| Countdown.Run | components/Timer.tsx:29-47 | a run emits at most one callback per event, never restarts a stopped interval, does nothing from a stopped timer, and from a non-negative start keeps the time within `[0, start]` |
| Countdown.RunToCompletion | components/Timer.tsx:19-40 | a mounted timer left running fires `max(duration, 1)` times and emits `onTick(duration-1) … onTick(1)` followed by one `onComplete` |
| CountdownProperties.CountsDown | components/Timer.tsx:30-38 | from `n`, fewer than `n` firings leave the interval running with `n - k` left and report exactly `n-1, …, n-k` |
| CountdownProperties.CompletesAfter | components/Timer.tsx:30-38 | from `n >= 1`, exactly `n` firings end at zero with the interval cleared, after reports `n-1, …, 1` and one final `onComplete` |
| CountdownProperties.FreshTimerCountdown | components/Timer.tsx:19-40 | a freshly mounted timer with `duration >= 1` is running with `duration - k` left after `k < duration` firings, completes on exactly the `duration`-th firing, and is unchanged and silent after any further firings |
| CountdownProperties.NonPositiveDurationCompletesAtOnce | components/Timer.tsx:19-35 | a fresh timer with `duration <= 0` completes on its first firing, clamped to 0, without any `onTick`, and stays so |
| CountdownProperties.CompletesAtMostOnce | components/Timer.tsx:32-35 | in any sequence of firings and teardowns, `onComplete` is reported at most once, never from a stopped timer, and a run that reports it ends with the interval cleared |
| CountdownProperties.NothingAfterCompletion | components/Timer.tsx:32-35 | no callback is emitted after `onComplete` in any run |
| CountdownProperties.ReportsDescend | components/Timer.tsx:30-38 | in any run, every reported `onTick` value is at least 1 and below the starting time, and the reported values strictly decrease |
| CountdownProperties.TeardownSilences | components/Timer.tsx:44-47 | after a teardown nothing further is emitted, whatever events follow, and the interval stays cleared |
| CountdownProperties.TeardownBeforeCompletion | components/Timer.tsx:29-47 | unmounting a fresh timer after `k < duration` firings means the caller saw exactly the first `k` reports and never sees `onComplete` |
| SizeStyles.StylesFor | components/Timer.tsx:50-59 | `"small"` gives font 24 and 50×50, `"large"` gives font 48 and 100×100, and every other value gives font 32 and 70×70, each as an if-and-only-if, so an omitted prop (default `"medium"`) gets the medium preset; width always equals height |

## Left out

- The progress animation (`Animated.Value`, `Animated.timing`, its start and stop) is rendering only.
- The 1000 ms period of `setInterval` is not modelled; firings are abstract `Tick` events with no wall-clock time.
- React scheduling is not modelled. This covers a state updater being invoked twice, and the effect re-running when `duration` changes while `timeLeft` keeps its first value. A timer's `duration` is fixed for its lifetime.
- `duration` is a JavaScript `number`; the model uses unbounded integers. It does not cover fractional durations, NaN, ±Infinity or integers above 2^53. For NaN and +Infinity the `<= 0` test never holds; for large integers such as 2^54, subtracting one rounds back to the same value. For those inputs the component reports `onTick` forever and never calls `onComplete`, unlike the integer timers of `FreshTimerCountdown` and `RunToCompletion`. -Infinity completes on its first firing, as the model's non-positive case does.
- Absent `onTick` / `onComplete` props (the optional calls) are modelled as callbacks that are always emitted into the trace; a caller without them simply ignores the trace.
- The JSX tree and the `StyleSheet` declarations are layout only.
- components/StabilityIndicator.tsx is not part of this model. Its logic is floating-point magnitude and bounds checks plus spring animation.
- The game screen's own round timer, stability scoring, score persistence and navigation are not part of this model.
