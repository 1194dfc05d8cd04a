/**
  Properties of runs of the countdown: how a fresh timer counts down, when it
  completes, that completion happens once and last, and that teardown silences it.
 */
module CountdownProperties {
  import opened Countdown

  /** Running two event sequences one after the other is running their concatenation. */
  lemma {:induction false} RunAppend(t: Timer, a: seq<Event>, b: seq<Event>)
    ensures Run(t, a + b)
         == Step(Run(Run(t, a).timer, b).timer, Run(t, a).emitted + Run(Run(t, a).timer, b).emitted)
    decreases |a|
  {
    if a == [] {
      assert a + b == b;
    } else {
      assert (a + b)[0] == a[0];
      assert (a + b)[1..] == a[1..] + b;
      var first := Apply(t, a[0]);
      RunAppend(first.timer, a[1..], b);
    }
  }

  /** Before the timer reaches one, `k` firings count down by `k` and report each new value. */
  lemma {:induction false} CountsDown(n: int, k: nat)
    requires k < n
    ensures Run(Timer(n, true), Ticks(k)) == Step(Timer(n - k, true), Reports(n)[..k])
    decreases k
  {
    if k > 0 {
      assert Ticks(k)[0] == Tick;
      assert Ticks(k)[1..] == Ticks(k - 1);
      CountsDown(n - 1, k - 1);
      assert Reports(n)[..k] == [OnTick(n - 1)] + Reports(n - 1)[..k - 1];
    }
  }

  /** From `n >= 1`, the `n`-th firing completes: the trace is `n-1, ..., 1` then `onComplete`. */
  lemma {:induction false} CompletesAfter(n: int)
    requires n >= 1
    ensures Run(Timer(n, true), Ticks(n)) == Step(Timer(0, false), Reports(n) + [OnComplete])
    decreases n
  {
    assert Ticks(n)[0] == Tick;
    assert Ticks(n)[1..] == Ticks(n - 1);
    if n > 1 {
      CompletesAfter(n - 1);
      assert Reports(n) == [OnTick(n - 1)] + Reports(n - 1);
    }
  }

  /** A fresh timer with `duration >= 1` is still running, with `duration - k`
      left, after `k < duration` firings; it completes on exactly the
      `duration`-th firing; and any later firings change nothing. */
  lemma FreshTimerCountdown(duration: int, k: nat)
    requires duration >= 1
    ensures k < duration ==>
              Run(Mount(duration), Ticks(k)) == Step(Timer(duration - k, true), Reports(duration)[..k])
    ensures k >= duration ==>
              Run(Mount(duration), Ticks(k)) == Step(Timer(0, false), Reports(duration) + [OnComplete])
  {
    if k < duration {
      CountsDown(duration, k);
    } else {
      assert Ticks(k) == Ticks(duration) + Ticks(k - duration);
      RunAppend(Mount(duration), Ticks(duration), Ticks(k - duration));
      CompletesAfter(duration);
    }
  }

  /** A fresh timer whose duration is zero or negative completes on its first
      firing, clamped to zero, without any `onTick`; later firings change nothing. */
  lemma NonPositiveDurationCompletesAtOnce(duration: int, k: nat)
    requires duration <= 0 && k >= 1
    ensures Run(Mount(duration), Ticks(k)) == Step(Timer(0, false), [OnComplete])
  {
  }

  /** In any run, completion is reported at most once; a run from a stopped
      timer never reports it, and a run that reports it ends stopped. */
  lemma {:induction false} CompletesAtMostOnce(t: Timer, events: seq<Event>)
    ensures Completions(Run(t, events).emitted) <= 1
    ensures !t.active ==> Completions(Run(t, events).emitted) == 0
    ensures Completions(Run(t, events).emitted) == 1 ==> !Run(t, events).timer.active
    decreases |events|
  {
    if events != [] {
      var first := Apply(t, events[0]);
      CompletesAtMostOnce(first.timer, events[1..]);
      assert multiset(first.emitted + Run(first.timer, events[1..]).emitted)
          == multiset(first.emitted) + multiset(Run(first.timer, events[1..]).emitted);
      if OnComplete in first.emitted {
        assert first.emitted == [OnComplete];
      } else {
        assert multiset(first.emitted)[OnComplete] == 0;
      }
    }
  }

  /** No callback is ever emitted after `onComplete`. */
  lemma {:induction false} NothingAfterCompletion(t: Timer, events: seq<Event>)
    ensures CompletionIsLast(Run(t, events).emitted)
    decreases |events|
  {
    if events != [] {
      var first := Apply(t, events[0]);
      var rest := Run(first.timer, events[1..]);
      NothingAfterCompletion(first.timer, events[1..]);
      var trace := first.emitted + rest.emitted;
      forall i | 0 <= i < |trace| && trace[i] == OnComplete
        ensures i == |trace| - 1
      {
        if i < |first.emitted| {
          assert first.emitted == [OnComplete];
          assert rest.emitted == [];
        } else {
          assert rest.emitted[i - |first.emitted|] == OnComplete;
        }
      }
    }
  }

  /** Prepending the report of the next value down keeps a trace descending. */
  lemma PrependReport(rest: seq<Callback>, bound: int)
    requires DescendingReports(rest, bound - 1)
    requires bound - 1 >= 1
    ensures DescendingReports([OnTick(bound - 1)] + rest, bound)
  {
  }

  /** The `onTick` values of any run are below the starting time, at least one,
      and strictly decreasing. */
  lemma {:induction false} ReportsDescend(t: Timer, events: seq<Event>)
    ensures DescendingReports(Run(t, events).emitted, t.timeLeft)
    decreases |events|
  {
    if events != [] {
      var first := Apply(t, events[0]);
      var rest := Run(first.timer, events[1..]);
      ReportsDescend(first.timer, events[1..]);
      if t.active && events[0] == Tick && t.timeLeft > 1 {
        PrependReport(rest.emitted, t.timeLeft);
      } else if t.active && events[0] == Tick {
        assert first.emitted + rest.emitted == [OnComplete];
      } else {
        assert first.emitted + rest.emitted == rest.emitted;
      }
    }
  }

  /** Once torn down, whatever follows emits nothing and the interval stays cleared. */
  lemma TeardownSilences(t: Timer, before: seq<Event>, after: seq<Event>)
    ensures Run(t, before + [Teardown] + after).emitted == Run(t, before).emitted
    ensures !Run(t, before + [Teardown] + after).timer.active
  {
    var mid := Run(t, before).timer;
    RunAppend(t, before, [Teardown] + after);
    assert before + [Teardown] + after == before + ([Teardown] + after);
    assert ([Teardown] + after)[0] == Teardown;
    assert ([Teardown] + after)[1..] == after;
    assert !Apply(mid, Teardown).timer.active;
  }

  /** Unmounting a fresh timer after `k < duration` firings: the caller has seen
      exactly the first `k` reports and never sees `onComplete`. */
  lemma TeardownBeforeCompletion(duration: int, k: nat, after: seq<Event>)
    requires k < duration
    ensures Run(Mount(duration), Ticks(k) + [Teardown] + after).emitted == Reports(duration)[..k]
    ensures Completions(Run(Mount(duration), Ticks(k) + [Teardown] + after).emitted) == 0
  {
    TeardownSilences(Mount(duration), Ticks(k), after);
    CountsDown(duration, k);
    var trace := Reports(duration)[..k];
    assert forall i :: 0 <= i < |trace| ==> trace[i].OnTick?;
    assert OnComplete !in trace;
  }
}
