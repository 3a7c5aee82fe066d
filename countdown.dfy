/** The countdown that runs beside the viewer window (main.go, startCountdownTimer).
    The background goroutine is modelled as a sequential producer: it emits one
    label update per pass of its loop, one final "00:00" label, and then closes
    the window. Sleeping between passes has no observable effect here. */
module Countdown {
  import opened TimerLabel

  /** How long the window stays up: 30 seconds, in nanoseconds. */
  const SleepDuration: int := 30 * Second

  /** The tick between label updates: 1 second, in nanoseconds. */
  const UpdateInterval: int := 1 * Second

  /** What the countdown does to the window, in order. */
  datatype Event = SetText(text: string) | CloseWindow

  /** The values of remainingTime for which the loop body runs: the duration,
      then one interval less each pass, while the value is still positive. */
  function Ticks(duration: int, interval: int): (ts: seq<nat>)
    requires interval > 0
    ensures ts == [] <==> duration <= 0
    ensures ts != [] ==> ts[0] == duration
    decreases duration
  {
    if duration <= 0 then [] else [duration] + Ticks(duration - interval, interval)
  }

  /** Every remaining duration handed to the label setter: the ticks, then 0. */
  function Emitted(duration: int, interval: int): (es: seq<nat>)
    requires interval > 0
    ensures |es| >= 1 && es[|es| - 1] == 0
    ensures es[0] == if duration > 0 then duration else 0
  {
    Ticks(duration, interval) + [0]
  }

  /** One label update per remaining duration, in the same order. */
  function Labels(values: seq<nat>): (events: seq<Event>)
    ensures |events| == |values|
    ensures forall k :: 0 <= k < |values| ==> events[k] == SetText(TimerText(values[k]))
  {
    if values == [] then [] else [SetText(TimerText(values[0]))] + Labels(values[1..])
  }

  /** The loop of startCountdownTimer: a label per pass while the remaining time
      is positive, then the "00:00" label, then exactly one close, at the end. */
  method StartCountdownTimer(duration: int, interval: int) returns (events: seq<Event>)
    requires interval > 0
    ensures events == Labels(Emitted(duration, interval)) + [CloseWindow]
  {
    events := [];
    ghost var shown: seq<nat> := [];
    var remainingTime := duration;
    while remainingTime > 0
      invariant shown + Ticks(remainingTime, interval) == Ticks(duration, interval)
      invariant events == Labels(shown)
      decreases remainingTime
    {
      assert shown + [remainingTime] + Ticks(remainingTime - interval, interval) == Ticks(duration, interval) by {
        assert Ticks(remainingTime, interval) == [remainingTime] + Ticks(remainingTime - interval, interval);
      }
      LabelsAppend(shown, remainingTime);
      events := events + [SetText(TimerText(remainingTime))];
      shown := shown + [remainingTime];
      remainingTime := remainingTime - interval;
    }
    assert events + [SetText(TimerText(0))] == Labels(Emitted(duration, interval)) by {
      assert shown == Ticks(duration, interval);
      LabelsAppend(shown, 0);
    }
    events := events + [SetText(TimerText(0))] + [CloseWindow];
  }

  /** In the countdown's trace the window is closed exactly once, as the very
      last event, right after the "00:00" label; everything before it is a label. */
  lemma CloseComesLast(duration: int, interval: int)
    requires interval > 0
    ensures var events := Labels(Emitted(duration, interval)) + [CloseWindow];
      |events| >= 2 && events[|events| - 1] == CloseWindow &&
      events[|events| - 2] == SetText(TimerText(0)) &&
      forall k :: 0 <= k < |events| - 1 ==> events[k].SetText?
  {
    LabelsThenClose(Emitted(duration, interval));
  }

  /** Labels for a non-empty run of values ending in 0, then a close: the close
      is last, right after the label for 0, and everything before is a label. */
  lemma LabelsThenClose(values: seq<nat>)
    requires |values| > 0 && values[|values| - 1] == 0
    ensures var events := Labels(values) + [CloseWindow];
      |events| >= 2 && events[|events| - 1] == CloseWindow &&
      events[|events| - 2] == SetText(TimerText(0)) &&
      forall k :: 0 <= k < |events| - 1 ==> events[k].SetText?
  {
    var ls := Labels(values);
    var events := ls + [CloseWindow];
    assert events[|events| - 2] == ls[|values| - 1];
    forall k | 0 <= k < |events| - 1
      ensures events[k].SetText?
    {
      assert events[k] == ls[k];
    }
  }

  /** Appending a value appends its label. */
  lemma LabelsAppend(values: seq<nat>, v: nat)
    ensures Labels(values + [v]) == Labels(values) + [SetText(TimerText(v))]
  {
    var l, r := Labels(values + [v]), Labels(values) + [SetText(TimerText(v))];
    assert |l| == |r|;
    forall k | 0 <= k < |l| ensures l[k] == r[k] {
      if k < |values| {
        assert (values + [v])[k] == values[k];
      }
    }
  }

  /** Every tick lies in (0, duration]. */
  lemma {:induction false} TicksBounded(duration: int, interval: int)
    requires interval > 0
    ensures forall k :: 0 <= k < |Ticks(duration, interval)| ==> 0 < Ticks(duration, interval)[k] <= duration
    decreases duration
  {
    if duration > 0 {
      TicksBounded(duration - interval, interval);
    }
  }

  /** One more step of an interval: (a + 1) * b == a * b + b. */
  lemma MulStep(a: int, b: int)
    ensures (a + 1) * b == a * b + b
  {
  }

  /** Closed form of the ticks: the k-th is duration - k * interval. */
  lemma {:induction false} TicksAt(duration: int, interval: int)
    requires interval > 0
    ensures forall k :: 0 <= k < |Ticks(duration, interval)| ==>
      Ticks(duration, interval)[k] == duration - k * interval
    decreases duration
  {
    if duration > 0 {
      var ts := Ticks(duration, interval);
      var rest := Ticks(duration - interval, interval);
      TicksAt(duration - interval, interval);
      assert ts == [duration] + rest;
      forall k | 1 <= k < |ts|
        ensures ts[k] == duration - k * interval
      {
        assert ts[k] == rest[k - 1] == (duration - interval) - (k - 1) * interval;
        MulStep(k - 1, interval);
      }
    }
  }

  /** The number n of ticks is the least with n * interval >= duration (the
      ceiling of the duration over the interval), and 0 when the duration is
      not positive. */
  lemma {:induction false} TicksCount(duration: int, interval: int)
    requires interval > 0
    ensures var n := |Ticks(duration, interval)|;
      (duration <= 0 ==> n == 0) &&
      (duration > 0 ==> (n - 1) * interval < duration <= n * interval)
    decreases duration
  {
    if duration > 0 {
      var m := |Ticks(duration - interval, interval)|;
      TicksCount(duration - interval, interval);
      MulStep(m, interval);
      MulStep(m - 1, interval);
    }
  }

  /** The ticks strictly decrease, by exactly one interval from one to the next,
      and the last is at most one interval: one more step would not be positive. */
  lemma TicksDecreasing(duration: int, interval: int)
    requires interval > 0
    ensures var ts := Ticks(duration, interval);
      (forall k :: 0 <= k < |ts| - 1 ==> ts[k] == ts[k + 1] + interval) &&
      (forall j, k :: 0 <= j < k < |ts| ==> ts[j] > ts[k]) &&
      (|ts| > 0 ==> ts[|ts| - 1] <= interval)
  {
    var ts := Ticks(duration, interval);
    TicksAt(duration, interval);
    TicksCount(duration, interval);
    forall k | 0 <= k < |ts| - 1
      ensures ts[k] == ts[k + 1] + interval
    {
      MulStep(k, interval);
    }
    forall j, k | 0 <= j < k < |ts|
      ensures ts[j] > ts[k]
    {
      assert k * interval - j * interval == (k - j) * interval;
    }
    if |ts| > 0 {
      MulStep(|ts| - 1, interval);
    }
  }

  /** The emission sequence: it starts at the duration (when positive), every
      value but the last is positive, the values strictly decrease, and the last
      is the only 0. */
  lemma EmittedShape(duration: int, interval: int)
    requires interval > 0
    ensures var es := Emitted(duration, interval);
      |es| >= 1 && es[|es| - 1] == 0 &&
      es[0] == (if duration > 0 then duration else 0) &&
      (forall k :: 0 <= k < |es| - 1 ==> es[k] > 0) &&
      (forall j, k :: 0 <= j < k < |es| ==> es[j] > es[k])
  {
    TicksBounded(duration, interval);
    TicksDecreasing(duration, interval);
  }

  /** The window's 30-second countdown at 1-second ticks emits 31 values,
      30, 29, ..., 1, 0 seconds, and its labels run from 00:30 to 00:00. */
  lemma ThirtySecondCountdown()
    ensures var es := Emitted(SleepDuration, UpdateInterval);
      |es| == 31 && forall k :: 0 <= k < 31 ==> es[k] == (30 - k) * Second
    ensures var ls := Labels(Emitted(SleepDuration, UpdateInterval));
      |ls| == 31 && ls[0] == SetText("Time remaining: 00:30") &&
      ls[30] == SetText("Time remaining: 00:00")
  {
    var ts := Ticks(SleepDuration, UpdateInterval);
    TicksAt(SleepDuration, UpdateInterval);
    TicksCount(SleepDuration, UpdateInterval);
    assert |ts| == 30;
    TimerTextExamples();
  }
}
