// The arming window in plain terms, and when a pair was last disarmed.
module ArmingWindow {
  import opened Wrappers
  import opened Arming

  // Some moment of the hour of `t` is less than the window ago.
  predicate InWindow(t: int, now: int) { t - t % HOUR_MS + HOUR_MS > now - ARM_WINDOW_MS }

  lemma WindowIsHours(t: int, now: int)
    ensures Hour(t) >= Oldest(now) <==> InWindow(t, now)
  {
    assert t == Hour(t) * HOUR_MS + t % HOUR_MS;
    var from := now - ARM_WINDOW_MS;
    assert from == Oldest(now) * HOUR_MS + from % HOUR_MS;
  }

  function HitsInWindow(log: seq<int>, now: int): set<int> { set k | 0 <= k < |log| && InWindow(log[k], now) }

  // The hits the window counts are those whose hour is not over before it begins, each once.
  lemma {:induction false} CountIsHits(log: seq<int>, now: int)
    ensures CountFrom(log, Oldest(now)) == |HitsInWindow(log, now)|
  {
    hide InWindow, Oldest, Hour;
    if log == [] {
      assert HitsInWindow(log, now) == {};
    } else {
      var n := |log| - 1;
      CountIsHits(log[..n], now);
      WindowIsHours(log[n], now);
      assert HitsInWindow(log, now) == HitsInWindow(log[..n], now) + if InWindow(log[n], now) then {n} else {};
    }
  }

  ghost function LastDisarm(events: seq<Event>): Option<int> {
    if events == [] then None
    else
      var n := |events| - 1;
      if Run(NEW_PAIR, events[..n]).armed && !Run(NEW_PAIR, events).armed then Some(events[n].at)
      else LastDisarm(events[..n])
  }

  lemma StepDisarms(pair: Pair, e: Event)
    ensures var next := Step(pair, e);
      next.disarmedAt == if pair.armed && !next.armed then Some(e.at) else pair.disarmedAt
  {
    hide SilenceThresholdMs, Total, Prune;
  }

  // A pair says when it was last disarmed.
  lemma {:induction false} DisarmedWhen(events: seq<Event>)
    ensures Run(NEW_PAIR, events).disarmedAt == LastDisarm(events)
    decreases |events|
  {
    hide Step;
    if events != [] {
      var n := |events| - 1;
      assert events == events[..n] + [events[n]];
      DisarmedWhen(events[..n]);
      RunSnoc(NEW_PAIR, events[..n], events[n]);
      StepDisarms(Run(NEW_PAIR, events[..n]), events[n]);
    }
  }
}
