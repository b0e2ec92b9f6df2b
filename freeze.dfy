/**
 * The freeze countdown a player serves after a point or a penalty. Starting from the
 * freeze time, the player sleeps a second at a time and reports the remaining time to
 * the display after each sleep; the last sleep covers whatever is left below a second.
 */
module Freeze {

  /** One sleep of the countdown, in milliseconds. */
  const Tick := 1000

  /** The remaining times reported after each sleep, starting from `time`. */
  function Countdown(time: int): seq<int>
    decreases time
  {
    if time <= 0 then []
    else if time >= Tick then [time - Tick] + Countdown(time - Tick)
    else [0]
  }

  /** Everything penalize shows: the freeze time itself, then the countdown; nothing when not frozen. */
  function Reports(time: int): seq<int>
  {
    if time > 0 then [time] + Countdown(time) else []
  }

  /**
   * The countdown has one step per started second, ends at 0, and every remaining
   * time it reports lies between 0 and the time it started from.
   */
  lemma {:induction false} CountdownShape(time: int)
    requires time > 0
    ensures var r := Countdown(time);
      && |r| == (time + Tick - 1) / Tick
      && r[|r| - 1] == 0
      && (forall k :: 0 <= k < |r| ==> 0 <= r[k] < time)
    decreases time
  {
    if time > Tick {
      CountdownShape(time - Tick);
    }
  }

  /**
   * What penalize reports: the freeze time first and 0 last; each report is the previous
   * one less a second, or 0 when less than a second was left.
   */
  lemma {:induction false} ReportsShape(time: int)
    requires time > 0
    ensures var r := Reports(time);
      && |r| >= 2 && r[0] == time && r[|r| - 1] == 0
      && (forall k :: 0 <= k < |r| - 1 ==> r[k + 1] == if r[k] >= Tick then r[k] - Tick else 0)
    decreases time
  {
    if time > Tick {
      ReportsShape(time - Tick);
      assert Reports(time) == [time] + Reports(time - Tick);
    }
  }
}
