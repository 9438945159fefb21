/** `Timer`: a period and the instant it was last reset. The shared,
    interior-mutable state becomes a value that each operation returns anew,
    and `Instant::now()` becomes an explicit `now` (any unit; the model only
    compares and subtracts). */
module Timers {
  import opened Base
  import Utils

  /** `dur` is the period, `tms` the instant of the last `reset` (`None`
      until the first one, and again after `reinit`). */
  datatype Timer = Timer(dur: nat, tms: Option<int>)

  /** `new(dur)`: never reset. */
  function New(dur: nat): (t: Timer)
    ensures t.dur == dur && t.tms.None?
  {
    Timer(dur, None)
  }

  /** `reset`: remembers `now`. */
  function Reset(t: Timer, now: int): (r: Timer)
    ensures r.dur == t.dur && r.tms == Some(now)
  {
    t.(tms := Some(now))
  }

  /** `reinit`: forgets the last reset. */
  function Reinit(t: Timer): (r: Timer)
    ensures r == New(t.dur)
  {
    t.(tms := None)
  }

  /** `tmdur`: the time elapsed since the last reset, zero when never reset.
      `Instant::duration_since` saturates at zero for an earlier `now`. */
  function Tmdur(t: Timer, now: int): (d: nat)
    ensures t.tms.None? ==> d == 0
    ensures t.tms.Some? && now >= t.tms.value ==> t.tms.value + d == now
    ensures t.tms.Some? && now < t.tms.value ==> d == 0
  {
    match t.tms
    case None => 0
    case Some(tms) => Utils.TmsSince(now, tms)
  }

  /** `tmout`: never reset, or at least a period has elapsed. */
  function Tmout(t: Timer, now: int): (b: bool)
    ensures b <==> t.tms.None? || Tmdur(t, now) >= t.dur
  {
    match t.tms
    case None => true
    case Some(tms) => Utils.TmsSince(now, tms) >= t.dur
  }

  /** `tick`: reports `tmout` and, when it is true, resets to `now`. */
  function Tick(t: Timer, now: int): (r: (Timer, bool))
    ensures r.1 == Tmout(t, now)
    ensures r.1 ==> r.0 == Reset(t, now)
    ensures !r.1 ==> r.0 == t
  {
    if Tmout(t, now) then (Reset(t, now), true) else (t, false)
  }

  // ---------------------------------------------------------------- properties

  /** A new or re-initialised timer is due at once and has no elapsed time. */
  lemma FreshTimerDue(t: Timer, dur: nat, now: int)
    ensures Tmout(New(dur), now) && Tmdur(New(dur), now) == 0
    ensures Tmout(Reinit(t), now) && Tmdur(Reinit(t), now) == 0
  {
  }

  /** After a reset the elapsed time is the clock's advance. */
  lemma ResetElapsed(t: Timer, a: int, b: int)
    requires a <= b
    ensures Tmdur(Reset(t, a), b) == b - a
    ensures Tmout(Reset(t, a), b) <==> b - a >= t.dur
  {
  }

  /** A tick that fires is followed, at a later reading `b`, by one that
      fires exactly when a whole period has passed; with a non-zero period
      a second tick at the same instant does not fire. */
  lemma TickPeriod(t: Timer, a: int, b: int)
    requires a <= b
    requires Tick(t, a).1
    ensures Tick(Tick(t, a).0, b).1 <==> b - a >= t.dur
    ensures t.dur > 0 ==> !Tick(Tick(t, a).0, a).1
  {
    ResetElapsed(t, a, b);
    ResetElapsed(t, a, a);
  }

  /** Once due, a timer stays due as the clock moves forward. */
  lemma TmoutLater(t: Timer, a: int, b: int)
    requires a <= b && Tmout(t, a)
    ensures Tmout(t, b)
  {
    if t.tms.Some? {
      if a >= t.tms.value {
        Utils.TmsSinceAdds(t.tms.value, a, b);
      }
    }
  }
}
