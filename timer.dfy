/** The screen's countdown state: one `TimeRemaining` record held by the component,
    created as all zeros, computed once as soon as the screen is mounted and then
    replaced wholesale on every tick of a one-second interval. The interval itself
    and the wall clock are not modelled: the caller passes the instant of each tick. */
module CountdownState {
  import opened Wrappers
  import opened Countdown

  class CountdownTimer {
    /** The release instant, fixed for the component's lifetime; `None` when the
        release date does not parse. */
    const release: Option<int>

    var days: int
    var hours: int
    var minutes: int
    var seconds: int

    /** The record the component currently holds. */
    function Value(): TimeRemaining
      reads this
    {
      TimeRemaining(days, hours, minutes, seconds)
    }

    /** The held record is always displayable: no negative field, no field beyond its unit. */
    ghost predicate Valid()
      reads this
    {
      Normalized(Value())
    }

    /** Mounting the component: the state starts as all zeros. */
    constructor (release: Option<int>)
      ensures this.release == release
      ensures Value() == Zero
      ensures Valid()
    {
      this.release := release;
      days, hours, minutes, seconds := 0, 0, 0, 0;
    }

    /** One evaluation of the countdown at instant `now`, used both for the immediate
        evaluation on mount and for every interval tick: all four fields are replaced
        by the decomposition of `release - now`, whatever they held before. */
    method Tick(now: int)
      modifies this
      ensures Value() == CalculateTimeRemaining(release, now)
      ensures Valid()
    {
      var next := CalculateTimeRemaining(release, now);
      days, hours, minutes, seconds := next.days, next.hours, next.minutes, next.seconds;
    }
  }

  /** Mounting the screen: the state is created as all zeros and the countdown is
      evaluated once straight away, before the interval's first tick. */
  method Mount(release: Option<int>, now: int) returns (timer: CountdownTimer)
    ensures fresh(timer)
    ensures timer.release == release
    ensures timer.Value() == CalculateTimeRemaining(release, now)
    ensures timer.Valid()
  {
    timer := new CountdownTimer(release);
    timer.Tick(now);
  }
}
